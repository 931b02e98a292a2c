/**
 Where processes live in physical memory, and the loading of a program image through the one page-directory
 entry that execute changes. The 32-bit translation of 4 MB pages follows section 4.3 of volume 3A of the
 Intel 64 and IA-32 Architectures Software Developer's Manual.
 */
module Memory {
  import opened ProcessTable
  import opened ProcessStacks
  import opened ProcessRefinement
  import opened FileImages
  import opened FileSystem

  const USER_PAGE := 32
  const KERNEL_PAGE := 1
  const PROGRAM_ADDRESS := 0x804_8000
  const ALOT := 10_000_000
  const ROOM := MB_4 - 0x4_8000

  /** A virtual address in the kernel page or the user page; the tables of 4 KB pages are not part of this. */
  datatype Place = Physical(at: int) | Elsewhere

  function Translate(frame32: int, v: nat): Place {
    if v / MB_4 == KERNEL_PAGE then Physical(v)
    else if v / MB_4 == USER_PAGE then Physical(frame32 * MB_4 + v % MB_4)
    else Elsewhere
  }

  /** The 4 MB of user memory of a process. */
  predicate InFrame(pid: int, at: int) {
    MB_8 + (pid - 1) * MB_4 <= at < MB_8 + pid * MB_4
  }

  /** The 8 KB of PCB and kernel stack of a process. */
  predicate InBlock(pid: int, at: int) {
    PcbAddress(pid) <= at < PcbAddress(pid) + KB_8
  }

  /** No address belongs to two processes, nor to user memory and kernel memory; the kernel stack starts
      in the last word of its block. */
  lemma RegionsDisjoint(p: int, q: int, at: int)
    requires 1 <= p <= MAX_PCBS && 1 <= q <= MAX_PCBS
    ensures InFrame(p, at) && InFrame(q, at) ==> p == q
    ensures InBlock(p, at) && InBlock(q, at) ==> p == q
    ensures !(InFrame(p, at) && InBlock(q, at))
    ensures InBlock(p, at) ==> Translate(Frame32(q), at) == Physical(at)
    ensures InBlock(p, StackTop(p)) && !InBlock(p, StackTop(p) + 4)
  {
  }

  /** The addresses themselves: the six blocks fill the 0xC000 bytes below 8 MB, 0x2000 bytes each, from the top
      down, with the stack starting in the last word; the frames follow from 8 MB on, 0x400000 bytes each. */
  lemma MemoryMap(at: int)
    ensures forall p | 1 <= p <= 6 :: InBlock(p, at) <==> 0x80_0000 - 0x2000 * p <= at < 0x80_0000 - 0x2000 * (p - 1)
    ensures forall p | 1 <= p <= 6 :: StackTop(p) == 0x80_0000 - 0x2000 * (p - 1) - 4
    ensures forall p | 1 <= p <= 6 ::
      InFrame(p, at) <==> 0x80_0000 + 0x40_0000 * (p - 1) <= at < 0x80_0000 + 0x40_0000 * p
    ensures (exists p | 1 <= p <= 6 :: InBlock(p, at)) <==> 0x7F_4000 <= at < 0x80_0000
    ensures (exists p | 1 <= p <= 6 :: InFrame(p, at)) <==> 0x80_0000 <= at < 0x200_0000
  {
    if 0x7F_4000 <= at < 0x80_0000 {
      var p := (0x80_0000 - at + 0x1FFF) / 0x2000;
      assert InBlock(p, at);
    }
    if 0x80_0000 <= at < 0x200_0000 {
      var p := (at - 0x80_0000) / 0x40_0000 + 1;
      assert InFrame(p, at);
    }
  }

  /** The user page starts at 128 MB and shows the frame of the pid, byte for byte. */
  lemma UserByte(pid: int, k: nat)
    requires 1 <= pid <= 6 && k < 0x40_0000
    ensures Translate(Frame32(pid), 0x800_0000 + k) == Physical(0x80_0000 + 0x40_0000 * (pid - 1) + k)
  {
    FrameByte(pid, k);
  }

  /** Through the entry for a pid the user page is exactly the frame of that pid, byte for byte. */
  lemma UserPageIsFrame(pid: int, at: int)
    requires 1 <= pid <= MAX_PCBS
    ensures InFrame(pid, at) <==>
      exists v: nat | v / MB_4 == USER_PAGE :: Translate(Frame32(pid), v) == Physical(at)
  {
    if InFrame(pid, at) {
      var v := USER_PAGE * MB_4 + (at - (MB_8 + (pid - 1) * MB_4));
      FrameByte(pid, at - (MB_8 + (pid - 1) * MB_4));
      assert Translate(Frame32(pid), v) == Physical(at);
    }
    forall v: nat | v / MB_4 == USER_PAGE && Translate(Frame32(pid), v) == Physical(at) ensures InFrame(pid, at) {
      FrameByte(pid, v - USER_PAGE * MB_4);
    }
  }

  lemma FrameByte(pid: int, k: nat)
    requires 1 <= pid <= MAX_PCBS && k < MB_4
    ensures (USER_PAGE * MB_4 + k) / MB_4 == USER_PAGE
    ensures Translate(Frame32(pid), USER_PAGE * MB_4 + k) == Physical(MB_8 + (pid - 1) * MB_4 + k)
  {
    assert Frame32(pid) == pid + 1;
  }

  /** The physical address of a byte of the program image. */
  lemma ImageByte(pid: int, k: nat)
    requires 1 <= pid <= MAX_PCBS && k < MB_4
    ensures k < ROOM ==>
      Translate(Frame32(pid), PROGRAM_ADDRESS + k) == Physical(MB_8 + (pid - 1) * MB_4 + 0x4_8000 + k)
    ensures k >= ROOM ==> Translate(Frame32(pid), PROGRAM_ADDRESS + k) == Elsewhere
  {
    if k < ROOM {
      FrameByte(pid, 0x4_8000 + k);
    }
  }

  /** Does a user address lead into the frame of the process? */
  predicate StaysInFrame(pid: int, v: nat) {
    var place := Translate(Frame32(pid), v);
    place.Physical? && InFrame(pid, place.at)
  }

  /** An image stays inside the frame of its process exactly when it is no longer than ROOM. */
  lemma ImageFits(pid: int, size: nat)
    requires 1 <= pid <= MAX_PCBS
    ensures size <= 0x3B_8000 <==> forall v: nat | 0x804_8000 <= v < 0x804_8000 + size :: StaysInFrame(pid, v)
  {
    if size <= ROOM {
      forall v: nat | PROGRAM_ADDRESS <= v < PROGRAM_ADDRESS + size ensures StaysInFrame(pid, v) {
        ImageByte(pid, v - PROGRAM_ADDRESS);
      }
    } else {
      ImageByte(pid, ROOM);
      assert !StaysInFrame(pid, PROGRAM_ADDRESS + ROOM);
    }
  }

  /** In every state that the stacks explain, user memory is that of the running process and of no other. */
  lemma RunningFrame(m: Machine, a: Stacks, v: nat, q: int)
    requires Represents(m, a) && v / MB_4 == USER_PAGE && 1 <= q <= MAX_PCBS
    ensures var place := Translate(m.frame32, v);
      && place.Physical?
      && (InFrame(q, place.at) <==> q == m.terms[m.sched].active)
      && !InBlock(q, place.at)
  {
    assert TermAt(m, a.ttys[m.sched], m.sched);
    FrameByte(m.terms[m.sched].active, v - USER_PAGE * MB_4);
  }

  /** execute loads the image into a frame that no live process has. */
  lemma LoadSparesLive(m: Machine, a: Stacks, k: nat, q: int)
    requires Represents(m, a) && FreePid(m.pidUsed, 0) <= MAX_PCBS && k < ROOM && q in Live(a)
    requires 1 <= q <= MAX_PCBS
    ensures var place := Translate(Frame32(FreePid(m.pidUsed, 0)), PROGRAM_ADDRESS + k);
      place.Physical? && !InFrame(q, place.at) && !InBlock(q, place.at)
  {
    var pid := FreePid(m.pidUsed, 0);
    assert pid != q by {
      LiveIsUsed(m, a, q);
    }
    ImageByte(pid, k);
    RegionsDisjoint(pid, q, MB_8 + (pid - 1) * MB_4 + 0x4_8000 + k);
  }

  datatype Loading = Loaded(n: nat) | Failed | Spilled(n: nat)

  /** How much of a file is copied into memory. */
  function ImageSize(image: seq<Byte>, inode: nat): nat
    requires HasInode(image, inode)
  {
    Available(Size(image, inode), 0, ALOT)
  }

  /** The limit of the load is beyond the longest file. */
  lemma WholeFileLoaded(image: seq<Byte>, inode: nat)
    requires InodeFits(image, inode)
    ensures ImageSize(image, inode) == Size(image, inode)
  {
  }

  /** Can the program image of a process reach this physical address? */
  predicate InImage(pid: int, at: int) {
    InFrame(pid, at) && InFrame(pid, at - 0x4_8000)
  }

  /** The first n bytes of the program image of a process. */
  function Program(memory: seq<Byte>, pid: int, n: nat): seq<Byte>
    requires 1 <= pid <= MAX_PCBS && n <= ROOM && |memory| >= MB_8 + MAX_PCBS * MB_4
  {
    var base := MB_8 + (pid - 1) * MB_4 + 0x4_8000;
    memory[base..base + n]
  }

  /** The read_data call of execute, whose buffer is the virtual address of programs. It stops where the
      image runs out of the user page; what happens to the rest is not part of this model. */
  method LoadImage(memory: array<Byte>, image: seq<Byte>, inode: nat, pid: int) returns (r: Loading)
    requires Format(image) && 1 <= pid <= MAX_PCBS && memory.Length >= MB_8 + MAX_PCBS * MB_4
    modifies memory
    ensures r.Failed? ==> inode >= Inodes(image) || MeetsBadBlock(image, inode, 0, ALOT)
    ensures inode < Inodes(image) && WholeInode(image, inode) ==>
      r == if ImageSize(image, inode) <= ROOM then Loaded(ImageSize(image, inode)) else Spilled(ROOM)
    ensures !r.Failed? ==>
      inode < Inodes(image) && r.n <= ROOM && AreBytes(image, inode, 0, Program(memory[..], pid, r.n))
    ensures forall at | 0 <= at < memory.Length && !InImage(pid, at) :: memory[at] == old(memory[at])
  {
    if inode >= Inodes(image) {
      return Failed;
    }
    var written := 0;
    while written < Length(image, inode) && written < ALOT
      invariant 0 <= written <= ImageSize(image, inode) && written <= ROOM
      invariant AreBytes(image, inode, 0, Program(memory[..], pid, written))
      invariant forall at | 0 <= at < memory.Length && !InImage(pid, at) :: memory[at] == old(memory[at])
    {
      var b, ok := ReadByte(image, inode, written);
      if !ok {
        assert MeetsBadBlock(image, inode, 0, ALOT);
        if WholeInode(image, inode) {
          WholeInodeAccepted(image, inode, 0, ALOT);
        }
        return Failed;
      }
      var place := Translate(Frame32(pid), PROGRAM_ADDRESS + written);
      ImageByte(pid, written);
      if place.Elsewhere? {
        return Spilled(written);
      }
      ghost var before := Program(memory[..], pid, written);
      memory[place.at] := b;
      assert Program(memory[..], pid, written + 1) == before + [b];
      written := written + 1;
    }
    r := Loaded(written);
  }

  /** The same for every address the image can reach, and for all memory of a live process. */
  lemma ImageSparesLive(m: Machine, a: Stacks, q: int, at: int)
    requires Represents(m, a) && FreePid(m.pidUsed, 0) <= MAX_PCBS && q in Live(a) && 1 <= q <= MAX_PCBS
    requires InFrame(q, at) || InBlock(q, at)
    ensures !InImage(FreePid(m.pidUsed, 0), at)
  {
    var pid := FreePid(m.pidUsed, 0);
    LiveIsUsed(m, a, q);
    RegionsDisjoint(pid, q, at);
  }

  /** The load of execute, for the pid it has chosen: no byte of a live process, its user memory, its PCB and its
      kernel stack, is changed. */
  method LoadProgram(memory: array<Byte>, image: seq<Byte>, inode: nat, pid: int, ghost m: Machine, ghost a: Stacks)
    returns (r: Loading)
    requires Represents(m, a) && pid == FreePid(m.pidUsed, 0) <= MAX_PCBS
    requires Format(image) && memory.Length >= MB_8 + MAX_PCBS * MB_4
    modifies memory
    ensures forall q, at | q in Live(a) && 1 <= q <= MAX_PCBS && 0 <= at < memory.Length ::
      InFrame(q, at) || InBlock(q, at) ==> memory[at] == old(memory[at])
    ensures inode < Inodes(image) && WholeInode(image, inode) ==>
      && r == (if Size(image, inode) <= 0x3B_8000 then Loaded(Size(image, inode)) else Spilled(0x3B_8000))
      && Program(memory[..], pid, r.n) == Slice(Contents(image, inode), 0, r.n)
  {
    hide Contents, Slice;
    r := LoadImage(memory, image, inode, pid);
    forall q, at | q in Live(a) && 1 <= q <= MAX_PCBS && 0 <= at < memory.Length && (InFrame(q, at) || InBlock(q, at))
      ensures memory[at] == old(memory[at])
    {
      ImageSparesLive(m, a, q, at);
    }
    if inode < Inodes(image) && WholeInode(image, inode) {
      WholeFileLoaded(image, inode);
      LoadedSlice(image, inode, Program(memory[..], pid, r.n), r.n);
    }
  }

  lemma LoadedSlice(image: seq<Byte>, inode: nat, data: seq<Byte>, n: nat)
    requires Format(image) && WholeInode(image, inode) && AreBytes(image, inode, 0, data)
    requires |data| == n <= ImageSize(image, inode)
    ensures data == Slice(Contents(image, inode), 0, n)
  {
    BytesAreSlice(image, inode, 0, n, data);
  }
}
