/**
 File-system images byte by byte: what the fields of an image must hold for a file, or a directory entry, to be
 read back as it was stored, and an image for any files and directory.
 */
module FileLayouts {
  import opened Descriptors
  import opened FileImages

  /** The four bytes of a number, the lowest one first. */
  function Le(u: nat): (bytes: seq<Byte>)
    requires u < 0x1_0000_0000
    ensures |bytes| == 4
  {
    [u % 0x100, u / 0x100 % 0x100, u / 0x100 / 0x100 % 0x100, u / 0x100 / 0x100 / 0x100]
  }

  /** The field at this place holds a 32-bit number. */
  predicate Field(image: seq<Byte>, at: nat, u: nat) {
    at + 4 <= |image| && u < 0x1_0000_0000 && image[at..at + 4] == Le(u)
  }

  /** A field is the 32-bit two's complement number whose bytes it holds. */
  lemma WordOfBytes(image: seq<Byte>, at: nat, u: nat)
    requires Field(image, at, u)
    ensures at + 4 <= |image|
    ensures Word(image, at) == if u < 0x8000_0000 then u else u - 0x1_0000_0000
  {
    var field := image[at..at + 4];
    assert field[0] == image[at] && field[1] == image[at + 1] && field[2] == image[at + 2] && field[3] == image[at + 3];
    BytesAddUp(u);
  }

  lemma BytesAddUp(u: nat)
    requires u < 0x1_0000_0000
    ensures u == Le(u)[0] as int + 0x100 * Le(u)[1] as int + 0x1_0000 * Le(u)[2] as int + 0x100_0000 * Le(u)[3] as int
  {
    var q := u / 0x100;
    var r := q / 0x100;
    assert u == 0x100 * q + u % 0x100 && q == 0x100 * r + q % 0x100 && r == 0x100 * (r / 0x100) + r % 0x100;
  }

  // ----- a stored file -----

  /** The three counts in the boot block. */
  predicate Boots(image: seq<Byte>, entries: nat, inodes: nat, dataBlocks: nat) {
    && |image| >= 4096 && entries < 0x8000_0000 && inodes < 0x8000_0000 && dataBlocks < 0x8000_0000
    && Field(image, 0, entries) && Field(image, 4, inodes) && Field(image, 8, dataBlocks)
  }

  /** The k-th block number in the block of an inode. */
  predicate ListsBlock(image: seq<Byte>, inode: nat, k: nat, b: nat)
    requires |image| >= 4096 * (inode + 2) && k < 1023
  {
    b < 0x8000_0000 && Field(image, 4096 * (inode + 1) + 4 + 4 * k, b)
  }

  /** A byte of a data block. */
  predicate BlockHolds(image: seq<Byte>, inodes: nat, b: nat, i: nat, byte: Byte) {
    var at := 4096 * (1 + inodes + b) + i;
    at < |image| && image[at] == byte
  }

  /** The inode has the length of the file and lists these blocks, which hold its bytes. */
  ghost predicate Stores(image: seq<Byte>, inodes: nat, dataBlocks: nat, inode: nat, file: seq<Byte>,
                         blocks: seq<nat>)
  {
    && |image| >= 4096 * (inode + 2) && |file| <= 1023 * 4096 && 4096 * |blocks| >= |file| && |blocks| <= 1023
    && Field(image, 4096 * (inode + 1), |file|)
    && ListsBlocks(image, dataBlocks, inode, blocks) && HoldFile(image, inodes, file, blocks)
  }

  ghost predicate ListsBlocks(image: seq<Byte>, dataBlocks: nat, inode: nat, blocks: seq<nat>)
    requires |image| >= 4096 * (inode + 2) && |blocks| <= 1023
  {
    forall k: nat | k < |blocks| :: blocks[k] < dataBlocks && ListsBlock(image, inode, k, blocks[k])
  }

  ghost predicate HoldFile(image: seq<Byte>, inodes: nat, file: seq<Byte>, blocks: seq<nat>)
    requires 4096 * |blocks| >= |file|
  {
    forall pos: nat | pos < |file| :: BlockHolds(image, inodes, blocks[pos / 4096], pos % 4096, file[pos])
  }

  lemma StoredFields(image: seq<Byte>, entries: nat, inodes: nat, dataBlocks: nat, inode: nat, file: seq<Byte>,
                     blocks: seq<nat>)
    requires Boots(image, entries, inodes, dataBlocks) && Stores(image, inodes, dataBlocks, inode, file, blocks)
    ensures Entries(image) == entries && Inodes(image) == inodes && DataBlocks(image) == dataBlocks
    ensures HasInode(image, inode) && Length(image, inode) == |file|
    ensures forall k: nat | k < |blocks| :: BlockNumber(image, inode, k) == blocks[k]
    ensures InodeFits(image, inode)
  {
    hide Word, Field;
    WordOfBytes(image, 0, entries);
    WordOfBytes(image, 4, inodes);
    WordOfBytes(image, 8, dataBlocks);
    WordOfBytes(image, 4096 * (inode + 1), |file|);
    forall k: nat | k < |blocks| ensures BlockNumber(image, inode, k) == blocks[k] {
      assert ListsBlock(image, inode, k, blocks[k]);
      WordOfBytes(image, 4096 * (inode + 1) + 4 + 4 * k, blocks[k]);
    }
  }

  /** Wherever the blocks of a file are, and in whatever order: what is stored is what is read. */
  lemma StoredIsRead(image: seq<Byte>, entries: nat, inodes: nat, dataBlocks: nat, inode: nat, file: seq<Byte>,
                     blocks: seq<nat>)
    requires Format(image) && inode < inodes
    requires Boots(image, entries, inodes, dataBlocks) && Stores(image, inodes, dataBlocks, inode, file, blocks)
    ensures Entries(image) == entries && Inodes(image) == inodes
    ensures WholeInode(image, inode) && Contents(image, inode) == file
  {
    StoredFields(image, entries, inodes, dataBlocks, inode, file, blocks);
    hide Word, Contents, Format, HasInode;
    assert WholeInode(image, inode);
    assert |Contents(image, inode)| == |file|;
    forall pos: nat | pos < |file| ensures Contents(image, inode)[pos] == file[pos] {
      StoredByte(image, entries, inodes, dataBlocks, inode, file, blocks, pos);
    }
  }

  lemma StoredByte(image: seq<Byte>, entries: nat, inodes: nat, dataBlocks: nat, inode: nat, file: seq<Byte>,
                   blocks: seq<nat>, pos: nat)
    requires Format(image) && inode < inodes && WholeInode(image, inode) && pos < |file| == Size(image, inode)
    requires Boots(image, entries, inodes, dataBlocks) && Stores(image, inodes, dataBlocks, inode, file, blocks)
    ensures Contents(image, inode)[pos] == file[pos]
  {
    ContentsAt(image, inode, pos);
    StoredFields(image, entries, inodes, dataBlocks, inode, file, blocks);
    hide Word, Contents, Format, HasInode, WholeInode, ListsBlocks, Boots, Field, InodeFits;
    assert BlockHolds(image, inodes, blocks[pos / 4096], pos % 4096, file[pos]);
    assert BlockNumber(image, inode, pos / 4096) == blocks[pos / 4096];
  }

  // ----- a stored directory entry -----

  /** A directory entry holds this name, padded with NULs to 32 bytes, file type and inode number. */
  ghost predicate StoresEntry(image: seq<Byte>, i: nat, name: seq<Byte>, filetype: nat, inode: nat) {
    var at := 64 * (i + 1);
    && |image| >= at + 64 && |name| <= 32 && 0 !in name && filetype < 0x8000_0000 && inode < 0x8000_0000
    && image[at..at + |name|] == name
    && (|name| < 32 ==> image[at + |name|] == 0)
    && Field(image, at + 32, filetype) && Field(image, at + 36, inode)
  }

  /** The directory search gives what the entry holds. */
  lemma StoredEntryIsFound(image: seq<Byte>, i: nat, name: seq<Byte>, filetype: nat, inode: nat)
    requires Format(image) && i < Entries(image) && StoresEntry(image, i, name, filetype, inode)
    ensures EntryName(image, i) == name && EntryLookup(image, i) == Found(filetype, inode)
  {
    var at := 64 * (i + 1);
    WordOfBytes(image, at + 32, filetype);
    WordOfBytes(image, at + 36, inode);
    StoredName(image[at..], name);
  }

  lemma StoredName(s: seq<Byte>, name: seq<Byte>)
    requires |s| >= 64 && |name| <= 32 && 0 !in name && s[..|name|] == name && (|name| < 32 ==> s[|name|] == 0)
    ensures Name(s) == name
  {
  }

  /** What open makes of an entry: a file is opened for reading its inode from the start, a directory and the
      real-time clock have no inode, and no other type is opened. */
  lemma StoredEntryOpens(image: seq<Byte>, i: nat, name: seq<Byte>, filetype: nat, inode: nat, t: Table)
    requires Format(image) && i < Entries(image) && StoresEntry(image, i, name, filetype, inode)
    requires Consistent(t) && t.count < 8
    ensures var (t', fd) := Open(t, EntryLookup(image, i));
      if filetype > 2 then (t', fd) == (t, -1)
      else 2 <= fd < 8 && t.slots[fd].flags == 0
           && t'.slots == t.slots[fd := if filetype == 2 then Descriptor(FileOps, inode, 0, 1)
                                        else if filetype == 1 then Descriptor(DirOps, 0, 0, 1)
                                        else Descriptor(RtcOps, 0, 0, 1)]
  {
    StoredEntryIsFound(image, i, name, filetype, inode);
    OpenFindsSlot(t);
  }

  // ----- an image for any files -----

  datatype Entry = Entry(name: seq<Byte>, filetype: nat, inode: nat)

  predicate ValidEntry(e: Entry) {
    |e.name| <= 32 && 0 !in e.name && e.filetype < 0x100_0000 && e.inode < 0x8000_0000
  }

  /** How many blocks a file needs. */
  function Needs(file: seq<Byte>): (n: nat)
    ensures |file| <= 4096 * n < |file| + 4096
  {
    (|file| + 4095) / 4096
  }

  /** The first block of a file when the files are stored one after the other. */
  function Start(files: seq<seq<Byte>>, i: nat): nat
    requires i <= |files|
  {
    if i == 0 then 0 else Start(files, i - 1) + Needs(files[i - 1])
  }

  /** The blocks of one file, the last one filled up with NULs. */
  function Padded(file: seq<Byte>): (blocks: seq<seq<Byte>>)
    ensures |blocks| == Needs(file) && forall k | 0 <= k < |blocks| :: |blocks[k]| == 4096
  {
    seq(Needs(file), k requires 0 <= k => PaddedBlock(file, k))
  }

  function PaddedBlock(file: seq<Byte>, k: nat): (block: seq<Byte>)
    ensures |block| == 4096
  {
    seq(4096, j requires 0 <= j => if 4096 * k + j < |file| then file[4096 * k + j] else 0)
  }

  function AllBlocks(files: seq<seq<Byte>>, n: nat): (blocks: seq<seq<Byte>>)
    requires n <= |files|
    ensures |blocks| == Start(files, n) && forall k | 0 <= k < |blocks| :: |blocks[k]| == 4096
  {
    if n == 0 then [] else AllBlocks(files, n - 1) + Padded(files[n - 1])
  }

  /** Can the files and the directory be counted in the fields of an image? */
  predicate Storable(dir: seq<Entry>, files: seq<seq<Byte>>) {
    && |dir| <= 63 && (forall e | 0 <= e < |dir| :: ValidEntry(dir[e]))
    && |files| < 0x8000_0000 && Start(files, |files|) < 0x8000_0000
    && forall i | 0 <= i < |files| :: |files[i]| <= 1023 * 4096
  }

  function BootBlock(dir: seq<Entry>, files: seq<seq<Byte>>): (block: seq<Byte>)
    requires Storable(dir, files)
    ensures |block| == 4096
  {
    seq(4096, j requires 0 <= j < 4096 => BootByte(dir, files, j))
  }

  function BootByte(dir: seq<Entry>, files: seq<seq<Byte>>, j: nat): Byte
    requires Storable(dir, files) && j < 4096
  {
    if j < 4 then Le(|dir|)[j]
    else if j < 8 then Le(|files|)[j - 4]
    else if j < 12 then Le(Start(files, |files|))[j - 8]
    else if j < 64 || j / 64 > |dir| then 0
    else EntryByte(dir[j / 64 - 1], j % 64)
  }

  function EntryByte(e: Entry, o: nat): Byte
    requires ValidEntry(e)
  {
    if o < |e.name| then e.name[o]
    else if o < 32 then 0
    else if o < 36 then Le(e.filetype)[o - 32]
    else if o < 40 then Le(e.inode)[o - 36]
    else 0
  }

  function InodeBlock(dir: seq<Entry>, files: seq<seq<Byte>>, i: nat): (block: seq<Byte>)
    requires Storable(dir, files) && i < |files|
    ensures |block| == 4096
  {
    StartGrows(files, i + 1, |files|);
    seq(4096, j requires 0 <= j < 4096 =>
      if j < 4 then Le(|files[i]|)[j]
      else if (j - 4) / 4 < Needs(files[i]) then Le(Start(files, i) + (j - 4) / 4)[(j - 4) % 4]
      else 0)
  }

  lemma {:induction false} StartGrows(files: seq<seq<Byte>>, i: nat, n: nat)
    requires i <= n <= |files|
    ensures Start(files, i) <= Start(files, n)
  {
    if i < n {
      StartGrows(files, i, n - 1);
    }
  }

  function InodeBlocks(dir: seq<Entry>, files: seq<seq<Byte>>): (blocks: seq<seq<Byte>>)
    requires Storable(dir, files)
    ensures |blocks| == |files| && forall i | 0 <= i < |files| :: blocks[i] == InodeBlock(dir, files, i)
  {
    seq(|files|, i requires 0 <= i < |files| => InodeBlock(dir, files, i))
  }

  /** Boot block, inodes and data blocks, and one block more. */
  function Layout(dir: seq<Entry>, files: seq<seq<Byte>>): (image: seq<Byte>)
    requires Storable(dir, files)
    ensures |image| == 4096 * (1 + |files| + Start(files, |files|) + 1)
  {
    BootBlock(dir, files) + Concat(InodeBlocks(dir, files)) + Concat(AllBlocks(files, |files|)) + seq(4096, _ => 0)
  }

  /** Where the bytes of the image come from. */
  lemma LayoutBoot(dir: seq<Entry>, files: seq<seq<Byte>>, j: nat)
    requires Storable(dir, files) && j < 4096
    ensures Layout(dir, files)[j] == BootByte(dir, files, j)
  {
    hide BootByte, InodeBlock, AllBlocks, Concat;
  }

  lemma LayoutInode(dir: seq<Entry>, files: seq<seq<Byte>>, i: nat, j: nat)
    requires Storable(dir, files) && i < |files| && j < 4096
    ensures Layout(dir, files)[4096 * (i + 1) + j] == InodeBlock(dir, files, i)[j]
  {
    hide BootBlock, InodeBlock, InodeBlocks, AllBlocks, Concat, Start;
    var inodes := InodeBlocks(dir, files);
    ConcatAt(inodes, i, j);
    InSecond(BootBlock(dir, files), Concat(inodes), Concat(AllBlocks(files, |files|)), seq(4096, _ => 0), 4096 * i + j);
  }

  lemma LayoutBlock(dir: seq<Entry>, files: seq<seq<Byte>>, b: nat, j: nat)
    requires Storable(dir, files) && b < Start(files, |files|) && j < 4096
    ensures Layout(dir, files)[4096 * (1 + |files| + b) + j] == AllBlocks(files, |files|)[b][j]
  {
    hide BootBlock, InodeBlock, InodeBlocks, AllBlocks, Concat, Start;
    var inodes := InodeBlocks(dir, files);
    var blocks := AllBlocks(files, |files|);
    ConcatAt(blocks, b, j);
    InThird(BootBlock(dir, files), Concat(inodes), Concat(blocks), seq(4096, _ => 0), 4096 * b + j);
  }

  lemma InSecond(w: seq<Byte>, x: seq<Byte>, y: seq<Byte>, z: seq<Byte>, k: nat)
    requires k < |x|
    ensures (w + x + y + z)[|w| + k] == x[k]
  {
  }

  lemma InThird(w: seq<Byte>, x: seq<Byte>, y: seq<Byte>, z: seq<Byte>, k: nat)
    requires k < |y|
    ensures (w + x + y + z)[|w| + |x| + k] == y[k]
  {
  }

  lemma {:induction false} BlockPlace(files: seq<seq<Byte>>, n: nat, i: nat, k: nat)
    requires i < n <= |files| && k < Needs(files[i])
    ensures Start(files, i) + k < Start(files, n)
    ensures AllBlocks(files, n)[Start(files, i) + k] == PaddedBlock(files[i], k)
  {
    if i < n - 1 {
      BlockPlace(files, n - 1, i, k);
    }
  }

  lemma LayoutBoots(dir: seq<Entry>, files: seq<seq<Byte>>)
    requires Storable(dir, files)
    ensures Boots(Layout(dir, files), |dir|, |files|, Start(files, |files|))
  {
    var image := Layout(dir, files);
    hide Field, Le, Layout, Start, ValidEntry;
    BootField(dir, files, image, 0, |dir|);
    BootField(dir, files, image, 4, |files|);
    BootField(dir, files, image, 8, Start(files, |files|));
  }

  lemma BootField(dir: seq<Entry>, files: seq<seq<Byte>>, image: seq<Byte>, at: nat, u: nat)
    requires Storable(dir, files) && image == Layout(dir, files)
    requires at in [0, 4, 8] && u == if at == 0 then |dir| else if at == 4 then |files| else Start(files, |files|)
    ensures Field(image, at, u)
  {
    BootFieldByte(dir, files, image, at, u, 0);
    BootFieldByte(dir, files, image, at, u, 1);
    BootFieldByte(dir, files, image, at, u, 2);
    BootFieldByte(dir, files, image, at, u, 3);
    hide *;
    FieldIs(image, at, u);
  }

  lemma BootFieldByte(dir: seq<Entry>, files: seq<seq<Byte>>, image: seq<Byte>, at: nat, u: nat, m: nat)
    requires Storable(dir, files) && image == Layout(dir, files) && m < 4
    requires at in [0, 4, 8] && u == if at == 0 then |dir| else if at == 4 then |files| else Start(files, |files|)
    ensures u < 0x1_0000_0000 && at + m < |image| && image[at + m] == Le(u)[m]
  {
    hide Layout, Le, Field, Start, EntryByte, ValidEntry;
    LayoutBoot(dir, files, at + m);
  }

  /** The numbers of the blocks of a file. */
  function Numbers(files: seq<seq<Byte>>, i: nat): (blocks: seq<nat>)
    requires i < |files|
    ensures |blocks| == Needs(files[i]) && forall k: nat | k < |blocks| :: blocks[k] == Start(files, i) + k
  {
    Counted(Start(files, i), Needs(files[i]))
  }

  function Counted(from: nat, n: nat): (numbers: seq<nat>)
    ensures |numbers| == n && forall k: nat | k < n :: numbers[k] == from + k
  {
    if n == 0 then [] else Counted(from, n - 1) + [from + n - 1]
  }

  lemma LayoutStores(dir: seq<Entry>, files: seq<seq<Byte>>, i: nat)
    requires Storable(dir, files) && i < |files|
    ensures Stores(Layout(dir, files), |files|, Start(files, |files|), i, files[i], Numbers(files, i))
  {
    assert |files[i]| <= 1023 * 4096;
    LayoutLength(dir, files, i);
    LayoutListsBlocks(dir, files, i);
    LayoutHoldsFile(dir, files, i);
    hide Layout, Le, Field, ListsBlocks, HoldFile, Start, Storable;
  }

  lemma LayoutListsBlocks(dir: seq<Entry>, files: seq<seq<Byte>>, i: nat)
    requires Storable(dir, files) && i < |files|
    ensures |Numbers(files, i)| <= 1023
    ensures ListsBlocks(Layout(dir, files), Start(files, |files|), i, Numbers(files, i))
  {
    assert |files[i]| <= 1023 * 4096;
    hide Layout, ListsBlock, Storable, Start;
    forall k: nat | k < |Numbers(files, i)|
      ensures Numbers(files, i)[k] < Start(files, |files|)
      ensures ListsBlock(Layout(dir, files), i, k, Numbers(files, i)[k])
    {
      BlockPlace(files, |files|, i, k);
      LayoutLists(dir, files, i, k);
    }
  }

  lemma LayoutHoldsFile(dir: seq<Entry>, files: seq<seq<Byte>>, i: nat)
    requires Storable(dir, files) && i < |files|
    ensures HoldFile(Layout(dir, files), |files|, files[i], Numbers(files, i))
  {
    hide Layout, BlockHolds, Storable, Start;
    forall pos: nat | pos < |files[i]|
      ensures BlockHolds(Layout(dir, files), |files|, Numbers(files, i)[pos / 4096], pos % 4096, files[i][pos])
    {
      LayoutHolds(dir, files, i, pos);
    }
  }

  lemma LayoutHolds(dir: seq<Entry>, files: seq<seq<Byte>>, i: nat, pos: nat)
    requires Storable(dir, files) && i < |files| && pos < |files[i]|
    ensures BlockHolds(Layout(dir, files), |files|, Start(files, i) + pos / 4096, pos % 4096, files[i][pos])
  {
    hide Layout, AllBlocks, Start;
    BlockPlace(files, |files|, i, pos / 4096);
    LayoutBlock(dir, files, Start(files, i) + pos / 4096, pos % 4096);
    assert PaddedBlock(files[i], pos / 4096)[pos % 4096] == files[i][pos];
  }

  lemma FieldIs(image: seq<Byte>, at: nat, u: nat)
    requires at + 4 <= |image| && u < 0x1_0000_0000
    requires image[at] == Le(u)[0] && image[at + 1] == Le(u)[1]
    requires image[at + 2] == Le(u)[2] && image[at + 3] == Le(u)[3]
    ensures Field(image, at, u)
  {
    hide Le;
  }

  lemma LayoutLength(dir: seq<Entry>, files: seq<seq<Byte>>, i: nat)
    requires Storable(dir, files) && i < |files|
    ensures Field(Layout(dir, files), 4096 * (i + 1), |files[i]|)
  {
    hide Layout, Le, Field;
    LayoutInode(dir, files, i, 0);
    LayoutInode(dir, files, i, 1);
    LayoutInode(dir, files, i, 2);
    LayoutInode(dir, files, i, 3);
    FieldIs(Layout(dir, files), 4096 * (i + 1), |files[i]|);
  }

  lemma LayoutLists(dir: seq<Entry>, files: seq<seq<Byte>>, i: nat, k: nat)
    requires Storable(dir, files) && i < |files| && k < Needs(files[i])
    ensures Start(files, i) + k < 0x8000_0000 && k < 1023
    ensures ListsBlock(Layout(dir, files), i, k, Start(files, i) + k)
  {
    hide Layout, Le, Field, Start, AllBlocks, Padded, PaddedBlock;
    BlockPlace(files, |files|, i, k);
    assert |files[i]| <= 1023 * 4096;
    hide Storable;
    var at := 4096 * (i + 1) + 4 + 4 * k;
    NumberField(dir, files, i, k, at, Layout(dir, files), Start(files, i) + k);
  }

  lemma NumberField(dir: seq<Entry>, files: seq<seq<Byte>>, i: nat, k: nat, at: nat, image: seq<Byte>, b: nat)
    requires Storable(dir, files) && i < |files| && k < Needs(files[i]) && Start(files, i) + k < 0x8000_0000
    requires k < 1023 && at == 4096 * (i + 1) + 4 + 4 * k
    requires image == Layout(dir, files) && b == Start(files, i) + k
    ensures Field(image, at, b)
  {
    hide *;
    NumberByte(dir, files, i, k, at, 0, image, b);
    NumberByte(dir, files, i, k, at, 1, image, b);
    NumberByte(dir, files, i, k, at, 2, image, b);
    NumberByte(dir, files, i, k, at, 3, image, b);
    FieldIs(image, at, b);
  }

  lemma NumberByte(dir: seq<Entry>, files: seq<seq<Byte>>, i: nat, k: nat, at: nat, m: nat, image: seq<Byte>,
                   b: nat)
    requires Storable(dir, files) && i < |files| && k < Needs(files[i]) && m < 4 && Start(files, i) + k < 0x8000_0000
    requires k < 1023 && at == 4096 * (i + 1) + 4 + 4 * k
    requires image == Layout(dir, files) && b == Start(files, i) + k
    ensures at + m < |image| && image[at + m] == Le(b)[m]
  {
    hide Layout, Le, Field, Start;
    LayoutInode(dir, files, i, 4 + 4 * k + m);
    assert (4 * k + m) / 4 == k && (4 * k + m) % 4 == m;
  }

  lemma LayoutStoresEntry(dir: seq<Entry>, files: seq<seq<Byte>>, e: nat)
    requires Storable(dir, files) && e < |dir|
    ensures StoresEntry(Layout(dir, files), e, dir[e].name, dir[e].filetype, dir[e].inode)
  {
    var image, at := Layout(dir, files), 64 * (e + 1);
    hide Layout, Le, Field, EntryByte;
    forall o: nat | o < 64 ensures image[at..at + 64][o] == EntryByte(dir[e], o) {
      LayoutEntry(dir, files, e, o);
    }
    EntryStored(image, at, dir[e]);
  }

  lemma LayoutEntry(dir: seq<Entry>, files: seq<seq<Byte>>, e: nat, o: nat)
    requires Storable(dir, files) && e < |dir| && o < 64
    ensures Layout(dir, files)[64 * (e + 1) + o] == EntryByte(dir[e], o)
  {
    hide Layout, Le, Field, EntryByte;
    LayoutBoot(dir, files, 64 * (e + 1) + o);
    assert (64 * (e + 1) + o) / 64 == e + 1 && (64 * (e + 1) + o) % 64 == o;
  }

  lemma EntryStored(image: seq<Byte>, at: nat, e: Entry)
    requires at + 64 <= |image| && ValidEntry(e)
    requires forall o: nat | o < 64 :: image[at..at + 64][o] == EntryByte(e, o)
    ensures image[at..at + |e.name|] == e.name && (|e.name| < 32 ==> image[at + |e.name|] == 0)
    ensures Field(image, at + 32, e.filetype) && Field(image, at + 36, e.inode)
  {
    hide Le;
    var bytes := image[at..at + 64];
    forall o: nat | o < 64 ensures image[at + o] == EntryByte(e, o) {
      assert bytes[o] == image[at + o];
    }
    forall o: nat | o < |e.name| ensures image[at..at + |e.name|][o] == e.name[o] {
      assert image[at + o] == EntryByte(e, o);
    }
    assert image[at + |e.name|] == EntryByte(e, |e.name|);
    assert image[at + 32] == EntryByte(e, 32) && image[at + 33] == EntryByte(e, 33);
    assert image[at + 34] == EntryByte(e, 34) && image[at + 35] == EntryByte(e, 35);
    FieldIs(image, at + 32, e.filetype);
    assert image[at + 36] == EntryByte(e, 36) && image[at + 37] == EntryByte(e, 37);
    assert image[at + 38] == EntryByte(e, 38) && image[at + 39] == EntryByte(e, 39);
    FieldIs(image, at + 36, e.inode);
  }

  /** Any files and any directory can be stored, and every file and every entry is read back. */
  lemma LayoutRoundTrip(dir: seq<Entry>, files: seq<seq<Byte>>)
    requires Storable(dir, files)
    ensures var image := Layout(dir, files);
      && Format(image) && Inodes(image) == |files| && Entries(image) == |dir|
      && (forall i | 0 <= i < |files| :: WholeInode(image, i) && Contents(image, i) == files[i])
      && forall e: nat | e < |dir| ::
           EntryName(image, e) == dir[e].name && EntryLookup(image, e) == Found(dir[e].filetype, dir[e].inode)
  {
    var image := Layout(dir, files);
    LayoutFormat(dir, files);
    LayoutBoots(dir, files);
    hide Layout, Format, Boots, Stores, StoresEntry, WholeInode;
    forall i | 0 <= i < |files| ensures WholeInode(image, i) && Contents(image, i) == files[i] {
      LayoutStores(dir, files, i);
      StoredIsRead(image, |dir|, |files|, Start(files, |files|), i, files[i], Numbers(files, i));
    }
    forall e: nat | e < |dir|
      ensures EntryName(image, e) == dir[e].name && EntryLookup(image, e) == Found(dir[e].filetype, dir[e].inode)
    {
      LayoutStoresEntry(dir, files, e);
      StoredEntryIsFound(image, e, dir[e].name, dir[e].filetype, dir[e].inode);
    }
  }

  lemma LayoutFormat(dir: seq<Entry>, files: seq<seq<Byte>>)
    requires Storable(dir, files)
    ensures Format(Layout(dir, files))
    ensures Inodes(Layout(dir, files)) == |files| && Entries(Layout(dir, files)) == |dir|
  {
    var image := Layout(dir, files);
    LayoutBoots(dir, files);
    BootFields(image, |dir|, |files|, Start(files, |files|));
    hide Layout, Word, Boots, Stores, InodeFits, StoresEntry;
    forall i | 0 <= i < |files| ensures InodeFits(image, i) {
      LayoutStores(dir, files, i);
      StoredFields(image, |dir|, |files|, Start(files, |files|), i, files[i], Numbers(files, i));
    }
    forall e | 0 <= e < |dir| ensures TypeFits(image, e) {
      LayoutType(dir, files, e);
    }
  }

  lemma BootFields(image: seq<Byte>, entries: nat, inodes: nat, dataBlocks: nat)
    requires Boots(image, entries, inodes, dataBlocks)
    ensures Entries(image) == entries && Inodes(image) == inodes && DataBlocks(image) == dataBlocks
  {
    WordOfBytes(image, 0, entries);
    WordOfBytes(image, 4, inodes);
    WordOfBytes(image, 8, dataBlocks);
  }

  lemma LayoutType(dir: seq<Entry>, files: seq<seq<Byte>>, e: nat)
    requires Storable(dir, files) && e < |dir|
    ensures TypeFits(Layout(dir, files), e)
  {
    hide Layout;
    LayoutEntry(dir, files, e, 35);
    assert ValidEntry(dir[e]);
  }
}
