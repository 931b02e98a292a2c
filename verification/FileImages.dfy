/**
 The file-system image: a boot block with the directory, one block for each inode, then the data blocks.
 A file is the data blocks its inode lists, in order, cut to the length its inode gives.
 */
module FileImages {
  import opened Descriptors

  type Byte = b: int | 0 <= b < 256

  const BLOCK := 4096
  const SLOTS := 1023
  const DENTRY := 64
  const NAME := 32

  /** A 32-bit little-endian two's complement field. */
  function Word(image: seq<Byte>, at: nat): (w: int)
    requires at + 4 <= |image|
  {
    var u: int := image[at] as int + 0x100 * image[at + 1] as int
                  + 0x1_0000 * image[at + 2] as int + 0x100_0000 * image[at + 3] as int;
    if u < 0x8000_0000 then u else u - 0x1_0000_0000
  }

  function Entries(image: seq<Byte>): int
    requires |image| >= BLOCK
  {
    Word(image, 0)
  }

  function Inodes(image: seq<Byte>): int
    requires |image| >= BLOCK
  {
    Word(image, 4)
  }

  function DataBlocks(image: seq<Byte>): int
    requires |image| >= BLOCK
  {
    Word(image, 8)
  }

  predicate HasInode(image: seq<Byte>, inode: int) {
    0 <= inode && BLOCK * (inode + 2) <= |image|
  }

  function Length(image: seq<Byte>, inode: int): int
    requires HasInode(image, inode)
  {
    Word(image, BLOCK * (inode + 1))
  }

  /** The number of the k-th data block of a file. */
  function BlockNumber(image: seq<Byte>, inode: int, k: nat): int
    requires HasInode(image, inode) && k < SLOTS
  {
    Word(image, BLOCK * (inode + 1) + 4 + 4 * k)
  }

  /** What read_data takes for granted of an inode: room for its block numbers, none of them negative. */
  predicate InodeFits(image: seq<Byte>, inode: int) {
    && HasInode(image, inode)
    && Length(image, inode) <= BLOCK * SLOTS
    && forall k: nat | BLOCK * k < Length(image, inode) && k < SLOTS :: BlockNumber(image, inode, k) >= 0
  }

  /** What the reader takes for granted of an image. The one block beyond the data blocks is there
      because the reader's test lets the block number DataBlocks pass. */
  predicate Format(image: seq<Byte>) {
    && |image| >= BLOCK
    && 0 <= Entries(image) <= 63 && Inodes(image) >= 0 && DataBlocks(image) >= 0
    && |image| >= BLOCK * (1 + Inodes(image) + DataBlocks(image) + 1)
    && (forall inode | 0 <= inode < Inodes(image) :: InodeFits(image, inode))
    && (forall i | 0 <= i < Entries(image) :: TypeFits(image, i))
  }

  /** The type field behind a name is a small number, so that its last byte is 0. */
  predicate TypeFits(image: seq<Byte>, i: nat)
    requires |image| >= BLOCK && i < 63
  {
    image[DENTRY * (i + 1) + NAME + 3] == 0
  }

  /** An inode all of whose block numbers are those of data blocks. */
  predicate WholeInode(image: seq<Byte>, inode: int)
    requires Format(image)
  {
    0 <= inode < Inodes(image) &&
    forall k: nat | BLOCK * k < Length(image, inode) && k < SLOTS :: BlockNumber(image, inode, k) < DataBlocks(image)
  }

  function Size(image: seq<Byte>, inode: int): nat
    requires HasInode(image, inode)
  {
    if Length(image, inode) < 0 then 0 else Length(image, inode)
  }

  /** Does the reader accept the block that holds this byte of the file? */
  predicate Accepts(image: seq<Byte>, inode: int, pos: nat)
    requires Format(image) && 0 <= inode < Inodes(image) && pos < Size(image, inode)
  {
    assert InodeFits(image, inode);
    BlockNumber(image, inode, pos / BLOCK) <= DataBlocks(image)
  }

  /** Where this byte of the file is in the image. */
  function Address(image: seq<Byte>, inode: int, pos: nat): (at: nat)
    requires Format(image) && 0 <= inode < Inodes(image) && pos < Size(image, inode) && Accepts(image, inode, pos)
    ensures at < |image|
  {
    assert InodeFits(image, inode);
    var block := BlockNumber(image, inode, pos / BLOCK);
    BLOCK * (1 + Inodes(image) + block) + pos % BLOCK
  }

  function DataBlock(image: seq<Byte>, b: nat): (data: seq<Byte>)
    requires Format(image) && b < DataBlocks(image)
    ensures |data| == BLOCK
  {
    var at := BLOCK * (1 + Inodes(image) + b);
    image[at..at + BLOCK]
  }

  /** Blocks one after the other. */
  function Concat(blocks: seq<seq<Byte>>): (data: seq<Byte>)
    requires forall k | 0 <= k < |blocks| :: |blocks[k]| == BLOCK
    ensures |data| == BLOCK * |blocks|
  {
    if blocks == [] then [] else Concat(blocks[..|blocks| - 1]) + blocks[|blocks| - 1]
  }

  lemma {:induction false} ConcatAt(blocks: seq<seq<Byte>>, k: nat, i: nat)
    requires (forall k | 0 <= k < |blocks| :: |blocks[k]| == BLOCK) && k < |blocks| && i < BLOCK
    ensures Concat(blocks)[BLOCK * k + i] == blocks[k][i]
  {
    if k < |blocks| - 1 {
      ConcatAt(blocks[..|blocks| - 1], k, i);
    }
  }

  /** The first n data blocks of a file. */
  function FileBlocks(image: seq<Byte>, inode: int, n: nat): (blocks: seq<seq<Byte>>)
    requires Format(image) && WholeInode(image, inode) && (n == 0 || BLOCK * (n - 1) < Length(image, inode))
    ensures |blocks| == n && forall k | 0 <= k < n :: |blocks[k]| == BLOCK
  {
    if n == 0 then []
    else
      assert InodeFits(image, inode);
      FileBlocks(image, inode, n - 1) + [DataBlock(image, BlockNumber(image, inode, n - 1))]
  }

  lemma {:induction false} FileBlockAt(image: seq<Byte>, inode: int, n: nat, k: nat)
    requires Format(image) && WholeInode(image, inode) && k < n && BLOCK * (n - 1) < Length(image, inode)
    ensures k < SLOTS && 0 <= BlockNumber(image, inode, k) < DataBlocks(image)
    ensures FileBlocks(image, inode, n)[k] == DataBlock(image, BlockNumber(image, inode, k))
  {
    hide Word, DataBlock;
    assert InodeFits(image, inode);
    if k < n - 1 {
      FileBlockAt(image, inode, n - 1, k);
    }
  }

  /** The file. */
  function Contents(image: seq<Byte>, inode: int): (file: seq<Byte>)
    requires Format(image) && WholeInode(image, inode)
    ensures |file| == Size(image, inode)
  {
    var size := Size(image, inode);
    Concat(FileBlocks(image, inode, (size + BLOCK - 1) / BLOCK))[..size]
  }

  /** A byte of a file in its data block and in the image. */
  lemma BlockByte(image: seq<Byte>, inode: int, pos: nat)
    requires Format(image) && WholeInode(image, inode) && pos < Size(image, inode)
    ensures pos / BLOCK < SLOTS && Accepts(image, inode, pos)
    ensures var b := BlockNumber(image, inode, pos / BLOCK);
      0 <= b < DataBlocks(image) && DataBlock(image, b)[pos % BLOCK] == image[Address(image, inode, pos)]
    ensures Address(image, inode, pos) < BLOCK * (1 + Inodes(image) + DataBlocks(image))
  {
    assert InodeFits(image, inode);
    assert BLOCK * (pos / BLOCK) <= pos;
  }

  /** The bytes of a file are where the reader looks for them, all of them inside the image's own blocks. */
  lemma ContentsAt(image: seq<Byte>, inode: int, pos: nat)
    requires Format(image) && WholeInode(image, inode) && pos < Size(image, inode)
    ensures Accepts(image, inode, pos)
    ensures Contents(image, inode)[pos] == image[Address(image, inode, pos)]
    ensures Address(image, inode, pos) < BLOCK * (1 + Inodes(image) + DataBlocks(image))
  {
    hide Word, DataBlock, Address;
    var n := (Size(image, inode) + BLOCK - 1) / BLOCK;
    BlockByte(image, inode, pos);
    FileBlockAt(image, inode, n, pos / BLOCK);
    ConcatAt(FileBlocks(image, inode, n), pos / BLOCK, pos % BLOCK);
    assert pos == BLOCK * (pos / BLOCK) + pos % BLOCK;
  }

  /** Where the file system ends: behind the last data block. */
  function Extent(image: seq<Byte>): int
    requires |image| >= BLOCK
  {
    BLOCK * (1 + Inodes(image) + DataBlocks(image))
  }

  /** The reader's test lets one block number too many pass: an accepted byte is inside the file system exactly
      when its block number is below the number of data blocks, and otherwise in the block behind its end. */
  lemma AcceptedInsideIff(image: seq<Byte>, inode: int, pos: nat)
    requires Format(image) && 0 <= inode < Inodes(image) && pos < Size(image, inode) && Accepts(image, inode, pos)
    ensures InodeFits(image, inode)
    ensures Address(image, inode, pos) < Extent(image)
      <==> BlockNumber(image, inode, pos / BLOCK) < DataBlocks(image)
    ensures Address(image, inode, pos) < Extent(image) + BLOCK
  {
    assert InodeFits(image, inode);
  }

  /** An image with two inodes and one data block, and what lies behind it. Inode 1 has one byte, in block 1,
      which is one more than there is. */
  function Overrun(): (image: seq<Byte>)
    ensures |image| == 5 * BLOCK
    ensures forall i | 0 <= i < |image| :: image[i] == OverrunByte(i)
  {
    seq(5 * BLOCK, i requires 0 <= i => OverrunByte(i))
  }

  function OverrunByte(i: nat): Byte {
    if i == 4 then 2                              // inodes
    else if i == 8 then 1                         // data blocks
    else if i == 2 * BLOCK then 1                 // the length of inode 1
    else if i == 2 * BLOCK + 4 then 1             // its first block number
    else 0
  }

  lemma OverrunFields()
    ensures var image := Overrun();
      && Entries(image) == 0 && Inodes(image) == 2 && DataBlocks(image) == 1
      && Length(image, 0) == 0 && Length(image, 1) == 1 && BlockNumber(image, 1, 0) == 1
  {
  }

  /** That byte is accepted, although it lies behind the file system. */
  lemma OverrunAccepted()
    ensures var image := Overrun();
      && Format(image) && Size(image, 1) == 1 && Accepts(image, 1, 0) && !WholeInode(image, 1)
      && Address(image, 1, 0) == Extent(image)
  {
    OverrunFields();
    hide Word;
    var image := Overrun();
    assert InodeFits(image, 0) && InodeFits(image, 1);
    assert BlockNumber(image, 1, 0) == DataBlocks(image);
  }

  /** A C string cut to the length of a directory name. */
  function Name(s: seq<Byte>): (name: seq<Byte>)
    ensures |name| <= NAME && name <= s && 0 !in name
    ensures |name| == NAME || |name| == |s| || s[|name|] == 0
  {
    CutName(s, 0)
  }

  function CutName(s: seq<Byte>, i: nat): (name: seq<Byte>)
    requires i <= |s| && i <= NAME && 0 !in s[..i]
    ensures |name| <= NAME && name <= s && 0 !in name
    ensures |name| == NAME || |name| == |s| || s[|name|] == 0
    decreases NAME - i
  {
    if i == NAME || i == |s| || s[i] == 0 then s[..i]
    else
      assert s[..i + 1] == s[..i] + [s[i]];
      CutName(s, i + 1)
  }

  /** The name in a directory entry, with whatever follows it. */
  function EntryName(image: seq<Byte>, i: nat): seq<Byte>
    requires Format(image) && i < Entries(image)
  {
    Name(image[DENTRY * (i + 1)..])
  }

  function EntryLookup(image: seq<Byte>, i: nat): Lookup
    requires Format(image) && i < Entries(image)
  {
    Found(Word(image, DENTRY * (i + 1) + NAME), Word(image, DENTRY * (i + 1) + NAME + 4))
  }

  lemma NameUnique(s: seq<Byte>, n: nat)
    requires n <= |s| && 0 !in s[..n] && (n == |s| || s[n] == 0)
    ensures Name(s) == s[..if n > NAME then NAME else n]
  {
    var name := Name(s);
    if |name| < n {
      assert s[|name|] == s[..n][|name|];
    }
  }
}
