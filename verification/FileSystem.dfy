/**
 The read-only file system: reading data through the block numbers of an inode, looking names up, and the
 read calls on descriptors, against the flat files of an image.
 */
module FileSystem {
  import opened Descriptors
  import opened FileImages

  /** How many bytes a read should give. */
  function Available(size: nat, offset: nat, length: int): (n: nat)
    ensures n == 0 <==> length <= 0 || offset >= size
    ensures n > 0 ==> n <= length && offset + n <= size && (n == length || offset + n == size)
  {
    if length <= 0 || offset >= size then 0 else if length < size - offset then length else size - offset
  }

  /** The bytes a read of a flat file should give. */
  function Slice(file: seq<Byte>, offset: nat, length: int): (data: seq<Byte>)
    ensures |data| == Available(|file|, offset, length)
  {
    var n := Available(|file|, offset, length);
    if n == 0 then [] else file[offset..offset + n]
  }

  /** Does the read meet a block number that is too large? */
  ghost predicate MeetsBadBlock(image: seq<Byte>, inode: int, offset: nat, length: int)
    requires Format(image) && 0 <= inode < Inodes(image)
  {
    exists pos: nat | offset <= pos < offset + Available(Size(image, inode), offset, length) ::
      !Accepts(image, inode, pos)
  }

  lemma WholeInodeAccepted(image: seq<Byte>, inode: int, offset: nat, length: int)
    requires Format(image) && WholeInode(image, inode)
    ensures !MeetsBadBlock(image, inode, offset, length)
  {
    forall pos: nat | offset <= pos < offset + Available(Size(image, inode), offset, length)
      ensures Accepts(image, inode, pos)
    {
      ContentsAt(image, inode, pos);
    }
  }

  /** Is this the byte of the file at that position, from an accepted block? */
  ghost predicate IsByte(image: seq<Byte>, inode: int, pos: nat, b: Byte)
    requires Format(image) && 0 <= inode < Inodes(image)
  {
    pos < Size(image, inode) && Accepts(image, inode, pos) && b == image[Address(image, inode, pos)]
  }

  /** Are these the bytes of the file from that position on? */
  ghost predicate AreBytes(image: seq<Byte>, inode: int, offset: nat, data: seq<Byte>)
    requires Format(image) && 0 <= inode < Inodes(image)
  {
    forall k: nat | k < |data| :: IsByte(image, inode, offset + k, data[k])
  }

  lemma {:induction false} BytesAreSlice(image: seq<Byte>, inode: int, offset: nat, length: int, data: seq<Byte>)
    requires Format(image) && WholeInode(image, inode) && AreBytes(image, inode, offset, data)
    requires |data| == Available(Size(image, inode), offset, length)
    ensures data == Slice(Contents(image, inode), offset, length)
  {
    hide Word, Address, Contents, Accepts;
    forall k: nat | k < |data| ensures data[k] == Contents(image, inode)[offset + k] {
      assert IsByte(image, inode, offset + k, data[k]);
      ContentsAt(image, inode, offset + k);
    }
  }

  /** The body of the loop of read_data. */
  method ReadByte(image: seq<Byte>, inode: nat, pos: nat) returns (b: Byte, ok: bool)
    requires Format(image) && inode < Inodes(image) && pos < Length(image, inode)
    ensures ok <==> Accepts(image, inode, pos)
    ensures ok ==> IsByte(image, inode, pos, b)
  {
    assert InodeFits(image, inode);
    var blockIndex := pos / BLOCK;
    // The test of blockIndex against the length of the file, divided in the same way, never fires.
    assert blockIndex <= Length(image, inode) / BLOCK;
    var block := BlockNumber(image, inode, blockIndex);
    if block > DataBlocks(image) {
      return 0, false;
    }
    assert Address(image, inode, pos) == BLOCK * (1 + Inodes(image) + block) + pos % BLOCK;
    return image[BLOCK * (1 + Inodes(image) + block) + pos % BLOCK], true;
  }

  /** read_data: the bytes of a file from an offset on, one at a time. */
  method ReadData(image: seq<Byte>, inode: nat, offset: nat, buf: array<Byte>, length: int) returns (r: int)
    requires Format(image) && length <= buf.Length
    modifies buf
    ensures r == -1 <==> inode >= Inodes(image) || MeetsBadBlock(image, inode, offset, length)
    ensures r == -1 || 0 <= r <= buf.Length
    ensures r != -1 ==>
      r == Available(Size(image, inode), offset, length) && AreBytes(image, inode, offset, buf[..r])
    ensures inode < Inodes(image) && WholeInode(image, inode) ==>
      r != -1 && buf[..r] == Slice(Contents(image, inode), offset, length)
    ensures forall k | 0 <= k < buf.Length && (k >= length || r == 0) :: buf[k] == old(buf[k])
  {
    if inode >= Inodes(image) {
      return -1;
    }
    var bytesInFile := Length(image, inode);
    var written := 0;
    while written + offset < bytesInFile && written < length
      invariant 0 <= written <= Available(Size(image, inode), offset, length)
      invariant AreBytes(image, inode, offset, buf[..written])
      invariant forall k | written <= k < buf.Length :: buf[k] == old(buf[k])
    {
      var b, ok := ReadByte(image, inode, written + offset);
      if !ok {
        if WholeInode(image, inode) {
          WholeInodeAccepted(image, inode, offset, length);
        }
        return -1;
      }
      ghost var before := buf[..written];
      buf[written] := b;
      assert buf[..written + 1] == before + [b];
      written := written + 1;
    }
    r := written;
    AllAccepted(image, inode, offset, length, buf[..r]);
    if WholeInode(image, inode) {
      BytesAreSlice(image, inode, offset, length, buf[..r]);
    }
  }

  lemma AllAccepted(image: seq<Byte>, inode: int, offset: nat, length: int, data: seq<Byte>)
    requires Format(image) && 0 <= inode < Inodes(image) && AreBytes(image, inode, offset, data)
    requires |data| == Available(Size(image, inode), offset, length)
    ensures !MeetsBadBlock(image, inode, offset, length)
  {
    forall pos: nat | offset <= pos < offset + |data| ensures Accepts(image, inode, pos) {
      assert IsByte(image, inode, offset + (pos - offset), data[pos - offset]);
    }
  }

  // ----- the directory -----

  /** The position of the first NUL of a C string. */
  method Strlen(s: seq<Byte>, from: nat) returns (len: nat)
    requires from <= |s| && 0 in s[from..]
    ensures from + len < |s| && s[from + len] == 0 && 0 !in s[from..from + len]
  {
    len := 0;
    while s[from + len] != 0
      invariant from + len < |s| && 0 !in s[from..from + len] && 0 in s[from + len..]
      decreases |s| - from - len
    {
      assert s[from + len..] == [s[from + len]] + s[from + len + 1..];
      assert s[from..from + len + 1] == s[from..from + len] + [s[from + len]];
      len := len + 1;
    }
  }

  /** The first n characters of a C string. */
  function Head(s: seq<Byte>, n: nat): (head: seq<Byte>)
    ensures |head| <= n && head <= s && 0 !in head
  {
    if n == 0 || s == [] || s[0] == 0 then [] else [s[0]] + Head(s[1..], n - 1)
  }

  lemma {:induction false} HeadStops(s: seq<Byte>, n: nat, k: nat)
    requires k <= n && k <= |s| && 0 !in s[..k] && (k == n || k == |s| || s[k] == 0)
    ensures Head(s, n) == s[..k]
  {
    if k > 0 {
      assert s[..k] == [s[0]] + s[1..][..k - 1];
      HeadStops(s[1..], n - 1, k - 1);
    }
  }

  /** Two strings that differ at a position that neither ends before have different heads. */
  lemma {:induction false} HeadsDiffer(s1: seq<Byte>, s2: seq<Byte>, n: nat, k: nat)
    requires k < n && k < |s1| && k < |s2| && s1[..k] == s2[..k] && 0 !in s1[..k] && s1[k] != s2[k]
    ensures Head(s1, n) != Head(s2, n)
  {
    if k > 0 {
      assert s1[0] == s1[..k][0] == s2[..k][0] == s2[0];
      assert s1[1..][..k - 1] == s1[..k][1..] && s2[1..][..k - 1] == s2[..k][1..];
      HeadsDiffer(s1[1..], s2[1..], n - 1, k - 1);
    }
  }

  /** The value of a byte as int8_t. */
  function Signed(b: Byte): (v: int)
    ensures -128 <= v < 128 && v % 256 == b
  {
    if b < 128 then b else b - 256
  }

  /** Are the first n characters of two C strings the same? If not, the sign of the result is that of the first
      difference. */
  method Strncmp(s1: seq<Byte>, s2: seq<Byte>, n: nat) returns (r: int)
    requires (n <= |s1| || 0 in s1) && (n <= |s2| || 0 in s2)
    ensures r == 0 <==> Head(s1, n) == Head(s2, n)
    ensures r != 0 ==> exists k | 0 <= k < n && k < |s1| && k < |s2| ::
      s1[..k] == s2[..k] && 0 !in s1[..k] && r == Signed(s1[k]) - Signed(s2[k])
  {
    var i := 0;
    while i < n
      invariant i <= n && i <= |s1| && i <= |s2| && s1[..i] == s2[..i] && 0 !in s1[..i]
    {
      assert i < |s1| && i < |s2|;
      if s1[i] != s2[i] || s1[i] == 0 {
        if s1[i] != s2[i] {
          HeadsDiffer(s1, s2, n, i);
        } else {
          HeadStops(s1, n, i);
          HeadStops(s2, n, i);
        }
        return Signed(s1[i]) - Signed(s2[i]);
      }
      assert s1[..i + 1] == s1[..i] + [s1[i]] && s2[..i + 1] == s2[..i] + [s2[i]];
      i := i + 1;
    }
    HeadStops(s1, n, n);
    HeadStops(s2, n, n);
    return 0;
  }

  /** The length of the name of a directory entry, at most 32. */
  method EntryLength(image: seq<Byte>, i: nat) returns (len: nat)
    requires Format(image) && i < Entries(image)
    ensures len == |EntryName(image, i)|
    ensures EntryName(image, i) == image[DENTRY * (i + 1)..DENTRY * (i + 1) + len]
  {
    var at := DENTRY * (i + 1);
    assert TypeFits(image, i) && image[at..][NAME + 3] == 0;
    len := Strlen(image, at);
    assert image[at..][..len] == image[at..at + len];
    NameUnique(image[at..], len);
    if len > NAME {
      len := NAME;
    }
  }

  method NameLength(fname: seq<Byte>) returns (len: nat)
    requires 0 in fname
    ensures len <= |fname| && Name(fname) == fname[..len]
  {
    assert fname[0..] == fname;
    len := Strlen(fname, 0);
    NameUnique(fname, len);
    if len > NAME {
      len := NAME;
    }
  }

  /** For names of the same length, comparing so many characters compares the names. */
  lemma SameNames(image: seq<Byte>, i: nat, fname: seq<Byte>)
    requires Format(image) && i < Entries(image) && |Name(fname)| == |EntryName(image, i)|
    ensures var n := |Name(fname)|;
      n <= |fname| && n <= |image[DENTRY * (i + 1)..]|
      && (Head(fname, n) == Head(image[DENTRY * (i + 1)..], n) <==> EntryName(image, i) == Name(fname))
  {
    var n := |Name(fname)|;
    HeadStops(fname, n, n);
    HeadStops(image[DENTRY * (i + 1)..], n, n);
  }

  /** The directory search: the first entry whose name, cut to 32 bytes, is the given one cut to 32 bytes. */
  method ReadDentryByName(image: seq<Byte>, fname: seq<Byte>) returns (r: int, dentry: Lookup)
    requires Format(image) && 0 in fname
    ensures r == -1 <==> forall i | 0 <= i < Entries(image) :: EntryName(image, i) != Name(fname)
    ensures r == -1 <==> dentry == NotFound
    ensures r != -1 ==> r == |Name(fname)| && exists i | 0 <= i < Entries(image) ::
      && EntryName(image, i) == Name(fname) && dentry == EntryLookup(image, i)
      && forall j | 0 <= j < i :: EntryName(image, j) != Name(fname)
  {
    hide InodeFits, TypeFits, Word, EntryName, Name, Head;
    var i := 0;
    while i < Entries(image)
      invariant 0 <= i <= Entries(image)
      invariant forall j | 0 <= j < i :: EntryName(image, j) != Name(fname)
    {
      var dentryLength := EntryLength(image, i);
      var fnameLength := NameLength(fname);
      if fnameLength == dentryLength {
        var cmp := Strncmp(fname, image[DENTRY * (i + 1)..], fnameLength);
        SameNames(image, i, fname);
        if cmp == 0 {
          return dentryLength, EntryLookup(image, i);
        }
      }
      i := i + 1;
    }
    return -1, NotFound;
  }

  method ReadDentryByIndex(image: seq<Byte>, index: nat) returns (r: int, dentry: Lookup)
    requires Format(image)
    ensures index >= Entries(image) ==> r == -1 && dentry == NotFound
    ensures index < Entries(image) ==> r == |EntryName(image, index)| && dentry == EntryLookup(image, index)
  {
    if index < Entries(image) {
      r := EntryLength(image, index);
      return r, EntryLookup(image, index);
    }
    return -1, NotFound;
  }

  // ----- sequences of reads -----

  /** All the bytes given by reads of the given sizes, one after the other. */
  function ReadAll(file: seq<Byte>, offset: nat, sizes: seq<int>): (data: seq<Byte>)
    decreases |sizes|
  {
    if sizes == [] then []
    else
      var first := Slice(file, offset, sizes[0]);
      first + ReadAll(file, offset + |first|, sizes[1..])
  }

  function Wanted(sizes: seq<int>): nat {
    if sizes == [] then 0 else (if sizes[0] > 0 then sizes[0] else 0) + Wanted(sizes[1..])
  }

  lemma SliceAppend(file: seq<Byte>, offset: nat, m: int, n: nat)
    ensures Slice(file, offset, m) + Slice(file, offset + Available(|file|, offset, m), n)
         == Slice(file, offset, n + if m > 0 then m else 0)
  {
  }

  lemma SliceGrows(file: seq<Byte>, at: nat, out: seq<Byte>, data: seq<Byte>)
    requires at + |out| <= |file| && out == file[at..at + |out|] && data == Slice(file, at + |out|, 1024)
    ensures at + |out + data| <= |file| && out + data == file[at..at + |out + data|]
  {
  }

  /** Reads leave no gap and repeat nothing: together they are one read of the total size. */
  lemma {:induction false} ReadsAddUp(file: seq<Byte>, offset: nat, sizes: seq<int>)
    ensures ReadAll(file, offset, sizes) == Slice(file, offset, Wanted(sizes))
    decreases |sizes|
  {
    hide Slice, Available;
    if sizes != [] {
      var rest, next := sizes[1..], offset + Available(|file|, offset, sizes[0]);
      calc {
        ReadAll(file, offset, sizes);
        Slice(file, offset, sizes[0]) + ReadAll(file, next, rest);
        { ReadsAddUp(file, next, rest); }
        Slice(file, offset, sizes[0]) + Slice(file, next, Wanted(rest));
        { SliceAppend(file, offset, sizes[0], Wanted(rest)); }
        Slice(file, offset, Wanted(sizes));
      }
    }
  }

  lemma {:induction false} WantedAtLeast(sizes: seq<int>)
    requires forall i | 0 <= i < |sizes| :: sizes[i] > 0
    ensures Wanted(sizes) >= |sizes|
  {
    if sizes != [] {
      WantedAtLeast(sizes[1..]);
    }
  }

  /** Enough reads of positive sizes give the whole file, and then a read gives 0 bytes for ever; before
      that a read of a positive size never gives 0 bytes. */
  lemma ReadsGiveFile(file: seq<Byte>, sizes: seq<int>, n: int)
    requires n > 0 && forall i | 0 <= i < |sizes| :: sizes[i] > 0
    ensures |sizes| >= |file| ==> ReadAll(file, 0, sizes) == file
    ensures ReadAll(file, 0, sizes) == file <==> Slice(file, |ReadAll(file, 0, sizes)|, n) == []
  {
    ReadsAddUp(file, 0, sizes);
    WantedAtLeast(sizes);
  }

  // ----- reads through descriptors -----

  /** The table after n bytes, or n names, were read through a descriptor. */
  function Advanced(t: Table, fd: nat, n: nat): Table
    requires fd < |t.slots|
  {
    t.(slots := t.slots[fd := t.slots[fd].(offset := t.slots[fd].offset + n)])
  }

  /** The descriptors of the running process and the image they read. */
  class Reader {
    const image: seq<Byte>
    var table: Table

    ghost predicate Valid()
      reads this
    {
      && Format(image)
      && Consistent(table)
      && forall fd | 0 <= fd < NUM_FDS :: table.slots[fd].inode >= 0 && table.slots[fd].offset >= 0
    }

    /** Is this the descriptor of a file below the bound, and is the file whole? */
    ghost predicate Reads(fd: int)
      requires Valid()
      reads this
    {
      0 <= fd < table.count && 0 < table.slots[fd].inode && WholeInode(image, table.slots[fd].inode)
    }

    /** The four reasons for which a read of a file fails. */
    ghost predicate Refuses(fd: int, nbytes: int)
      requires Valid()
      reads this
    {
      || !(0 <= fd < table.count)
      || table.slots[fd].inode == 0
      || table.slots[fd].inode >= Inodes(image)
      || MeetsBadBlock(image, table.slots[fd].inode, table.slots[fd].offset, nbytes)
    }

    ghost function File(fd: int): seq<Byte>
      requires Valid() && Reads(fd)
      reads this
    {
      Contents(image, table.slots[fd].inode)
    }

    constructor (image: seq<Byte>, table: Table)
      requires Format(image) && Consistent(table)
      requires forall fd | 0 <= fd < NUM_FDS :: table.slots[fd].inode >= 0 && table.slots[fd].offset >= 0
      ensures Valid() && this.image == image && this.table == table
    {
      this.image, this.table := image, table;
    }

    method Advance(fd: nat, n: nat)
      requires Valid() && fd < NUM_FDS
      modifies this
      ensures Valid() && table == Advanced(old(table), fd, n)
    {
      InUseUpdate(table.slots, fd, table.slots[fd].(offset := table.slots[fd].offset + n));
      table := Advanced(table, fd, n);
    }

    /** file_read: inode 0 and descriptors at or beyond the bound are refused. */
    method FileRead(fd: int, buf: array<Byte>, nbytes: int) returns (r: int)
      requires Valid() && nbytes <= buf.Length
      modifies this, buf
      ensures Valid()
      ensures r == -1 <==> old(Refuses(fd, nbytes))
      ensures r == -1 || 0 <= r <= buf.Length
      ensures r == -1 ==> table == old(table)
      ensures r > 0 ==> InodeFits(image, old(table).slots[fd].inode)
      ensures r > 0 ==> old(table).slots[fd].offset + r <= Size(image, old(table).slots[fd].inode)
      ensures r != -1 ==> table == Advanced(old(table), fd, r)
      ensures old(Reads(fd)) ==>
        && r != -1 && Reads(fd) && File(fd) == old(File(fd))
        && buf[..r] == Slice(File(fd), old(table.slots[fd].offset), nbytes)
    {
      if fd < 0 || fd >= table.count {
        return -1;
      }
      var curr := table.slots[fd];
      if curr.inode == 0 {
        return -1;
      }
      r := ReadData(image, curr.inode, curr.offset, buf, nbytes);
      if r == -1 {
        return -1;
      }
      Advance(fd, r);
    }

    /** dir_read: the next name, padded with NULs to 32 bytes, and 0 when there is none. */
    method DirRead(fd: int, buf: array<Byte>) returns (r: int)
      requires Valid() && buf.Length >= NAME
      modifies this, buf
      ensures Valid()
      ensures r == -1 <==> !(0 <= fd < old(table).count) || old(table).slots[fd].inode != 0
      ensures r == -1 || 0 <= r <= NAME
      ensures r == -1 || old(table).slots[fd].offset >= Entries(image) ==> table == old(table)
      ensures r != -1 && old(table).slots[fd].offset >= Entries(image) ==> r == 0
      ensures r != -1 && old(table).slots[fd].offset < Entries(image) ==>
        && buf[..r] == EntryName(image, old(table).slots[fd].offset)
        && (forall k | r <= k < NAME :: buf[k] == 0)
        && table == Advanced(old(table), fd, 1)
    {
      if fd < 0 || fd >= table.count {
        return -1;
      }
      var curr := table.slots[fd];
      if curr.inode != 0 {
        return -1;
      }
      if curr.offset >= Entries(image) {
        return 0;
      }
      var dentry;
      r, dentry := ReadDentryByIndex(image, curr.offset);
      CopyName(buf, curr.offset);
      Advance(fd, 1);
    }

    method CopyName(buf: array<Byte>, i: nat)
      requires Valid() && i < Entries(image) && buf.Length >= NAME
      modifies buf
      ensures buf[..|EntryName(image, i)|] == EntryName(image, i)
      ensures forall k | |EntryName(image, i)| <= k < NAME :: buf[k] == 0
    {
      var src := EntryName(image, i);
      var at := DENTRY * (i + 1);
      var n := 0;
      while image[at + n] != 0 && n < NAME
        invariant 0 <= n <= |src|
        invariant forall k | 0 <= k < n :: buf[k] == src[k]
        decreases NAME - n
      {
        assert image[at..][n] == image[at + n];
        buf[n] := image[at + n];
        n := n + 1;
      }
      while n < NAME
        invariant |src| <= n <= NAME
        invariant forall k | 0 <= k < |src| :: buf[k] == src[k]
        invariant forall k | |src| <= k < n :: buf[k] == 0
      {
        buf[n] := 0;
        n := n + 1;
      }
    }

    /** Where the loop of ece391cat.c is: out is written, the cnt bytes of data are read. */
    ghost predicate Catting(was: Table, fd: int, out: seq<Byte>, cnt: int, data: seq<Byte>)
      requires Valid()
      reads this
    {
      && 0 <= fd < |was.slots| && fd < table.count && -1 <= cnt <= |data|
      && table == Advanced(was, fd, if cnt == -1 then |out| else |out| + cnt)
      && (cnt > 0 ==> was.slots[fd].offset + |out| + cnt <= Bound(was.slots[fd].inode))
      && (WithinFile(was, fd) ==>
            var file, at := Contents(image, was.slots[fd].inode), was.slots[fd].offset;
            && cnt >= 0 && at + |out| <= |file| && out == file[at..at + |out|]
            && data[..cnt] == Slice(file, at + |out|, 1024))
    }

    /** Is this the descriptor of a whole file, at an offset inside it? */
    ghost predicate WithinFile(t: Table, fd: int)
      requires Valid()
      reads this
    {
      && 0 <= fd < |t.slots| && 0 < t.slots[fd].inode && WholeInode(image, t.slots[fd].inode)
      && 0 <= t.slots[fd].offset <= Size(image, t.slots[fd].inode)
    }

    /** No read goes beyond this offset. */
    ghost function Bound(inode: int): nat
      reads this
    {
      if InodeFits(image, inode) then Size(image, inode) else 0
    }

    /** A read of the loop of ece391cat.c. */
    method CatRead(fd: int, buf: array<Byte>, ghost was: Table, ghost out: seq<Byte>) returns (cnt: int)
      requires Valid() && buf.Length == 1024 && 0 <= fd < table.count
      requires fd < |was.slots| && table == Advanced(was, fd, |out|) && was.slots[fd].offset >= 0
      requires WithinFile(was, fd) ==>
        && was.slots[fd].offset + |out| <= Size(image, was.slots[fd].inode)
        && out == Contents(image, was.slots[fd].inode)[was.slots[fd].offset..was.slots[fd].offset + |out|]
      modifies this, buf
      ensures Valid() && Catting(was, fd, out, cnt, buf[..])
    {
      hide Slice, Contents, MeetsBadBlock, InodeFits, Consistent;
      ghost var within := WithinFile(was, fd);
      cnt := FileRead(fd, buf, 1024);
      if cnt >= 0 {
        AdvancedTwice(was, fd, |out|, cnt);
        assert buf[..][..cnt] == buf[..cnt];
      }
    }

    /** The loop of ece391cat.c: what it writes is the rest of the file, exactly. */
    method Cat(fd: int, buf: array<Byte>) returns (rc: int, out: seq<Byte>)
      requires Valid() && buf.Length == 1024 && 0 <= fd < table.count
      modifies this, buf
      ensures Valid() && table == Advanced(old(table), fd, |out|)
      ensures rc == 0 || rc == 3
      ensures WithinFile(old(table), fd) ==>
        rc == 0 && out == Contents(image, old(table).slots[fd].inode)[old(table).slots[fd].offset..]
    {
      ghost var was := table;
      out := [];
      assert Advanced(was, fd, 0).slots == was.slots;
      var cnt := CatRead(fd, buf, was, out);
      while 0 != cnt
        invariant Valid() && Catting(was, fd, out, cnt, buf[..])
        decreases Bound(was.slots[fd].inode) - |out|
      {
        if -1 == cnt {
          return 3, out;
        }
        out, cnt := CatStep(fd, buf, was, out, cnt);
      }
      CatEnds(was, fd, out, buf[..]);
      rc := 0;
    }

    /** Writes what was read and reads on. */
    method CatStep(fd: int, buf: array<Byte>, ghost was: Table, out: seq<Byte>, n: nat)
      returns (grown: seq<Byte>, cnt: int)
      requires Valid() && buf.Length == 1024 && 0 < n && Catting(was, fd, out, n, buf[..]) && was.slots[fd].offset >= 0
      modifies this, buf
      ensures Valid() && Catting(was, fd, grown, cnt, buf[..])
      ensures |out| < |grown| <= Bound(was.slots[fd].inode)
    {
      if WithinFile(was, fd) {
        CatGrows(was, fd, out, n, buf[..]);
      }
      assert buf[..][..n] == buf[..n];
      grown := out + buf[..n];
      cnt := CatRead(fd, buf, was, grown);
    }

    lemma CatEnds(was: Table, fd: int, out: seq<Byte>, data: seq<Byte>)
      requires Valid() && Catting(was, fd, out, 0, data)
      ensures WithinFile(was, fd) ==> out == Contents(image, was.slots[fd].inode)[was.slots[fd].offset..]
    {
    }

    lemma CatGrows(was: Table, fd: int, out: seq<Byte>, cnt: int, data: seq<Byte>)
      requires Valid() && Catting(was, fd, out, cnt, data) && cnt > 0 && WithinFile(was, fd)
      ensures var at := was.slots[fd].offset;
        var grown := out + data[..cnt];
        && at + |grown| <= Size(image, was.slots[fd].inode)
        && grown == Contents(image, was.slots[fd].inode)[at..at + |grown|]
    {
      SliceGrows(Contents(image, was.slots[fd].inode), was.slots[fd].offset, out, data[..cnt]);
    }
  }

  lemma AdvancedTwice(t: Table, fd: nat, m: nat, n: nat)
    requires fd < |t.slots|
    ensures Advanced(Advanced(t, fd, m), fd, n) == Advanced(t, fd, m + n)
  {
    assert Advanced(Advanced(t, fd, m), fd, n).slots == Advanced(t, fd, m + n).slots;
  }
}
