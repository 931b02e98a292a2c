/**
 The file-descriptor table of one process: eight slots, the first two always
 stdin and stdout, and a counter that read, write and close use as a bound.
 */
module Descriptors {

  const NUM_FDS := 8
  const RTC_FILETYPE := 0
  const DIR_FILETYPE := 1
  const FILE_FILETYPE := 2

  datatype Ops = NoOps | StdinOps | StdoutOps | RtcOps | DirOps | FileOps

  datatype Descriptor = Descriptor(ops: Ops, inode: int, offset: int, flags: int)

  datatype Table = Table(slots: seq<Descriptor>, count: int)

  /** What the directory search says about a file name. */
  datatype Lookup = NotFound | Found(filetype: int, inode: int)

  datatype Request = OpenFile(lookup: Lookup) | CloseFd(fd: int)

  const CLOSED := Descriptor(NoOps, 0, 0, 0)

  /** The table a new process starts with. */
  const FRESH := Table([Descriptor(StdinOps, 0, 0, 1), Descriptor(StdoutOps, 0, 0, 1),
                        CLOSED, CLOSED, CLOSED, CLOSED, CLOSED, CLOSED], 2)

  /** The number of slots in use. */
  function InUse(slots: seq<Descriptor>): (n: nat)
    ensures n <= |slots|
  {
    if slots == [] then 0
    else InUse(slots[..|slots| - 1]) + if slots[|slots| - 1].flags != 0 then 1 else 0
  }

  /** The first unused slot at or after position from, or |slots|. */
  function FirstFree(slots: seq<Descriptor>, from: nat): (fd: nat)
    requires from <= |slots|
    ensures from <= fd <= |slots|
    ensures forall k | from <= k < fd :: slots[k].flags != 0
    ensures fd < |slots| ==> slots[fd].flags == 0
    decreases |slots| - from
  {
    if from == |slots| || slots[from].flags == 0 then from else FirstFree(slots, from + 1)
  }

  ghost predicate Consistent(t: Table) {
    && |t.slots| == NUM_FDS
    && t.slots[0].flags != 0
    && t.slots[1].flags != 0
    && t.count == InUse(t.slots)
  }

  /** The bound that read, write and close test is exact: the slots in use are the first ones. */
  ghost predicate Packed(t: Table) {
    && Consistent(t)
    && forall fd | 0 <= fd < NUM_FDS :: fd < t.count <==> t.slots[fd].flags != 0
  }

  /** The descriptor that open stores for a directory entry; None when the file type is unknown. */
  function Opened(filetype: int, inode: int): (d: Descriptor)
  {
    if filetype == RTC_FILETYPE then Descriptor(RtcOps, 0, 0, 1)
    else if filetype == DIR_FILETYPE then Descriptor(DirOps, 0, 0, 1)
    else if filetype == FILE_FILETYPE then Descriptor(FileOps, inode, 0, 1)
    else CLOSED
  }

  function Open(t: Table, lookup: Lookup): (r: (Table, int))
    requires Consistent(t)
    ensures Consistent(r.0)
  {
    OpenFindsSlot(t);
    if t.count >= NUM_FDS || lookup.NotFound? || Opened(lookup.filetype, lookup.inode) == CLOSED then (t, -1 as int)
    else
      var fd := FirstFree(t.slots, 2);
      InUseUpdate(t.slots, fd, Opened(lookup.filetype, lookup.inode));
      (Table(t.slots[fd := Opened(lookup.filetype, lookup.inode)], t.count + 1), fd)
  }

  function Close(t: Table, fd: int): (r: (Table, int))
    requires Consistent(t)
    ensures Consistent(r.0)
  {
    if fd < 2 || fd >= t.count || t.slots[fd].flags == 0 then (t, -1)
    else
      InUseUpdate(t.slots, fd, CLOSED);
      (Table(t.slots[fd := CLOSED], t.count - 1), 0)
  }

  /** halt's loop over all descriptor numbers, from i upwards. */
  function CloseFrom(t: Table, i: nat): (r: Table)
    requires Consistent(t) && i <= NUM_FDS
    ensures Consistent(r)
    decreases NUM_FDS - i
  {
    if i == NUM_FDS then t else CloseFrom(Close(t, i).0, i + 1)
  }

  function Serve(t: Table, req: Request): (r: (Table, int))
    requires Consistent(t)
    ensures Consistent(r.0)
  {
    match req
    case OpenFile(lookup) => Open(t, lookup)
    case CloseFd(fd) => Close(t, fd)
  }

  // ----- counting -----

  lemma {:induction false} InUseUpdate(slots: seq<Descriptor>, k: nat, d: Descriptor)
    requires k < |slots|
    ensures InUse(slots[k := d])
         == InUse(slots) - (if slots[k].flags != 0 then 1 else 0) + (if d.flags != 0 then 1 else 0)
  {
    var last := |slots| - 1;
    if k == last {
      assert slots[k := d][..last] == slots[..last];
    } else {
      assert slots[k := d][..last] == slots[..last][k := d];
      InUseUpdate(slots[..last], k, d);
    }
  }

  lemma {:induction false} InUseAll(slots: seq<Descriptor>)
    requires forall k | 0 <= k < |slots| :: slots[k].flags != 0
    ensures InUse(slots) == |slots|
  {
    if slots != [] {
      InUseAll(slots[..|slots| - 1]);
    }
  }

  /** Below the limit there is always a slot in 2..7. */
  lemma OpenFindsSlot(t: Table)
    requires Consistent(t)
    ensures t.count < NUM_FDS <==> FirstFree(t.slots, 2) < NUM_FDS
  {
    var fd := FirstFree(t.slots, 2);
    if fd == NUM_FDS {
      InUseAll(t.slots);
    } else if t.count == NUM_FDS {
      FullMeansAllUsed(t.slots, fd);
    }
  }

  lemma {:induction false} FullMeansAllUsed(slots: seq<Descriptor>, k: nat)
    requires k < |slots| && InUse(slots) == |slots|
    ensures slots[k].flags != 0
  {
    if k < |slots| - 1 {
      FullMeansAllUsed(slots[..|slots| - 1], k);
    }
  }

  // ----- one request -----

  /** A successful open takes the lowest unused slot in 2..7, leaves the others alone, and
      fails exactly when the table is full, the name is unknown or the type is. */
  lemma OpenSound(t: Table, lookup: Lookup)
    requires Consistent(t)
    ensures var (t', fd) := Open(t, lookup);
      && Consistent(t')
      && (fd == -1 <==> ((forall k | 0 <= k < NUM_FDS :: t.slots[k].flags != 0)
                         || lookup.NotFound? || !(0 <= lookup.filetype <= 2)))
      && (fd == -1 ==> t' == t)
      && (fd != -1 ==>
          && 2 <= fd < NUM_FDS
          && t.slots[fd].flags == 0
          && t'.slots[fd].flags == 1
          && t'.slots[fd].offset == 0
          && (t'.slots[fd].ops == FileOps <==> lookup.filetype == 2)
          && (t'.slots[fd].ops == DirOps <==> lookup.filetype == 1)
          && (t'.slots[fd].ops == RtcOps <==> lookup.filetype == 0)
          && t'.slots[fd].inode == (if lookup.filetype == 2 then lookup.inode else 0)
          && (forall k | 0 <= k < fd :: t.slots[k].flags != 0)
          && (forall k | 0 <= k < NUM_FDS && k != fd :: t'.slots[k] == t.slots[k]))
  {
    OpenFindsSlot(t);
    if t.count >= NUM_FDS {
      forall k | 0 <= k < NUM_FDS ensures t.slots[k].flags != 0 {
        FullMeansAllUsed(t.slots, k);
      }
    }
  }

  /** Close gives 0 and empties that slot only, for a descriptor in use that is at least 2 and below the number of
      those in use, and otherwise gives -1 and changes nothing. */
  lemma CloseSound(t: Table, fd: int)
    requires Consistent(t)
    ensures var (t', r) := Close(t, fd);
      && r == (if 2 <= fd < 8 && fd < t.count && t.slots[fd].flags != 0 then 0 else -1)
      && (r == -1 ==> t' == t)
      && (r == 0 ==>
          && t'.slots[fd].flags == 0 && t'.count == t.count - 1
          && forall k | 0 <= k < 8 && k != fd :: t'.slots[k] == t.slots[k])
  {
  }

  /** Opening fills a packed table at its end. */
  lemma OpenKeepsPacked(t: Table, lookup: Lookup)
    requires Packed(t)
    ensures Packed(Open(t, lookup).0)
    ensures Open(t, lookup).1 in {-1, t.count}
  {
    OpenFindsSlot(t);
    if t.count < NUM_FDS {
      assert t.slots[t.count].flags == 0;
      assert 1 < t.count;
      assert FirstFree(t.slots, 2) == t.count;
    }
  }

  /** A successful close leaves a packed table packed exactly when it closed the last one opened. */
  lemma ClosePackedIffLast(t: Table, fd: int)
    requires Packed(t) && Close(t, fd).1 == 0
    ensures Packed(Close(t, fd).0) <==> fd == t.count - 1
  {
    var t' := Close(t, fd).0;
    if fd != t.count - 1 {
      assert fd < t'.count && t'.slots[fd].flags == 0;
    }
  }

  // ----- whole runs -----

  function ServeAll(t: Table, reqs: seq<Request>): (r: Table)
    requires Consistent(t)
    ensures Consistent(r)
    decreases |reqs|
  {
    if reqs == [] then t
    else
      ServeAll(Serve(t, reqs[0]).0, reqs[1..])
  }

  /** Every close in the run names the most recently opened descriptor still open, or fails. */
  ghost predicate LastOpenedFirst(t: Table, reqs: seq<Request>)
    requires Consistent(t)
    decreases |reqs|
  {
    reqs == [] ||
    (&& (reqs[0].CloseFd? ==> Close(t, reqs[0].fd).1 == -1 || reqs[0].fd == t.count - 1)
     && LastOpenedFirst(Serve(t, reqs[0]).0, reqs[1..]))
  }

  lemma FreshPacked()
    ensures Packed(FRESH)
    ensures FRESH.count == 2 && FRESH.slots[0].ops == StdinOps && FRESH.slots[1].ops == StdoutOps
  {
    var s := FRESH.slots;
    assert s[..7] == s[..7] && s[..7][..6] == s[..6] && s[..6][..5] == s[..5] && s[..5][..4] == s[..4];
    assert s[..4][..3] == s[..3] && s[..3][..2] == s[..2] && s[..2][..1] == s[..1] && s[..1][..0] == [];
    assert InUse(s[..1]) == 1;
    assert InUse(s[..2]) == 2;
    assert InUse(s[..3]) == 2;
    assert InUse(s[..4]) == 2;
    assert InUse(s[..5]) == 2;
    assert InUse(s[..6]) == 2;
    assert InUse(s[..7]) == 2;
    assert InUse(s) == 2;
  }

  /** Over any run of requests on a packed table in which closes come last-opened-first, the
      descriptors in use stay exactly 0..count-1. */
  lemma {:induction false} LifoRunsStayPacked(t: Table, reqs: seq<Request>)
    requires Packed(t) && LastOpenedFirst(t, reqs)
    ensures Packed(ServeAll(t, reqs))
    decreases |reqs|
  {
    if reqs != [] {
      match reqs[0] {
        case OpenFile(lookup) => OpenKeepsPacked(t, lookup);
        case CloseFd(fd) =>
          if Close(t, fd).1 == 0 {
            ClosePackedIffLast(t, fd);
          }
      }
      LifoRunsStayPacked(Serve(t, reqs[0]).0, reqs[1..]);
    }
  }

  // ----- halt's close loop -----

  /** The number of slots in use up to and including fd, plus fd itself. */
  function Reach(t: Table, fd: nat): nat
    requires fd < |t.slots|
  {
    fd + InUse(t.slots[..fd + 1])
  }

  lemma ReachGrows(t: Table, fd: nat)
    requires fd + 1 < |t.slots|
    ensures InUse(t.slots[..fd + 2]) == InUse(t.slots[..fd + 1]) + if t.slots[fd + 1].flags != 0 then 1 else 0
    ensures Reach(t, fd) < Reach(t, fd + 1)
  {
    assert t.slots[..fd + 2][..fd + 1] == t.slots[..fd + 1];
  }

  /** The first fd descriptors with those closed that the loop closes. */
  ghost predicate Swept(t0: Table, t: Table, i: nat)
    requires |t0.slots| == |t.slots| == NUM_FDS && i <= NUM_FDS
  {
    forall fd: nat | fd < NUM_FDS ::
      t.slots[fd]
      == if 2 <= fd < i && t0.slots[fd].flags != 0 && Reach(t0, fd) < t0.count + 3 then CLOSED else t0.slots[fd]
  }

  /** Before the loop meets the first descriptor that it cannot close, the bound has shrunk by one for every
      descriptor met; from then on the bound stays at or below the index. */
  ghost predicate Bounded(t0: Table, t: Table, i: nat)
    requires |t0.slots| == NUM_FDS && 2 <= i <= NUM_FDS
  {
    || t.count == t0.count + 2 - InUse(t0.slots[..i])
    || (t.count <= i && Reach(t0, i - 1) >= t0.count + 3)
  }

  lemma SweepStep(t0: Table, t: Table, i: nat)
    requires Consistent(t0) && Consistent(t) && 2 <= i < NUM_FDS && Swept(t0, t, i) && Bounded(t0, t, i)
    ensures Swept(t0, Close(t, i).0, i + 1) && Bounded(t0, Close(t, i).0, i + 1)
  {
    ReachGrows(t0, i - 1);
    var t' := Close(t, i).0;
    assert t.slots[i] == t0.slots[i];
    forall fd: nat | fd < NUM_FDS
      ensures t'.slots[fd] == if 2 <= fd < i + 1 && t0.slots[fd].flags != 0 && Reach(t0, fd) < t0.count + 3
                              then CLOSED else t0.slots[fd]
    {
      assert fd != i ==> t'.slots[fd] == t.slots[fd];
    }
  }

  lemma {:induction false} SweepFrom(t0: Table, t: Table, i: nat)
    requires Consistent(t0) && Consistent(t) && 2 <= i <= NUM_FDS && Swept(t0, t, i) && Bounded(t0, t, i)
    ensures Swept(t0, CloseFrom(t, i), NUM_FDS)
    decreases NUM_FDS - i
  {
    if i < NUM_FDS {
      SweepStep(t0, t, i);
      SweepFrom(t0, Close(t, i).0, i + 1);
    }
  }

  lemma TwoInUse(t: Table)
    requires Consistent(t)
    ensures InUse(t.slots[..2]) == 2
  {
    assert t.slots[..2][..1] == t.slots[..1] && t.slots[..1][..0] == [];
  }

  /** The loop shrinks the bound it tests against. Of any table it closes exactly the descriptors fd in use
      with fd plus the number in use up to fd below count + 3, and changes nothing else. */
  lemma CloseLoopCloses(t: Table)
    requires Consistent(t)
    ensures Swept(t, CloseFrom(t, 0), NUM_FDS)
  {
    assert Close(t, 0).0 == t && Close(t, 1).0 == t;
    TwoInUse(t);
    SweepFrom(t, t, 2);
  }

  lemma {:induction false} InUseRest(t: Table, fd: nat)
    requires Consistent(t) && fd < NUM_FDS
    ensures InUse(t.slots[..fd + 1]) <= t.count
    ensures t.count == InUse(t.slots[..fd + 1]) <==> forall k: nat | fd < k < NUM_FDS :: t.slots[k].flags == 0
    decreases NUM_FDS - fd
  {
    if fd + 1 < NUM_FDS {
      ReachGrows(t, fd);
      InUseRest(t, fd + 1);
    } else {
      assert t.slots[..fd + 1] == t.slots;
    }
  }

  lemma HighestStaysOpen(t: Table, top: nat)
    requires Consistent(t) && 3 <= top < NUM_FDS && t.slots[top].flags != 0
    requires forall k: nat | top < k < NUM_FDS :: t.slots[k].flags == 0
    ensures CloseFrom(t, 0).slots[top].flags != 0
  {
    CloseLoopCloses(t);
    InUseRest(t, top);
    assert Reach(t, top) == top + t.count;
  }

  lemma NoneAboveTwo(t: Table)
    requires Consistent(t) && forall k: nat | 3 <= k < NUM_FDS :: t.slots[k].flags == 0
    ensures forall fd: nat | 2 <= fd < NUM_FDS :: CloseFrom(t, 0).slots[fd].flags == 0
  {
    CloseLoopCloses(t);
    InUseRest(t, 2);
    assert Reach(t, 2) == 2 + t.count;
    forall fd: nat | 2 <= fd < NUM_FDS ensures CloseFrom(t, 0).slots[fd].flags == 0 {
      assert fd > 2 ==> t.slots[fd].flags == 0;
    }
  }

  /** The loop closes all files exactly when no descriptor above 2 is open: the highest one, if it is above
      2, never comes below the bound. */
  lemma CloseLoopClosesAllIff(t: Table)
    requires Consistent(t)
    ensures (forall fd: nat | 2 <= fd < NUM_FDS :: CloseFrom(t, 0).slots[fd].flags == 0)
      <==> forall fd: nat | 3 <= fd < NUM_FDS :: t.slots[fd].flags == 0
  {
    if fd: nat :| 3 <= fd < NUM_FDS && t.slots[fd].flags != 0 {
      var top := HighestOpen(t, fd);
      HighestStaysOpen(t, top);
    } else {
      NoneAboveTwo(t);
    }
  }

  lemma {:induction false} HighestOpen(t: Table, fd: nat) returns (top: nat)
    requires |t.slots| == NUM_FDS && fd < NUM_FDS && t.slots[fd].flags != 0
    ensures fd <= top < NUM_FDS && t.slots[top].flags != 0
    ensures forall k: nat | top < k < NUM_FDS :: t.slots[k].flags == 0
    decreases NUM_FDS - fd
  {
    if k: nat :| fd < k < NUM_FDS && t.slots[k].flags != 0 {
      top := HighestOpen(t, k);
    } else {
      top := fd;
    }
  }

  /** Of a packed table of n descriptors the loop closes those with 2*fd < n+2 and leaves the rest open. */
  lemma CloseLoopLeavesUpperHalf(t: Table)
    requires Packed(t)
    ensures forall fd | 2 <= fd < NUM_FDS ::
      CloseFrom(t, 0).slots[fd].flags != 0 <==> fd < t.count && 2 * fd >= t.count + 2
  {
    CloseLoopCloses(t);
    forall fd: nat | 2 <= fd < t.count ensures Reach(t, fd) == 2 * fd + 1 {
      InUseAll(t.slots[..fd + 1]);
    }
  }

  /** Three files opened and the one in the middle closed: halt closes descriptor 2 and leaves 4 open. */
  lemma CloseLoopLeavesGap(inode: int)
    ensures var file := OpenFile(Found(FILE_FILETYPE, inode));
      && Consistent(FRESH)
      && var t := ServeAll(FRESH, [file, file, file, CloseFd(3)]);
      && t.slots[2].flags != 0 && t.slots[3].flags == 0 && t.slots[4].flags != 0
      && CloseFrom(t, 0).slots[2].flags == 0 && CloseFrom(t, 0).slots[4].flags != 0
  {
    FreshPacked();
    var file := OpenFile(Found(FILE_FILETYPE, inode));
    var t := ServeAll(FRESH, [file, file, file, CloseFd(3)]);
    OpensInARow(inode);
    assert t.slots[2].flags != 0 && t.slots[3].flags == 0 && t.slots[4].flags != 0 && t.count == 4;
    CloseLoopCloses(t);
    TwoInUse(t);
    ReachGrows(t, 1);
    ReachGrows(t, 2);
    ReachGrows(t, 3);
  }

  lemma OpensInARow(inode: int)
    ensures Consistent(FRESH)
    ensures var file := OpenFile(Found(FILE_FILETYPE, inode));
      var t := ServeAll(FRESH, [file, file, file, CloseFd(3)]);
      && t.count == 4
      && t.slots[2].flags != 0 && t.slots[3].flags == 0 && t.slots[4].flags != 0
  {
    FreshPacked();
    var file := OpenFile(Found(FILE_FILETYPE, inode));
    var t2 := Open(FRESH, file.lookup).0;
    OpenKeepsPacked(FRESH, file.lookup);
    OpenSound(FRESH, file.lookup);
    var t3 := Open(t2, file.lookup).0;
    OpenKeepsPacked(t2, file.lookup);
    OpenSound(t2, file.lookup);
    var t4 := Open(t3, file.lookup).0;
    OpenKeepsPacked(t3, file.lookup);
    OpenSound(t3, file.lookup);
    var reqs := [file, file, file, CloseFd(3)];
    assert reqs[1..] == [file, file, CloseFd(3)] && reqs[1..][1..] == [file, CloseFd(3)];
    assert reqs[1..][1..][1..] == [CloseFd(3)] && reqs[1..][1..][1..][1..] == [];
    assert ServeAll(FRESH, reqs) == ServeAll(t2, [file, file, CloseFd(3)]);
    assert ServeAll(t2, [file, file, CloseFd(3)]) == ServeAll(t3, [file, CloseFd(3)]);
    assert ServeAll(t3, [file, CloseFd(3)]) == ServeAll(t4, [CloseFd(3)]);
    assert ServeAll(t4, [CloseFd(3)]) == Close(t4, 3).0;
  }
}
