/**
 What the blink list is meant to be: the slots in use, most recent first, each blinking on its own.
 */
module Blinkers {
  import opened Arithmetic

  const SLOTS := 2000
  const WORD := 0x1_0000

  /** A blinking character; the fields of the structure other than the link. All numbers are 16 bits wide. */
  datatype Blinker = Blinker(location: nat, onChar: char, offChar: char, onLength: nat, offLength: nat,
                             countdown: nat, status: nat)

  /** A slot as mp1_free leaves it. */
  const EMPTY := Blinker(0, '\0', '\0', 0, 0, 0, 0)

  datatype Op = Add(request: Blinker) | Remove(location: nat) | Find(location: nat) | Sync(from: nat, to: nat) | Tick

  /** The slots, the slots in use in the order of the list, and the characters on the screen. */
  datatype State = State(slots: seq<Blinker>, order: seq<nat>, cells: seq<char>)

  predicate Word(n: nat) {
    n < WORD
  }

  predicate Words(b: Blinker) {
    Word(b.location) && Word(b.onLength) && Word(b.offLength) && Word(b.countdown) && Word(b.status)
  }

  predicate On(b: Blinker) {
    b.status % 2 == 1
  }

  function Shown(b: Blinker): char {
    if On(b) then b.onChar else b.offChar
  }

  // ----- one blinker -----

  /** decw. */
  function Decrement(n: nat): (r: nat)
    requires Word(n)
    ensures Word(r)
  {
    if n == 0 then WORD - 1 else n - 1
  }

  /** A 16-bit number above 0 when read as signed. */
  predicate Positive(n: nat) {
    0 < n < 0x8000
  }

  function Flipped(b: Blinker): Blinker {
    b.(countdown := if On(b) then b.offLength else b.onLength, status := if On(b) then b.status - 1 else b.status + 1)
  }

  predicate Flips(b: Blinker)
    requires Words(b)
  {
    !Positive(Decrement(b.countdown))
  }

  /** What a tick of the clock does to a blinker. */
  function Ticked(b: Blinker): (r: Blinker)
    requires Words(b)
    ensures Words(r) && r.location == b.location
    ensures On(r) <==> if Flips(b) then !On(b) else On(b)
  {
    if Flips(b) then Flipped(b) else b.(countdown := Decrement(b.countdown))
  }

  function TickedTimes(b: Blinker, k: nat): (r: Blinker)
    requires Words(b)
    ensures Words(r)
  {
    if k == 0 then b else Ticked(TickedTimes(b, k - 1))
  }

  /** A blinker as it is when it has been added. */
  function Started(request: Blinker): Blinker {
    request.(status := 1, countdown := request.onLength)
  }

  /** How many ticks a phase of a given length lasts: lengths that are not positive as signed 16-bit
      numbers count as 1, except the least one. */
  function Lasts(length: nat): (n: nat)
    ensures n >= 1
  {
    if length == 0 || length > 0x8000 then 1 else length
  }

  /** The blinker that is e ticks into its on phase, or into its off phase. */
  function Phase(b: Blinker, on: bool, e: nat): Blinker
    requires e < Lasts(if on then b.onLength else b.offLength)
  {
    b.(status := if on then 1 else 0, countdown := (if on then b.onLength else b.offLength) - e)
  }

  /** How many ticks one blink lasts. */
  function Period(b: Blinker): (p: nat)
    ensures p >= 2
  {
    Lasts(b.onLength) + Lasts(b.offLength)
  }

  /** The blinker that is r ticks into a blink. */
  function Within(b: Blinker, r: nat): Blinker
    requires r < Period(b)
  {
    if r < Lasts(b.onLength) then Phase(b, true, r) else Phase(b, false, r - Lasts(b.onLength))
  }

  lemma PhaseTicks(b: Blinker, on: bool, e: nat)
    requires Words(b) && e < Lasts(if on then b.onLength else b.offLength)
    ensures Words(Phase(b, on, e))
    ensures Ticked(Phase(b, on, e)) ==
      if e + 1 < Lasts(if on then b.onLength else b.offLength) then Phase(b, on, e + 1) else Phase(b, !on, 0)
  {
  }

  lemma WithinTicks(b: Blinker, r: nat)
    requires Words(b) && r < Period(b)
    ensures Words(Within(b, r)) && (On(Within(b, r)) <==> r < Lasts(b.onLength))
    ensures Ticked(Within(b, r)) == Within(b, if r + 1 == Period(b) then 0 else r + 1)
  {
    if r < Lasts(b.onLength) {
      PhaseTicks(b, true, r);
    } else {
      PhaseTicks(b, false, r - Lasts(b.onLength));
    }
  }

  lemma {:induction false} BlinkAfter(request: Blinker, k: nat) returns (q: nat, r: nat)
    requires Words(request)
    ensures k == q * Period(request) + r && r < Period(request)
    ensures TickedTimes(Started(request), k) == Within(request, r)
  {
    if k == 0 {
      q, r := 0, 0;
    } else {
      q, r := BlinkAfter(request, k - 1);
      WithinTicks(request, r);
      if r + 1 == Period(request) {
        assert (q + 1) * Period(request) == q * Period(request) + Period(request);
        q, r := q + 1, 0;
      } else {
        r := r + 1;
      }
    }
  }

  /** The closed form: a blinker is on in the first Lasts(onLength) of every Period ticks, and its
      countdown is what is left of the phase. */
  lemma {:induction false} BlinksPeriodically(request: Blinker, k: nat)
    requires Words(request)
    ensures TickedTimes(Started(request), k) == Within(request, k % Period(request))
    ensures On(TickedTimes(Started(request), k)) <==> k % Period(request) < Lasts(request.onLength)
  {
    var q, r := BlinkAfter(request, k);
    QuotientUnique(k, Period(request), q, r);
    WithinTicks(request, r);
  }

  // ----- the list -----

  ghost predicate Distinct(order: seq<nat>) {
    forall i, j | 0 <= i < j < |order| :: order[i] != order[j]
  }

  /** The pool takes a slot to be in use when its location is not 0. */
  ghost predicate InUse(slots: seq<Blinker>, i: nat)
    requires i < |slots|
  {
    slots[i].location != 0
  }

  /** The list holds exactly the slots in use, each once. */
  ghost predicate WellFormed(s: State) {
    && |s.slots| == SLOTS && |s.cells| == SLOTS
    && Distinct(s.order)
    && (forall k | 0 <= k < |s.order| :: s.order[k] < SLOTS && s.slots[s.order[k]].location != 0)
    && (forall i: nat | i < SLOTS :: s.slots[i].location < SLOTS && Words(s.slots[i]))
    && (forall i: nat | i < SLOTS && InUse(s.slots, i) :: i in s.order)
  }

  /** The first slot that looks free, or SLOTS. */
  function FirstFree(slots: seq<Blinker>, from: nat): (i: nat)
    requires from <= |slots|
    ensures from <= i <= |slots|
    ensures forall j | from <= j < i :: slots[j].location != 0
    ensures i < |slots| ==> slots[i].location == 0
    decreases |slots| - from
  {
    if from == |slots| || slots[from].location == 0 then from else FirstFree(slots, from + 1)
  }

  /** The position in the list of the most recently added blinker at a location, or the length of the list. */
  function Position(slots: seq<Blinker>, order: seq<nat>, location: nat): (k: nat)
    requires forall i | 0 <= i < |order| :: order[i] < |slots|
    ensures k <= |order|
    ensures forall i | 0 <= i < k :: slots[order[i]].location != location
    ensures k < |order| ==> slots[order[k]].location == location
  {
    if order == [] || slots[order[0]].location == location then 0 else 1 + Position(slots, order[1..], location)
  }

  function AddStep(s: State, request: Blinker): (r: (State, int))
    requires WellFormed(s) && Words(request)
  {
    var slot := FirstFree(s.slots, 0);
    if request.location >= SLOTS || slot == SLOTS then (s, -1)
    else
      (State(s.slots[slot := Started(request)], [slot] + s.order, s.cells[request.location := request.onChar]), 0)
  }

  function RemoveStep(s: State, location: nat): (r: (State, int))
    requires WellFormed(s)
  {
    var k := Position(s.slots, s.order, location);
    if k == |s.order| then (s, -1)
    else (State(s.slots[s.order[k] := EMPTY], s.order[..k] + s.order[k + 1..], s.cells), 0)
  }

  function FindStep(s: State, location: nat): (r: (State, int))
    requires WellFormed(s)
  {
    (s, if Position(s.slots, s.order, location) == |s.order| then -1 else 0)
  }

  function Synced(to: Blinker, from: Blinker): Blinker {
    to.(onLength := from.onLength, offLength := from.offLength, countdown := from.countdown, status := from.status)
  }

  /** The character shown afterwards is always the off character, whatever the new status: the branch of
      the conditional move is never taken. */
  function SyncStep(s: State, from: nat, to: nat): (r: (State, int))
    requires WellFormed(s)
  {
    var k, l := Position(s.slots, s.order, from), Position(s.slots, s.order, to);
    if k == |s.order| || l == |s.order| then (s, -1)
    else
      var b := Synced(s.slots[s.order[l]], s.slots[s.order[k]]);
      (s.(slots := s.slots[s.order[l] := b], cells := s.cells[b.location := b.offChar]), 0)
  }

  /** The tick for the blinker at position k of the list. */
  function TickAt(s: State, k: nat): State
    requires WellFormed(s) && k < |s.order|
  {
    var i := s.order[k];
    var b := s.slots[i];
    s.(slots := s.slots[i := Ticked(b)],
       cells := if Flips(b) then s.cells[b.location := Shown(Flipped(b))] else s.cells)
  }

  lemma TickAtKeeps(s: State, k: nat)
    requires WellFormed(s) && k < |s.order|
    ensures WellFormed(TickAt(s, k)) && TickAt(s, k).order == s.order
  {
  }

  /** The tick for the blinkers from position k of the list on. */
  function TickFrom(s: State, k: nat): State
    requires WellFormed(s) && k <= |s.order|
    decreases |s.order| - k
  {
    if k == |s.order| then s
    else
      TickAtKeeps(s, k);
      TickFrom(TickAt(s, k), k + 1)
  }

  lemma {:induction false} TickKeeps(s: State, k: nat)
    requires WellFormed(s) && k <= |s.order|
    ensures WellFormed(TickFrom(s, k)) && TickFrom(s, k).order == s.order
    decreases |s.order| - k
  {
    if k < |s.order| {
      TickAtKeeps(s, k);
      TickKeeps(TickAt(s, k), k + 1);
    }
  }

  function Step(s: State, op: Op): (r: (State, int))
    requires WellFormed(s) && (op.Add? ==> Words(op.request))
  {
    match op
    case Add(request) => AddStep(s, request)
    case Remove(location) => RemoveStep(s, location)
    case Find(location) => FindStep(s, location)
    case Sync(from, to) => SyncStep(s, from, to)
    case Tick => (TickFrom(s, 0), 0)
  }

  // ----- what one operation keeps -----

  lemma AddKeeps(s: State, request: Blinker)
    requires WellFormed(s) && Words(request)
    ensures WellFormed(AddStep(s, request).0) <==> AddStep(s, request).1 == -1 || request.location != 0
  {
    var (s', r) := AddStep(s, request);
    if r == 0 {
      var slot := FirstFree(s.slots, 0);
      assert slot !in s.order;
      assert s'.order[0] == slot;
      if request.location != 0 {
        forall i: nat | i < SLOTS ensures s'.slots[i].location != 0 <==> i in s'.order {
          assert i in s'.order <==> i == slot || i in s.order;
        }
      } else {
        assert slot in s'.order && s'.slots[slot].location == 0;
      }
    }
  }

  lemma RemoveKeeps(s: State, location: nat)
    requires WellFormed(s)
    ensures WellFormed(RemoveStep(s, location).0)
  {
    var (s', r) := RemoveStep(s, location);
    if r == 0 {
      var k := Position(s.slots, s.order, location);
      WithoutDistinct(s.order, k);
      forall i: nat | i < SLOTS ensures s'.slots[i].location != 0 <==> i in s'.order {
        WithoutMember(s.order, k, i);
      }
    }
  }

  lemma WithoutMember(order: seq<nat>, k: nat, i: nat)
    requires k < |order| && Distinct(order)
    ensures i in order[..k] + order[k + 1..] <==> i in order && i != order[k]
  {
    var rest := order[..k] + order[k + 1..];
    if i in order && i != order[k] {
      var j :| 0 <= j < |order| && order[j] == i;
      assert rest[if j < k then j else j - 1] == i;
    }
    if i in rest {
      var j :| 0 <= j < |rest| && rest[j] == i;
      assert order[if j < k then j else j + 1] == i;
    }
  }

  lemma WithoutDistinct(order: seq<nat>, k: nat)
    requires k < |order| && Distinct(order)
    ensures Distinct(order[..k] + order[k + 1..])
    ensures forall i | i in order[..k] + order[k + 1..] :: i in order
  {
    var rest := order[..k] + order[k + 1..];
    assert forall j | 0 <= j < |rest| :: rest[j] == order[if j < k then j else j + 1];
  }

  lemma StepKeeps(s: State, op: Op)
    requires WellFormed(s)
    requires op.Add? ==> Words(op.request) && op.request.location != 0
    ensures WellFormed(Step(s, op).0)
  {
    match op
    case Add(request) => AddKeeps(s, request);
    case Remove(location) => RemoveKeeps(s, location);
    case Tick => TickKeeps(s, 0);
    case _ =>
  }

  // ----- the plain list -----

  /** The blinkers in list order, wherever they are stored. */
  function Records(s: State): (l: seq<Blinker>)
    requires WellFormed(s)
    ensures |l| == |s.order|
  {
    seq(|s.order|, k requires 0 <= k < |s.order| => s.slots[s.order[k]])
  }

  function Index(l: seq<Blinker>, location: nat): (k: nat)
    ensures k <= |l|
    ensures forall i | 0 <= i < k :: l[i].location != location
    ensures k < |l| ==> l[k].location == location
  {
    if l == [] || l[0].location == location then 0 else 1 + Index(l[1..], location)
  }

  /** The operations on a list of at most 2000 blinkers, without slots and links. */
  function ListStep(l: seq<Blinker>, op: Op): (l': seq<Blinker>)
    requires (forall k | 0 <= k < |l| :: Words(l[k])) && (op.Add? ==> Words(op.request))
    ensures forall k | 0 <= k < |l'| :: Words(l'[k])
  {
    match op
    case Add(request) => if request.location >= SLOTS || |l| == SLOTS then l else [Started(request)] + l
    case Remove(location) =>
      var k := Index(l, location);
      if k == |l| then l else l[..k] + l[k + 1..]
    case Find(_) => l
    case Sync(from, to) =>
      var j, k := Index(l, from), Index(l, to);
      assert forall i | 0 <= i < |l| :: Words(l[i]);
      if j == |l| || k == |l| then l else l[k := Synced(l[k], l[j])]
    case Tick => seq(|l|, k requires 0 <= k < |l| => Ticked(l[k]))
  }

  function Members(order: seq<nat>): (m: set<nat>)
    ensures forall i :: i in m <==> i in order
  {
    if order == [] then {} else {order[0]} + Members(order[1..])
  }

  function Below(n: nat): (m: set<nat>)
    ensures forall i: nat :: i in m <==> i < n
    ensures |m| == n
  {
    if n == 0 then {} else Below(n - 1) + {n - 1}
  }

  lemma {:induction false} DistinctCount(order: seq<nat>)
    requires Distinct(order)
    ensures |Members(order)| == |order|
  {
    if order != [] {
      DistinctCount(order[1..]);
      assert order[0] !in order[1..];
    }
  }

  lemma {:induction false} SubsetCount(a: set<nat>, b: set<nat>)
    requires a <= b
    ensures |a| <= |b|
    decreases |b|
  {
    if a != {} {
      var x :| x in a;
      SubsetCount(a - {x}, b - {x});
    }
  }

  lemma MissingOne(order: seq<nat>, n: nat, i: nat)
    requires Distinct(order) && (forall k | 0 <= k < |order| :: order[k] < n) && i < n && i !in order
    ensures |order| < n
  {
    DistinctCount(order);
    SubsetCount(Members(order), Below(n) - {i});
  }

  lemma MissingNone(order: seq<nat>, n: nat)
    requires Distinct(order) && forall i: nat | i < n :: i in order
    ensures |order| >= n
  {
    DistinctCount(order);
    SubsetCount(Below(n), Members(order));
  }

  lemma AtMost(order: seq<nat>, n: nat)
    requires Distinct(order) && forall k | 0 <= k < |order| :: order[k] < n
    ensures |order| <= n
  {
    DistinctCount(order);
    SubsetCount(Members(order), Below(n));
  }

  /** Every slot is in use exactly when the list holds 2000 blinkers. */
  lemma FullIffNoneFree(s: State)
    requires WellFormed(s)
    ensures FirstFree(s.slots, 0) == SLOTS <==> |s.order| == SLOTS
  {
    var free := FirstFree(s.slots, 0);
    if free == SLOTS {
      forall i: nat | i < SLOTS ensures i in s.order {
        assert s.slots[i].location != 0;
      }
      MissingNone(s.order, SLOTS);
      AtMost(s.order, SLOTS);
    } else {
      MissingOne(s.order, SLOTS, free);
    }
  }

  lemma {:induction false} PositionIsIndex(slots: seq<Blinker>, order: seq<nat>, l: seq<Blinker>, location: nat)
    requires |l| == |order| && forall k | 0 <= k < |order| :: order[k] < |slots| && l[k] == slots[order[k]]
    ensures Position(slots, order, location) == Index(l, location)
  {
    if order != [] && slots[order[0]].location != location {
      PositionIsIndex(slots, order[1..], l[1..], location);
    }
  }

  /** An addition of a valid location other than 0 fails only when all 2000 slots are in use. */
  lemma AddFailsIffFull(s: State, request: Blinker)
    requires WellFormed(s) && Words(request) && 0 < request.location < 2000
    ensures AddStep(s, request).1 == -1 <==> |Records(s)| == 2000
  {
    FullIffNoneFree(s);
  }

  /** What a tick does to each slot. */
  lemma {:induction false} TickSlots(s: State, k: nat)
    requires WellFormed(s) && k <= |s.order|
    ensures |TickFrom(s, k).slots| == SLOTS
    ensures forall i: nat | i < SLOTS ::
      TickFrom(s, k).slots[i] == if i in s.order[k..] then Ticked(s.slots[i]) else s.slots[i]
    decreases |s.order| - k
  {
    if k < |s.order| {
      TickAtKeeps(s, k);
      TickSlots(TickAt(s, k), k + 1);
      assert s.order[k..] == [s.order[k]] + s.order[k + 1..];
      assert s.order[k] !in s.order[k + 1..];
    }
  }

  lemma AddRefines(s: State, request: Blinker)
    requires WellFormed(s) && Words(request) && request.location != 0 && WellFormed(AddStep(s, request).0)
    ensures Records(AddStep(s, request).0) == ListStep(Records(s), Add(request))
  {
    FullIffNoneFree(s);
    var slot := FirstFree(s.slots, 0);
    if request.location < SLOTS && slot < SLOTS {
      AddedRecords(s, request, slot, s.cells[request.location := request.onChar]);
    }
  }

  lemma AddedRecords(s: State, request: Blinker, slot: nat, cells: seq<char>)
    requires WellFormed(s) && slot < SLOTS && s.slots[slot].location == 0
    requires var s' := State(s.slots[slot := Started(request)], [slot] + s.order, cells); WellFormed(s')
    ensures Records(State(s.slots[slot := Started(request)], [slot] + s.order, cells))
         == [Started(request)] + Records(s)
  {
    var s' := State(s.slots[slot := Started(request)], [slot] + s.order, cells);
    forall k | 0 <= k < |s'.order| ensures Records(s')[k] == ([Started(request)] + Records(s))[k] {
      if k > 0 {
        assert s'.order[k] == s.order[k - 1] && s.slots[s.order[k - 1]].location != 0;
      }
    }
  }

  lemma {:induction false} RemoveRefines(s: State, location: nat)
    requires WellFormed(s) && WellFormed(RemoveStep(s, location).0)
    ensures Records(RemoveStep(s, location).0) == ListStep(Records(s), Remove(location))
  {
    PositionIsIndex(s.slots, s.order, Records(s), location);
    RemoveRecords(s, location);
  }

  lemma SyncRefines(s: State, from: nat, to: nat)
    requires WellFormed(s) && WellFormed(SyncStep(s, from, to).0)
    ensures Records(SyncStep(s, from, to).0) == ListStep(Records(s), Sync(from, to))
  {
    hide Position, Index, Words;
    var l := Records(s);
    PositionIsIndex(s.slots, s.order, l, from);
    PositionIsIndex(s.slots, s.order, l, to);
    var j, k := Index(l, from), Index(l, to);
    if j < |l| && k < |l| {
      assert forall i | 0 <= i < |l| && i != k :: s.order[i] != s.order[k];
    }
  }

  lemma TickRefines(s: State)
    requires WellFormed(s) && WellFormed(TickFrom(s, 0)) && TickFrom(s, 0).order == s.order
    ensures Records(TickFrom(s, 0)) == ListStep(Records(s), Tick)
  {
    TickSlots(s, 0);
    assert s.order[0..] == s.order;
  }

  /** The slots are invisible: every operation does to the list what it should. */
  lemma StepRefinesList(s: State, op: Op)
    requires WellFormed(s) && (op.Add? ==> Words(op.request) && op.request.location != 0)
    ensures WellFormed(Step(s, op).0) && Records(Step(s, op).0) == ListStep(Records(s), op)
  {
    StepKeeps(s, op);
    match op
    case Add(request) => AddRefines(s, request);
    case Remove(location) => RemoveRefines(s, location);
    case Find(_) =>
    case Sync(from, to) => SyncRefines(s, from, to);
    case Tick =>
      TickKeeps(s, 0);
      TickRefines(s);
  }

  /** Is there a blinker at this location? */
  ghost predicate Listed(l: seq<Blinker>, location: nat) {
    exists b :: b in l && b.location == location
  }

  lemma ListedIndex(l: seq<Blinker>, location: nat)
    ensures Listed(l, location) <==> Index(l, location) < |l|
  {
    if Index(l, location) < |l| {
      assert l[Index(l, location)] in l;
    }
  }

  /** An operation gives 0 if the blinkers it names are there, or if there is room for the one it adds at one of the
      2000 locations, and otherwise -1, and then changes nothing. */
  lemma StepAnswers(s: State, op: Op)
    requires WellFormed(s) && (op.Add? ==> Words(op.request))
    ensures var (l, (s', r)) := (Records(s), Step(s, op));
      && r == (if match op
                  case Add(request) => request.location < 2000 && |l| < 2000
                  case Remove(location) => Listed(l, location)
                  case Find(location) => Listed(l, location)
                  case Sync(from, to) => Listed(l, from) && Listed(l, to)
                  case Tick => true
               then 0 else -1)
      && (r == -1 ==> s' == s)
  {
    var l := Records(s);
    match op
    case Add(_) =>
      FullIffNoneFree(s);
      AtMost(s.order, SLOTS);
    case Remove(location) => LocationListed(s, location);
    case Find(location) => LocationListed(s, location);
    case Sync(from, to) =>
      LocationListed(s, from);
      LocationListed(s, to);
    case Tick =>
  }

  lemma LocationListed(s: State, location: nat)
    requires WellFormed(s)
    ensures Listed(Records(s), location) <==> Position(s.slots, s.order, location) < |s.order|
  {
    PositionIsIndex(s.slots, s.order, Records(s), location);
    ListedIndex(Records(s), location);
  }

  /** After a synchronisation the second blinker, and no other, is changed: it stays where it is and shows its own
      characters, and from then on it is on whenever the first one is. */
  lemma SyncInStep(l: seq<Blinker>, from: nat, to: nat, n: nat)
    requires (forall k | 0 <= k < |l| :: Words(l[k])) && Listed(l, from) && Listed(l, to)
    ensures var (l', j, k) := (ListStep(l, Sync(from, to)), Index(l, from), Index(l, to));
      && |l'| == |l| && j < |l| && k < |l| && l[j].location == from
      && (forall i | 0 <= i < |l| && i != k :: l'[i] == l[i])
      && l'[k].location == to && l'[k].onChar == l[k].onChar && l'[k].offChar == l[k].offChar
      && TickedTimes(l'[k], n).status == TickedTimes(l[j], n).status
      && TickedTimes(l'[k], n).countdown == TickedTimes(l[j], n).countdown
  {
    ListedIndex(l, from);
    ListedIndex(l, to);
    InStep(Synced(l[Index(l, to)], l[Index(l, from)]), l[Index(l, from)], n);
  }

  lemma {:induction false} InStep(a: Blinker, b: Blinker, n: nat)
    requires Words(a) && Words(b) && a.onLength == b.onLength && a.offLength == b.offLength
    requires a.countdown == b.countdown && a.status == b.status
    ensures var (a', b') := (TickedTimes(a, n), TickedTimes(b, n));
      && a'.onLength == b'.onLength && a'.offLength == b'.offLength
      && a'.countdown == b'.countdown && a'.status == b'.status
  {
    if n > 0 {
      InStep(a, b, n - 1);
    }
  }

  lemma RemoveRecords(s: State, location: nat)
    requires WellFormed(s) && WellFormed(RemoveStep(s, location).0)
    ensures var k := Position(s.slots, s.order, location);
      k < |s.order| ==> Records(RemoveStep(s, location).0) == Records(s)[..k] + Records(s)[k + 1..]
  {
  }

  // ----- whole runs -----

  /** Every location added is valid and not 0. */
  predicate Allowed(op: Op) {
    op.Add? ==> Words(op.request) && 0 < op.request.location
  }

  function Run(s: State, ops: seq<Op>): (r: State)
    requires WellFormed(s) && forall k | 0 <= k < |ops| :: Allowed(ops[k])
    ensures WellFormed(r)
    decreases |ops|
  {
    if ops == [] then s
    else
      assert Allowed(ops[0]);
      StepKeeps(s, ops[0]);
      assert forall k | 0 <= k < |ops[1..]| :: ops[1..][k] == ops[k + 1];
      Run(Step(s, ops[0]).0, ops[1..])
  }

  function ListRun(l: seq<Blinker>, ops: seq<Op>): seq<Blinker>
    requires forall k | 0 <= k < |l| :: Words(l[k])
    requires forall k | 0 <= k < |ops| :: Allowed(ops[k])
    decreases |ops|
  {
    assert ops != [] ==> Allowed(ops[0]);
    if ops == [] then l else ListRun(ListStep(l, ops[0]), ops[1..])
  }

  lemma {:induction false} RunRefinesList(s: State, ops: seq<Op>)
    requires WellFormed(s) && forall k | 0 <= k < |ops| :: Allowed(ops[k])
    ensures Records(Run(s, ops)) == ListRun(Records(s), ops)
    decreases |ops|
  {
    if ops != [] {
      StepRefinesList(s, ops[0]);
      RunRefinesList(Step(s, ops[0]).0, ops[1..]);
    }
  }

  function Ticks(ops: seq<Op>): nat {
    if ops == [] then 0 else (if ops[0].Tick? then 1 else 0) + Ticks(ops[1..])
  }

  /** Does the operation leave alone the blinkers at a location, other than by ticking? */
  predicate Spares(op: Op, location: nat) {
    op != Remove(location) && (op.Sync? ==> op.to != location)
  }

  lemma StepSpares(s: State, op: Op, i: nat)
    requires WellFormed(s) && Allowed(op) && i < SLOTS && s.slots[i].location != 0
    requires Spares(op, s.slots[i].location)
    ensures |Step(s, op).0.slots| == SLOTS
    ensures Step(s, op).0.slots[i] == if op.Tick? then Ticked(s.slots[i]) else s.slots[i]
  {
    if op.Tick? {
      TickSlots(s, 0);
      assert s.order[0..] == s.order;
    }
  }

  lemma {:induction false} TickedFirst(b: Blinker, k: nat)
    requires Words(b)
    ensures TickedTimes(Ticked(b), k) == TickedTimes(b, k + 1)
  {
    if k > 0 {
      TickedFirst(b, k - 1);
    }
  }

  lemma {:induction false} RunSpares(s: State, ops: seq<Op>, i: nat)
    requires WellFormed(s) && i < SLOTS && s.slots[i].location != 0
    requires forall k | 0 <= k < |ops| :: Allowed(ops[k]) && Spares(ops[k], s.slots[i].location)
    ensures Run(s, ops).slots[i] == TickedTimes(s.slots[i], Ticks(ops))
    decreases |ops|
  {
    if ops != [] {
      StepSpares(s, ops[0], i);
      StepKeeps(s, ops[0]);
      RunSpares(Step(s, ops[0]).0, ops[1..], i);
      TickedFirst(s.slots[i], Ticks(ops[1..]));
    }
  }

  /** Over any run in which nothing removes it or synchronises it, a blinker keeps its slot and blinks by
      its own two lengths, counted from the moment it was added. */
  lemma {:induction false} UndisturbedBlinks(s: State, request: Blinker, ops: seq<Op>)
    requires WellFormed(s) && Allowed(Add(request)) && AddStep(s, request).1 == 0
    requires forall k | 0 <= k < |ops| :: Allowed(ops[k]) && Spares(ops[k], request.location)
    ensures WellFormed(AddStep(s, request).0)
    ensures var i := FirstFree(s.slots, 0);
      var b := Run(AddStep(s, request).0, ops).slots[i];
      && b == Within(request, Ticks(ops) % Period(request))
      && (On(b) <==> Ticks(ops) % Period(request) < Lasts(request.onLength))
  {
    var i := FirstFree(s.slots, 0);
    AddKeeps(s, request);
    RunSpares(AddStep(s, request).0, ops, i);
    BlinksPeriodically(request, Ticks(ops));
  }

  // ----- the screen -----

  /** No two blinkers share a location. */
  ghost predicate Apart(s: State)
    requires WellFormed(s)
  {
    forall i: nat, j: nat | i < j < SLOTS && s.slots[i].location != 0 ::
      s.slots[i].location != s.slots[j].location
  }

  /** Does the screen show every blinker as it is? */
  ghost predicate Faithful(s: State)
    requires WellFormed(s)
  {
    forall i: nat | i < SLOTS && s.slots[i].location != 0 :: s.cells[s.slots[i].location] == Shown(s.slots[i])
  }

  lemma TickAtFaithful(s: State, k: nat)
    requires WellFormed(s) && Apart(s) && Faithful(s) && k < |s.order|
    ensures WellFormed(TickAt(s, k)) && Apart(TickAt(s, k)) && Faithful(TickAt(s, k))
  {
    TickAtKeeps(s, k);
    var s', here := TickAt(s, k), s.order[k];
    var b := s.slots[here];
    forall i: nat | i < SLOTS && s'.slots[i].location != 0
      ensures s'.cells[s'.slots[i].location] == Shown(s'.slots[i])
    {
      if i != here {
        assert s.slots[i].location != b.location;
      } else {
        assert Shown(Ticked(b)) == if Flips(b) then Shown(Flipped(b)) else Shown(b);
      }
    }
  }

  lemma {:induction false} TickFaithful(s: State, k: nat)
    requires WellFormed(s) && Apart(s) && Faithful(s) && k <= |s.order|
    ensures WellFormed(TickFrom(s, k)) && Apart(TickFrom(s, k)) && Faithful(TickFrom(s, k))
    decreases |s.order| - k
  {
    if k < |s.order| {
      TickAtKeeps(s, k);
      TickAtFaithful(s, k);
      TickFaithful(TickAt(s, k), k + 1);
    }
  }

  /** Does the operation add no second blinker at a location and synchronise none? */
  ghost predicate KeepsApart(s: State, op: Op)
    requires WellFormed(s)
  {
    && Allowed(op) && !op.Sync?
    && (op.Add? ==> forall i: nat | i < SLOTS :: s.slots[i].location != op.request.location)
  }

  /** The screen follows the blinkers. */
  lemma StepFaithful(s: State, op: Op)
    requires WellFormed(s) && Apart(s) && Faithful(s) && KeepsApart(s, op)
    ensures WellFormed(Step(s, op).0) && Apart(Step(s, op).0) && Faithful(Step(s, op).0)
  {
    StepKeeps(s, op);
    if op.Tick? {
      TickFaithful(s, 0);
    }
  }

  ghost predicate RunKeepsApart(s: State, ops: seq<Op>)
    requires WellFormed(s)
    decreases |ops|
  {
    ops == [] ||
    (KeepsApart(s, ops[0]) && (StepKeeps(s, ops[0]); RunKeepsApart(Step(s, ops[0]).0, ops[1..])))
  }

  lemma {:induction false} RunFaithful(s: State, ops: seq<Op>)
    requires WellFormed(s) && Apart(s) && Faithful(s) && RunKeepsApart(s, ops)
    requires forall k | 0 <= k < |ops| :: Allowed(ops[k])
    ensures Faithful(Run(s, ops))
    decreases |ops|
  {
    if ops != [] {
      StepFaithful(s, ops[0]);
      RunFaithful(Step(s, ops[0]).0, ops[1..]);
    }
  }

  /** What is seen of a blinker, over any run in which locations stay distinct and nothing removes it or
      synchronises anything: its on character in the first part of every period since it was added, and its off
      character in the rest. */
  lemma UndisturbedShows(s: State, request: Blinker, ops: seq<Op>)
    requires WellFormed(s) && Apart(s) && Faithful(s) && KeepsApart(s, Add(request)) && AddStep(s, request).1 == 0
    requires forall k | 0 <= k < |ops| :: Allowed(ops[k]) && Spares(ops[k], request.location)
    requires WellFormed(AddStep(s, request).0) && RunKeepsApart(AddStep(s, request).0, ops)
    ensures Run(AddStep(s, request).0, ops).cells[request.location]
         == if Ticks(ops) % Period(request) < Lasts(request.onLength) then request.onChar else request.offChar
  {
    UndisturbedBlinks(s, request, ops);
    StepFaithful(s, Add(request));
    RunFaithful(AddStep(s, request).0, ops);
    assert Within(request, Ticks(ops) % Period(request)).location == request.location;
  }

  /** Synchronising shows the off character: the screen is then right exactly when the blinker is off. */
  lemma SyncShowsOff(s: State, from: nat, to: nat)
    requires WellFormed(s) && Apart(s) && SyncStep(s, from, to).1 == 0
    ensures var s' := SyncStep(s, from, to).0;
      var b := s'.slots[s.order[Position(s.slots, s.order, to)]];
      && s'.cells[to] == b.offChar
      && (s'.cells[to] == Shown(b) <==> !On(b) || b.onChar == b.offChar)
  {
  }
}
