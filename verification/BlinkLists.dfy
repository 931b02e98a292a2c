/**
 The blink list as it is stored: structures in a pool of 2000, linked through their next fields. A link is
 the number of a slot plus 1, and 0 at the end of the list.
 */
module BlinkLists {
  import opened Blinkers

  /** The link to the k-th slot of the list. */
  function Link(order: seq<nat>, k: nat): nat {
    if k < |order| then order[k] + 1 else 0
  }

  ghost predicate LinkedAt(next: seq<nat>, order: seq<nat>, k: nat)
    requires k < |order|
  {
    order[k] < |next| && next[order[k]] == Link(order, k + 1)
  }

  ghost predicate Linked(next: seq<nat>, head: nat, order: seq<nat>) {
    head == Link(order, 0) && forall k: nat | k < |order| :: LinkedAt(next, order, k)
  }

  /** Unlinking the k-th slot of a list. */
  lemma UnlinkedList(next: seq<nat>, head: nat, order: seq<nat>, k: nat)
    requires Linked(next, head, order) && Distinct(order) && k < |order|
    ensures LinkedAt(next, order, k) && (k > 0 ==> LinkedAt(next, order, k - 1))
    ensures var after := next[order[k]];
      if k == 0 then Linked(next, after, order[1..])
      else Linked(next[order[k - 1] := after], head, order[..k] + order[k + 1..])
  {
    assert LinkedAt(next, order, k);
    var after, rest := next[order[k]], order[..k] + order[k + 1..];
    if k == 0 {
      forall j: nat | j < |order[1..]| ensures LinkedAt(next, order[1..], j) {
        assert LinkedAt(next, order, j + 1);
      }
    } else {
      assert LinkedAt(next, order, k - 1);
      var next' := next[order[k - 1] := after];
      forall j: nat | j < |rest| ensures LinkedAt(next', rest, j) {
        var i := if j < k then j else j + 1;
        assert LinkedAt(next, order, i) && rest[j] == order[i];
        assert i != k - 1 ==> order[i] != order[k - 1];
      }
    }
  }

  /** A slot that is not in the list can be written to. */
  lemma StillLinked(next: seq<nat>, head: nat, order: seq<nat>, i: nat, link: nat)
    requires Linked(next, head, order) && i < |next| && i !in order
    ensures Linked(next[i := link], head, order)
  {
    var next' := next[i := link];
    forall k: nat | k < |order| ensures LinkedAt(next', order, k) {
      assert LinkedAt(next, order, k) && order[k] != i;
    }
  }

  /** A slot in front of the list. */
  lemma LinkedCons(next: seq<nat>, head: nat, order: seq<nat>, i: nat)
    requires Linked(next, head, order) && i < |next| && i !in order
    ensures Linked(next[i := head], i + 1, [i] + order)
  {
    StillLinked(next, head, order, i, head);
    var next', order' := next[i := head], [i] + order;
    forall k: nat | k < |order'| ensures LinkedAt(next', order', k) {
      if k > 0 {
        assert LinkedAt(next', order, k - 1);
      }
    }
  }

  lemma FirstFreeIs(slots: seq<Blinker>, from: nat, i: nat)
    requires from <= i <= |slots| && (forall j | from <= j < i :: slots[j].location != 0)
    requires i < |slots| ==> slots[i].location == 0
    ensures FirstFree(slots, from) == i
  {
  }

  /** What an addition does to the links, whatever the location. */
  function Inserted(slots: seq<Blinker>, next: seq<nat>, head: nat, request: Blinker)
    : (r: (seq<Blinker>, seq<nat>, nat))
    requires |slots| == |next| == SLOTS
    ensures |r.0| == |r.1| == SLOTS
  {
    var i := FirstFree(slots, 0);
    if request.location >= SLOTS || i == SLOTS then (slots, next, head)
    else (slots[i := Started(request)], next[i := head], i + 1)
  }

  /** Location 0 is accepted but makes its slot look free: the next addition at location 0 takes the same
      slot and links it to itself. */
  lemma LocationZeroMakesCycle(slots: seq<Blinker>, next: seq<nat>, head: nat, request: Blinker)
    requires |slots| == |next| == SLOTS && request.location == 0 && FirstFree(slots, 0) < SLOTS
    ensures var (slots1, next1, head1) := Inserted(slots, next, head, request);
      var (_, next2, head2) := Inserted(slots1, next1, head1, request);
      head2 > 0 && next2[head2 - 1] == head2
  {
    var i := FirstFree(slots, 0);
    FirstFreeIs(slots[i := Started(request)], 0, i);
  }

  class BlinkList {
    const slots: array<Blinker>
    const next: array<nat>
    const cells: array<char>
    var head: nat
    ghost var order: seq<nat>

    ghost function Abs(): State
      reads this, slots, cells
    {
      State(slots[..], order, cells[..])
    }

    ghost predicate Chained()
      reads this, next
    {
      next.Length == SLOTS && Distinct(order) && Linked(next[..], head, order)
    }

    ghost predicate Valid()
      reads this, slots, next, cells
    {
      WellFormed(Abs()) && Chained()
    }

    /** The pool before the first addition, and a screen. */
    constructor (cells: array<char>)
      requires cells.Length == SLOTS
      ensures Valid() && this.cells == cells && order == [] && fresh(slots) && fresh(next)
    {
      this.slots := new Blinker[SLOTS](_ => EMPTY);
      this.next := new nat[SLOTS](_ => 0);
      this.cells := cells;
      head := 0;
      order := [];
    }

    /** mp1_malloc: the first slot that looks free, or 2000 for NULL. */
    method Malloc() returns (i: nat)
      requires slots.Length == SLOTS
      ensures i == FirstFree(slots[..], 0)
    {
      i := 0;
      while i < SLOTS
        invariant i <= SLOTS && forall j | 0 <= j < i :: slots[j].location != 0
      {
        if slots[i].location == 0 {
          break;
        }
        i := i + 1;
      }
      FirstFreeIs(slots[..], 0, i);
    }

    /** mp1_ioctl_add. Only an addition at location 0 leaves the list broken. */
    method Add(request: Blinker) returns (r: int)
      requires Valid() && Words(request)
      modifies this, slots, next, cells
      ensures (Abs(), r) == AddStep(old(Abs()), request)
      ensures (slots[..], next[..], head) == Inserted(old(slots[..]), old(next[..]), old(head), request)
      ensures Valid() <==> r == -1 || request.location != 0
    {
      if request.location >= SLOTS {
        return -1;
      }
      var started := request.(status := 1);
      started := started.(countdown := request.onLength);
      var i := Malloc();
      if i == SLOTS {
        return -1;
      }
      assert i !in order;
      AddKeeps(Abs(), request);
      LinkedCons(next[..], head, order, i);
      slots[i] := started;
      next[i] := head;
      head := i + 1;
      order := [i] + order;
      cells[started.location] := started.onChar;
      r := 0;
    }

    /** mp1_find_helper: a link to the most recently added blinker at a location, or 0. */
    method FindHelper(location: nat) returns (link: nat, ghost k: nat)
      requires Valid()
      ensures k == Position(slots[..], order, location)
      ensures link == Link(order, Position(slots[..], order, location))
    {
      link := head;
      k := 0;
      while link != 0
        invariant k <= |order| && link == Link(order, k)
        invariant Position(slots[..], order, location) == k + Position(slots[..], order[k..], location)
        decreases |order| - k
      {
        assert LinkedAt(next[..], order, k);
        assert order[k..][0] == order[k] == link - 1 && order[k..][1..] == order[k + 1..];
        if slots[link - 1].location == location {
          return;
        }
        link := next[link - 1];
        k := k + 1;
      }
    }

    /** mp1_ioctl_find: copies the blinker found. */
    method Find(location: nat) returns (r: int, found: Blinker)
      requires Valid()
      ensures r == FindStep(Abs(), location).1
      ensures r == 0 ==> found == slots[order[Position(slots[..], order, location)]]
    {
      var link, k := FindHelper(location);
      if link == 0 {
        return -1, EMPTY;
      }
      return 0, slots[link - 1];
    }

    /** mp1_ioctl_remove: the blinker found is unlinked and its slot is cleared. */
    method Remove(location: nat) returns (r: int)
      requires Valid()
      modifies this, slots, next
      ensures Valid() && (Abs(), r) == RemoveStep(old(Abs()), location)
    {
      hide Position, Linked, Distinct, Words;
      var link, k := FindHelper(location);
      if link == 0 {
        return -1;
      }
      RemoveKeeps(Abs(), location);
      assert slots.Length == SLOTS && order[k] < SLOTS;
      hide WellFormed;
      var prev := FindPrevious(link, k);
      Unlink(link, prev, k);
      Free(link - 1);
      r := 0;
    }

    /** mp1_free: clears a slot that is no longer in the list. */
    method Free(i: nat)
      requires slots.Length == SLOTS && i < SLOTS && Chained() && i !in order
      modifies slots, next
      ensures slots[..] == old(slots[..])[i := EMPTY] && Chained()
    {
      StillLinked(next[..], head, order, i, 0);
      slots[i] := EMPTY;
      next[i] := 0;
    }

    /** The structure whose next field holds the link, plus 1, or 0 when it is the head. */
    method FindPrevious(link: nat, ghost k: nat) returns (prev: nat)
      requires Chained() && k < |order| && link == Link(order, k)
      ensures prev == if k == 0 then 0 else order[k - 1] + 1
    {
      prev := 0;
      ghost var j := 0;
      var at := head;
      while at != link
        invariant j <= k && at == Link(order, j)
        invariant prev == if j == 0 then 0 else order[j - 1] + 1
        decreases k - j
      {
        assert order[j] != order[k] && LinkedAt(next[..], order, j);
        prev := at;
        at := next[at - 1];
        j := j + 1;
      }
      assert order[j] == order[k];
    }

    method Unlink(link: nat, prev: nat, ghost k: nat)
      requires Chained() && k < |order| && link == Link(order, k)
      requires prev == if k == 0 then 0 else order[k - 1] + 1
      modifies this, next
      ensures order == old(order[..k] + order[k + 1..])
      ensures Chained() && link - 1 !in order
    {
      UnlinkedList(next[..], head, order, k);
      WithoutDistinct(order, k);
      WithoutMember(order, k, order[k]);
      if prev == 0 {
        head := next[link - 1];
        assert order[..k] + order[k + 1..] == order[1..];
      } else {
        next[prev - 1] := next[link - 1];
      }
      order := order[..k] + order[k + 1..];
    }

    /** mp1_ioctl_sync: the second blinker takes over the rhythm of the first. */
    method Sync(from: nat, to: nat) returns (r: int)
      requires Valid()
      modifies slots, cells
      ensures Valid() && (Abs(), r) == SyncStep(old(Abs()), from, to)
    {
      hide Position, Linked, Distinct, Words;
      var source, k := FindHelper(from);
      if source == 0 {
        return -1;
      }
      var target, l := FindHelper(to);
      if target == 0 {
        return -1;
      }
      ghost var was := Abs();
      StepKeeps(was, Op.Sync(from, to));
      CopyRhythm(source - 1, target - 1);
      r := 0;
      assert Abs() == SyncStep(was, from, to).0;
    }

    method CopyRhythm(source: nat, target: nat)
      requires source < slots.Length && target < slots.Length && slots[target].location < cells.Length
      modifies slots, cells
      ensures slots[..] == old(slots[..][target := Synced(slots[target], slots[source])])
      ensures cells[..] == old(cells[..][slots[target].location := slots[target].offChar])
    {
      var b, like := slots[target], slots[source];
      b := b.(onLength := like.onLength, offLength := like.offLength);
      b := b.(countdown := like.countdown, status := like.status);
      slots[target] := b;
      cells[b.location] := b.offChar;
    }

    /** mp1_rtc_tasklet: one walk along the list. */
    method Tick()
      requires Valid()
      modifies slots, cells
      ensures Valid() && Abs() == Step(old(Abs()), Op.Tick).0
    {
      ghost var k, all := 0, TickFrom(Abs(), 0);
      var link := head;
      while link != 0
        invariant WellFormed(Abs()) && k <= |order| && link == Link(order, k)
        invariant TickFrom(Abs(), k) == all
        decreases |order| - k
      {
        assert LinkedAt(next[..], order, k);
        TickOne(link - 1, k);
        link := next[link - 1];
        k := k + 1;
      }
    }

    /** The tick for one blinker of the list. */
    method TickOne(i: nat, ghost k: nat)
      requires WellFormed(Abs()) && k < |order| && i == order[k]
      modifies slots, cells
      ensures WellFormed(Abs()) && TickFrom(Abs(), k + 1) == TickFrom(old(Abs()), k)
    {
      TickAtKeeps(Abs(), k);
      TickSlot(i);
      assert Abs() == TickAt(old(Abs()), k);
    }

    method TickSlot(i: nat)
      requires i < slots.Length && Words(slots[i]) && slots[i].location < cells.Length
      modifies slots, cells
      ensures slots[..] == old(slots[..][i := Ticked(slots[i])])
      ensures cells[..] == old(
        if Flips(slots[i]) then cells[..][slots[i].location := Shown(Flipped(slots[i]))] else cells[..])
    {
      var b := slots[i];
      b := b.(countdown := Decrement(b.countdown));
      if !Positive(b.countdown) {
        var length;
        if b.status % 2 == 1 {
          cells[b.location] := b.offChar;
          length := b.offLength;
        } else {
          cells[b.location] := b.onChar;
          length := b.onLength;
        }
        b := b.(countdown := length, status := if b.status % 2 == 1 then b.status - 1 else b.status + 1);
      }
      slots[i] := b;
    }
  }
}
