/**
 What the process table is meant to be: for every terminal a stack of processes,
 the base shell at the bottom and the running program on top.
 */
module ProcessStacks {
  import opened Descriptors
  import opened ProcessTable

  /** caller is the (esp, ebp) pair of the parent inside the execute call that made this process. */
  datatype Frame = Frame(pid: int, caller: Context, files: Table)

  /** saved is the context of the top process when the terminal was last switched out. */
  datatype Tty = Off | On(stack: seq<Frame>, saved: Context)

  datatype Stacks = Stacks(ttys: seq<Tty>, sched: int)

  function Top(tty: Tty): Frame
    requires tty.On? && tty.stack != []
  {
    tty.stack[|tty.stack| - 1]
  }

  /** The terminal after terminal t in the rotation. */
  function Next(t: int): int {
    if t == NUM_TERMS - 1 then 0 else t + 1
  }

  function Depth(tty: Tty): nat {
    if tty.Off? then 0 else |tty.stack|
  }

  function Pids(tty: Tty): set<int> {
    if tty.Off? then {} else set f | f in tty.stack :: f.pid
  }

  function Live(a: Stacks): set<int>
    requires |a.ttys| == NUM_TERMS
  {
    Pids(a.ttys[0]) + Pids(a.ttys[1]) + Pids(a.ttys[2])
  }

  function LowestFree(live: set<int>, from: nat): (pid: int)
    requires from <= MAX_PCBS + 1
    ensures from <= pid <= MAX_PCBS + 1
    ensures forall p | from <= p < pid :: p in live
    ensures pid <= MAX_PCBS ==> pid !in live
    decreases MAX_PCBS + 1 - from
  {
    if from == MAX_PCBS + 1 || from !in live then from else LowestFree(live, from + 1)
  }

  ghost predicate Stacked(a: Stacks) {
    && |a.ttys| == NUM_TERMS
    && 0 <= a.sched < NUM_TERMS
    && a.ttys[a.sched].On?
    && forall t | 0 <= t < NUM_TERMS && a.ttys[t].On? :: Sound(a.ttys[t].stack)
  }

  ghost predicate Sound(stack: seq<Frame>) {
    stack != [] && forall i | 0 <= i < |stack| :: Consistent(stack[i].files)
  }

  function Current(a: Stacks): Tty
    requires |a.ttys| == NUM_TERMS && 0 <= a.sched < NUM_TERMS
  {
    a.ttys[a.sched]
  }

  function SetCurrent(a: Stacks, stack: seq<Frame>): (r: Stacks)
    requires Stacked(a) && Sound(stack)
    ensures Stacked(r)
  {
    a.(ttys := a.ttys[a.sched := Current(a).(stack := stack)])
  }

  function Push(a: Stacks, program: Program, ctx: Context): (r: (Stacks, Control))
    requires Stacked(a)
    ensures Stacked(r.0)
  {
    var pid := LowestFree(Live(a), 1);
    if !program.Image? && !(program.Corrupt? && pid > MAX_PCBS) then (a, Return(-1))
    else if pid > MAX_PCBS then (a, Return(RETURN_EXCEPTION))
    else
      FreshPacked();
      (SetCurrent(a, Current(a).stack + [Frame(pid, ctx, FRESH)]), Enter(program.entry))
  }

  /** What the execute call of a halted program returns. */
  function ExitValue(status: int): int {
    if status == EXCEPTION_STATUS then RETURN_EXCEPTION else status
  }

  function Pop(a: Stacks, status: int, inner: Context, entry: int): (r: (Stacks, Control))
    requires Stacked(a)
    ensures Stacked(r.0)
  {
    var stack := Current(a).stack;
    var top := Top(Current(a));
    if |stack| == 1 then
      FreshPacked();
      (SetCurrent(a, [Frame(top.pid, inner, FRESH)]), Enter(entry))
    else
      (SetCurrent(a, stack[..|stack| - 1]),
       Unwind(top.caller, ExitValue(status)))
  }

  /** The scheduled terminal is switched out in context ctx. */
  function Leave(a: Stacks, ctx: Context): (r: Stacks)
    requires Stacked(a)
    ensures Stacked(r)
  {
    a.(ttys := a.ttys[a.sched := Current(a).(saved := ctx)])
  }

  function Rotate(a: Stacks, ctx: Context, inner: Context, entry: int): (r: (Stacks, Control))
    requires Stacked(a)
    ensures Stacked(r.0)
  {
    var next := Next(a.sched);
    var ttys := Leave(a, ctx).ttys;
    if ttys[next].Off? then
      FreshPacked();
      (Stacks(ttys[next := On([Frame(LowestFree(Live(a), 1), inner, FRESH)], ctx)], next), Enter(entry))
    else (Stacks(ttys, next), Resume(ttys[next].saved))
  }

  function Touch(a: Stacks, request: Request): (r: (Stacks, Control))
    requires Stacked(a)
    ensures Stacked(r.0)
  {
    var stack := Current(a).stack;
    var top := Top(Current(a));
    var (files, value) := Serve(top.files, request);
    (SetCurrent(a, stack[|stack| - 1 := top.(files := files)]), Return(value))
  }

  function Move(a: Stacks, e: Event): (r: (Stacks, Control))
    requires Stacked(a)
    ensures Stacked(r.0)
  {
    match e
    case Tick(ctx, inner, entry) => Rotate(a, ctx, inner, entry)
    case Execute(program, ctx) => Push(a, program, ctx)
    case Halt(status, inner, entry) => Pop(a, status, inner, entry)
    case Files(request) => Touch(a, request)
  }

  /** When the table keeps to the stacks: a terminal starts only while a pid is free, a base shell
      halts only while no lower pid is free, and no program is found corrupt after a pid was claimed. */
  predicate Fits(a: Stacks, e: Event)
    requires Stacked(a)
  {
    match e
    case Tick(_, _, _) => a.ttys[Next(a.sched)].Off? ==> LowestFree(Live(a), 1) <= MAX_PCBS
    case Execute(program, _) => program.Corrupt? ==> LowestFree(Live(a), 1) > MAX_PCBS
    case Halt(_, _, _) => |Current(a).stack| == 1 ==> LowestFree(Live(a), 1) > Top(Current(a)).pid
    case Files(_) => true
  }

  // ----- one move -----

  lemma MoveSched(a: Stacks, e: Event)
    requires Stacked(a)
    ensures Move(a, e).0.sched == if e.Tick? then Next(a.sched) else a.sched
  {
  }

  lemma MoveKeepsLowerFrames(a: Stacks, e: Event, t: int, d: nat)
    requires Stacked(a) && 0 <= t < NUM_TERMS && 1 <= d < Depth(a.ttys[t])
    requires d < Depth(Move(a, e).0.ttys[t])
    ensures var stack' := Move(a, e).0.ttys[t].stack;
      && stack'[..d] == a.ttys[t].stack[..d]
      && stack'[d].caller == a.ttys[t].stack[d].caller
  {
    hide Live, LowestFree, Consistent, Serve;
  }

  lemma MoveElsewhere(a: Stacks, e: Event, t: int)
    requires Stacked(a) && 0 <= t < NUM_TERMS && t != a.sched && a.ttys[t].On?
    ensures Move(a, e).0.ttys[t] == a.ttys[t]
  {
  }

  lemma PushMove(a: Stacks, e: Event)
    requires Stacked(a) && e.Execute? && e.program.Image? && LowestFree(Live(a), 1) <= MAX_PCBS
    ensures var d := Depth(Current(a));
      var (a', control) := Move(a, e);
      && a'.sched == a.sched && control == Enter(e.program.entry)
      && Depth(Current(a')) == d + 1
      && Current(a').stack[..d] == Current(a).stack
      && Current(a').stack[d].caller == e.ctx
  {
  }

  lemma PopMove(a: Stacks, e: Event)
    requires Stacked(a) && e.Halt? && Depth(Current(a)) > 1
    ensures var d := Depth(Current(a)) - 1;
      var (a', control) := Move(a, e);
      && a'.sched == a.sched
      && Current(a').stack == Current(a).stack[..d]
      && control == Unwind(Current(a).stack[d].caller, ExitValue(e.status))
  {
  }

  // ----- whole runs -----

  /** rs are the stacks, and cs the places the processor is sent to, in a run over the events es. */
  ghost predicate Behaviour(rs: seq<Stacks>, cs: seq<Control>, es: seq<Event>) {
    && |rs| == |es| + 1 && |cs| == |es|
    && (forall i | 0 <= i < |rs| :: Stacked(rs[i]))
    && forall i | 0 <= i < |es| :: Move(rs[i], es[i]) == (rs[i + 1], cs[i])
  }

  /** The stacks have a run over any events. */
  lemma {:induction false} SomeBehaviour(a: Stacks, es: seq<Event>) returns (rs: seq<Stacks>, cs: seq<Control>)
    requires Stacked(a)
    ensures Behaviour(rs, cs, es) && rs[0] == a
  {
    if es == [] {
      rs, cs := [a], [];
    } else {
      var n := |es| - 1;
      var rs0, cs0 := SomeBehaviour(a, es[..n]);
      var (last, control) := Move(rs0[n], es[n]);
      rs, cs := rs0 + [last], cs0 + [control];
      forall i | 0 <= i < |es| ensures Move(rs[i], es[i]) == (rs[i + 1], cs[i]) {
        assert i < n ==> es[..n][i] == es[i];
      }
    }
  }

  /** The number of ticks among the first n events. */
  function Ticks(es: seq<Event>, n: nat): nat
    requires n <= |es|
  {
    if n == 0 then 0 else Ticks(es, n - 1) + if es[n - 1].Tick? then 1 else 0
  }

  /** Round robin: the scheduled terminal only depends on the number of ticks, whatever else happened,
      so that every terminal is scheduled once in every three ticks. */
  lemma {:induction false} RoundRobin(rs: seq<Stacks>, cs: seq<Control>, es: seq<Event>, n: nat)
    requires Behaviour(rs, cs, es) && n <= |es|
    ensures rs[n].sched == (rs[0].sched + Ticks(es, n)) % NUM_TERMS
  {
    var scheds := seq(|rs|, i requires 0 <= i < |rs| => rs[i].sched);
    forall i | 0 <= i < |es|
      ensures scheds[i + 1] == if es[i].Tick? then Next(scheds[i]) else scheds[i]
    {
      assert Move(rs[i], es[i]) == (rs[i + 1], cs[i]);
      MoveSched(rs[i], es[i]);
    }
    Rotation(scheds, es, n);
  }

  lemma {:induction false} Rotation(scheds: seq<int>, es: seq<Event>, n: nat)
    requires |scheds| == |es| + 1 && n <= |es| && 0 <= scheds[0] < NUM_TERMS
    requires forall i | 0 <= i < |es| :: scheds[i + 1] == if es[i].Tick? then Next(scheds[i]) else scheds[i]
    ensures scheds[n] == (scheds[0] + Ticks(es, n)) % NUM_TERMS
  {
    if n > 0 {
      Rotation(scheds, es, n - 1);
      assert scheds[n - 1 + 1] == if es[n - 1].Tick? then Next(scheds[n - 1]) else scheds[n - 1];
    }
  }

  lemma {:induction false} AwayUnchanged(rs: seq<Stacks>, cs: seq<Control>, es: seq<Event>, t: int, i: nat, j: nat)
    requires Behaviour(rs, cs, es) && i <= j <= |es| && 0 <= t < NUM_TERMS && rs[i].ttys[t].On?
    requires forall k | i <= k < j :: rs[k].sched != t
    ensures rs[j].ttys[t] == rs[i].ttys[t]
  {
    if i < j {
      AwayUnchanged(rs, cs, es, t, i, j - 1);
      assert Move(rs[j - 1], es[j - 1]) == (rs[j - 1 + 1], cs[j - 1]);
      MoveElsewhere(rs[j - 1], es[j - 1], t);
    }
  }

  /** A terminal is switched out by the tick at i, and the tick at j is the first that schedules it
      again: it goes on from exactly the context, and with exactly the stack, that it had when it
      was switched out, whatever the others did meanwhile. */
  lemma ContextRoundTrip(rs: seq<Stacks>, cs: seq<Control>, es: seq<Event>, i: nat, j: nat)
    requires Behaviour(rs, cs, es) && i < j < |es| && es[i].Tick? && es[j].Tick?
    requires rs[j + 1].sched == rs[i].sched
    requires forall k | i < k <= j :: rs[k].sched != rs[i].sched
    ensures cs[j] == Resume(es[i].ctx)
    ensures Current(rs[j + 1]).stack == Current(rs[i]).stack
  {
    var t := rs[i].sched;
    assert Move(rs[i], es[i]) == (rs[i + 1], cs[i]) && Move(rs[j], es[j]) == (rs[j + 1], cs[j]);
    LeaveMove(rs[i], es[i]);
    AwayUnchanged(rs, cs, es, t, i + 1, j);
    ReturnMove(rs[j], es[j]);
  }

  lemma LeaveMove(a: Stacks, e: Event)
    requires Stacked(a) && e.Tick?
    ensures Move(a, e).0.ttys[a.sched] == On(Current(a).stack, e.ctx)
  {
  }

  lemma ReturnMove(a: Stacks, e: Event)
    requires Stacked(a) && e.Tick? && a.ttys[Next(a.sched)].On?
    ensures Move(a, e).0.ttys[Next(a.sched)] == a.ttys[Next(a.sched)]
    ensures Move(a, e).1 == Resume(a.ttys[Next(a.sched)].saved)
    ensures Move(a, e).0.sched == Next(a.sched)
  {
  }

  lemma {:induction false} LowerFramesKept(rs: seq<Stacks>, cs: seq<Control>, es: seq<Event>, t: int, d: nat,
                                           i: nat, j: nat)
    requires Behaviour(rs, cs, es) && i <= j <= |es| && 0 <= t < NUM_TERMS && 1 <= d
    requires forall k | i <= k <= j :: Depth(rs[k].ttys[t]) > d
    ensures Depth(rs[i].ttys[t]) > d && Depth(rs[j].ttys[t]) > d
    ensures rs[j].ttys[t].stack[..d] == rs[i].ttys[t].stack[..d]
    ensures rs[j].ttys[t].stack[d].caller == rs[i].ttys[t].stack[d].caller
  {
    hide Move, Sound;
    if i < j {
      LowerFramesKept(rs, cs, es, t, d, i, j - 1);
      assert Move(rs[j - 1], es[j - 1]) == (rs[j - 1 + 1], cs[j - 1]);
      MoveKeepsLowerFrames(rs[j - 1], es[j - 1], t, d);
    }
  }

  /** The event at i starts a program, which stays on its terminal's stack up to the event at j,
      where it is the running program and halts. */
  ghost predicate Matched(rs: seq<Stacks>, cs: seq<Control>, es: seq<Event>, i: nat, j: nat)
    requires Behaviour(rs, cs, es) && i < j < |es|
  {
    var t, d := rs[i].sched, Depth(Current(rs[i]));
    && es[i].Execute? && cs[i].Enter? && es[j].Halt?
    && (forall k | i < k <= j :: Depth(rs[k].ttys[t]) > d)
    && rs[j].sched == t && Depth(Current(rs[j])) == d + 1
  }

  /** What an execute call returns of its program is above 127 if and only if the program was ended by an exception,
      whose status is 100, and then it is 256; any other status comes back as it is. */
  lemma ExceptionsTold(status: int)
    requires -128 <= status < 128
    ensures ExitValue(status) > 127 <==> status == 100
    ensures ExitValue(status) == if status == 100 then 256 else status
  {
  }

  /** Halt undoes execute. Between the two anything may happen: programs started and halted on top,
      open and close calls, other terminals. After the halt the terminal has the stack it had
      before the execute, frame for frame and descriptor table for descriptor table, and the
      kernel returns into that execute. */
  lemma HaltUndoesExecute(rs: seq<Stacks>, cs: seq<Control>, es: seq<Event>, i: nat, j: nat)
    requires Behaviour(rs, cs, es) && i < j < |es| && Matched(rs, cs, es, i, j)
    ensures rs[j + 1].sched == rs[i].sched
    ensures Current(rs[j + 1]).stack == Current(rs[i]).stack
    ensures cs[j] == Unwind(es[i].ctx, ExitValue(es[j].status))
    ensures cs[j].value == if es[j].status == 100 then 256 else es[j].status
  {
    var t, d := rs[i].sched, Depth(Current(rs[i]));
    assert Move(rs[i], es[i]) == (rs[i + 1], cs[i]) && Move(rs[j], es[j]) == (rs[j + 1], cs[j]);
    PushMove(rs[i], es[i]);
    LowerFramesKept(rs, cs, es, t, d, i + 1, j);
    PopMove(rs[j], es[j]);
  }

  // ----- boot -----

  /** The stacks after the kernel's entry point has executed the first shell. */
  function Booted(inner: Context, saved: Context): (a: Stacks)
    ensures Stacked(a)
  {
    FreshPacked();
    Stacks([On([Frame(1, inner, FRESH)], saved), Off, Off], 0)
  }

  /** All three base shells run, with pids 1, 2 and 3. */
  ghost predicate ShellsUp(a: Stacks)
    requires Stacked(a)
  {
    forall t | 0 <= t < NUM_TERMS :: a.ttys[t].On? && a.ttys[t].stack[0].pid == t + 1
  }

  lemma BaseIsLive(a: Stacks, t: int)
    requires Stacked(a) && 0 <= t < NUM_TERMS && a.ttys[t].On?
    ensures a.ttys[t].stack[0].pid in Live(a)
  {
    assert a.ttys[t].stack[0] in a.ttys[t].stack;
    assert a.ttys[t].stack[0].pid in Pids(a.ttys[t]);
  }

  lemma ShellsKeepLowPids(a: Stacks)
    requires Stacked(a) && ShellsUp(a)
    ensures LowestFree(Live(a), 1) > NUM_TERMS
  {
    BaseIsLive(a, 0);
    BaseIsLive(a, 1);
    BaseIsLive(a, 2);
  }

  lemma ShellsFit(a: Stacks, e: Event)
    requires Stacked(a) && ShellsUp(a)
    requires e.Execute? ==> !e.program.Corrupt?
    ensures Fits(a, e)
  {
    hide Live;
    ShellsKeepLowPids(a);
    assert Current(a).stack[0].pid == a.sched + 1;
  }

  lemma ShellsKept(a: Stacks, e: Event)
    requires Stacked(a) && ShellsUp(a)
    ensures ShellsUp(Move(a, e).0)
  {
    hide Move;
    forall t | 0 <= t < NUM_TERMS
      ensures Move(a, e).0.ttys[t].On? && Move(a, e).0.ttys[t].stack[0].pid == t + 1
    {
      BaseKept(a, e, t);
    }
  }

  /** Every event keeps the pid of a base shell. */
  lemma BaseKept(a: Stacks, e: Event, t: int)
    requires Stacked(a) && 0 <= t < NUM_TERMS && a.ttys[t].On?
    ensures var tty := Move(a, e).0.ttys[t];
      tty.On? && tty.stack != [] && tty.stack[0].pid == a.ttys[t].stack[0].pid
  {
    hide Live, LowestFree, Consistent, Serve;
  }

  lemma FirstTick(inner: Context, saved: Context, e: Event)
    requires e.Tick?
    ensures var a := Booted(inner, saved);
      var a' := Move(a, e).0;
      && Fits(a, e) && a'.sched == 1 && a'.ttys[0].On? && a'.ttys[1].On? && a'.ttys[2].Off?
      && Pids(a'.ttys[0]) == {1} && Pids(a'.ttys[1]) == {2}
      && a'.ttys[0].stack[0].pid == 1 && a'.ttys[1].stack[0].pid == 2
  {
    var a := Booted(inner, saved);
    assert Pids(a.ttys[0]) == {1};
    assert Live(a) == {1};
    assert 2 !in Live(a);
  }

  lemma SecondTick(a: Stacks, e: Event)
    requires e.Tick? && Stacked(a) && a.sched == 1
    requires a.ttys[0].On? && a.ttys[1].On? && a.ttys[2].Off?
    requires Pids(a.ttys[0]) == {1} && Pids(a.ttys[1]) == {2}
    requires a.ttys[0].stack[0].pid == 1 && a.ttys[1].stack[0].pid == 2
    ensures Fits(a, e) && ShellsUp(Move(a, e).0)
  {
    assert Live(a) == {1, 2};
    assert 3 !in Live(a);
  }

  /** If the first two events after boot are ticks, every event fits for ever, and the three base
      shells keep the pids 1, 2 and 3, however often they halt. */
  lemma {:induction false} BootPremise(rs: seq<Stacks>, cs: seq<Control>, es: seq<Event>, n: nat)
    requires Behaviour(rs, cs, es) && n < |es| && |es| >= 2
    requires exists inner, saved :: rs[0] == Booted(inner, saved)
    requires es[0].Tick? && es[1].Tick?
    requires forall i | 0 <= i < |es| && es[i].Execute? :: !es[i].program.Corrupt?
    ensures Fits(rs[n], es[n])
    ensures n >= 1 ==> ShellsUp(rs[n + 1])
    decreases n
  {
    hide Move, Fits, ShellsUp;
    assert Move(rs[n], es[n]) == (rs[n + 1], cs[n]);
    if n < 2 {
      var inner, saved :| rs[0] == Booted(inner, saved);
      FirstTick(inner, saved, es[0]);
      if n == 1 {
        assert Move(rs[0], es[0]) == (rs[0 + 1], cs[0]);
        SecondTick(rs[1], es[1]);
      }
    } else {
      BootPremise(rs, cs, es, n - 1);
      ShellsFit(rs[n], es[n]);
      ShellsKept(rs[n], es[n]);
    }
  }

  /** The stacks of a run without that premise: a program on terminal 0 if more is set, and three
      base shells, of which the last two have the pids 3 and 4. */
  function Mixed(c: Context, more: bool, sched: int): (a: Stacks)
    requires 0 <= sched < NUM_TERMS
    ensures Stacked(a)
  {
    FreshPacked();
    var shells := [On([Frame(1, c, FRESH)], c), On([Frame(3, c, FRESH)], c), On([Frame(4, c, FRESH)], c)];
    Stacks(if more then shells[0 := On([Frame(1, c, FRESH), Frame(2, c, FRESH)], c)] else shells, sched)
  }

  /** Without the premise a base shell's halt can fail to fit: a program started before the first tick takes
      pid 2, terminal 2 then gets base pid 4, and once pid 2 is free again the halt of that base shell does
      not fit, the first of the events not to. */
  lemma RestartCanMiss(c: Context) returns (a1: Stacks, a2: Stacks)
    ensures var tick, halt := Tick(c, c, 0), Halt(0, c, 0);
      && Stacked(a1) && Stacked(a2)
      && Fits(Booted(c, c), Execute(Image(0), c)) && Fits(a1, tick) && Fits(a2, tick)
      && Fits(Mixed(c, true, 2), tick) && Fits(Mixed(c, true, 0), halt)
      && Fits(Mixed(c, false, 0), tick) && Fits(Mixed(c, false, 1), tick)
      && Move(Booted(c, c), Execute(Image(0), c)).0 == a1
      && Move(a1, tick).0 == a2
      && Move(a2, tick).0 == Mixed(c, true, 2)
      && Move(Mixed(c, true, 2), tick).0 == Mixed(c, true, 0)
      && Move(Mixed(c, true, 0), halt).0 == Mixed(c, false, 0)
      && Move(Mixed(c, false, 0), tick).0 == Mixed(c, false, 1)
      && Move(Mixed(c, false, 1), tick).0 == Mixed(c, false, 2)
      && !Fits(Mixed(c, false, 2), halt)
  {
    a1, a2 := MixedStart(c);
    LeaveMixed(c, true, 2);
    LeaveMixed(c, false, 0);
    LeaveMixed(c, false, 1);
    MixedHalt(c);
  }

  lemma LeaveMixed(c: Context, more: bool, sched: int)
    requires 0 <= sched < NUM_TERMS
    ensures Move(Mixed(c, more, sched), Tick(c, c, 0)).0 == Mixed(c, more, Next(sched))
  {
    assert Leave(Mixed(c, more, sched), c).ttys == Mixed(c, more, sched).ttys;
  }

  lemma MixedHalt(c: Context)
    ensures Move(Mixed(c, true, 0), Halt(0, c, 0)).0 == Mixed(c, false, 0)
    ensures !Fits(Mixed(c, false, 2), Halt(0, c, 0))
  {
    var first, last := Mixed(c, true, 0), Mixed(c, false, 2);
    assert first.ttys[0].stack[..1] == last.ttys[0].stack;
    assert Move(first, Halt(0, c, 0)).0.ttys == last.ttys;
    assert Pids(last.ttys[0]) == {1} && Pids(last.ttys[1]) == {3} && Pids(last.ttys[2]) == {4};
    assert Live(last) == {1, 3, 4};
  }

  lemma MixedStart(c: Context) returns (a1: Stacks, a2: Stacks)
    ensures Stacked(a1) && Stacked(a2)
    ensures Fits(Booted(c, c), Execute(Image(0), c)) && Fits(a1, Tick(c, c, 0)) && Fits(a2, Tick(c, c, 0))
    ensures Move(Booted(c, c), Execute(Image(0), c)).0 == a1
    ensures Move(a1, Tick(c, c, 0)).0 == a2
    ensures Fits(a2, Tick(c, c, 0)) && Move(a2, Tick(c, c, 0)).0 == Mixed(c, true, 2)
  {
    FreshPacked();
    var a := Booted(c, c);
    var two := On([Frame(1, c, FRESH), Frame(2, c, FRESH)], c);
    assert Pids(a.ttys[0]) == {1} && Pids(two) == {1, 2};
    assert Live(a) == {1} && 2 !in Live(a);
    a1 := Stacks([two, Off, Off], 0);
    assert a.ttys[0].stack + [Frame(2, c, FRESH)] == two.stack;
    assert Move(a, Execute(Image(0), c)).0.ttys == a1.ttys;
    StartThird(c, two, a1);
    a2 := Stacks([two, On([Frame(3, c, FRESH)], c), Off], 1);
    StartFourth(c, two, a2);
  }

  lemma StartThird(c: Context, two: Tty, a1: Stacks)
    requires two == On([Frame(1, c, FRESH), Frame(2, c, FRESH)], c) && Pids(two) == {1, 2}
    requires Stacked(a1) && a1 == Stacks([two, Off, Off], 0)
    ensures Fits(a1, Tick(c, c, 0))
    ensures Move(a1, Tick(c, c, 0)).0 == Stacks([two, On([Frame(3, c, FRESH)], c), Off], 1)
  {
    assert Live(a1) == {1, 2} && 3 !in Live(a1);
    assert Leave(a1, c).ttys == a1.ttys;
  }

  lemma StartFourth(c: Context, two: Tty, a2: Stacks)
    requires two == On([Frame(1, c, FRESH), Frame(2, c, FRESH)], c) && Pids(two) == {1, 2}
    requires Stacked(a2) && a2 == Stacks([two, On([Frame(3, c, FRESH)], c), Off], 1)
    ensures Fits(a2, Tick(c, c, 0)) && Move(a2, Tick(c, c, 0)).0 == Mixed(c, true, 2)
  {
    assert Pids(a2.ttys[1]) == {3};
    assert Live(a2) == {1, 2, 3} && 4 !in Live(a2);
    assert Leave(a2, c).ttys == a2.ttys;
  }
}
