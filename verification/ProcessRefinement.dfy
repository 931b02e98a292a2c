/**
 The process table refines the process stacks: every kernel step does to the table
 what the corresponding move does to the stacks, exactly as long as the step fits.
 */
module ProcessRefinement {
  import opened Descriptors
  import opened ProcessTable
  import opened ProcessStacks

  /** The PCB of the i-th process of a stack. The parent links lead down the stack, and the
      base shell is its own parent. */
  ghost predicate FrameAt(pcbs: seq<Pcb>, stack: seq<Frame>, i: nat)
    requires |pcbs| == MAX_PCBS + 1 && i < |stack|
  {
    var pid := stack[i].pid;
    && 1 <= pid <= MAX_PCBS
    && pcbs[pid].pid == pid
    && pcbs[pid].caller == stack[i].caller
    && pcbs[pid].files == stack[i].files
    && pcbs[pid].tssEsp0 == StackTop(pid)
    && pcbs[pid].parent == stack[if i == 0 then 0 else i - 1].pid
    && (i > 0 ==> pcbs[pid].prevEsp0 == StackTop(stack[i - 1].pid))
  }

  ghost predicate Distinct(stack: seq<Frame>) {
    forall i, j | 0 <= i < j < |stack| :: stack[i].pid != stack[j].pid
  }

  ghost predicate ChainAt(pcbs: seq<Pcb>, stack: seq<Frame>)
    requires |pcbs| == MAX_PCBS + 1
  {
    stack != [] && Distinct(stack) && forall i | 0 <= i < |stack| :: FrameAt(pcbs, stack, i)
  }

  ghost predicate TermAt(m: Machine, tty: Tty, t: int)
    requires |m.pcbs| == MAX_PCBS + 1 && |m.terms| == NUM_TERMS && 0 <= t < NUM_TERMS
  {
    && m.terms[t].started == tty.On?
    && (tty.On? ==>
        && ChainAt(m.pcbs, tty.stack)
        && 1 <= m.terms[t].active <= MAX_PCBS
        && m.terms[t].active == Top(tty).pid
        && m.terms[t].base == tty.stack[0].pid
        && (t != m.sched ==> m.pcbs[Top(tty).pid].saved == tty.saved))
  }

  /** The pids taken are exactly those on the stacks. */
  ghost predicate Allocated(used: seq<bool>, live: set<int>)
    requires |used| == MAX_PCBS
  {
    forall pid | 1 <= pid <= MAX_PCBS :: pid in live <==> used[pid - 1]
  }

  ghost predicate Apart(a: Stacks)
    requires |a.ttys| == NUM_TERMS
  {
    && Pids(a.ttys[0]) !! Pids(a.ttys[1])
    && Pids(a.ttys[0]) !! Pids(a.ttys[2])
    && Pids(a.ttys[1]) !! Pids(a.ttys[2])
  }

  /** The table m is that of the stacks a. The last two lines are the other two records of who is
      running: the frame behind user memory and the kernel stack in the TSS. */
  ghost predicate Represents(m: Machine, a: Stacks) {
    && |m.pidUsed| == MAX_PCBS && |m.pcbs| == MAX_PCBS + 1 && |m.terms| == NUM_TERMS
    && Stacked(a)
    && m.sched == a.sched
    && (forall t | 0 <= t < NUM_TERMS :: TermAt(m, a.ttys[t], t))
    && Apart(a)
    && Allocated(m.pidUsed, Live(a))
    && m.frame32 == Frame32(m.terms[m.sched].active)
    && m.esp0 == StackTop(m.terms[m.sched].active)
  }

  // ----- helpers -----

  lemma TopInStack(tty: Tty)
    requires tty.On? && tty.stack != []
    ensures Top(tty).pid in Pids(tty) && tty.stack[0].pid in Pids(tty)
  {
    assert Top(tty) in tty.stack && tty.stack[0] in tty.stack;
  }

  lemma RepresentsWellFormed(m: Machine, a: Stacks)
    requires Represents(m, a)
    ensures WellFormed(m)
  {
    var stack := Current(a).stack;
    assert TermAt(m, a.ttys[a.sched], a.sched);
    assert FrameAt(m.pcbs, stack, |stack| - 1);
    if |stack| > 1 {
      assert FrameAt(m.pcbs, stack, |stack| - 2);
    }
    forall t | 0 <= t < NUM_TERMS && m.terms[t].started ensures 1 <= m.terms[t].active <= MAX_PCBS {
      assert TermAt(m, a.ttys[t], t);
      assert FrameAt(m.pcbs, a.ttys[t].stack, |a.ttys[t].stack| - 1);
    }
  }

  lemma {:induction false} ScansAgree(used: seq<bool>, live: set<int>, i: nat)
    requires |used| == MAX_PCBS && i <= MAX_PCBS && Allocated(used, live)
    ensures FreePid(used, i) == LowestFree(live, i + 1)
    decreases MAX_PCBS - i
  {
    if i < MAX_PCBS && used[i] {
      assert i + 1 in live;
      ScansAgree(used, live, i + 1);
    } else if i < MAX_PCBS {
      assert i + 1 !in live by { assert !used[i + 1 - 1]; }
    }
  }

  /** Changes to PCBs off a stack, or to the saved context of those on it, leave the chain intact. */
  lemma ChainKept(pcbs: seq<Pcb>, pcbs': seq<Pcb>, stack: seq<Frame>)
    requires |pcbs| == |pcbs'| == MAX_PCBS + 1 && ChainAt(pcbs, stack)
    requires forall pid | pid in Pids(On(stack, Context(0, 0))) && 0 <= pid <= MAX_PCBS ::
      pcbs'[pid] == pcbs[pid].(saved := pcbs'[pid].saved)
    ensures ChainAt(pcbs', stack)
  {
    forall i | 0 <= i < |stack| ensures FrameAt(pcbs', stack, i) {
      assert FrameAt(pcbs, stack, i);
      assert stack[i] in stack;
      assert stack[i].pid in Pids(On(stack, Context(0, 0)));
    }
  }

  lemma OtherTermKept(m: Machine, m': Machine, tty: Tty, t: int)
    requires |m.pcbs| == |m'.pcbs| == MAX_PCBS + 1 && |m.terms| == |m'.terms| == NUM_TERMS && 0 <= t < NUM_TERMS
    requires TermAt(m, tty, t) && m'.terms[t] == m.terms[t]
    requires forall pid | pid in Pids(tty) && 0 <= pid <= MAX_PCBS :: m'.pcbs[pid] == m.pcbs[pid]
    requires t != m.sched || t == m'.sched
    ensures TermAt(m', tty, t)
  {
    if tty.On? {
      assert Pids(tty) == Pids(On(tty.stack, Context(0, 0)));
      ChainKept(m.pcbs, m'.pcbs, tty.stack);
      TopInStack(tty);
      assert FrameAt(m.pcbs, tty.stack, |tty.stack| - 1);
    }
  }

  lemma PushPids(stack: seq<Frame>, f: Frame, saved: Context)
    ensures Pids(On(stack + [f], saved)) == Pids(On(stack, saved)) + {f.pid}
  {
    var stack' := stack + [f];
    assert forall g :: g in stack' <==> g in stack || g == f;
  }

  lemma ChainPushed(pcbs': seq<Pcb>, stack: seq<Frame>, f: Frame)
    requires |pcbs'| == MAX_PCBS + 1
    requires ChainAt(pcbs', stack) && f.pid !in Pids(On(stack, Context(0, 0)))
    requires FrameAt(pcbs', stack + [f], |stack|)
    ensures ChainAt(pcbs', stack + [f])
  {
    forall i | 0 <= i < |stack| + 1 ensures FrameAt(pcbs', stack + [f], i) {
      if i < |stack| {
        assert FrameAt(pcbs', stack, i);
      }
    }
    forall i | 0 <= i < |stack| ensures stack[i].pid != f.pid {
      assert stack[i] in stack;
    }
  }

  /** One terminal gives up some pids and takes others that no other terminal has. */
  lemma PidsReplaced(used': seq<bool>, a: Stacks, a': Stacks, t: int)
    requires |used'| == MAX_PCBS && |a.ttys| == |a'.ttys| == NUM_TERMS && 0 <= t < NUM_TERMS
    requires a'.ttys == a.ttys[t := a'.ttys[t]] && Apart(a)
    requires Pids(a'.ttys[t]) !! Live(a) - Pids(a.ttys[t])
    requires Allocated(used', Live(a) - Pids(a.ttys[t]) + Pids(a'.ttys[t]))
    ensures Apart(a') && Allocated(used', Live(a'))
  {
    assert Live(a') == Live(a) - Pids(a.ttys[t]) + Pids(a'.ttys[t]);
  }

  /** A step inside the scheduled terminal: its own chain is rebuilt, the others are not touched. */
  lemma CurrentRebuilt(m: Machine, a: Stacks, m': Machine, stack': seq<Frame>)
    requires Represents(m, a)
    requires |m'.pidUsed| == MAX_PCBS && |m'.pcbs| == MAX_PCBS + 1 && |m'.terms| == NUM_TERMS && Sound(stack')
    requires m'.sched == m.sched && m'.terms == m.terms[m.sched := m'.terms[m.sched]]
    requires forall pid | 0 <= pid <= MAX_PCBS && pid in Live(a) - Pids(Current(a)) :: m'.pcbs[pid] == m.pcbs[pid]
    requires TermAt(m', Current(SetCurrent(a, stack')), m.sched)
    requires Pids(Current(SetCurrent(a, stack'))) !! Live(a) - Pids(Current(a))
    requires Allocated(m'.pidUsed, Live(a) - Pids(Current(a)) + Pids(Current(SetCurrent(a, stack'))))
    requires m'.frame32 == Frame32(m'.terms[m.sched].active)
    requires m'.esp0 == StackTop(m'.terms[m.sched].active)
    ensures Represents(m', SetCurrent(a, stack'))
  {
    var a' := SetCurrent(a, stack');
    forall t | 0 <= t < NUM_TERMS ensures TermAt(m', a'.ttys[t], t) {
      if t != m.sched {
        assert TermAt(m, a.ttys[t], t);
        PidsElsewhere(a, t);
        OtherTermKept(m, m', a.ttys[t], t);
      }
    }
    PidsReplaced(m'.pidUsed, a, a', m.sched);
  }

  lemma PidsElsewhere(a: Stacks, t: int)
    requires |a.ttys| == NUM_TERMS && 0 <= a.sched < NUM_TERMS && Apart(a)
    requires 0 <= t < NUM_TERMS && t != a.sched
    ensures Pids(a.ttys[t]) <= Live(a) - Pids(Current(a))
  {
  }

  lemma PidsHere(a: Stacks, t: int)
    requires |a.ttys| == NUM_TERMS && 0 <= t < NUM_TERMS
    ensures Pids(a.ttys[t]) <= Live(a)
  {
  }

  // ----- execute -----

  lemma ExecuteRefines(m: Machine, a: Stacks, program: Program, ctx: Context)
    requires Represents(m, a) && Fits(a, Execute(program, ctx))
    ensures var (m', control) := ExecuteStep(m, program, ctx);
      Represents(m', Push(a, program, ctx).0) && control == Push(a, program, ctx).1
  {
    hide TermAt, Apart;
    ScansAgree(m.pidUsed, Live(a), 0);
    var pid := FreePid(m.pidUsed, 0);
    if program.Image? && pid <= MAX_PCBS {
      FreshPacked();
      PushRefines(m, a, ExecuteStep(m, program, ctx).0, Frame(pid, ctx, FRESH));
    }
  }

  lemma PushRefines(m: Machine, a: Stacks, m': Machine, frame: Frame)
    requires Represents(m, a) && Consistent(frame.files)
    requires 1 <= frame.pid <= MAX_PCBS && frame.pid !in Live(a)
    requires m'.pidUsed == m.pidUsed[frame.pid - 1 := true]
    requires m'.sched == m.sched && m'.terms == m.terms[m.sched := m.terms[m.sched].(active := frame.pid)]
    requires |m'.pcbs| == MAX_PCBS + 1 && m'.pcbs == m.pcbs[frame.pid := m'.pcbs[frame.pid]]
    requires frame.pid != m.terms[m.sched].base ==>
      m'.pcbs[frame.pid] == Pcb(frame.pid, m.terms[m.sched].active, frame.caller, m.esp0, StackTop(frame.pid),
                                m'.pcbs[frame.pid].saved, frame.files)
    requires m'.frame32 == Frame32(frame.pid) && m'.esp0 == StackTop(frame.pid)
    ensures Represents(m', SetCurrent(a, Current(a).stack + [frame]))
  {
    var tty := Current(a);
    PidsHere(a, a.sched);
    assert TermAt(m, tty, m.sched);
    PushedTerm(m, tty, m', frame);
    PushPids(tty.stack, frame, tty.saved);
    AllocatedPushed(m.pidUsed, Live(a), Pids(tty), frame.pid);
    CurrentRebuilt(m, a, m', tty.stack + [frame]);
  }

  lemma AllocatedPushed(used: seq<bool>, live: set<int>, own: set<int>, pid: int)
    requires |used| == MAX_PCBS && 1 <= pid <= MAX_PCBS && Allocated(used, live) && own <= live
    ensures Allocated(used[pid - 1 := true], live - own + (own + {pid}))
  {
  }

  lemma PushedTerm(m: Machine, tty: Tty, m': Machine, frame: Frame)
    requires |m.pcbs| == MAX_PCBS + 1 && |m.terms| == NUM_TERMS && 0 <= m.sched < NUM_TERMS
    requires TermAt(m, tty, m.sched) && tty.On? && m.esp0 == StackTop(m.terms[m.sched].active)
    requires 1 <= frame.pid <= MAX_PCBS && frame.pid !in Pids(tty)
    requires m'.sched == m.sched && m'.terms == m.terms[m.sched := m.terms[m.sched].(active := frame.pid)]
    requires |m'.pcbs| == MAX_PCBS + 1 && m'.pcbs == m.pcbs[frame.pid := m'.pcbs[frame.pid]]
    requires frame.pid != m.terms[m.sched].base ==>
      m'.pcbs[frame.pid] == Pcb(frame.pid, m.terms[m.sched].active, frame.caller, m.esp0, StackTop(frame.pid),
                                m'.pcbs[frame.pid].saved, frame.files)
    ensures TermAt(m', On(tty.stack + [frame], tty.saved), m.sched)
  {
    var stack := tty.stack;
    TopInStack(tty);
    assert Pids(tty) == Pids(On(stack, Context(0, 0)));
    ChainKept(m.pcbs, m'.pcbs, stack);
    assert FrameAt(m'.pcbs, stack + [frame], |stack|);
    ChainPushed(m'.pcbs, stack, frame);
  }

  // ----- halt -----

  lemma PopRefines(m: Machine, a: Stacks, m': Machine)
    requires Represents(m, a) && |Current(a).stack| > 1
    requires |m'.pcbs| == MAX_PCBS + 1 && m'.sched == m.sched
    requires var pid := m.terms[m.sched].active;
      && 1 <= pid <= MAX_PCBS
      && m'.pidUsed == m.pidUsed[pid - 1 := false]
      && m'.pcbs == m.pcbs[pid := m'.pcbs[pid]]
      && m'.terms == m.terms[m.sched := m.terms[m.sched].(active := m.pcbs[pid].parent)]
      && m'.frame32 == Frame32(m.pcbs[pid].parent)
      && m'.esp0 == m.pcbs[pid].prevEsp0
    ensures var stack := Current(a).stack; Represents(m', SetCurrent(a, stack[..|stack| - 1]))
  {
    hide Apart, Allocated, Live;
    var tty := Current(a);
    var n := |tty.stack| - 1;
    assert TermAt(m, tty, m.sched);
    assert FrameAt(m.pcbs, tty.stack, n);
    PoppedTerm(m, tty, m');
    PidsHere(a, a.sched);
    AllocatedPopped(m.pidUsed, Live(a), Pids(tty), Pids(On(tty.stack[..n], tty.saved)), Top(tty).pid);
    CurrentRebuilt(m, a, m', tty.stack[..n]);
  }

  lemma TopPcb(m: Machine, a: Stacks)
    requires Represents(m, a)
    ensures WellFormed(m)
    ensures var (pid, stack) := (m.terms[m.sched].active, Current(a).stack);
      && 1 <= pid <= MAX_PCBS
      && pid == Top(Current(a)).pid
      && m.pcbs[pid].pid == pid
      && m.pcbs[pid].caller == Top(Current(a)).caller
      && m.pcbs[pid].files == Top(Current(a)).files
      && m.pcbs[pid].tssEsp0 == m.esp0
      && m.terms[m.sched].base == stack[0].pid
      && (pid == m.terms[m.sched].base <==> |stack| == 1)
  {
    RepresentsWellFormed(m, a);
    var stack := Current(a).stack;
    assert TermAt(m, Current(a), m.sched);
    assert FrameAt(m.pcbs, stack, |stack| - 1);
    if |stack| > 1 {
      assert stack[0].pid != stack[|stack| - 1].pid;
    }
  }

  /** A program other than a base shell returns to the one that started it. */
  lemma ReturnRefines(m: Machine, a: Stacks, status: int, inner: Context, entry: int)
    requires Represents(m, a) && WellFormed(m) && |Current(a).stack| > 1
    ensures var (m', control) := HaltStep(m, status, inner, entry);
      Represents(m', Pop(a, status, inner, entry).0) && control == Pop(a, status, inner, entry).1
  {
    TopPcb(m, a);
    PopRefines(m, a, HaltStep(m, status, inner, entry).0);
  }

  lemma AllocatedPopped(used: seq<bool>, live: set<int>, own: set<int>, own': set<int>, pid: int)
    requires |used| == MAX_PCBS && 1 <= pid <= MAX_PCBS && Allocated(used, live)
    requires own <= live && own == own' + {pid} && pid !in own'
    ensures Allocated(used[pid - 1 := false], live - own + own')
  {
  }

  lemma PoppedTerm(m: Machine, tty: Tty, m': Machine)
    requires |m.pcbs| == |m'.pcbs| == MAX_PCBS + 1 && |m.terms| == NUM_TERMS && 0 <= m.sched < NUM_TERMS
    requires TermAt(m, tty, m.sched) && tty.On? && |tty.stack| > 1
    requires m'.sched == m.sched
    requires var pid := m.terms[m.sched].active;
      && m'.pcbs == m.pcbs[pid := m'.pcbs[pid]]
      && m'.terms == m.terms[m.sched := m.terms[m.sched].(active := m.pcbs[pid].parent)]
    ensures var tty' := On(tty.stack[..|tty.stack| - 1], tty.saved);
      && TermAt(m', tty', m.sched)
      && Pids(tty) == Pids(tty') + {Top(tty).pid}
      && Top(tty).pid !in Pids(tty')
      && m.terms[m.sched].base != m.terms[m.sched].active
  {
    var n := |tty.stack| - 1;
    var lower := tty.stack[..n];
    assert FrameAt(m.pcbs, tty.stack, n) && FrameAt(m.pcbs, tty.stack, n - 1);
    assert tty.stack == lower + [tty.stack[n]];
    PushPids(lower, tty.stack[n], tty.saved);
    PoppedChain(m.pcbs, m'.pcbs, tty.stack);
    assert tty.stack[0].pid != tty.stack[n].pid;
    assert Top(tty).pid !in Pids(On(lower, tty.saved));
  }

  lemma PoppedChain(pcbs: seq<Pcb>, pcbs': seq<Pcb>, stack: seq<Frame>)
    requires |pcbs| == |pcbs'| == MAX_PCBS + 1 && ChainAt(pcbs, stack) && |stack| > 1
    requires forall pid | 0 <= pid <= MAX_PCBS && pid != stack[|stack| - 1].pid :: pcbs'[pid] == pcbs[pid]
    ensures ChainAt(pcbs', stack[..|stack| - 1])
  {
    var lower := stack[..|stack| - 1];
    forall i | 0 <= i < |lower| ensures FrameAt(pcbs', lower, i) {
      assert FrameAt(pcbs, stack, i);
    }
  }

  /** The top process of the scheduled terminal is given new contents under the same pid. */
  lemma TopReplaced(m: Machine, a: Stacks, m': Machine, frame: Frame)
    requires Represents(m, a) && Consistent(frame.files)
    requires |m'.pcbs| == MAX_PCBS + 1
    requires m' == m.(pcbs := m'.pcbs)
    requires var (pid, stack) := (m.terms[m.sched].active, Current(a).stack);
      && 0 <= pid <= MAX_PCBS
      && frame.pid == pid
      && m'.pcbs == m.pcbs[pid := m'.pcbs[pid]]
      && FrameAt(m'.pcbs, stack[|stack| - 1 := frame], |stack| - 1)
    ensures Represents(m', SetCurrent(a, Current(a).stack[|Current(a).stack| - 1 := frame]))
  {
    var tty := Current(a);
    var stack' := tty.stack[|tty.stack| - 1 := frame];
    assert TermAt(m, tty, m.sched);
    ReplacedTerm(m, tty, m', frame);
    PidsHere(a, a.sched);
    assert Live(a) - Pids(tty) + Pids(tty) == Live(a);
    CurrentRebuilt(m, a, m', stack');
  }

  lemma ReplacedTerm(m: Machine, tty: Tty, m': Machine, frame: Frame)
    requires |m.pcbs| == |m'.pcbs| == MAX_PCBS + 1 && |m.terms| == NUM_TERMS && 0 <= m.sched < NUM_TERMS
    requires TermAt(m, tty, m.sched) && tty.On? && frame.pid == Top(tty).pid
    requires m' == m.(pcbs := m.pcbs[frame.pid := m'.pcbs[frame.pid]])
    requires FrameAt(m'.pcbs, tty.stack[|tty.stack| - 1 := frame], |tty.stack| - 1)
    ensures var tty' := On(tty.stack[|tty.stack| - 1 := frame], tty.saved);
      TermAt(m', tty', m.sched) && Pids(tty') == Pids(tty)
  {
    var n := |tty.stack| - 1;
    var stack' := tty.stack[n := frame];
    forall i | 0 <= i < n ensures FrameAt(m'.pcbs, stack', i) {
      assert FrameAt(m.pcbs, tty.stack, i);
    }
    assert Distinct(stack') by {
      forall i | 0 <= i < |stack'| ensures stack'[i].pid == tty.stack[i].pid {
      }
    }
    SamePids(tty.stack, stack', tty.saved);
  }

  lemma SamePids(stack: seq<Frame>, stack': seq<Frame>, saved: Context)
    requires |stack| == |stack'| && forall i | 0 <= i < |stack| :: stack'[i].pid == stack[i].pid
    ensures Pids(On(stack', saved)) == Pids(On(stack, saved))
  {
    forall pid | pid in Pids(On(stack, saved)) ensures pid in Pids(On(stack', saved)) {
      var i :| 0 <= i < |stack| && stack[i].pid == pid;
      assert stack'[i] in stack';
    }
    forall pid | pid in Pids(On(stack', saved)) ensures pid in Pids(On(stack, saved)) {
      var i :| 0 <= i < |stack'| && stack'[i].pid == pid;
      assert stack[i] in stack;
    }
  }

  lemma LiveIsUsed(m: Machine, a: Stacks, pid: int)
    requires Represents(m, a) && 1 <= pid <= MAX_PCBS
    ensures pid in Live(a) <==> m.pidUsed[pid - 1]
  {
  }

  /** A base shell that halts while all lower pids are taken is given its own pid again. */
  lemma RestartRefines(m: Machine, a: Stacks, status: int, inner: Context, entry: int)
    requires Represents(m, a) && WellFormed(m) && |Current(a).stack| == 1
    requires Fits(a, Halt(status, inner, entry))
    ensures var (m', control) := HaltStep(m, status, inner, entry);
      Represents(m', Pop(a, status, inner, entry).0) && control == Pop(a, status, inner, entry).1
  {
    hide TermAt, Apart, Allocated, Live, HaltStep;
    TopPcb(m, a);
    FreshPacked();
    var pid := m.terms[m.sched].active;
    ScansAgree(m.pidUsed, Live(a), 0);
    RestartHalt(m, status, inner, entry);
    TopReplaced(m, a, HaltStep(m, status, inner, entry).0, Frame(pid, inner, FRESH));
    assert Current(a).stack[0 := Frame(pid, inner, FRESH)] == [Frame(pid, inner, FRESH)];
  }

  /** What the halt of a base shell does to the tables while all lower pids are taken. */
  lemma RestartHalt(m: Machine, status: int, inner: Context, entry: int)
    requires WellFormed(m)
    requires var pid := m.terms[m.sched].active;
      && m.pcbs[pid].pid == pid == m.terms[m.sched].base && FreePid(m.pidUsed, 0) > pid
      && m.frame32 == Frame32(pid) && m.esp0 == StackTop(pid)
    ensures var ((m', control), pid) := (HaltStep(m, status, inner, entry), m.terms[m.sched].active);
      && control == Enter(entry) && |m'.pcbs| == MAX_PCBS + 1
      && m' == m.(pcbs := m.pcbs[pid := m'.pcbs[pid]])
      && FrameAt(m'.pcbs, [Frame(pid, inner, FRESH)], 0)
  {
    var pid := m.terms[m.sched].active;
    SamePidChosen(m.pidUsed, pid);
    assert HaltStep(m, status, inner, entry).0.terms == m.terms;
  }

  lemma SamePidChosen(used: seq<bool>, pid: int)
    requires |used| == MAX_PCBS && 1 <= pid <= MAX_PCBS && FreePid(used, 0) > pid
    ensures FreePid(used[pid - 1 := false], 0) == pid
    ensures used[pid - 1 := false][pid - 1 := true] == used
  {
    assert used[pid - 1];
    var used' := used[pid - 1 := false];
    assert forall k | 0 <= k < pid - 1 :: used'[k] == used[k];
    assert !used'[pid - 1];
  }

  lemma HaltRefines(m: Machine, a: Stacks, status: int, inner: Context, entry: int)
    requires Represents(m, a) && WellFormed(m) && Fits(a, Halt(status, inner, entry))
    ensures var (m', control) := HaltStep(m, status, inner, entry);
      Represents(m', Pop(a, status, inner, entry).0) && control == Pop(a, status, inner, entry).1
  {
    if |Current(a).stack| == 1 {
      RestartRefines(m, a, status, inner, entry);
    } else {
      ReturnRefines(m, a, status, inner, entry);
    }
  }

  // ----- open and close -----

  lemma FilesRefines(m: Machine, a: Stacks, request: Request)
    requires Represents(m, a) && WellFormed(m)
    ensures var (m', control) := FilesStep(m, request);
      Represents(m', Touch(a, request).0) && control == Touch(a, request).1
  {
    TopPcb(m, a);
    var m', top := FilesStep(m, request).0, Top(Current(a));
    var stack := Current(a).stack;
    var frame := top.(files := Serve(top.files, request).0);
    assert TermAt(m, Current(a), m.sched);
    assert FrameAt(m.pcbs, stack, |stack| - 1);
    TopReplaced(m, a, m', frame);
  }

  // ----- the scheduler -----

  /** A terminal between the moment the running process has been saved and the choice of the next. */
  lemma SavedTerm(m: Machine, a: Stacks, m1: Machine, ctx: Context, t: int)
    requires Represents(m, a) && |m1.pcbs| == MAX_PCBS + 1 && m1.terms == m.terms && m1.sched == Next(m.sched)
    requires var pid := m.terms[m.sched].active;
      0 <= pid <= MAX_PCBS && m1.pcbs == m.pcbs[pid := m.pcbs[pid].(saved := ctx)]
    requires 0 <= t < NUM_TERMS
    ensures TermAt(m1, Leave(a, ctx).ttys[t], t)
    ensures Pids(Leave(a, ctx).ttys[t]) == Pids(a.ttys[t])
  {
    assert TermAt(m, a.ttys[t], t);
    assert TermAt(m, a.ttys[a.sched], a.sched);
    TopInStack(Current(a));
    if t != m.sched {
      PidsElsewhere(a, t);
      OtherTermKept(m, m1, a.ttys[t], t);
    } else {
      assert Pids(Current(a)) == Pids(On(Current(a).stack, Context(0, 0)));
      ChainKept(m.pcbs, m1.pcbs, Current(a).stack);
    }
  }

  lemma ResumeRefines(m: Machine, a: Stacks, ctx: Context, inner: Context, entry: int)
    requires Represents(m, a) && WellFormed(m) && a.ttys[Next(a.sched)].On?
    ensures var (m', control) := TickStep(m, ctx, inner, entry);
      Represents(m', Rotate(a, ctx, inner, entry).0) && control == Rotate(a, ctx, inner, entry).1
  {
    TopPcb(m, a);
    var next := Next(a.sched);
    assert TermAt(m, a.ttys[next], next);
    ResumedPcb(m, a, ctx, inner, entry);
    SavedRepresents(m, a, TickStep(m, ctx, inner, entry).0, ctx);
  }

  /** The PCB the scheduler goes on with: that of another process than the one just saved. */
  lemma ResumedPcb(m: Machine, a: Stacks, ctx: Context, inner: Context, entry: int)
    requires Represents(m, a) && WellFormed(m) && a.ttys[Next(a.sched)].On?
    ensures var (tty, pid) := (a.ttys[Next(a.sched)], m.terms[Next(m.sched)].active);
      && m.terms[Next(m.sched)].started && 1 <= pid <= MAX_PCBS && pid != m.terms[m.sched].active
      && m.pcbs[pid].pid == pid && m.pcbs[pid].saved == tty.saved && m.pcbs[pid].tssEsp0 == StackTop(pid)
  {
    var tty := a.ttys[Next(a.sched)];
    assert TermAt(m, tty, Next(a.sched)) && TermAt(m, Current(a), a.sched);
    assert FrameAt(m.pcbs, tty.stack, |tty.stack| - 1);
    TopInStack(tty);
    TopInStack(Current(a));
    PidsElsewhere(a, Next(a.sched));
  }

  lemma SavedRepresents(m: Machine, a: Stacks, m': Machine, ctx: Context)
    requires Represents(m, a) && a.ttys[Next(a.sched)].On?
    requires |m'.pcbs| == MAX_PCBS + 1 && m'.terms == m.terms && m'.sched == Next(m.sched) && m'.pidUsed == m.pidUsed
    requires var pid := m.terms[m.sched].active;
      0 <= pid <= MAX_PCBS && m'.pcbs == m.pcbs[pid := m.pcbs[pid].(saved := ctx)]
    requires m'.frame32 == Frame32(m'.terms[m'.sched].active) && m'.esp0 == StackTop(m'.terms[m'.sched].active)
    ensures Represents(m', Stacks(Leave(a, ctx).ttys, Next(a.sched)))
  {
    hide TermAt, Sound, ChainAt;
    SavedTerm(m, a, m', ctx, 0);
    SavedTerm(m, a, m', ctx, 1);
    SavedTerm(m, a, m', ctx, 2);
    assert Live(Leave(a, ctx)) == Live(a);
    assert Live(Stacks(Leave(a, ctx).ttys, Next(a.sched))) == Live(a);
  }

  /** What the first tick of a terminal does to the tables. */
  lemma StartTick(m: Machine, ctx: Context, inner: Context, entry: int)
    requires WellFormed(m) && !m.terms[Next(m.sched)].started && FreePid(m.pidUsed, 0) <= MAX_PCBS
    requires m.pcbs[m.terms[m.sched].active].tssEsp0 == m.esp0
    ensures var (m', control) := TickStep(m, ctx, inner, entry);
      var (pid, current) := (FreePid(m.pidUsed, 0), m.terms[m.sched].active);
      && control == Enter(entry)
      && m'.pidUsed == m.pidUsed[pid - 1 := true] && m'.sched == Next(m.sched)
      && m'.terms == m.terms[m'.sched := Terminal(pid, pid, true)]
      && |m'.pcbs| == MAX_PCBS + 1
      && m'.pcbs == m.pcbs[current := m.pcbs[current].(saved := ctx)][pid := m'.pcbs[pid]]
      && FrameAt(m'.pcbs, [Frame(pid, inner, FRESH)], 0)
      && m'.frame32 == Frame32(pid) && m'.esp0 == StackTop(pid)
  {
  }

  lemma NextNotStarted(m: Machine, a: Stacks)
    requires Represents(m, a) && a.ttys[Next(a.sched)].Off?
    ensures !m.terms[Next(m.sched)].started
  {
    assert TermAt(m, a.ttys[Next(a.sched)], Next(a.sched));
  }

  lemma StartRefines(m: Machine, a: Stacks, ctx: Context, inner: Context, entry: int)
    requires Represents(m, a) && WellFormed(m) && a.ttys[Next(a.sched)].Off?
    requires Fits(a, Tick(ctx, inner, entry))
    ensures var (m', control) := TickStep(m, ctx, inner, entry);
      Represents(m', Rotate(a, ctx, inner, entry).0) && control == Rotate(a, ctx, inner, entry).1
  {
    hide TickStep, TermAt, Apart, Live, FrameAt;
    TopPcb(m, a);
    ScansAgree(m.pidUsed, Live(a), 0);
    NextNotStarted(m, a);
    StartTick(m, ctx, inner, entry);
    StartedRepresents(m, a, TickStep(m, ctx, inner, entry).0, ctx, Frame(FreePid(m.pidUsed, 0), inner, FRESH));
  }

  lemma StartedRepresents(m: Machine, a: Stacks, m': Machine, ctx: Context, frame: Frame)
    requires Represents(m, a) && a.ttys[Next(a.sched)].Off?
    requires 1 <= frame.pid <= MAX_PCBS && frame.pid !in Live(a) && frame.files == FRESH
    requires m'.pidUsed == m.pidUsed[frame.pid - 1 := true] && m'.sched == Next(m.sched)
    requires m'.terms == m.terms[m'.sched := Terminal(frame.pid, frame.pid, true)]
    requires var pid := m.terms[m.sched].active;
      && 0 <= pid <= MAX_PCBS && |m'.pcbs| == MAX_PCBS + 1
      && m'.pcbs == m.pcbs[pid := m.pcbs[pid].(saved := ctx)][frame.pid := m'.pcbs[frame.pid]]
    requires FrameAt(m'.pcbs, [frame], 0)
    requires m'.frame32 == Frame32(frame.pid) && m'.esp0 == StackTop(frame.pid)
    ensures Represents(m', Stacks(Leave(a, ctx).ttys[m'.sched := On([frame], ctx)], m'.sched))
  {
    hide Live, Allocated;
    FreshPacked();
    var next := m'.sched;
    var a' := Stacks(Leave(a, ctx).ttys[next := On([frame], ctx)], next);
    forall t | 0 <= t < NUM_TERMS ensures TermAt(m', a'.ttys[t], t) {
      if t != next {
        StartedOther(m, a, m', ctx, frame.pid, t);
      }
    }
    StartedPids(a, ctx, frame);
    AllocatedPushed(m.pidUsed, Live(a), {}, frame.pid);
    assert Live(a) - {} + ({} + {frame.pid}) == Live(a');
  }

  lemma StartedOther(m: Machine, a: Stacks, m': Machine, ctx: Context, pid': int, t: int)
    requires Represents(m, a) && 0 <= t < NUM_TERMS && t != Next(m.sched) == m'.sched
    requires 1 <= pid' <= MAX_PCBS && pid' !in Live(a)
    requires |m'.terms| == NUM_TERMS && m'.terms[t] == m.terms[t]
    requires var pid := m.terms[m.sched].active;
      && 0 <= pid <= MAX_PCBS && |m'.pcbs| == MAX_PCBS + 1
      && m'.pcbs == m.pcbs[pid := m.pcbs[pid].(saved := ctx)][pid' := m'.pcbs[pid']]
    ensures TermAt(m', Leave(a, ctx).ttys[t], t)
  {
    var pid := m.terms[m.sched].active;
    var m1 := m.(sched := m'.sched, pcbs := m.pcbs[pid := m.pcbs[pid].(saved := ctx)]);
    SavedTerm(m, a, m1, ctx, t);
    PidsHere(a, t);
    OtherTermKept(m1, m', Leave(a, ctx).ttys[t], t);
  }

  lemma StartedPids(a: Stacks, ctx: Context, frame: Frame)
    requires Stacked(a) && Apart(a) && a.ttys[Next(a.sched)].Off? && frame.pid !in Live(a)
    ensures var ttys := Leave(a, ctx).ttys[Next(a.sched) := On([frame], ctx)];
      var a' := Stacks(ttys, Next(a.sched));
      Apart(a') && Live(a') == Live(a) + {frame.pid}
  {
    var tty := On([frame], ctx);
    assert Pids(tty) == {frame.pid};
    assert Pids(Leave(a, ctx).ttys[a.sched]) == Pids(Current(a));
  }

  // ----- any step -----

  /** A step that fits does to the table what the move does to the stacks, and leaves the processor
      in the same place. */
  lemma StepRefines(m: Machine, a: Stacks, e: Event)
    requires Represents(m, a) && WellFormed(m) && Fits(a, e)
    ensures Represents(Step(m, e).0, Move(a, e).0)
    ensures Step(m, e).1 == Move(a, e).1
  {
    match e
    case Tick(ctx, inner, entry) =>
      if a.ttys[Next(a.sched)].On? {
        ResumeRefines(m, a, ctx, inner, entry);
      } else {
        StartRefines(m, a, ctx, inner, entry);
      }
    case Execute(program, ctx) => ExecuteRefines(m, a, program, ctx);
    case Halt(status, inner, entry) => HaltRefines(m, a, status, inner, entry);
    case Files(request) => FilesRefines(m, a, request);
  }

  /** A step that does not fit leaves a table that no stacks at all account for. */
  lemma {:induction false} StepMisfits(m: Machine, a: Stacks, e: Event, a': Stacks)
    requires Represents(m, a) && WellFormed(m) && !Fits(a, e)
    ensures !Represents(Step(m, e).0, a')
  {
    match e
    case Tick(ctx, inner, entry) => StartMisfits(m, a, ctx, inner, entry, a');
    case Execute(program, ctx) => CorruptMisfits(m, a, program, ctx, a');
    case Halt(status, inner, entry) => RestartMisfits(m, a, status, inner, entry, a');
  }

  /** Terminal and program started with a full table: the new terminal claims the last pid, which
      another one has. */
  lemma {:induction false} StartMisfits(m: Machine, a: Stacks, ctx: Context, inner: Context, entry: int, a': Stacks)
    requires Represents(m, a) && WellFormed(m) && !Fits(a, Tick(ctx, inner, entry))
    ensures !Represents(TickStep(m, ctx, inner, entry).0, a')
  {
    TopPcb(m, a);
    ScansAgree(m.pidUsed, Live(a), 0);
    assert TermAt(m, a.ttys[Next(a.sched)], Next(a.sched));
    FullTableStart(m, ctx, inner, entry);
    if Represents(TickStep(m, ctx, inner, entry).0, a') {
      TwoRunOnePid(TickStep(m, ctx, inner, entry).0, a', m.sched);
    }
  }

  lemma FullTableStart(m: Machine, ctx: Context, inner: Context, entry: int)
    requires WellFormed(m) && !m.terms[Next(m.sched)].started && FreePid(m.pidUsed, 0) > MAX_PCBS
    ensures var m' := TickStep(m, ctx, inner, entry).0;
      && m'.sched == Next(m.sched) && |m'.terms| == NUM_TERMS
      && m'.terms[m.sched] == m.terms[m.sched]
      && m'.terms[m'.sched] == Terminal(MAX_PCBS, MAX_PCBS, true)
      && m'.frame32 == m.frame32
  {
  }

  lemma TwoRunOnePid(m: Machine, a: Stacks, t: int)
    requires Represents(m, a) && 0 <= t < NUM_TERMS && t != m.sched && m.terms[t].started
    ensures m.frame32 != Frame32(m.terms[t].active)
  {
    TopPcb(m, a);
    assert TermAt(m, a.ttys[t], t) && TermAt(m, a.ttys[m.sched], m.sched);
    TopInStack(a.ttys[t]);
    TopInStack(a.ttys[m.sched]);
  }

  lemma {:induction false} CorruptMisfits(m: Machine, a: Stacks, program: Program, ctx: Context, a': Stacks)
    requires Represents(m, a) && WellFormed(m) && !Fits(a, Execute(program, ctx))
    ensures !Represents(ExecuteStep(m, program, ctx).0, a')
  {
    TopPcb(m, a);
    RunningIsLive(m, a);
    ScansAgree(m.pidUsed, Live(a), 0);
    FrameOfRunning(m.terms[m.sched].active, FreePid(m.pidUsed, 0));
  }

  lemma RestartMisfits(m: Machine, a: Stacks, status: int, inner: Context, entry: int, a': Stacks)
    requires Represents(m, a) && WellFormed(m) && !Fits(a, Halt(status, inner, entry))
    ensures !Represents(HaltStep(m, status, inner, entry).0, a')
  {
    hide TermAt, Apart, Allocated, Live;
    TopPcb(m, a);
    ScansAgree(m.pidUsed, Live(a), 0);
    var pid := m.terms[m.sched].active;
    LiveIsUsed(m, a, pid);
    RunningIsLive(m, a);
    LowerPidChosen(m.pidUsed, pid);
    var m' := HaltStep(m, status, inner, entry).0;
    assert m'.terms[m'.sched].base == pid && !m'.pidUsed[pid - 1];
    if Represents(m', a') {
      BaseIsUsed(m', a');
    }
  }

  /** A base shell that halts comes back under its own pid if and only if no lower pid is free. */
  lemma RestartKeepsPidIff(m: Machine, a: Stacks, status: int, inner: Context, entry: int)
    requires Represents(m, a) && WellFormed(m) && |Current(a).stack| == 1
    ensures var (term, after) := (m.terms[m.sched], HaltStep(m, status, inner, entry).0.terms[m.sched]);
      && after.base == term.base
      && (after.active == term.base <==> LowestFree(Live(a), 1) > term.base)
      && (after.active != term.base ==> after.active == LowestFree(Live(a), 1))
  {
    hide TermAt, Apart, Allocated, Live;
    TopPcb(m, a);
    ScansAgree(m.pidUsed, Live(a), 0);
    var pid := m.terms[m.sched].active;
    RunningIsLive(m, a);
    FreedChosen(m.pidUsed, pid);
  }

  /** The pid chosen after one is freed: that one, or a lower one that was free already. */
  lemma FreedChosen(used: seq<bool>, pid: int)
    requires |used| == MAX_PCBS && 1 <= pid <= MAX_PCBS && used[pid - 1]
    ensures var free := FreePid(used, 0);
      FreePid(used[pid - 1 := false], 0) == if free > pid then pid else free
  {
    var used', free := used[pid - 1 := false], FreePid(used, 0);
    if free > pid {
      SamePidChosen(used, pid);
    } else {
      assert !used'[free - 1];
      assert forall k | 0 <= k < free - 1 :: used'[k];
    }
  }

  lemma LowerPidChosen(used: seq<bool>, pid: int)
    requires |used| == MAX_PCBS && 1 <= pid <= MAX_PCBS && used[pid - 1] && FreePid(used, 0) <= pid
    ensures FreePid(used[pid - 1 := false], 0) < pid
  {
    var used' := used[pid - 1 := false];
    assert !used'[FreePid(used, 0) - 1];
  }

  lemma FrameOfRunning(p: int, q: int)
    requires p != q
    ensures Frame32(p) != Frame32(q)
  {
  }

  lemma RunningIsLive(m: Machine, a: Stacks)
    requires Represents(m, a)
    ensures 1 <= m.terms[m.sched].active <= MAX_PCBS && m.pidUsed[m.terms[m.sched].active - 1]
  {
    TopPcb(m, a);
    TopInStack(Current(a));
    PidsHere(a, a.sched);
    LiveIsUsed(m, a, m.terms[m.sched].active);
  }

  lemma BaseIsUsed(m: Machine, a: Stacks)
    requires Represents(m, a)
    ensures 1 <= m.terms[m.sched].base <= MAX_PCBS && m.pidUsed[m.terms[m.sched].base - 1]
  {
    TopPcb(m, a);
    assert TermAt(m, Current(a), a.sched);
    assert FrameAt(m.pcbs, Current(a).stack, 0);
    TopInStack(Current(a));
    PidsHere(a, a.sched);
    LiveIsUsed(m, a, m.terms[m.sched].base);
  }

  /** The table can be accounted for after a step exactly when the step fits. */
  lemma {:induction false} FitsExactly(m: Machine, a: Stacks, e: Event)
    requires Represents(m, a) && WellFormed(m)
    ensures (exists a' :: Represents(Step(m, e).0, a')) <==> Fits(a, e)
  {
    if Fits(a, e) {
      StepRefines(m, a, e);
    } else {
      forall a' ensures !Represents(Step(m, e).0, a') {
        StepMisfits(m, a, e, a');
      }
    }
  }

  // ----- whole runs of the table -----

  /** ms are the tables, and cs the places the processor is sent to, in a run over the events es. */
  ghost predicate Trace(ms: seq<Machine>, cs: seq<Control>, es: seq<Event>) {
    && |ms| == |es| + 1 && |cs| == |es|
    && forall i | 0 <= i < |es| :: WellFormed(ms[i]) && Step(ms[i], es[i]) == (ms[i + 1], cs[i])
  }

  /** The stacks rs account for the tables ms at every point of a run, and send the processor to
      the same places. */
  ghost predicate Explains(rs: seq<Stacks>, ms: seq<Machine>, cs: seq<Control>, es: seq<Event>) {
    && Trace(ms, cs, es) && Behaviour(rs, cs, es)
    && forall i | 0 <= i < |ms| :: Represents(ms[i], rs[i])
  }

  lemma {:induction false} TraceRefines(ms: seq<Machine>, cs: seq<Control>, rs: seq<Stacks>, ds: seq<Control>,
                                        es: seq<Event>, n: nat)
    requires Trace(ms, cs, es) && Behaviour(rs, ds, es) && n <= |es|
    requires Represents(ms[0], rs[0])
    requires forall i | 0 <= i < n :: Fits(rs[i], es[i])
    ensures Represents(ms[n], rs[n])
    ensures n > 0 ==> cs[n - 1] == ds[n - 1]
  {
    if n > 0 {
      TraceRefines(ms, cs, rs, ds, es, n - 1);
      assert Step(ms[n - 1], es[n - 1]) == (ms[n - 1 + 1], cs[n - 1]);
      assert Move(rs[n - 1], es[n - 1]) == (rs[n - 1 + 1], ds[n - 1]);
      assert Fits(rs[n - 1], es[n - 1]);
      StepRefines(ms[n - 1], rs[n - 1], es[n - 1]);
    }
  }

  /** Power-on followed by the first shell. */
  lemma BootRepresents(m: Machine, entry: int, inner: Context)
    requires PowerOn(m)
    ensures Represents(ExecuteStep(m, Image(entry), inner).0, Booted(inner, inner))
  {
    FreshPacked();
    var m', a := ExecuteStep(m, Image(entry), inner).0, Booted(inner, inner);
    assert FrameAt(m'.pcbs, a.ttys[0].stack, 0);
    assert TermAt(m', a.ttys[0], 0) && TermAt(m', a.ttys[1], 1) && TermAt(m', a.ttys[2], 2);
    assert Pids(a.ttys[0]) == {1};
  }

  /** In every state reachable from power-on by ticks, executes, halts, opens and closes in any
      order, provided that the first two events are ticks and no executable is corrupt: the pids
      taken are the disjoint union of three parent chains, one a terminal, that end in the base
      shells 1, 2 and 3, and the page directory, the TSS and the terminal agree on
      who is running. */
  lemma ReachableTables(m: Machine, entry: int, inner: Context,
                        ms: seq<Machine>, cs: seq<Control>, es: seq<Event>)
    returns (rs: seq<Stacks>)
    requires PowerOn(m) && Trace(ms, cs, es) && 2 <= |es|
    requires ms[0] == ExecuteStep(m, Image(entry), inner).0
    requires es[0].Tick? && es[1].Tick?
    requires forall i | 0 <= i < |es| && es[i].Execute? :: !es[i].program.Corrupt?
    ensures Explains(rs, ms, cs, es)
    ensures forall i | 2 <= i < |ms| :: ShellsUp(rs[i])
  {
    var ds;
    BootRepresents(m, entry, inner);
    rs, ds := SomeBehaviour(Booted(inner, inner), es);
    AlwaysFits(rs, ds, es);
    AlwaysRepresents(ms, cs, rs, ds, es);
    assert cs == ds;
  }

  /** Such a run exists over every such list of events: the kernel never reaches a table that it cannot go on from. */
  lemma EveryRunHappens(m: Machine, entry: int, inner: Context, es: seq<Event>)
    returns (rs: seq<Stacks>, ms: seq<Machine>, cs: seq<Control>)
    requires PowerOn(m) && 2 <= |es| && es[0].Tick? && es[1].Tick?
    requires forall i | 0 <= i < |es| && es[i].Execute? :: !es[i].program.Corrupt?
    ensures Explains(rs, ms, cs, es) && ms[0] == ExecuteStep(m, Image(entry), inner).0
    ensures forall i | 2 <= i < |ms| :: ShellsUp(rs[i])
  {
    hide Represents, Step, Move;
    var ds;
    BootRepresents(m, entry, inner);
    rs, ds := SomeBehaviour(Booted(inner, inner), es);
    AlwaysFits(rs, ds, es);
    ms, cs := SomeTrace(ExecuteStep(m, Image(entry), inner).0, rs, ds, es, |es|);
    assert es[..|es|] == es;
    rs := ReachableTables(m, entry, inner, ms, cs, es);
  }

  /** As long as the events fit, no step leaves a table that the next step could not start from. */
  lemma {:induction false} SomeTrace(m: Machine, rs: seq<Stacks>, ds: seq<Control>, es: seq<Event>, n: nat)
    returns (ms: seq<Machine>, cs: seq<Control>)
    requires Behaviour(rs, ds, es) && n <= |es| && Represents(m, rs[0])
    requires forall i | 0 <= i < n :: Fits(rs[i], es[i])
    ensures Trace(ms, cs, es[..n]) && ms[0] == m && Represents(ms[n], rs[n])
  {
    hide Represents, Step, Move, Fits, WellFormed;
    if n == 0 {
      ms, cs := [m], [];
    } else {
      var ms0, cs0 := SomeTrace(m, rs, ds, es, n - 1);
      assert Fits(rs[n - 1], es[n - 1]);
      assert Move(rs[n - 1], es[n - 1]) == (rs[n - 1 + 1], ds[n - 1]);
      RepresentsWellFormed(ms0[n - 1], rs[n - 1]);
      StepRefines(ms0[n - 1], rs[n - 1], es[n - 1]);
      var (last, control) := Step(ms0[n - 1], es[n - 1]);
      ms, cs := ms0 + [last], cs0 + [control];
      forall i | 0 <= i < n ensures WellFormed(ms[i]) && Step(ms[i], es[..n][i]) == (ms[i + 1], cs[i]) {
        if i < n - 1 {
          assert es[..n - 1][i] == es[..n][i];
          assert Step(ms0[i], es[..n - 1][i]) == (ms0[i + 1], cs0[i]);
        }
      }
    }
  }

  lemma AlwaysFits(rs: seq<Stacks>, ds: seq<Control>, es: seq<Event>)
    requires Behaviour(rs, ds, es) && 2 <= |es| && es[0].Tick? && es[1].Tick?
    requires exists inner, saved :: rs[0] == Booted(inner, saved)
    requires forall i | 0 <= i < |es| && es[i].Execute? :: !es[i].program.Corrupt?
    ensures forall i | 0 <= i < |es| :: Fits(rs[i], es[i])
    ensures forall i | 2 <= i < |rs| :: ShellsUp(rs[i])
  {
    hide Fits, Move, ShellsUp;
    forall i | 0 <= i < |es| ensures Fits(rs[i], es[i]) {
      BootPremise(rs, ds, es, i);
    }
    forall i | 2 <= i < |rs| ensures ShellsUp(rs[i]) {
      BootPremise(rs, ds, es, i - 1);
    }
  }

  lemma AlwaysRepresents(ms: seq<Machine>, cs: seq<Control>, rs: seq<Stacks>, ds: seq<Control>, es: seq<Event>)
    requires Trace(ms, cs, es) && Behaviour(rs, ds, es) && Represents(ms[0], rs[0])
    requires forall i | 0 <= i < |es| :: Fits(rs[i], es[i])
    ensures forall i | 0 <= i < |ms| :: Represents(ms[i], rs[i])
    ensures forall i | 0 <= i < |es| :: cs[i] == ds[i]
  {
    hide Represents, Step, Move, Fits, WellFormed;
    forall i | 0 <= i < |ms| ensures Represents(ms[i], rs[i]) {
      TraceRefines(ms, cs, rs, ds, es, i);
    }
    forall i | 0 <= i < |es| ensures cs[i] == ds[i] {
      TraceRefines(ms, cs, rs, ds, es, i + 1);
    }
  }

  /** The stack of the scheduled terminal decides who runs, in which memory, on which kernel stack
      and with which descriptor table. */
  lemma StackDecides(m: Machine, a: Stacks, m': Machine, a': Stacks)
    requires Represents(m, a) && Represents(m', a')
    requires a'.sched == a.sched && Current(a').stack == Current(a).stack
    ensures var (t, pid) := (m.sched, m.terms[m.sched].active);
      && m'.sched == t && m'.terms[t].active == pid && m'.terms[t].base == m.terms[t].base
      && 1 <= pid <= MAX_PCBS
      && m'.frame32 == m.frame32 && m'.esp0 == m.esp0
      && m'.pcbs[pid].files == m.pcbs[pid].files
      && m'.pcbs[pid].caller == m.pcbs[pid].caller
      && m'.pcbs[pid].parent == m.pcbs[pid].parent
  {
    TopPcb(m, a);
    TopPcb(m', a');
    var stack := Current(a).stack;
    assert TermAt(m, Current(a), a.sched) && TermAt(m', Current(a'), a.sched);
    assert FrameAt(m.pcbs, stack, |stack| - 1) && FrameAt(m'.pcbs, stack, |stack| - 1);
  }

  /** A run in the tables without the premise that the first two events are ticks: terminal 2 gets base pid 4, and
      when its base shell halts, it comes back under pid 2. */
  lemma RestartsElsewhere(m: Machine, c: Context) returns (ms: seq<Machine>, cs: seq<Control>, es: seq<Event>)
    requires PowerOn(m)
    ensures var (tick, halt) := (Tick(c, c, 0), Halt(0, c, 0));
      es == [Execute(Image(0), c), tick, tick, tick, halt, tick, tick, halt]
    ensures Trace(ms, cs, es) && ms[0] == ExecuteStep(m, Image(0), c).0
    ensures ms[7].sched == 2 && ms[7].terms[2] == Terminal(4, 4, true) && ms[8].terms[2] == Terminal(2, 4, true)
  {
    hide Represents, Move, Fits, ExecuteStep, HaltStep, TickStep, WellFormed;
    var tick, halt := Tick(c, c, 0), Halt(0, c, 0);
    es := [Execute(Image(0), c), tick, tick, tick, halt, tick, tick, halt];
    var rs, ds := MixedRun(c, es);
    BootRepresents(m, 0, c);
    ms, cs := SomeTrace(ExecuteStep(m, Image(0), c).0, rs, ds, es, 7);
    RepresentsWellFormed(ms[7], Mixed(c, false, 2));
    MixedTable(ms[7], c);
    var (last, control) := Step(ms[7], es[7]);
    var ms', cs' := ms + [last], cs + [control];
    forall i | 0 <= i < 8 ensures WellFormed(ms'[i]) && Step(ms'[i], es[i]) == (ms'[i + 1], cs'[i]) {
      if i < 7 {
        assert Step(ms[i], es[..7][i]) == (ms[i + 1], cs[i]);
      }
    }
    ms, cs := ms', cs';
  }

  /** The stacks of that run. */
  lemma MixedRun(c: Context, es: seq<Event>) returns (rs: seq<Stacks>, ds: seq<Control>)
    requires var (tick, halt) := (Tick(c, c, 0), Halt(0, c, 0));
      es == [Execute(Image(0), c), tick, tick, tick, halt, tick, tick, halt]
    ensures Behaviour(rs, ds, es) && rs[0] == Booted(c, c) && rs[7] == Mixed(c, false, 2)
    ensures forall i | 0 <= i < 7 :: Fits(rs[i], es[i])
  {
    hide Move, Fits;
    var a1, a2 := RestartCanMiss(c);
    var last := Move(Mixed(c, false, 2), es[7]);
    rs := [Booted(c, c), a1, a2, Mixed(c, true, 2), Mixed(c, true, 0), Mixed(c, false, 0), Mixed(c, false, 1),
           Mixed(c, false, 2), last.0];
    ds := seq(8, i requires 0 <= i < 8 => Move(rs[i], es[i]).1);
  }

  lemma MixedTable(m: Machine, c: Context)
    requires Represents(m, Mixed(c, false, 2)) && WellFormed(m)
    ensures m.sched == 2 && m.terms[2] == Terminal(4, 4, true)
    ensures HaltStep(m, 0, c, 0).0.terms[2] == Terminal(2, 4, true)
  {
    var a := Mixed(c, false, 2);
    TopPcb(m, a);
    assert TermAt(m, a.ttys[2], 2);
    assert Pids(a.ttys[0]) == {1} && Pids(a.ttys[1]) == {3} && Pids(a.ttys[2]) == {4};
    assert Live(a) == {1, 3, 4};
    assert LowestFree(Live(a), 1) == 2;
    RestartKeepsPidIff(m, a, 0, c, 0);
  }

  /** Halt undoes execute in the table: when a program started at event i and kept on its terminal's
      stack halts at event j, the pid that runs, its user memory, its kernel stack and its
      descriptor table are those of before event i, and the processor is sent into that execute. */
  lemma HaltRestoresTable(rs: seq<Stacks>, ms: seq<Machine>, cs: seq<Control>, es: seq<Event>, i: nat, j: nat)
    requires Explains(rs, ms, cs, es) && i < j < |es| && Matched(rs, cs, es, i, j)
    ensures var (m, m', pid) := (ms[i], ms[j + 1], ms[i].terms[ms[i].sched].active);
      && 1 <= pid <= MAX_PCBS
      && m'.sched == m.sched && m'.terms[m.sched].active == pid
      && m'.frame32 == m.frame32 && m'.esp0 == m.esp0
      && m'.pcbs[pid].files == m.pcbs[pid].files
    ensures cs[j] == Unwind(es[i].ctx, if es[j].status == 100 then 256 else es[j].status)
  {
    HaltUndoesExecute(rs, cs, es, i, j);
    assert Represents(ms[i], rs[i]) && Represents(ms[j + 1], rs[j + 1]);
    StackDecides(ms[i], rs[i], ms[j + 1], rs[j + 1]);
  }

  /** A base shell that halts under the boot premise is running again under its own pid, as its own
      parent, in its own memory. */
  lemma ShellRestartsInPlace(rs: seq<Stacks>, ms: seq<Machine>, cs: seq<Control>, es: seq<Event>, i: nat)
    requires Explains(rs, ms, cs, es) && i < |es| && es[i].Halt? && ShellsUp(rs[i])
    requires ms[i].terms[ms[i].sched].active == ms[i].terms[ms[i].sched].base
    ensures var (t, m') := (ms[i].sched, ms[i + 1]);
      && cs[i] == Enter(es[i].entry)
      && m'.sched == t && m'.terms[t] == Terminal(t + 1, t + 1, true)
      && m'.pcbs[t + 1].pid == t + 1 && m'.pcbs[t + 1].parent == t + 1 && m'.pcbs[t + 1].files == FRESH
      && m'.frame32 == Frame32(t + 1) && m'.pidUsed == ms[i].pidUsed
  {
    var a, a' := rs[i], rs[i + 1];
    assert Represents(ms[i], a) && Represents(ms[i + 1], a');
    assert Move(a, es[i]) == (a', cs[i]);
    TopPcb(ms[i], a);
    TopPcb(ms[i + 1], a');
    assert TermAt(ms[i + 1], Current(a'), a'.sched);
    assert FrameAt(ms[i + 1].pcbs, Current(a').stack, 0);
    SameLive(ms[i], a, ms[i + 1], a');
  }

  lemma SameLive(m: Machine, a: Stacks, m': Machine, a': Stacks)
    requires Represents(m, a) && Represents(m', a') && Depth(Current(a)) == Depth(Current(a')) == 1
    requires a' == SetCurrent(a, Current(a').stack) && Current(a').stack[0].pid == Current(a).stack[0].pid
    ensures m'.pidUsed == m.pidUsed
  {
    SamePids(Current(a).stack, Current(a').stack, Current(a).saved);
    assert Live(a') == Live(a);
    forall k | 0 <= k < MAX_PCBS ensures m'.pidUsed[k] == m.pidUsed[k] {
      LiveIsUsed(m, a, k + 1);
      LiveIsUsed(m', a', k + 1);
    }
  }
}
