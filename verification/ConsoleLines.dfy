/**
 The lines of the consoles over whole runs: what is typed on a terminal, and what a read delivers of it.
 */
module ConsoleLines {
  import opened Screens
  import opened Keyboards
  import opened Consoles

  /** What has been typed on terminal t since its line began. */
  function TypedOn(ds: seq<Desk>, es: seq<Event>, t: int, n: nat): string
    requires Trace(ds, es) && n <= |es|
  {
    if n == 0 then ""
    else
      var typed, e := TypedOn(ds, es, t, n - 1), es[n - 1];
      if e.Key? && ds[n - 1].visible == t then TypedAfter(typed, Pressing(ds[n - 1], e.scan)) else typed
  }

  // ----- the line is what was typed -----

  /** A read that clears nothing of the line being typed but NULs. */
  ghost predicate ClearsNothing(d: Desk, e: Event)
    requires Valid(d)
  {
    var line := d.lines[d.visible];
    e.Read? ==> forall k | 0 <= k < e.n && k < line.index :: line.buffer[k] == '\0'
  }

  /** Over any run of keys, switches, reads and output, every terminal's buffer holds the characters echoed on it
      since its line began, each backspace taking one back, as long as reads clear nothing of a line being typed. */
  lemma {:induction false} LineReplays(ds: seq<Desk>, es: seq<Event>, t: int, n: nat)
    requires Trace(ds, es) && n <= |es| && Valid(ds[0]) && 0 <= t < NUM_TERMS && Holds(ds[0].lines[t], "")
    requires forall i | 0 <= i < n :: ClearsNothing(ds[i], es[i])
    ensures Valid(ds[n]) && Holds(ds[n].lines[t], TypedOn(ds, es, t, n))
  {
    if n > 0 {
      LineReplays(ds, es, t, n - 1);
      assert Step(ds[n - 1], es[n - 1]) == ds[n - 1 + 1];
      ReplayStep(ds[n - 1], es[n - 1], t, TypedOn(ds, es, t, n - 1));
    }
  }

  lemma ReplayStep(d: Desk, e: Event, t: int, typed: string)
    requires Valid(d) && Enabled(d, e) && 0 <= t < NUM_TERMS && Holds(d.lines[t], typed) && ClearsNothing(d, e)
    ensures Holds(Step(d, e).lines[t],
                  if e.Key? && d.visible == t then TypedAfter(typed, Pressing(d, e.scan)) else typed)
  {
    hide Press, OnMapped;
    if d.visible == t {
      if e.Key? {
        PressHolds(d.flags, d.lines[t], e.scan, typed);
      } else if e.Read? {
        ReadHoldsIff(d.lines[t], typed, e.n);
      }
    }
  }

  /** And exactly as long: a read that clears more breaks the line of the visible terminal. */
  lemma ReplayStepIff(d: Desk, e: Event, typed: string)
    requires Valid(d) && Enabled(d, e) && e.Read? && Holds(d.lines[d.visible], typed)
    ensures Holds(Step(d, e).lines[d.visible], typed) <==> ClearsNothing(d, e)
  {
    ReadHoldsIff(d.lines[d.visible], typed, e.n);
  }

  /** Neither Enter nor Ctrl-L on this terminal. */
  ghost predicate SameLine(d: Desk, e: Event, t: int)
    requires Valid(d) && Enabled(d, e)
  {
    e.Key? && d.visible == t ==> !Pressing(d, e.scan).act.EnterDown? && !Pressing(d, e.scan).act.ClearScreen?
  }

  lemma {:induction false} StaysClean(ds: seq<Desk>, es: seq<Event>, t: int, s: nat, n: nat)
    requires Trace(ds, es) && s <= n <= |es| && Valid(ds[0]) && 0 <= t < NUM_TERMS && Holds(ds[0].lines[t], "")
    requires forall i | 0 <= i < n :: ClearsNothing(ds[i], es[i])
    requires Valid(ds[s]) && CleanBehind(ds[s].lines[t])
    requires forall i | s <= i < n :: SameLine(ds[i], es[i], t)
    ensures Valid(ds[n]) && CleanBehind(ds[n].lines[t])
  {
    hide Step, Enabled, SameLine, ClearsNothing, Holds, CleanBehind;
    if s < n {
      StaysClean(ds, es, t, s, n - 1);
      LineReplays(ds, es, t, n - 1);
      assert Step(ds[n - 1], es[n - 1]) == ds[n - 1 + 1];
      CleanStep(ds[n - 1], es[n - 1], t, TypedOn(ds, es, t, n - 1));
    }
  }

  lemma CleanStep(d: Desk, e: Event, t: int, typed: string)
    requires Valid(d) && Enabled(d, e) && 0 <= t < NUM_TERMS && Holds(d.lines[t], typed)
    requires CleanBehind(d.lines[t]) && SameLine(d, e, t)
    ensures CleanBehind(Step(d, e).lines[t])
  {
    hide Press, OnMapped;
    if e.Key? && d.visible == t {
      PressHolds(d.flags, d.lines[t], e.scan, typed);
    }
  }

  // ----- what a read delivers -----

  /** The event leaves an entered line of terminal t to be read. */
  ghost predicate LeavesEntered(d: Desk, e: Event, t: int)
    requires Valid(d) && Enabled(d, e)
  {
    d.visible == t ==> !e.Read? && (e.Key? ==> Spares(d.flags, e.scan))
  }

  lemma {:induction false} EnteredKept(ds: seq<Desk>, es: seq<Event>, t: int, i: nat, j: nat)
    requires Trace(ds, es) && i <= j <= |es| && Valid(ds[i]) && 0 <= t < NUM_TERMS && ds[i].lines[t].index == 0
    requires forall k | i <= k < j :: LeavesEntered(ds[k], es[k], t)
    ensures Valid(ds[j]) && ds[j].lines[t] == ds[i].lines[t]
  {
    hide Step, Enabled, LeavesEntered;
    if i < j {
      EnteredKept(ds, es, t, i, j - 1);
      assert Step(ds[j - 1], es[j - 1]) == ds[j - 1 + 1];
      KeptStep(ds[j - 1], es[j - 1], t);
    }
  }

  lemma KeptStep(d: Desk, e: Event, t: int)
    requires Valid(d) && Enabled(d, e) && 0 <= t < NUM_TERMS && d.lines[t].index == 0 && LeavesEntered(d, e, t)
    ensures Step(d, e).lines[t] == d.lines[t]
  {
    hide Press, OnMapped, Spares;
    if e.Key? && d.visible == t {
      SparedKeeps(d.flags, d.lines[t], e.scan);
    }
  }

  lemma SparedKeeps(flags: Flags, line: Line, scan: int)
    requires ValidFlags(flags) && ValidLine(line) && line.index == 0 && 0 <= scan < 256 && Spares(flags, scan)
    ensures Press(flags, line, scan).line == line && !Press(flags, line, scan).act.EnterDown?
  {
  }

  /** Enter is pressed on the visible terminal by event i, and event j is the read of its line: the terminal is
      visible again, and no key in between was one that wipes the line out. */
  ghost predicate ReadOf(ds: seq<Desk>, es: seq<Event>, i: nat, j: nat)
    requires Trace(ds, es) && i < j < |es|
  {
    && es[i].Key? && Pressing(ds[i], es[i].scan).act.EnterDown?
    && es[j] == Read(BUFFER_LIMIT) && ds[j].visible == ds[i].visible
    && forall k | i < k < j :: LeavesEntered(ds[k], es[k], ds[i].visible)
  }

  /** Such a read delivers exactly what was typed on the terminal since its line began, corrected by its
      backspaces, and a newline, if and only if that holds no NUL and the cell behind the newline does. */
  lemma EnteredDelivered(ds: seq<Desk>, es: seq<Event>, i: nat, j: nat)
    requires Trace(ds, es) && i < j < |es| && ReadOf(ds, es, i, j)
    requires Valid(ds[0]) && Holds(ds[0].lines[ds[i].visible], "")
    requires forall k | 0 <= k < i :: ClearsNothing(ds[k], es[k])
    ensures var (v, buffer) := (ds[i].visible, ds[i].lines[ds[i].visible].buffer);
      var text := Replay(TypedOn(ds, es, v, i));
      && |text| < BUFFER_LIMIT
      && (Delivered(ds[j], BUFFER_LIMIT) == text + "\n"
          <==> '\0' !in text && (|text| + 1 < BUFFER_LIMIT ==> buffer[|text| + 1] == '\0'))
  {
    var v := ds[i].visible;
    LineReplays(ds, es, v, i);
    var line := ds[i].lines[v];
    OnlyEnterEnters(ds[i].flags, line, es[i].scan);
    assert Step(ds[i], es[i]) == ds[i + 1];
    EnterStep(ds[i], es[i]);
    EnteredKept(ds, es, v, i + 1, j);
    ReadDeliversLine(line);
    assert |Replay(TypedOn(ds, es, v, i))| == |line.buffer[..line.index]| == line.index;
  }

  lemma EnterStep(d: Desk, e: Event)
    requires Valid(d) && Enabled(d, e) && e.Key? && Pressing(d, e.scan).act.EnterDown?
    ensures d.lines[d.visible].index < BUFFER_LIMIT
    ensures Step(d, e).lines[d.visible] == Entered(d.lines[d.visible])
    ensures Step(d, e).visible == d.visible && Step(d, e).enter == d.enter[d.visible := true]
  {
    OnlyEnterEnters(d.flags, d.lines[d.visible], e.scan);
  }

  /** From a cleared buffer, without Ctrl-L, the read delivers the line that was typed and a newline, if and only
      if no NUL was typed into it. */
  lemma ReadGetsTypedLine(ds: seq<Desk>, es: seq<Event>, s: nat, i: nat, j: nat)
    requires Trace(ds, es) && s <= i < j < |es| && ReadOf(ds, es, i, j)
    requires Valid(ds[0]) && Holds(ds[0].lines[ds[i].visible], "")
    requires forall k | 0 <= k < i :: ClearsNothing(ds[k], es[k])
    requires Valid(ds[s]) && CleanBehind(ds[s].lines[ds[i].visible])
    requires forall k | s <= k < i :: SameLine(ds[k], es[k], ds[i].visible)
    ensures var text := Replay(TypedOn(ds, es, ds[i].visible, i));
      Delivered(ds[j], BUFFER_LIMIT) == text + "\n" <==> '\0' !in text
  {
    var v := ds[i].visible;
    EnteredDelivered(ds, es, i, j);
    LineReplays(ds, es, v, i);
    StaysClean(ds, es, v, s, i);
    var line := ds[i].lines[v];
    assert |Replay(TypedOn(ds, es, v, i))| == |line.buffer[..line.index]| == line.index;
  }

  /** A key that is not released before Enter is pressed wipes the line out when it is released after, unless it
      is one of those spared: the handler ends by terminating an empty line, which is where the entered one still
      waits to be read. */
  lemma ReleaseWipesLine(flags: Flags, line: Line, scan: int)
    requires ValidFlags(flags) && ValidLine(line) && line.index == 0 && CHAR_LIMIT <= scan < 256
    ensures Spares(flags, scan) ==> Press(flags, line, scan).line == line
    ensures !Spares(flags, scan) ==> LineText(Press(flags, line, scan).line, BUFFER_LIMIT) == ""
  {
  }

  /** The buffer of a line that was entered: its text, a newline, and NULs. */
  ghost predicate HoldsEntered(line: Line, text: string) {
    && ValidLine(line) && line.index == 0 && |text| < BUFFER_LIMIT
    && line.buffer[..|text|] == text && line.buffer[|text|] == '\n'
    && forall k | |text| < k < BUFFER_LIMIT :: line.buffer[k] == '\0'
  }

  lemma EnteredDelivers(line: Line, text: string)
    requires HoldsEntered(line, text) && '\0' !in text
    ensures LineText(line, BUFFER_LIMIT) == text + "\n"
  {
    var b := line.buffer;
    var k := ReadCount(b, BUFFER_LIMIT);
    forall i | 0 <= i <= |text| ensures b[i] != '\0' {
      assert i < |text| ==> b[..|text|][i] == text[i];
    }
    assert |text| + 1 < BUFFER_LIMIT ==> b[|text| + 1] == '\0';
    assert k == |text| + 1;
    assert b[..k] == b[..|text|] + [b[|text|]];
  }

  /** An entered line is still to be read after a key if and only if the key is one of those spared, or another
      Enter on an empty line. */
  lemma EnteredSparedIff(flags: Flags, line: Line, scan: int, text: string)
    requires ValidFlags(flags) && HoldsEntered(line, text) && '\0' !in text && 0 <= scan < 256
    ensures LineText(Press(flags, line, scan).line, BUFFER_LIMIT) == text + "\n"
      <==> Spares(flags, scan) || (scan == ENTER_PRESSED && line.buffer[0] == '\n')
    ensures Spares(flags, scan) ==> Press(flags, line, scan).line == line
  {
    if Spares(flags, scan) {
      SparedKeeps(flags, line, scan);
      EnteredDelivers(line, text);
    } else if scan == ENTER_PRESSED {
      EnterAgain(line, text);
    } else {
      var c := UnsparedLine(flags, line, scan);
      LineLost(line, text, c);
    }
  }

  /** What is in the buffer of an empty line after any other key. */
  lemma UnsparedLine(flags: Flags, line: Line, scan: int) returns (c: char)
    requires ValidFlags(flags) && ValidLine(line) && line.index == 0 && 0 <= scan < 256
    requires !Spares(flags, scan) && scan != ENTER_PRESSED
    ensures c != '\n' && Press(flags, line, scan).line in [Blanked(line), Tabbed(line), Append(line, c)]
  {
    hide KeyChar, Append, Tabbed, Blanked;
    NoKeyNewline(scan);
    var f := Modifier(flags, scan);
    c := KeyChar(if f.shift then (if !IsLetter(scan) then SHIFT else if f.caps then PLAIN else CAPS)
                 else if f.caps then CAPS else PLAIN, scan);
  }

  lemma LineLost(line: Line, text: string, c: char)
    requires HoldsEntered(line, text) && c != '\n'
    ensures LineText(Blanked(line), BUFFER_LIMIT) != text + "\n"
    ensures LineText(Tabbed(line), BUFFER_LIMIT) != text + "\n"
    ensures LineText(Append(line, c), BUFFER_LIMIT) != text + "\n"
  {
    NoNewlineRead(Blanked(line), 0);
    NoNewlineRead(Tabbed(line), TAB_SIZE);
    NoNewlineRead(Append(line, c), 1);
    assert (text + "\n")[|text|] == '\n';
  }

  lemma NoNewlineRead(line: Line, n: nat)
    requires ValidLine(line) && n < BUFFER_LIMIT && line.buffer[n] == '\0' && '\n' !in line.buffer[..n]
    ensures '\n' !in LineText(line, BUFFER_LIMIT)
  {
    assert ReadCount(line.buffer, BUFFER_LIMIT) <= n;
    forall i | 0 <= i < |LineText(line, BUFFER_LIMIT)| ensures LineText(line, BUFFER_LIMIT)[i] != '\n' {
      assert line.buffer[..n][i] != '\n';
    }
  }

  lemma EnterAgain(line: Line, text: string)
    requires HoldsEntered(line, text) && '\0' !in text
    ensures LineText(Entered(line), BUFFER_LIMIT) == text + "\n" <==> line.buffer[0] == '\n'
  {
    if line.buffer[0] == '\n' {
      assert Entered(line) == line;
      EnteredDelivers(line, text);
    }
  }

  /** Enter on terminal 0, the release of a key (that of A), and the read of the program there: it gets nothing,
      whatever was typed. */
  lemma ReleaseLosesLine(d: Desk) returns (ds: seq<Desk>, es: seq<Event>)
    requires Valid(d) && d.visible == d.sched == 0 && d.lines[0].index < BUFFER_LIMIT
    requires d.flags == Flags(false, false, false, false, false, false, d.flags.count)
    ensures es == [Key(ENTER_PRESSED), Key(A_RELEASED), Read(BUFFER_LIMIT)]
    ensures Trace(ds, es) && ds[0] == d && ds[2].sched == ds[2].visible
    ensures d.lines[0].index == 0 || d.lines[0].buffer[0] != '\0' ==> Delivered(ds[1], BUFFER_LIMIT) != ""
    ensures Delivered(ds[2], BUFFER_LIMIT) == ""
  {
    hide Press, OnMapped, Put, PutAll;
    es := [Key(ENTER_PRESSED), Key(A_RELEASED), Read(BUFFER_LIMIT)];
    var d1 := Step(d, es[0]);
    EnterFlags(d);
    EnterStep(d, es[0]);
    var d2 := Step(d1, es[1]);
    ReleaseWipesLine(d1.flags, d1.lines[0], A_RELEASED);
    ReleaseFlags(d1);
    var d3 := Step(d2, es[2]);
    ds := [d, d1, d2, d3];
  }

  lemma ReleaseFlags(d: Desk)
    requires Valid(d) && d.flags == Flags(false, false, false, false, false, false, 0)
    ensures Pressing(d, A_RELEASED).act.Nothing?
  {
  }

  // ----- whose program reads -----

  /** What a read would deliver with these lines. */
  ghost predicate DeliversOwn(d: Desk, lines: seq<Line>, n: nat)
    requires Valid(d) && n <= BUFFER_LIMIT
    requires |lines| == NUM_TERMS && forall t | 0 <= t < NUM_TERMS :: ValidLine(lines[t])
  {
    Delivered(d.(lines := lines), n) == LineText(lines[d.sched], n)
  }

  /** A program gets the line of its own terminal, whatever the lines are, if and only if its terminal is the
      visible one at the read. */
  lemma OwnLineIff(d: Desk, n: nat)
    requires Valid(d) && 0 < n <= BUFFER_LIMIT
    ensures (forall lines: seq<Line> | |lines| == NUM_TERMS && (forall t | 0 <= t < NUM_TERMS :: ValidLine(lines[t])) ::
               DeliversOwn(d, lines, n))
      <==> d.sched == d.visible
  {
    if d.sched != d.visible {
      var empty := Line(seq(BUFFER_LIMIT, _ => '\0'), 0);
      var full := Line(seq(BUFFER_LIMIT, _ => 'x'), 0);
      var lines := seq(NUM_TERMS, t => if t == d.visible then full else empty);
      assert LineText(full, n) != "" && LineText(empty, n) == "";
      assert !DeliversOwn(d, lines, n);
    }
  }

  /** Enter on terminal 0, a switch to terminal 1, and the read of the program on terminal 0: it is let through by
      the flag of its own terminal and gets, and clears, the line of terminal 1; its own flag stays set, so that it
      does not have to wait the next time either. */
  lemma OtherLineRead(d: Desk) returns (ds: seq<Desk>, es: seq<Event>)
    requires Valid(d) && d.visible == d.sched == 0 && d.lines[0].index < BUFFER_LIMIT
    requires d.flags == Flags(false, false, false, false, false, false, d.flags.count)
    ensures es == [Key(ENTER_PRESSED), Key(CTRL_PRESSED), Key(ALT_PRESSED), Key(F1_PRESSED + 1), Read(BUFFER_LIMIT)]
    ensures Trace(ds, es) && ds[0] == d
    ensures ds[4].sched == 0 && ds[4].visible == 1
    ensures Delivered(ds[4], BUFFER_LIMIT) == LineText(d.lines[1], BUFFER_LIMIT)
    ensures ds[5].lines[1].buffer == seq(BUFFER_LIMIT, _ => '\0')
    ensures ds[5].enter[0] && !ds[5].enter[1]
  {
    hide Press, OnMapped, Put, PutAll;
    es := [Key(ENTER_PRESSED), Key(CTRL_PRESSED), Key(ALT_PRESSED), Key(F1_PRESSED + 1), Read(BUFFER_LIMIT)];
    var d1 := Step(d, es[0]);
    EnterFlags(d);
    EnterStep(d, es[0]);
    var d2 := Step(d1, es[1]);
    CtrlPressed(d1);
    var d3 := Step(d2, es[2]);
    AltPressed(d2);
    SwitchKeepsEnter(d3);
    SwitchInvisible(d3, F1_PRESSED + 1);
    var d4 := Step(d3, es[3]);
    var d5 := Step(d4, es[4]);
    ds := [d, d1, d2, d3, d4, d5];
  }

  lemma EnterFlags(d: Desk)
    requires Valid(d) && d.lines[d.visible].index < BUFFER_LIMIT
    requires d.flags == Flags(false, false, false, false, false, false, d.flags.count)
    ensures var d' := Step(d, Key(ENTER_PRESSED));
      && d'.flags == d.flags.(count := 0) && d'.sched == d.sched
      && Pressing(d, ENTER_PRESSED).act.EnterDown?
      && forall t | 0 <= t < NUM_TERMS && t != d.visible :: d'.lines[t] == d.lines[t]
  {
  }

  lemma CtrlPressed(d: Desk)
    requires Valid(d) && d.lines[d.visible].index == 0
    requires d.flags == Flags(false, false, false, false, false, false, 0)
    ensures var d' := Step(d, Key(CTRL_PRESSED));
      && d'.flags == Flags(false, false, true, false, false, false, 1)
      && d'.lines == d.lines && d'.visible == d.visible && d'.sched == d.sched && d'.enter == d.enter
  {
  }

  lemma AltPressed(d: Desk)
    requires Valid(d) && d.flags == Flags(false, false, true, false, false, false, 1)
    ensures var d' := Step(d, Key(ALT_PRESSED));
      && d'.flags == d.flags.(alt := true)
      && d'.lines == d.lines && d'.visible == d.visible && d'.sched == d.sched && d'.enter == d.enter
  {
  }

  lemma SwitchKeepsEnter(d: Desk)
    requires Valid(d) && d.flags == Flags(false, false, true, true, false, false, 1)
    ensures Enabled(d, Key(F1_PRESSED + 1)) && Pressing(d, F1_PRESSED + 1).act == SwitchTo(1)
    ensures Step(d, Key(F1_PRESSED + 1)).enter == d.enter
  {
  }

  /** A read is let through from Enter to its release on that terminal, unless a read comes first: when Enter is
      released before the program is scheduled, it goes on waiting. */
  lemma EnterWithdrawn(d: Desk)
    requires Valid(d) && !(d.flags.ctrl && d.flags.alt && d.flags.fkey) && d.lines[d.visible].index < BUFFER_LIMIT
    ensures Step(d, Key(0x1C)).enter == d.enter[d.visible := true]
    ensures Step(d, Key(0x9C)).enter == d.enter[d.visible := false]
    ensures forall n | 0 <= n <= BUFFER_LIMIT ::
      Enabled(Step(d, Key(0x9C)), Read(n)) <==> d.sched != d.visible && d.enter[d.sched]
  {
    hide Put, PutAll;
  }

  /** No terminal is left while its Enter flag is set. */
  ghost predicate StaysForRead(d: Desk, e: Event)
    requires Valid(d) && Enabled(d, e)
  {
    e.Key? && Pressing(d, e.scan).act.SwitchTo? && Pressing(d, e.scan).act.terminal != d.visible
    ==> !d.enter[d.visible]
  }

  lemma {:induction false} FlagIsVisible(ds: seq<Desk>, es: seq<Event>, n: nat)
    requires Trace(ds, es) && n <= |es| && Valid(ds[0])
    requires forall u | 0 <= u < NUM_TERMS :: !ds[0].enter[u]
    requires forall k | 0 <= k < n :: StaysForRead(ds[k], es[k])
    ensures Valid(ds[n]) && forall u | 0 <= u < NUM_TERMS && ds[n].enter[u] :: u == ds[n].visible
  {
    if n > 0 {
      FlagIsVisible(ds, es, n - 1);
      assert Step(ds[n - 1], es[n - 1]) == ds[n - 1 + 1];
      FlagStep(ds[n - 1], es[n - 1]);
    }
  }

  lemma FlagStep(d: Desk, e: Event)
    requires Valid(d) && Enabled(d, e) && StaysForRead(d, e)
    requires forall u | 0 <= u < NUM_TERMS && d.enter[u] :: u == d.visible
    ensures forall u | 0 <= u < NUM_TERMS && Step(d, e).enter[u] :: u == Step(d, e).visible
  {
    hide Press, OnMapped, Put, PutAll;
  }

  /** As long as no terminal is left while its Enter flag is set, every read is by a program of the visible
      terminal, and so gets its own line. */
  lemma ReaderIsVisible(ds: seq<Desk>, es: seq<Event>, n: nat)
    requires Trace(ds, es) && n < |es| && Valid(ds[0]) && es[n].Read?
    requires forall u | 0 <= u < NUM_TERMS :: !ds[0].enter[u]
    requires forall k | 0 <= k < n :: StaysForRead(ds[k], es[k])
    ensures ds[n].sched == ds[n].visible
  {
    FlagIsVisible(ds, es, n);
    assert Step(ds[n], es[n]) == ds[n + 1];
  }

  // ----- orderly runs -----

  /** Enter has been pressed and its line has not been read yet. */
  predicate Pending(ds: seq<Desk>, es: seq<Event>, n: nat)
    requires Trace(ds, es) && n <= |es|
  {
    if n == 0 then false
    else if es[n - 1].Read? then false
    else Pending(ds, es, n - 1) || (es[n - 1].Key? && Pressing(ds[n - 1], es[n - 1].scan).act.EnterDown?)
  }

  /** The line that is pending: what had been typed when Enter was pressed. */
  function PendingText(ds: seq<Desk>, es: seq<Event>, n: nat): string
    requires Trace(ds, es) && n <= |es|
  {
    if n == 0 then ""
    else if es[n - 1].Key? && Pressing(ds[n - 1], es[n - 1].scan).act.EnterDown? then
      Replay(TypedOn(ds, es, ds[n - 1].visible, n - 1))
    else PendingText(ds, es, n - 1)
  }

  /** A line that has been entered is read, in full, before a key that would wipe it out or leave its terminal;
      until Enter is pressed there is no Ctrl-L. */
  ghost predicate Orderly(ds: seq<Desk>, es: seq<Event>)
    requires Trace(ds, es)
  {
    forall i | 0 <= i < |es| :: InOrder(ds[i], es[i], Pending(ds, es, i))
  }

  ghost predicate InOrder(d: Desk, e: Event, pending: bool)
    requires Valid(d) && Enabled(d, e)
  {
    && (e.Key? ==>
          if pending then Spares(d.flags, e.scan) && Step(d, e).visible == d.visible
          else !Pressing(d, e.scan).act.ClearScreen?)
    && (e.Read? ==> pending && e.n == BUFFER_LIMIT)
  }

  ghost predicate LineInOrder(line: Line, typed: string, entered: bool, text: string) {
    && Holds(line, typed)
    && if entered then HoldsEntered(line, text) else CleanBehind(line)
  }

  lemma {:induction false} KeyKeepsOrder(line: Line, typed: string, flags: Flags, scan: int)
    requires ValidFlags(flags) && LineInOrder(line, typed, false, "") && 0 <= scan < 256 && HasRoom(line, scan)
    requires !Press(flags, line, scan).act.ClearScreen?
    ensures var p := Press(flags, line, scan);
      LineInOrder(p.line, TypedAfter(typed, p), p.act.EnterDown?, Replay(typed))
  {
    PressHolds(flags, line, scan, typed);
    var p := Press(flags, line, scan);
    if p.act.EnterDown? {
      OnlyEnterEnters(flags, line, scan);
      assert p.line.buffer[..line.index] == line.buffer[..line.index];
      assert |Replay(typed)| == line.index;
    }
  }

  lemma OnlyEnterEnters(flags: Flags, line: Line, scan: int)
    requires ValidFlags(flags) && ValidLine(line) && 0 <= scan < 256 && HasRoom(line, scan)
    requires Press(flags, line, scan).act.EnterDown?
    ensures scan == ENTER_PRESSED && Press(flags, line, scan).line == Entered(line)
  {
  }

  lemma {:induction false} LinesInOrder(ds: seq<Desk>, es: seq<Event>, t: int, n: nat)
    requires Trace(ds, es) && Orderly(ds, es) && n <= |es| && Valid(ds[0]) && 0 <= t < NUM_TERMS
    requires forall u | 0 <= u < NUM_TERMS :: Holds(ds[0].lines[u], "") && CleanBehind(ds[0].lines[u])
    ensures Valid(ds[n])
    ensures LineInOrder(ds[n].lines[t], TypedOn(ds, es, t, n), Pending(ds, es, n) && t == ds[n].visible,
                        PendingText(ds, es, n))
  {
    if n > 0 {
      LinesInOrder(ds, es, t, n - 1);
      assert Step(ds[n - 1], es[n - 1]) == ds[n - 1 + 1];
      OrderStep(ds[n - 1], es[n - 1], t, TypedOn(ds, es, t, n - 1), Pending(ds, es, n - 1), PendingText(ds, es, n - 1));
    }
  }

  lemma OrderStep(d: Desk, e: Event, t: int, typed: string, pending: bool, text: string)
    requires Valid(d) && Enabled(d, e) && 0 <= t < NUM_TERMS
    requires LineInOrder(d.lines[t], typed, pending && t == d.visible, text)
    requires InOrder(d, e, pending)
    ensures LineInOrder(Step(d, e).lines[t],
        if e.Key? && d.visible == t then TypedAfter(typed, Pressing(d, e.scan)) else typed,
        (if e.Read? then false else pending || (e.Key? && Pressing(d, e.scan).act.EnterDown?))
        && t == Step(d, e).visible,
        if e.Key? && Pressing(d, e.scan).act.EnterDown? then Replay(typed) else text)
  {
    hide Press, OnMapped, Put, PutAll, Replay, Spares;
    if e.Key? && d.visible == t {
      if pending {
        SparedKeeps(d.flags, d.lines[t], e.scan);
        PressHolds(d.flags, d.lines[t], e.scan, typed);
      } else {
        KeyKeepsOrder(d.lines[t], typed, d.flags, e.scan);
      }
    } else if e.Read? && d.visible == t {
      ReadHoldsIff(d.lines[t], typed, e.n);
    }
  }

  lemma {:induction false} FlagIsPending(ds: seq<Desk>, es: seq<Event>, n: nat)
    requires Trace(ds, es) && Orderly(ds, es) && n <= |es| && Valid(ds[0])
    requires forall u | 0 <= u < NUM_TERMS :: !ds[0].enter[u]
    ensures Valid(ds[n])
    ensures forall u | 0 <= u < NUM_TERMS && ds[n].enter[u] :: Pending(ds, es, n) && u == ds[n].visible
  {
    if n > 0 {
      FlagIsPending(ds, es, n - 1);
      assert Step(ds[n - 1], es[n - 1]) == ds[n - 1 + 1];
      PendingStep(ds[n - 1], es[n - 1], Pending(ds, es, n - 1));
    }
  }

  lemma PendingStep(d: Desk, e: Event, pending: bool)
    requires Valid(d) && Enabled(d, e) && InOrder(d, e, pending)
    requires forall u | 0 <= u < NUM_TERMS && d.enter[u] :: pending && u == d.visible
    ensures forall u | 0 <= u < NUM_TERMS && Step(d, e).enter[u] ::
      && u == Step(d, e).visible && !e.Read?
      && (pending || (e.Key? && Pressing(d, e.scan).act.EnterDown?))
  {
    hide Press, OnMapped, Put, PutAll;
  }

  /** Over any orderly run that starts with cleared lines and flags, on any interleaving of terminals, a read is by
      a program of the visible terminal and delivers exactly what was typed on it, corrected by its backspaces,
      and a newline. */
  lemma OrderlyReads(ds: seq<Desk>, es: seq<Event>, n: nat)
    requires Trace(ds, es) && Orderly(ds, es) && n < |es| && Valid(ds[0]) && es[n].Read?
    requires forall u | 0 <= u < NUM_TERMS :: Holds(ds[0].lines[u], "") && CleanBehind(ds[0].lines[u])
    requires forall u | 0 <= u < NUM_TERMS :: !ds[0].enter[u]
    requires '\0' !in PendingText(ds, es, n)
    ensures ds[n].sched == ds[n].visible
    ensures Delivered(ds[n], BUFFER_LIMIT) == PendingText(ds, es, n) + "\n"
  {
    var v, text := ds[n].visible, PendingText(ds, es, n);
    assert Step(ds[n], es[n]) == ds[n + 1];
    FlagIsPending(ds, es, n);
    LinesInOrder(ds, es, v, n);
    EnteredDelivers(ds[n].lines[v], text);
  }
}
