/**
 Three virtual consoles on one screen and one keyboard, seen from the terminals:
 each has a screen and a line, one of them is visible, one is scheduled.
 */
module Consoles {
  import opened Text
  import opened Screens
  import opened Keyboards

  const NUM_TERMS := 3
  const VIDEO_FRAME := 0xB8
  const BACKUP_FRAME := 0xB9

  /** frame is the page behind the video memory that putc writes to, vidmap[t] the page that
      programs of terminal t are given by vidmap. */
  datatype Desk = Desk(screens: seq<Screen>, lines: seq<Line>, visible: int, sched: int,
                       frame: int, vidmap: seq<int>, flags: Flags, enter: seq<bool>)

  datatype Event =
    | Tick                  // the scheduler goes on to the next terminal
    | Print(c: char)        // the scheduled program prints a character
    | Wipe                  // the kernel clears the screen of the scheduled terminal
    | Echo(c: char)         // the kernel itself prints a character
    | Key(scan: int)        // a keyboard interrupt
    | Read(n: int)          // terminal_read of n bytes

  ghost predicate Valid(d: Desk) {
    && |d.screens| == |d.lines| == |d.vidmap| == |d.enter| == NUM_TERMS
    && 0 <= d.visible < NUM_TERMS && 0 <= d.sched < NUM_TERMS
    && VIDEO_FRAME <= d.frame <= VIDEO_FRAME + NUM_TERMS
    && ValidFlags(d.flags)
    && (forall t | 0 <= t < NUM_TERMS :: OnScreen(d.screens[t]))
    && (forall t | 0 <= t < NUM_TERMS :: ValidLine(d.lines[t]))
  }

  /** The page on which the screen of terminal t is. */
  function Home(visible: int, t: int): int {
    if t == visible then VIDEO_FRAME else BACKUP_FRAME + t
  }

  /** The terminal whose screen is on a page; the backup page of the visible terminal is nobody's. */
  function Owner(visible: int, frame: int): int {
    if frame == VIDEO_FRAME then visible
    else if frame == BACKUP_FRAME + visible then -1
    else frame - BACKUP_FRAME
  }

  /** What the scheduled program prints goes to its own terminal. */
  ghost predicate Fresh(d: Desk) {
    d.frame == Home(d.visible, d.sched)
  }

  ghost predicate Enabled(d: Desk, e: Event)
    requires Valid(d)
  {
    match e
    case Key(scan) => 0 <= scan < 256 && HasRoom(d.lines[d.visible], scan)
    case Read(n) => 0 <= n <= BUFFER_LIMIT && d.enter[d.sched]
    case _ => true
  }

  /** Something done to a screen: characters printed, or all of it cleared. */
  datatype Job = Show(out: string) | Blank

  function Do(s: Screen, job: Job): (r: Screen)
    requires OnScreen(s)
    ensures OnScreen(r)
  {
    match job
    case Show(out) => PutAll(s, out)
    case Blank => Cleared(s.cells)
  }

  /** A job done with the cursor of the scheduled terminal on the page that is mapped. */
  function OnMapped(d: Desk, job: Job): (r: seq<Screen>)
    requires Valid(d)
    ensures |r| == NUM_TERMS && forall t | 0 <= t < NUM_TERMS :: OnScreen(r[t])
  {
    var own, owner := d.screens[d.sched], Owner(d.visible, d.frame);
    var moved := Do(own, job);
    if owner == d.sched then d.screens[d.sched := moved]
    else
      var screens := d.screens[d.sched := own.(x := moved.x, y := moved.y)];
      if owner < 0 then screens
      else
        var cells := Do(own.(cells := d.screens[owner].cells), job).cells;
        screens[owner := d.screens[owner].(cells := cells)]
  }

  function Pressing(d: Desk, scan: int): (p: Pressed)
    requires Valid(d) && 0 <= scan < 256 && HasRoom(d.lines[d.visible], scan)
    ensures ValidFlags(p.flags) && ValidLine(p.line) && (p.act.SwitchTo? ==> 0 <= p.act.terminal < NUM_TERMS)
  {
    Press(d.flags, d.lines[d.visible], scan)
  }

  function Step(d: Desk, e: Event): (r: Desk)
    requires Valid(d) && Enabled(d, e)
    ensures Valid(r)
  {
    match e
    case Tick =>
      var next := (d.sched + 1) % NUM_TERMS;
      var frame := Home(d.visible, next);
      d.(sched := next, frame := frame, vidmap := d.vidmap[next := frame])
    case Print(c) => if c == '\0' then d else d.(screens := OnMapped(d, Show([c])))
    case Wipe => d.(screens := OnMapped(d, Blank))
    case Echo(c) => d.(screens := d.screens[d.visible := Put(d.screens[d.visible], c)])
    case Key(scan) => KeyStep(d, Pressing(d, scan))
    case Read(n) =>
      d.(lines := d.lines[d.visible := AfterRead(d.lines[d.visible], n)], enter := d.enter[d.visible := false])
  }

  function KeyStep(d: Desk, p: Pressed): (r: Desk)
    requires Valid(d) && ValidFlags(p.flags) && ValidLine(p.line)
    requires p.act.SwitchTo? ==> 0 <= p.act.terminal < NUM_TERMS
    ensures Valid(r)
  {
    var v := d.visible;
    var d1 := Typing(d, p.flags, p.line, p.echo);
    match p.act
    case EnterDown => d1.(enter := d.enter[v := true])
    case EnterUp => d1.(enter := d.enter[v := false])
    case ClearScreen => d1.(screens := d1.screens[v := Cleared(d1.screens[v].cells)])
    case SwitchTo(n) => d1.(visible := n)
    case _ => d1
  }

  /** The visible terminal has another line and some characters more on its screen. */
  function Typing(d: Desk, flags: Flags, line: Line, echo: string): (r: Desk)
    requires Valid(d) && ValidFlags(flags) && ValidLine(line)
    ensures Valid(r)
  {
    var v := d.visible;
    d.(flags := flags, lines := d.lines[v := line], screens := d.screens[v := PutAll(d.screens[v], echo)])
  }

  /** The text of a line buffer as a read of n bytes takes it. */
  function LineText(line: Line, n: nat): string
    requires ValidLine(line) && n <= BUFFER_LIMIT
  {
    line.buffer[..ReadCount(line.buffer, n)]
  }

  /** What terminal_read gives its caller: the line of the visible terminal, whoever reads. */
  function Delivered(d: Desk, n: nat): string
    requires Valid(d) && n <= BUFFER_LIMIT
  {
    LineText(d.lines[d.visible], n)
  }

  // ----- one step -----

  /** A switch of terminals changes nothing but which one is visible. */
  lemma SwitchInvisible(d: Desk, scan: int)
    requires Valid(d) && Enabled(d, Key(scan)) && Pressing(d, scan).act.SwitchTo?
    ensures var d' := Step(d, Key(scan));
      d'.screens == d.screens && d'.lines == d.lines && d'.frame == d.frame && d'.sched == d.sched
      && d'.visible == scan - F1_PRESSED
  {
    var v := d.visible;
    assert PutAll(d.screens[v], "") == d.screens[v];
    assert d.screens[v := d.screens[v]] == d.screens && d.lines[v := d.lines[v]] == d.lines;
  }

  /** A switch leaves the mapping right exactly when it takes the screen neither from nor to the
      scheduled terminal. */
  lemma SwitchFreshIff(d: Desk, scan: int)
    requires Valid(d) && Fresh(d) && Enabled(d, Key(scan)) && Pressing(d, scan).act.SwitchTo?
    ensures var to := scan - F1_PRESSED;
      Fresh(Step(d, Key(scan))) <==> to == d.visible || (d.sched != d.visible && d.sched != to)
  {
    SwitchInvisible(d, scan);
  }

  /** While the mapping is right, what is printed goes to the scheduled terminal only. */
  lemma PrintFresh(d: Desk, e: Event)
    requires Valid(d) && Fresh(d) && (e.Print? || e.Wipe?)
    ensures var s := d.screens[d.sched];
      Step(d, e).screens == d.screens[d.sched :=
        if e.Wipe? then Cleared(s.cells) else if e.c == '\0' then s else Put(s, e.c)]
  {
    assert Owner(d.visible, d.frame) == d.sched;
    if e.Print? {
      PutOne(d.screens[d.sched], e.c);
    }
    assert d.screens[d.sched := d.screens[d.sched]] == d.screens;
  }

  /** While the mapping is stale, the scheduled terminal gets none of what is printed, only its cursor moves. The
      character goes to the terminal that has the mapped page, if any, at that cursor. */
  lemma PrintStale(d: Desk, c: char)
    requires Valid(d) && !Fresh(d) && c != '\0'
    ensures var s := d.screens[d.sched];
      Step(d, Print(c)).screens[d.sched] == Put(s, c).(cells := s.cells)
    ensures forall u | 0 <= u < NUM_TERMS && u != d.sched ::
      var (s, t) := (d.screens[d.sched], d.screens[u]);
      Step(d, Print(c)).screens[u]
      == if u == Owner(d.visible, d.frame) then t.(cells := Put(s.(cells := t.cells), c).cells) else t
  {
    var s, owner := d.screens[d.sched], Owner(d.visible, d.frame);
    PutOne(s, c);
    if owner >= 0 {
      PutOne(s.(cells := d.screens[owner].cells), c);
    }
  }

  /** Clearing the screen while the mapping is stale moves the cursor of the scheduled terminal home and blanks the
      terminal that has the mapped page, if any. */
  lemma WipeStale(d: Desk)
    requires Valid(d) && !Fresh(d)
    ensures var s := d.screens[d.sched];
      Step(d, Wipe).screens[d.sched] == s.(x := 0, y := 0)
    ensures forall u | 0 <= u < NUM_TERMS && u != d.sched ::
      var t := d.screens[u];
      Step(d, Wipe).screens[u] == if u == Owner(d.visible, d.frame) then t.(cells := Cleared(t.cells).cells) else t
  {
  }

  /** What the kernel itself prints is added to the text that the visible terminal shows, whatever is mapped, and no
      other terminal shows it. */
  lemma EchoShows(d: Desk, c: char, text: string)
    requires Valid(d) && Shows(d.screens[d.visible], Rows(text)) && c != BACKSPACE
    ensures Shows(Step(d, Echo(c)).screens[d.visible], Rows(text + [c]))
    ensures forall u | 0 <= u < NUM_TERMS && u != d.visible :: Step(d, Echo(c)).screens[u] == d.screens[u]
  {
    PutShowsText(d.screens[d.visible], text, c);
  }

  /** What is typed is added to the text that the visible terminal shows, and Ctrl-L leaves an empty text; no other
      terminal's screen changes. */
  lemma KeyShows(d: Desk, scan: int, text: string)
    requires Valid(d) && Enabled(d, Key(scan)) && Shows(d.screens[d.visible], Rows(text))
    requires BACKSPACE !in Pressing(d, scan).echo
    ensures var p := Pressing(d, scan);
      Shows(Step(d, Key(scan)).screens[d.visible], Rows(if p.act.ClearScreen? then "" else text + p.echo))
    ensures forall u | 0 <= u < NUM_TERMS && u != d.visible :: Step(d, Key(scan)).screens[u] == d.screens[u]
  {
    hide Press, Rows, Shows, Cleared;
    var s, p := d.screens[d.visible], Pressing(d, scan);
    PutAllShows(s, text, p.echo);
    ClearedShows(PutAll(s, p.echo).cells);
  }

  lemma {:induction false} PutAllShows(s: Screen, text: string, out: string)
    requires Shows(s, Rows(text)) && BACKSPACE !in out
    ensures Shows(PutAll(s, out), Rows(text + out))
    decreases |out|
  {
    if out == "" {
      assert text + out == text;
    } else {
      var n := |out| - 1;
      PutAllShows(s, text, out[..n]);
      PutShowsText(PutAll(s, out[..n]), text + out[..n], out[n]);
      assert text + out == text + out[..n] + [out[n]];
    }
  }

  lemma PutOne(s: Screen, c: char)
    requires OnScreen(s)
    ensures PutAll(s, [c]) == Put(s, c)
  {
    assert PutAll(s, [c]) == Put(PutAll(s, []), c);
  }

  // ----- whole runs -----

  ghost predicate Trace(ds: seq<Desk>, es: seq<Event>) {
    && |ds| == |es| + 1
    && forall i | 0 <= i < |es| :: Valid(ds[i]) && Enabled(ds[i], es[i]) && Step(ds[i], es[i]) == ds[i + 1]
  }

  /** The page that vidmap gives the scheduled program is always the one putc writes to. */
  lemma {:induction false} VidmapAgrees(ds: seq<Desk>, es: seq<Event>, n: nat)
    requires Trace(ds, es) && n <= |es| && Valid(ds[0])
    requires ds[0].frame == ds[0].vidmap[ds[0].sched]
    ensures Valid(ds[n]) && ds[n].frame == ds[n].vidmap[ds[n].sched]
  {
    if n > 0 {
      VidmapAgrees(ds, es, n - 1);
      assert Step(ds[n - 1], es[n - 1]) == ds[n - 1 + 1];
    }
  }

  /** Right after a tick, and until a key switches terminals, the mapping is right. */
  lemma {:induction false} FreshUntilSwitch(ds: seq<Desk>, es: seq<Event>, i: nat, j: nat)
    requires Trace(ds, es) && i < j <= |es| && Valid(ds[i])
    requires es[i].Tick?
    requires forall k | i < k < j && es[k].Key? :: !Pressing(ds[k], es[k].scan).act.SwitchTo?
    ensures Valid(ds[j]) && Fresh(ds[j])
  {
    if j > i + 1 {
      FreshUntilSwitch(ds, es, i, j - 1);
    }
    assert Step(ds[j - 1], es[j - 1]) == ds[j - 1 + 1];
  }

  /** What one event means for one terminal. */
  function JobsAt(d: Desk, e: Event, t: int): seq<Job>
    requires Valid(d) && Enabled(d, e)
  {
    match e
    case Print(c) => if d.sched == t && c != '\0' then [Show([c])] else []
    case Wipe => if d.sched == t then [Blank] else []
    case Echo(c) => if d.visible == t then [Show([c])] else []
    case Key(scan) =>
      if d.visible != t then []
      else [Show(Pressing(d, scan).echo)] + if Pressing(d, scan).act.ClearScreen? then [Blank] else []
    case _ => []
  }

  /** What the first n events of a run mean for terminal t: what its programs print while it is
      scheduled, and what is typed and what the kernel prints while it is visible. */
  function Jobs(ds: seq<Desk>, es: seq<Event>, t: int, n: nat): seq<Job>
    requires Trace(ds, es) && n <= |es|
  {
    if n == 0 then [] else Jobs(ds, es, t, n - 1) + JobsAt(ds[n - 1], es[n - 1], t)
  }

  /** A terminal that has the whole machine to itself. */
  function Perform(s: Screen, jobs: seq<Job>): (r: Screen)
    requires OnScreen(s)
    ensures OnScreen(r)
  {
    if jobs == [] then s else Do(Perform(s, jobs[..|jobs| - 1]), jobs[|jobs| - 1])
  }

  lemma {:induction false} PerformAppend(s: Screen, first: seq<Job>, rest: seq<Job>)
    requires OnScreen(s)
    ensures Perform(s, first + rest) == Perform(Perform(s, first), rest)
    decreases |rest|
  {
    if rest == [] {
      assert first + rest == first;
    } else {
      PerformAppend(s, first, rest[..|rest| - 1]);
      assert (first + rest)[..|first + rest| - 1] == first + rest[..|rest| - 1];
    }
  }

  lemma StepPerforms(d: Desk, e: Event, t: int)
    requires Valid(d) && Enabled(d, e) && 0 <= t < NUM_TERMS
    requires e.Print? || e.Wipe? ==> Fresh(d)
    ensures Step(d, e).screens[t] == Perform(d.screens[t], JobsAt(d, e, t))
  {
    var s := d.screens[t];
    assert Perform(s, []) == s;
    match e
    case Print(c) =>
      PrintFresh(d, e);
      PerformSnoc(s, [], Show([c]));
      PutOne(s, c);
    case Wipe =>
      PrintFresh(d, e);
      PerformSnoc(s, [], Blank);
    case Echo(c) =>
      PerformSnoc(s, [], Show([c]));
      PutOne(s, c);
    case Key(scan) =>
      var p := Pressing(d, scan);
      PerformSnoc(s, [], Show(p.echo));
      PerformSnoc(s, [Show(p.echo)], Blank);
      assert [Show(p.echo)] + [] == [Show(p.echo)];
    case _ =>
  }

  lemma PerformSnoc(s: Screen, jobs: seq<Job>, job: Job)
    requires OnScreen(s)
    ensures Perform(s, jobs + [job]) == Do(Perform(s, jobs), job)
    ensures jobs == [] ==> Perform(s, [job]) == Do(s, job)
  {
    assert (jobs + [job])[..|jobs|] == jobs;
    assert jobs == [] ==> jobs + [job] == [job];
  }

  /** Isolation: over any run of ticks, keys, switches, reads and output in which nothing is printed
      while the mapping is stale, every terminal ends with the screen it would have if it had the
      machine to itself. */
  lemma {:induction false} Isolation(ds: seq<Desk>, es: seq<Event>, t: int, n: nat)
    requires Trace(ds, es) && n <= |es| && Valid(ds[0]) && 0 <= t < NUM_TERMS
    requires forall i | 0 <= i < n && (es[i].Print? || es[i].Wipe?) :: Fresh(ds[i])
    ensures Valid(ds[n])
    ensures ds[n].screens[t] == Perform(ds[0].screens[t], Jobs(ds, es, t, n))
  {
    if n > 0 {
      Isolation(ds, es, t, n - 1);
      assert Step(ds[n - 1], es[n - 1]) == ds[n - 1 + 1];
      StepPerforms(ds[n - 1], es[n - 1], t);
      PerformAppend(ds[0].screens[t], Jobs(ds, es, t, n - 1), JobsAt(ds[n - 1], es[n - 1], t));
    } else {
      assert Perform(ds[0].screens[t], []) == ds[0].screens[t];
    }
  }

  /** The characters of the jobs, one after the other. */
  function Printed(jobs: seq<Job>): string {
    if jobs == [] then ""
    else Printed(jobs[..|jobs| - 1]) + if jobs[|jobs| - 1].Show? then jobs[|jobs| - 1].out else ""
  }

  lemma {:induction false} PerformPrints(s: Screen, jobs: seq<Job>)
    requires OnScreen(s) && forall i | 0 <= i < |jobs| :: jobs[i].Show?
    ensures Perform(s, jobs) == PutAll(s, Printed(jobs))
  {
    if jobs != [] {
      var n := |jobs| - 1;
      PerformPrints(s, jobs[..n]);
      PutAllAppend(s, Printed(jobs[..n]), jobs[n].out);
    }
  }

  /** In such a run, a terminal that has been cleared, and on which nothing has been erased since,
      shows the last 25 rows, wrapped at 80 columns, of what was printed and typed on it since. */
  lemma {:induction false} TerminalShowsItsText(ds: seq<Desk>, es: seq<Event>, t: int, n: nat, before: seq<Job>,
                                                since: seq<Job>)
    requires Trace(ds, es) && n <= |es| && Valid(ds[0]) && 0 <= t < NUM_TERMS
    requires forall i | 0 <= i < n && (es[i].Print? || es[i].Wipe?) :: Fresh(ds[i])
    requires Jobs(ds, es, t, n) == before + [Blank] + since
    requires (forall i | 0 <= i < |since| :: since[i].Show?) && BACKSPACE !in Printed(since)
    ensures Valid(ds[n])
    ensures Shows(ds[n].screens[t], Rows(Printed(since)))
  {
    Isolation(ds, es, t, n);
    PerformSince(ds[0].screens[t], before, since);
  }

  lemma {:induction false} PerformSince(s: Screen, before: seq<Job>, since: seq<Job>)
    requires OnScreen(s)
    requires (forall i | 0 <= i < |since| :: since[i].Show?) && BACKSPACE !in Printed(since)
    ensures Shows(Perform(s, before + [Blank] + since), Rows(Printed(since)))
  {
    PerformAppend(s, before + [Blank], since);
    PerformSnoc(s, before, Blank);
    PerformPrints(Perform(s, before + [Blank]), since);
    ScreenShowsText(Perform(s, before).cells, Printed(since));
  }
}
