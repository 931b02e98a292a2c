/**
 The kernel state that execute, halt and the scheduler change, and what one
 step does to it. Kernel stack and base pointers are opaque tokens.
 */
module ProcessTable {
  import opened Descriptors

  const MAX_PCBS := 6
  const NUM_TERMS := 3
  const MB_8 := 0x80_0000
  const MB_4 := 0x40_0000
  const KB_8 := 0x2000
  const EXCEPTION_STATUS := 100
  const RETURN_EXCEPTION := 256

  /** A saved (esp, ebp) pair. */
  datatype Context = Context(esp: int, ebp: int)

  /** The PCB of a process; caller is (ESP_prev, EBP_prev) and saved is (esp, ebp). */
  datatype Pcb = Pcb(pid: int, parent: int, caller: Context, prevEsp0: int, tssEsp0: int,
                     saved: Context, files: Table)

  datatype Terminal = Terminal(active: int, base: int, started: bool)

  /** pidUsed[p - 1] tells whether pid p is taken; pcbs[p] is the memory at get_active_pcb(p). */
  datatype Machine = Machine(pidUsed: seq<bool>, pcbs: seq<Pcb>, terms: seq<Terminal>,
                             sched: int, frame32: int, esp0: int)

  /** What reading the executable of a command gives. */
  datatype Program = Missing | NotExecutable | Corrupt | Image(entry: int)

  /** Where the processor goes after a step. */
  datatype Control =
    | Return(value: int)                    // back to the calling program
    | Enter(entry: int)                     // iret to a new program
    | Resume(ctx: Context)                  // the kernel stack of a process that was switched out
    | Unwind(ctx: Context, value: int)      // out of the execute call that started the halted process

  /** ctx is the (esp, ebp) pair read by the step; inner is the pair read by an execute nested in
      it, which starts a shell with the given entry point. */
  datatype Event =
    | Tick(ctx: Context, inner: Context, entry: int)
    | Execute(program: Program, ctx: Context)
    | Halt(status: int, inner: Context, entry: int)
    | Files(request: Request)

  function Frame32(pid: int): (frame: int) {
    (MB_8 + (pid - 1) * MB_4) / MB_4
  }

  function PcbAddress(pid: int): int {
    MB_8 - pid * KB_8
  }

  function StackTop(pid: int): int {
    MB_8 - (pid - 1) * KB_8 - 4
  }

  /** The pid of the first free entry at or after position i of the table; MAX_PCBS + 1 if none is free. */
  function FreePid(used: seq<bool>, i: nat): (pid: int)
    requires |used| == MAX_PCBS && i <= MAX_PCBS
    ensures i < pid <= MAX_PCBS + 1
    ensures pid <= MAX_PCBS ==> !used[pid - 1]
    ensures forall k | i <= k < pid - 1 :: used[k]
    decreases MAX_PCBS - i
  {
    if i == MAX_PCBS || !used[i] then i + 1 else FreePid(used, i + 1)
  }

  /** What the kernel takes for granted when it is entered. */
  ghost predicate WellFormed(m: Machine) {
    && |m.pidUsed| == MAX_PCBS
    && |m.pcbs| == MAX_PCBS + 1
    && |m.terms| == NUM_TERMS
    && 0 <= m.sched < NUM_TERMS
    && (forall t | 0 <= t < NUM_TERMS && m.terms[t].started :: 1 <= m.terms[t].active <= MAX_PCBS)
    && m.terms[m.sched].started
    && 1 <= m.pcbs[m.terms[m.sched].active].parent <= MAX_PCBS
    && Consistent(m.pcbs[m.terms[m.sched].active].files)
  }

  /** The state just before the kernel's entry point executes the first shell. */
  ghost predicate PowerOn(m: Machine) {
    && |m.pidUsed| == MAX_PCBS
    && |m.pcbs| == MAX_PCBS + 1
    && m.pidUsed == [false, false, false, false, false, false]
    && m.terms == [Terminal(1, 1, true), Terminal(0, 0, false), Terminal(0, 0, false)]
    && m.sched == 0
  }

  function SetActive(m: Machine, pid: int): Machine
    requires |m.terms| == NUM_TERMS && 0 <= m.sched < NUM_TERMS
  {
    m.(terms := m.terms[m.sched := m.terms[m.sched].(active := pid)])
  }

  function ExecuteStep(m: Machine, program: Program, ctx: Context): (r: (Machine, Control))
    requires |m.pidUsed| == MAX_PCBS && |m.pcbs| == MAX_PCBS + 1
    requires |m.terms| == NUM_TERMS && 0 <= m.sched < NUM_TERMS
  {
    var pid := FreePid(m.pidUsed, 0);
    if program.Missing? || program.NotExecutable? then (m, Return(-1))
    else if pid > MAX_PCBS then (m, Return(RETURN_EXCEPTION))
    else
      var claimed := m.(pidUsed := m.pidUsed[pid - 1 := true], frame32 := Frame32(pid));
      if program.Corrupt? then (claimed, Return(-1))
      else
        var term := m.terms[m.sched];
        var pcb := Pcb(pid, if pid == term.base then pid else term.active, ctx, m.esp0, StackTop(pid),
                       m.pcbs[pid].saved, FRESH);
        (SetActive(claimed, pid).(pcbs := m.pcbs[pid := pcb], esp0 := StackTop(pid)), Enter(program.entry))
  }

  function HaltStep(m: Machine, status: int, inner: Context, entry: int): (r: (Machine, Control))
    requires WellFormed(m)
  {
    var pid := m.terms[m.sched].active;
    var pcb := m.pcbs[pid];
    var freed := m.(pidUsed := m.pidUsed[pid - 1 := false]);
    if pcb.pid == m.terms[m.sched].base then ExecuteStep(freed, Image(entry), inner)
    else
      (SetActive(freed, pcb.parent)
         .(pcbs := m.pcbs[pid := pcb.(files := CloseFrom(pcb.files, 0))],
           frame32 := Frame32(pcb.parent), esp0 := pcb.prevEsp0),
       Unwind(pcb.caller, if status == EXCEPTION_STATUS then RETURN_EXCEPTION else status))
  }

  /** The table scan of the scheduler: unlike that of execute it ends on MAX_PCBS when the table is full. */
  function ScanPid(used: seq<bool>): int
    requires |used| == MAX_PCBS
  {
    var pid := FreePid(used, 0);
    if pid > MAX_PCBS then MAX_PCBS else pid
  }

  function TickStep(m: Machine, ctx: Context, inner: Context, entry: int): (r: (Machine, Control))
    requires WellFormed(m)
  {
    var next := (m.sched + 1) % NUM_TERMS;
    var current := m.terms[m.sched].active;
    var saved := m.pcbs[current := m.pcbs[current].(saved := ctx, tssEsp0 := m.esp0)];
    if !m.terms[next].started then
      var pid := ScanPid(m.pidUsed);
      ExecuteStep(m.(sched := next, terms := m.terms[next := Terminal(pid, pid, true)], pcbs := saved),
                  Image(entry), inner)
    else
      var pcb := saved[m.terms[next].active];
      (m.(sched := next, pcbs := saved, frame32 := Frame32(pcb.pid), esp0 := pcb.tssEsp0), Resume(pcb.saved))
  }

  function FilesStep(m: Machine, request: Request): (r: (Machine, Control))
    requires WellFormed(m)
  {
    var pid := m.terms[m.sched].active;
    var (files, value) := Serve(m.pcbs[pid].files, request);
    (m.(pcbs := m.pcbs[pid := m.pcbs[pid].(files := files)]), Return(value))
  }

  function Step(m: Machine, e: Event): (r: (Machine, Control))
    requires WellFormed(m)
  {
    match e
    case Tick(ctx, inner, entry) => TickStep(m, ctx, inner, entry)
    case Execute(program, ctx) => ExecuteStep(m, program, ctx)
    case Halt(status, inner, entry) => HaltStep(m, status, inner, entry)
    case Files(request) => FilesStep(m, request)
  }

  /** Execute fails with -1 for what is no program, with 256 for a program when all six pids are taken, and with -1
      when the image turns out corrupt, the only failure that changes something: the pid stays taken. */
  lemma ExecuteFails(m: Machine, program: Program, ctx: Context)
    requires |m.pidUsed| == MAX_PCBS && |m.pcbs| == MAX_PCBS + 1
    requires |m.terms| == NUM_TERMS && 0 <= m.sched < NUM_TERMS
    ensures var ((m', control), full) := (ExecuteStep(m, program, ctx), forall k | 0 <= k < 6 :: m.pidUsed[k]);
      && (control == Return(256) <==> full && (program.Image? || program.Corrupt?))
      && (control == Return(-1) <==> program.Missing? || program.NotExecutable? || (program.Corrupt? && !full))
      && (control.Enter? <==> program.Image? && !full)
      && (control.Enter? ==> control == Enter(program.entry))
      && (control.Return? && m' != m ==> program.Corrupt? && !full)
  {
    assert FreePid(m.pidUsed, 0) > 6 <==> forall k | 0 <= k < 6 :: m.pidUsed[k];
  }

  /** Halt gives the caller of execute 256 after an exception and the status otherwise. */
  lemma HaltTells(m: Machine, status: int, inner: Context, entry: int)
    requires WellFormed(m) && m.pcbs[m.terms[m.sched].active].pid != m.terms[m.sched].base
    ensures HaltStep(m, status, inner, entry).1
         == Unwind(m.pcbs[m.terms[m.sched].active].caller, if status == 100 then 256 else status)
  {
  }

  /** Halt closes all files of the process if and only if none above descriptor 2 is open. */
  lemma HaltClosesAllIff(m: Machine, status: int, inner: Context, entry: int)
    requires WellFormed(m) && m.pcbs[m.terms[m.sched].active].pid != m.terms[m.sched].base
    ensures var pid := m.terms[m.sched].active;
      (forall fd: nat | 2 <= fd < 8 :: HaltStep(m, status, inner, entry).0.pcbs[pid].files.slots[fd].flags == 0)
      <==> forall fd: nat | 3 <= fd < 8 :: m.pcbs[pid].files.slots[fd].flags == 0
  {
    var pid := m.terms[m.sched].active;
    CloseLoopClosesAllIff(m.pcbs[pid].files);
    assert HaltStep(m, status, inner, entry).0.pcbs[pid].files == CloseFrom(m.pcbs[pid].files, 0);
  }

  /** A new process runs, in its own memory and on its own kernel stack, as a child of the one that ran before; only
      one that gets the pid of the base shell is its own parent. */
  lemma ExecuteStarts(m: Machine, program: Program, ctx: Context)
    requires |m.pidUsed| == MAX_PCBS && |m.pcbs| == MAX_PCBS + 1
    requires |m.terms| == NUM_TERMS && 0 <= m.sched < NUM_TERMS && ExecuteStep(m, program, ctx).1.Enter?
    ensures var (m', term) := (ExecuteStep(m, program, ctx).0, m.terms[m.sched]);
      var pid := m'.terms[m.sched].active;
      && 1 <= pid <= 6 && !m.pidUsed[pid - 1] && m'.pidUsed[pid - 1]
      && m'.pcbs[pid].pid == pid && m'.pcbs[pid].caller == ctx && m'.pcbs[pid].files.count == 2
      && (m'.pcbs[pid].parent == pid <==> pid == term.base || pid == term.active)
      && (m'.pcbs[pid].parent != pid ==> m'.pcbs[pid].parent == term.active && m'.pcbs[pid].prevEsp0 == m.esp0)
      && m'.esp0 == 0x80_0000 - 0x2000 * (pid - 1) - 4 && m'.frame32 == pid + 1
  {
  }
}
