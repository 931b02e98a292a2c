/**
 execute, halt, open, close and the scheduler as they update the kernel's tables in place.
 */
module Kernels {
  import opened Descriptors
  import opened ProcessTable

  class Kernel {
    const pidUsed: array<bool>
    const pcbs: array<Pcb>
    const terms: array<Terminal>
    var sched: int
    var frame32: int
    var esp0: int

    ghost function Tables(): Machine
      reads this, pidUsed, pcbs, terms
    {
      Machine(pidUsed[..], pcbs[..], terms[..], sched, frame32, esp0)
    }

    /** The tables before the first shell; the memory of the PCBs holds anything. */
    constructor (memory: array<Pcb>)
      requires memory.Length == MAX_PCBS + 1
      ensures PowerOn(Tables())
      ensures pcbs == memory && fresh(pidUsed) && fresh(terms)
    {
      pidUsed := new bool[MAX_PCBS](_ => false);
      pcbs := memory;
      terms := new Terminal[NUM_TERMS](t => if t == 0 then Terminal(1, 1, true) else Terminal(0, 0, false));
      sched, frame32, esp0 := 0, 0x800_0000 / MB_4, MB_8;
    }

    method Execute(program: Program, ctx: Context) returns (control: Control)
      requires pidUsed.Length == MAX_PCBS && pcbs.Length == MAX_PCBS + 1
      requires terms.Length == NUM_TERMS && 0 <= sched < NUM_TERMS
      modifies this`frame32, this`esp0, pidUsed, pcbs, terms
      ensures (Tables(), control) == ExecuteStep(old(Tables()), program, ctx)
    {
      hide FreePid, Consistent;
      if program.Missing? || program.NotExecutable? {
        return Return(-1);
      }
      var pid := 0;
      while pid < MAX_PCBS
        invariant 0 <= pid < MAX_PCBS
        invariant forall k | 0 <= k < pid :: pidUsed[k]
      {
        if !pidUsed[pid] {
          break;
        }
        if pid == MAX_PCBS - 1 {
          FullTable(pidUsed[..]);
          return Return(RETURN_EXCEPTION);
        }
        pid := pid + 1;
      }
      FirstFreePid(pidUsed[..], pid);
      pidUsed[pid] := true;
      pid := pid + 1;
      frame32 := (MB_8 + (pid - 1) * MB_4) / MB_4;
      if program.Corrupt? {
        return Return(-1);
      }
      BuildPcb(pid);
      pcbs[pid] := pcbs[pid].(caller := ctx);
      esp0 := StackTop(terms[sched].active);
      pcbs[pid] := pcbs[pid].(tssEsp0 := StackTop(terms[sched].active));
      control := Enter(program.entry);
      assert pcbs[..] == old(pcbs[..])[pid := pcbs[pid]];
      assert Tables().pidUsed == ExecuteStep(old(Tables()), program, ctx).0.pidUsed;
      assert Tables().terms == ExecuteStep(old(Tables()), program, ctx).0.terms;
      assert Tables().pcbs == ExecuteStep(old(Tables()), program, ctx).0.pcbs;
    }

    /** Leaves caller and tssEsp0 to execute. */
    method BuildPcb(pid: int)
      requires pcbs.Length == MAX_PCBS + 1 && 0 < pid <= MAX_PCBS
      requires terms.Length == NUM_TERMS && 0 <= sched < NUM_TERMS
      modifies pcbs, terms
      ensures terms[..] == old(terms[..][sched := terms[sched].(active := pid)])
      ensures pcbs[..] == old(pcbs[..][pid := pcbs[pid].(
        pid := pid,
        parent := if pid == terms[sched].base then pid else terms[sched].active,
        prevEsp0 := esp0,
        files := FRESH)])
    {
      var pcb := pcbs[pid].(pid := pid);
      if pid == terms[sched].base {
        pcb := pcb.(parent := pid);
      } else {
        pcb := pcb.(parent := terms[sched].active);
      }
      terms[sched] := terms[sched].(active := pid);
      pcb := pcb.(prevEsp0 := esp0);
      var slots := [Descriptor(StdinOps, 0, 0, 1), Descriptor(StdoutOps, 0, 0, 1)];
      for i := 2 to NUM_FDS
        invariant slots == FRESH.slots[..i]
      {
        slots := slots + [CLOSED];
      }
      assert FRESH.slots[..NUM_FDS] == FRESH.slots;
      pcbs[pid] := pcb.(files := Table(slots, 2));
    }

    method Halt(status: int, inner: Context, entry: int) returns (control: Control)
      requires WellFormed(Tables())
      modifies this`frame32, this`esp0, pidUsed, pcbs, terms
      ensures (Tables(), control) == HaltStep(old(Tables()), status, inner, entry)
    {
      var value := if status == EXCEPTION_STATUS then RETURN_EXCEPTION else status;
      var pid := terms[sched].active;
      pidUsed[pid - 1] := false;
      if pcbs[pid].pid == terms[sched].base {
        assert Tables() == old(Tables()).(pidUsed := old(pidUsed[..])[pid - 1 := false]);
        control := Execute(Image(entry), inner);
        return;
      }
      CloseAll(pid);
      frame32 := (MB_8 + (pcbs[pid].parent - 1) * MB_4) / MB_4;
      esp0 := pcbs[pid].prevEsp0;
      terms[sched] := terms[sched].(active := pcbs[pid].parent);
      control := Unwind(pcbs[pid].caller, value);
      assert Tables() == HaltStep(old(Tables()), status, inner, entry).0;
    }

    method CloseAll(pid: int)
      requires 0 <= pid < pcbs.Length && Consistent(pcbs[pid].files)
      modifies pcbs
      ensures pcbs[..] == old(pcbs[..])[pid := old(pcbs[pid]).(files := CloseFrom(old(pcbs[pid]).files, 0))]
    {
      for i := 0 to NUM_FDS
        invariant Consistent(pcbs[pid].files)
        invariant pcbs[..] == old(pcbs[..])[pid := old(pcbs[pid]).(files := pcbs[pid].files)]
        invariant CloseFrom(pcbs[pid].files, i) == CloseFrom(old(pcbs[pid]).files, 0)
      {
        var _ := CloseOf(pid, i);
      }
    }

    method CloseOf(pid: int, fd: int) returns (value: int)
      requires 0 <= pid < pcbs.Length && Consistent(pcbs[pid].files)
      modifies pcbs
      ensures Close(old(pcbs[pid].files), fd) == (pcbs[pid].files, value)
      ensures pcbs[..] == old(pcbs[..])[pid := old(pcbs[pid]).(files := pcbs[pid].files)]
    {
      var files := pcbs[pid].files;
      if fd < 2 || fd >= files.count {
        return -1;
      }
      if files.slots[fd].flags == 0 {
        return -1;
      }
      pcbs[pid] := pcbs[pid].(files := Table(files.slots[fd := CLOSED], files.count - 1));
      value := 0;
    }

    method CloseFile(fd: int) returns (value: int)
      requires WellFormed(Tables())
      modifies pcbs
      ensures (Tables(), Return(value)) == FilesStep(old(Tables()), CloseFd(fd))
    {
      value := CloseOf(terms[sched].active, fd);
    }

    method OpenFile(lookup: Lookup) returns (fd: int)
      requires WellFormed(Tables())
      modifies pcbs
      ensures (Tables(), Return(fd)) == FilesStep(old(Tables()), Request.OpenFile(lookup))
    {
      var pid := terms[sched].active;
      var files := pcbs[pid].files;
      assert pcbs[..][pid := pcbs[pid].(files := files)] == pcbs[..];
      if files.count >= NUM_FDS {
        return -1;
      }
      if lookup.NotFound? {
        return -1;
      }
      OpenFindsSlot(files);
      fd := 2;
      while fd < NUM_FDS
        invariant 2 <= fd <= NUM_FDS
        invariant FirstFree(files.slots, 2) == FirstFree(files.slots, fd)
      {
        if files.slots[fd].flags == 0 {
          break;
        }
        fd := fd + 1;
      }
      var slot := files.slots[fd];
      if lookup.filetype == RTC_FILETYPE {
        slot := slot.(ops := RtcOps, inode := 0);
      } else if lookup.filetype == DIR_FILETYPE {
        slot := slot.(ops := DirOps, inode := 0);
      } else if lookup.filetype == FILE_FILETYPE {
        slot := slot.(ops := FileOps, inode := lookup.inode);
      } else {
        return -1;
      }
      slot := slot.(offset := 0, flags := 1);
      pcbs[pid] := pcbs[pid].(files := Table(files.slots[fd := slot], files.count + 1));
    }

    method ScanTable() returns (pid: int)
      requires pidUsed.Length == MAX_PCBS
      ensures 1 <= pid <= MAX_PCBS && pid == ScanPid(pidUsed[..])
      ensures pidUsed[pid - 1] ==> pid == MAX_PCBS
      ensures forall k | 0 <= k < pid - 1 :: pidUsed[k]
    {
      pid := 0;
      while pid < MAX_PCBS
        invariant 0 <= pid <= MAX_PCBS
        invariant forall k | 0 <= k < pid :: pidUsed[k]
      {
        if !pidUsed[pid] {
          FirstFreePid(pidUsed[..], pid);
          pid := pid + 1;
          return;
        }
        pid := pid + 1;
      }
      FullTable(pidUsed[..]);
    }

    method Scheduler(ctx: Context, inner: Context, entry: int) returns (control: Control)
      requires WellFormed(Tables())
      modifies this, pidUsed, pcbs, terms
      ensures (Tables(), control) == TickStep(old(Tables()), ctx, inner, entry)
    {
      hide FreePid, ExecuteStep, Consistent;
      var running := sched;
      sched := (sched + 1) % NUM_TERMS;
      if !terms[sched].started {
        terms[sched] := terms[sched].(started := true);
        var pid := ScanTable();
        terms[sched] := terms[sched].(base := pid);
        terms[sched] := terms[sched].(active := pid);
        var current := terms[running].active;
        pcbs[current] := pcbs[current].(saved := ctx);
        pcbs[current] := pcbs[current].(tssEsp0 := esp0);
        assert pcbs[..] == old(pcbs[..])[current := old(pcbs[..])[current].(saved := ctx, tssEsp0 := esp0)];
        assert terms[..] == old(terms[..])[sched := Terminal(pid, pid, true)];
        control := Execute(Image(entry), inner);
      } else {
        var current, next := terms[running].active, terms[sched].active;
        frame32 := (MB_8 + (pcbs[next].pid - 1) * MB_4) / MB_4;
        pcbs[current] := pcbs[current].(tssEsp0 := esp0);
        esp0 := pcbs[next].tssEsp0;
        pcbs[current] := pcbs[current].(saved := ctx);
        assert pcbs[..] == old(pcbs[..])[current := old(pcbs[..])[current].(saved := ctx, tssEsp0 := old(esp0))];
        control := Resume(pcbs[next].saved);
      }
    }
  }

  lemma FirstFreePid(used: seq<bool>, pid: nat)
    requires |used| == MAX_PCBS && pid < MAX_PCBS && !used[pid]
    requires forall k | 0 <= k < pid :: used[k]
    ensures FreePid(used, 0) == pid + 1
  {
  }

  lemma FullTable(used: seq<bool>)
    requires |used| == MAX_PCBS && forall k | 0 <= k < MAX_PCBS :: used[k]
    ensures FreePid(used, 0) == MAX_PCBS + 1
  {
  }
}
