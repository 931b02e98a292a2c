# A verified model of the kernel's state machines and its user-space algorithms

The repository is a small 32-bit kernel with three terminals, a read-only file system and a handful of user
programs. This project models the parts of it that hold state or transform data, as Dafny programs over the
same fields and buffers, and proves what they are for.

- **Processes** (`ProcessTable`, `Kernels`, `ProcessStacks`, `ProcessRefinement`, `Descriptors`, `Memory`).
  `execute`, `halt`, `open`, `close` and the scheduler update a process table of six pids, three terminals,
  PCBs, one page-directory entry and the TSS. The table is proved to be, at every step of every
  run, the encoding of three stacks of processes, exactly as long as a step *fits* a condition that the code
  could test; the boot premise (the first two events are ticks) makes every later step fit. Halt undoing
  execute, the context round trip, round robin, shells restarting in place and memory isolation follow for
  whole runs.
- **Consoles** (`Screens`, `Keyboards`, `KeyEffects`, `Consoles`, `ConsoleLines`, `ConsoleDriver`,
  `Text`). Video pages, the remapped page, the
  line buffer and the interrupt handler, in place, against three screens and three lines. A screen shows the
  last 25 rows of the text printed to it, wrapped at 80 columns; a switch of terminals is invisible; terminals
  are isolated over runs without output while the mapping is stale; over any run of keys, switches and partial
  reads a line is the replay of what was typed on it, and the exact conditions under which a read delivers that
  line, and to whom, are proved.
- **Files** (`FileImages`, `FileLayouts`, `FileSystem`). Any files and any directory, stored byte by byte, are
  read back: reading through the block numbers of an inode gives the flat file, and
  any sequence of reads gives all of it.
- **User programs** (`Grep`, `CommandLine`, `Numbers`, `Blinkers`, `BlinkLists`). The buffered line search
  against a split of the whole text; the in-place tokenizer and the bounded joiner; number printing; the blink
  list inside its pool, as a plain list of independent blinkers, each with a closed form.

Interrupts arrive only between the modelled steps. Kernel stack and base pointers are opaque tokens, what a
directory search or an executable says is a parameter of the step, and flushes of the translation buffers have
no effect. Files of the repository are cited by path and line.

Where the code does not do what its comments say, the model follows the code:

- `halt`'s loop that should close all files shrinks the bound it tests against: it closes all of them if and only
  if none above descriptor 2 is open (`Descriptors.CloseLoopClosesAllIff`, and `Descriptors.CloseLoopLeavesGap` for
  a table it leaves a file open in).
- A base shell that halts restarts under its own pid if and only if no lower pid is free
  (`ProcessRefinement.RestartKeepsPidIff`, and `ProcessRefinement.RestartsElsewhere` for a run, with a program
  started before all terminals were up, in which it does not).
- `read_data` lets the block number equal to the number of data blocks pass. A byte it accepts is inside the file
  system if and only if its block number is smaller (`FileImages.AcceptedInsideIff`, and
  `FileImages.OverrunAccepted` for an image where it is not).
- `terminal_read` waits for Enter on its own terminal but reads the line of the visible one: whatever the lines
  are, a program gets its own if and only if its terminal is the visible one (`ConsoleLines.OwnLineIff`, and
  `ConsoleLines.OtherLineRead` for a run in which it is not).
- Ctrl pressed while Shift is down types a NUL, at which a read of the line ends (`KeyEffects.CtrlTypesNul`).
- Releasing Enter before the program is scheduled makes it wait on (`ConsoleLines.EnterWithdrawn`).
- A key pressed or released after Enter wipes out the line that is still to be read, unless it is one of those
  listed in `Keyboards.Spares` (`ConsoleLines.EnteredSparedIff`, and `ConsoleLines.ReleaseLosesLine` for a run in
  which the release of a letter does).
- grep compares the first character of the pattern as a signed number with an unsigned byte. What it prints is
  right if and only if that character is below 0x80 or there is nothing to print (`Grep.EffectiveFindsIff`, and
  `Grep.HighByteMissed` for a line it misses).
- grep's buffer is not cleared. If the byte behind it happens to hold a newline, a file longer than the buffer is
  searched as two, cut at the first multiple of 1024 that no newline precedes (`Grep.ExpectedCuts`). That does no
  harm, whatever is in effect searched for, if and only if there is nothing or a newline behind the cut, or the line
  in front of it is a multiple of 1024 long; otherwise it does when the character in front of the cut is, which has
  to be below 0x80 for that (`Grep.StaleHarmlessIff`, and `Grep.StaleMisses` for a file where a line is
  missed).
- `mp1_ioctl_add` accepts location 0, which makes the list cyclic (`BlinkLists.LocationZeroMakesCycle`).
- `mp1_ioctl_sync` always shows the off character (`Blinkers.SyncShowsOff`).
- The tokenizer treats a newline behind a word like a space, and behind a space as the end
  (`CommandLine.NewlineInArgs`).

## Model

| member | source | states |
|---|---|---|
| Descriptors.OpenFindsSlot | student-distrib/system_calls.c:149-160 | the counter is below 8 exactly when the scan for a slot in 2..7 ends on one |
| Descriptors.OpenSound | student-distrib/system_calls.c:142-184 | open takes the lowest unused slot, fills it by file type, leaves the others alone and fails exactly when the table is full, the name unknown or the type invalid |
| Descriptors.CloseSound | student-distrib/system_calls.c:205-226 | close gives 0 and empties that slot only, for a descriptor in use in 2..7 below the number in use, and otherwise -1 and changes nothing |
| Descriptors.ServeAll | student-distrib/system_calls.c:142-226 | over any sequence of opens and closes the counter stays equal to the number of slots in use |
| Descriptors.OpenKeepsPacked | student-distrib/system_calls.c:155-181 | while the slots in use are the first ones, open extends them by one |
| Descriptors.ClosePackedIffLast | student-distrib/system_calls.c:205-226 | a close keeps the bound of read, write and close exact if and only if it closes the last descriptor opened |
| Descriptors.LifoRunsStayPacked | student-distrib/system_calls.c:142-226 | under last-opened-first closing the open set is always exactly 0..count-1 |
| Descriptors.CloseLoopCloses | student-distrib/system_calls.c:649-651 | of any consistent table the close loop of halt closes exactly the descriptors fd in use with fd plus the number in use up to fd below count + 3, and changes no other slot |
| Descriptors.CloseLoopClosesAllIff | student-distrib/system_calls.c:649-651 | of any consistent table the loop closes all files if and only if no descriptor above 2 is open |
| Descriptors.CloseLoopLeavesUpperHalf | student-distrib/system_calls.c:649-651 | of a table without gaps it leaves exactly the upper half of the files open |
| Descriptors.CloseLoopLeavesGap | student-distrib/system_calls.c:649-651 | three opens and a close of the middle one give a table with a gap in which the loop leaves descriptor 4 open |
| Descriptors.FreshPacked | student-distrib/system_calls.c:342-366 | the table a new process starts with has exactly stdin and stdout in use |
| ProcessTable.FreePid | student-distrib/system_calls.c:499-511 | the pid scan finds the lowest free pid, or none when all six are taken |
| ProcessTable.ExecuteFails | student-distrib/system_calls.c:455-523 | execute returns 256 exactly for a program while all six pids are taken, -1 exactly for what is no program or is found corrupt, and otherwise enters it |
| ProcessTable.ExecuteStarts | student-distrib/system_calls.c:312-371 | the new process is the child of the one that ran, only one with the base pid its own parent, with its kernel stack and frame at literal addresses |
| ProcessTable.HaltTells | student-distrib/system_calls.c:625-629 | halt gives the caller of execute 256 for the status 100 of an exception and the status otherwise |
| ProcessTable.HaltClosesAllIff | student-distrib/system_calls.c:649-651 | halt closes all files of the process if and only if none above descriptor 2 is open |
| ProcessStacks.ExceptionsTold | student-distrib/system_calls.c:625-629 | for any 8-bit status the caller gets more than 127 if and only if the program was ended by an exception |
| ProcessStacks.RoundRobin | student-distrib/terminal.c:151-155 | after any run the scheduled terminal is the number of ticks modulo 3 further on, whatever else happened |
| ProcessStacks.ContextRoundTrip | student-distrib/terminal.c:239-284 | a terminal that is scheduled again resumes in the context, and with the process stack, it was switched out with |
| ProcessStacks.AwayUnchanged | student-distrib/terminal.c:151-289 | nothing that happens on other terminals changes a terminal that is not scheduled |
| ProcessStacks.LowerFramesKept | student-distrib/system_calls.c:617-692 | while a process stays on its stack, everything below it and the context of its execute call are unchanged |
| ProcessStacks.HaltUndoesExecute | student-distrib/system_calls.c:543-692 | a halt gives back the stack from before the matching execute, descriptor tables included, and returns into that execute, with 256 after an exception and the status otherwise |
| ProcessStacks.BootPremise | student-distrib/system_calls.c:636-646 | if the first two events are ticks, every event fits for ever and the base shells keep the pids 1, 2 and 3 |
| ProcessStacks.RestartCanMiss | student-distrib/system_calls.c:639-646 | without that premise there is a run of fitting events after which a base shell's halt does not fit |
| ProcessStacks.ShellsFit | student-distrib/system_calls.c:499-511 | while the three base shells run, every event fits |
| ProcessStacks.ShellsKept | student-distrib/system_calls.c:639-672 | every event leaves the three base shells at the bottom of their stacks under their pids |
| ProcessRefinement.ScansAgree | student-distrib/terminal.c:196-205 | the scan of the table chooses the lowest pid that is on no stack |
| ProcessRefinement.StepRefines | student-distrib/system_calls.c:436-692 | every step that fits does to the table what the move does to the stacks, and sends the processor to the same place |
| ProcessRefinement.FitsExactly | student-distrib/system_calls.c:499-692 | after a step the table represents some stacks if and only if the step fitted |
| ProcessRefinement.TraceRefines | student-distrib/terminal.c:151-289 | the same over whole runs |
| ProcessRefinement.BootRepresents | student-distrib/terminal.c:62-66 | the table after the first execute is that of one base shell |
| ProcessRefinement.ReachableTables | student-distrib/system_calls.c:318-332 | in every reachable state under the boot premise the taken pids are the disjoint union of three acyclic parent chains ending in the base shells, and terminal, page directory and TSS agree on who runs |
| ProcessRefinement.EveryRunHappens | student-distrib/system_calls.c:436-692 | over every list of events that meets the premise there is such a run from the booted table: no step leaves a table the next one cannot start from |
| ProcessRefinement.StackDecides | student-distrib/terminal.c:242-258 | the top of the scheduled stack decides running pid, user frame, kernel stack and descriptor table |
| ProcessRefinement.HaltRestoresTable | student-distrib/system_calls.c:657-692 | in the table too, a halt restores running pid, frame, kernel stack and descriptors of the matching execute |
| ProcessRefinement.ShellRestartsInPlace | student-distrib/system_calls.c:636-646 | a base shell that halts runs again under its own pid, as its own parent, in its own frame, with a fresh descriptor table |
| ProcessRefinement.RestartKeepsPidIff | student-distrib/system_calls.c:636-646 | in every represented table a halting base shell comes back under its own pid if and only if no lower pid is free, and otherwise under the lowest free one |
| ProcessRefinement.RestartsElsewhere | student-distrib/system_calls.c:636-646 | a run from the booted table after which the base shell of terminal 2 halts with base pid 4 and comes back under pid 2 |
| ProcessRefinement.SamePidChosen | student-distrib/system_calls.c:636-646 | freeing a pid that no lower free pid precedes and allocating gives the same pid and the same table |
| Kernels.Kernel.constructor | student-distrib/terminal.c:37-76 | the tables before the first shell |
| Kernels.Kernel.Execute | student-distrib/system_calls.c:436-604 | the new tables, and where the processor goes, are those of the specified execute step, with all its error returns |
| Kernels.Kernel.BuildPcb | student-distrib/system_calls.c:312-371 | what a new PCB and its terminal hold |
| Kernels.Kernel.Halt | student-distrib/system_calls.c:617-696 | the new tables and the return into the parent, or the restart of the base shell, are those of the specified halt step |
| Kernels.Kernel.CloseAll | student-distrib/system_calls.c:649-651 | the loop over all descriptors has the effect of the specified close sequence |
| Kernels.Kernel.OpenFile | student-distrib/system_calls.c:142-184 | open in the running process's table, with its result |
| Kernels.Kernel.CloseFile | student-distrib/system_calls.c:205-226 | close in the running process's table, with its result |
| Kernels.Kernel.ScanTable | student-distrib/terminal.c:196-202 | the scheduler's scan gives the lowest free pid, and 6 when the table is full |
| Kernels.Kernel.Scheduler | student-distrib/terminal.c:151-289 | the new tables and the context resumed, or the shell started, are those of the specified tick |
| Memory.RegionsDisjoint | student-distrib/system_calls.c:389-411 | PCB blocks and user frames of different pids share no address, user frames and PCB blocks share none, and every stack starts in the last word of its block |
| Memory.MemoryMap | student-distrib/system_calls.c:389-411 | the six PCB blocks fill the 0xC000 bytes below 0x800000, 0x2000 bytes each, and the six frames the 24 MB above it |
| Memory.UserByte | student-distrib/system_calls.c:513-515 | byte k of the user page at 0x8000000 is byte k of the pid's frame |
| Memory.UserPageIsFrame | student-distrib/system_calls.c:513-515 | through the entry set for a pid the user page is exactly that pid's 4 MB frame |
| Memory.ImageFits | student-distrib/system_calls.c:526-529 | an image loaded at 0x08048000 stays inside its process's frame if and only if it has at most 0x400000 - 0x48000 bytes |
| Memory.RunningFrame | student-distrib/terminal.c:242-242 | in every explained state every user address leads into the frame of the running process and of no other |
| Memory.LoadSparesLive | student-distrib/system_calls.c:499-532 | the image that execute loads goes to a frame and addresses that belong to no live process |
| Memory.LoadImage | student-distrib/system_calls.c:526-532 | loading a whole file puts its bytes at the program address of the pid's frame and changes no other byte of memory |
| Memory.LoadProgram | student-distrib/system_calls.c:499-532 | the load for the pid that execute chose changes no byte of the user memory, PCB or kernel stack of any live process, and a whole file's bytes are the program |
| Text.LinesUnlines | syscalls/ece391grep.c:29-57 | joining the lines of a text with newlines gives the text back, and no line holds a newline |
| Text.UnlinesLines | syscalls/ece391grep.c:29-57 | splitting joined lines gives the lines back |
| Text.ChunksFlatten | student-distrib/lib.c:409-419 | the pieces of a wrapped line put together are the line, and all but the last have full width |
| Screens.ScreenShowsText | student-distrib/lib.c:372-428 | any text without backspaces, printed to a cleared screen, shows as its last 25 rows wrapped at 80 columns with the wrap deferred, and the cursor stands behind it |
| Screens.NothingCut | student-distrib/lib.c:409-419 | no row is wider than 80 columns, and every character of the last 25 rows is on the screen, at its place |
| Screens.PutShows | student-distrib/lib.c:378-427 | one more character on a screen that shows some rows shows those rows with the character added |
| Screens.NewlineGoesDown | student-distrib/lib.c:378-390 | a newline or carriage return goes to the start of the next row, and on the last row all rows move up |
| Screens.PutAll | student-distrib/lib.c:372-428 | over any characters, backspaces included, the cursor stays within columns 0..80 and rows 0..24 and the page keeps its size |
| Screens.PutAllShown | student-distrib/lib.c:372-428 | over any characters only the 2000 cells shown are written to |
| Screens.PutAllCursor | student-distrib/lib.c:378-425 | where the cursor goes does not depend on what is on the page |
| Screens.BackspaceTakesBack | student-distrib/lib.c:391-426 | a backspace undoes a character if and only if the character did not wrap and its cell was blank |
| Screens.BackspacesTakeBack | student-distrib/lib.c:391-426 | over any number of rows, ordinary characters that do not scroll and as many backspaces give screen and cursor back if and only if their cells were blank |
| Keyboards.NoOtherBackspace | student-distrib/keyboard.c:159-237 | no other key of the three scan-code tables gives a backspace |
| KeyEffects.TablesAgree | student-distrib/keyboard.c:22-47 | the three tables against the legends of the keys, row by row: Shift gives the upper legend, Caps Lock that of letters only |
| KeyEffects.LettersRise | student-distrib/keyboard.c:22-47 | the upper legend of a letter key is the same letter in upper case |
| KeyEffects.KeyTypes | student-distrib/keyboard.c:159-226 | a key with a legend, with room and Ctrl up, echoes and stores its upper legend if Shift is down, for letters if Shift differs from Caps Lock, and its lower one otherwise; when it is swallowed, exactly |
| KeyEffects.LetterCase | student-distrib/keyboard.c:165-178 | an echoed letter is in upper case if and only if Shift differs from Caps Lock |
| KeyEffects.KeyTypesNothing | student-distrib/keyboard.c:189-202 | under Ctrl without Shift, and on a full line, keys with legends type nothing |
| KeyEffects.CtrlTypesNul | student-distrib/keyboard.c:159-185 | Ctrl pressed while Shift is down echoes and stores a NUL |
| KeyEffects.BackspaceKeyErases | student-distrib/keyboard.c:204-244 | Backspace alone takes back the last character exactly when there is one and the key counter does not stand at 255 on a line with room |
| KeyEffects.BackspaceUndoesKey | student-distrib/keyboard.c:204-237 | a character typed with room is taken back by the next key, if that is Backspace |
| KeyEffects.TabTypes | student-distrib/keyboard.c:124-143 | Tab types four spaces, once until it is released, if they leave room |
| KeyEffects.SwitchesIff | student-distrib/keyboard.c:97-118 | a key switches to a terminal if and only if it is F1, F2 or F3 with Ctrl and Alt held |
| KeyEffects.ClearsIff | student-distrib/keyboard.c:189-195 | exactly Ctrl-L, with room only without Shift, clears screen, line and counter |
| KeyEffects.KillsIff | student-distrib/keyboard.c:196-197 | exactly Ctrl-C, with room only without Shift, ends the program |
| KeyEffects.EntersIff | student-distrib/keyboard.c:145-157 | exactly Enter ends the line, with a newline, and exactly its release withdraws it |
| KeyEffects.FunctionKeysSilent | student-distrib/keyboard.c:120-122 | function keys and Escape change neither line nor screen |
| KeyEffects.KeySwallowed | student-distrib/keyboard.c:107-113 | with Ctrl, Alt and a remembered function key any other key is swallowed and the function key forgotten |
| KeyEffects.ReleaseKeepsLine | student-distrib/keyboard.c:257-259 | a key release leaves a line that is not empty as it is |
| KeyEffects.HeldWhilePressed | student-distrib/keyboard.c:66-92 | Ctrl, the Shift keys and Alt are held from their scan code to that code plus 0x80 |
| KeyEffects.HeldOtherwise | student-distrib/keyboard.c:66-92 | no other key changes what is held, and Caps Lock turns with every press |
| Keyboards.Press | student-distrib/keyboard.c:61-260 | over any key the buffer index stays within 0..128 and the flags within their width |
| Keyboards.PressHolds | student-distrib/keyboard.c:61-260 | after any key the buffer prefix is the replay of the characters echoed since the line began |
| Keyboards.ReadDeliversLine | student-distrib/keyboard.c:299-320 | after Enter a 128-byte read gives the line typed and a newline, if and only if the line holds no NUL and the cell behind the newline does |
| Keyboards.ReadHoldsIff | student-distrib/keyboard.c:314-317 | a read leaves the line under the cursor in order if and only if what it clears of it was NUL already |
| Consoles.SwitchInvisible | student-distrib/terminal.c:86-127 | a switch changes no terminal's screen, line, mapping or schedule, only which one is visible |
| Consoles.SwitchFreshIff | student-distrib/terminal.c:96-127 | a switch leaves the mapping right if and only if the scheduled terminal's screen does not move |
| Consoles.PrintFresh | student-distrib/lib.c:372-428 | while the mapping is right, output changes the scheduled terminal's screen and no other |
| Consoles.PrintStale | student-distrib/lib.c:372-428 | while it is stale, the scheduled terminal's screen gets nothing but a moved cursor, and the character goes, at that cursor, to the terminal that has the mapped page, if any, and to no other |
| Consoles.WipeStale | student-distrib/lib.c:58-78 | clearing while the mapping is stale moves the scheduled terminal's cursor home and blanks the terminal on the mapped page, if any |
| Consoles.EchoShows | student-distrib/lib.c:430-484 | what the kernel prints is added to the text the visible terminal shows and to no other |
| Consoles.KeyShows | student-distrib/keyboard.c:124-241 | what is typed without backspace is added to the text the visible terminal shows, Ctrl-L leaves an empty one, and no other terminal's screen changes |
| Consoles.VidmapAgrees | student-distrib/terminal.c:161-181 | in every reachable state the page of putc and the page given to programs by vidmap are the same |
| Consoles.FreshUntilSwitch | student-distrib/terminal.c:161-181 | the mapping is right from every tick to the next switch |
| Consoles.Isolation | student-distrib/terminal.c:86-181 | over any run without output while the mapping is stale, every terminal has the screen it would have alone |
| Consoles.TerminalShowsItsText | student-distrib/lib.c:58-67 | in such a run a cleared terminal shows the last 25 wrapped rows of its own output, typing and kernel messages |
| ConsoleLines.LineReplays | student-distrib/keyboard.c:124-320 | over any run of keys, switches, reads and output in which reads clear nothing of a line being typed, every terminal's buffer holds the replay of what was echoed on it since its line began |
| ConsoleLines.ReplayStepIff | student-distrib/keyboard.c:314-317 | a read keeps that of the visible terminal's line if and only if it clears nothing of it but NULs |
| ConsoleLines.EnteredDelivered | student-distrib/keyboard.c:281-321 | a read of the whole buffer after Enter, with no key on that terminal between but spared ones, delivers what was typed and a newline if and only if that holds no NUL and the cell behind the newline does |
| ConsoleLines.ReadGetsTypedLine | student-distrib/keyboard.c:281-321 | from a clean buffer, without Ctrl-L before Enter, it delivers the line typed and a newline if and only if no NUL was typed into it |
| ConsoleLines.EnteredSparedIff | student-distrib/keyboard.c:61-260 | an entered line is still to be read after a key, with whatever modifiers, if and only if the key is one of those spared, or another Enter on an empty line |
| ConsoleLines.ReleaseWipesLine | student-distrib/keyboard.c:257-259 | a key release while an entered line waits leaves the line as it is if it is spared, and nothing to be read otherwise |
| ConsoleLines.ReleaseLosesLine | student-distrib/keyboard.c:257-259 | Enter, the release of a letter and a read by the visible terminal's program: it gets nothing |
| ConsoleLines.OwnLineIff | student-distrib/keyboard.c:281-321 | whatever the lines are, a program reads the line of its own terminal if and only if its terminal is visible |
| ConsoleLines.OtherLineRead | student-distrib/keyboard.c:281-321 | Enter on terminal 0, a switch to terminal 1 and the read of terminal 0's program: it gets and clears the line of terminal 1, and its own flag stays set |
| ConsoleLines.EnterWithdrawn | student-distrib/keyboard.c:145-157 | Enter lets the visible terminal's program read, its release makes it wait again |
| ConsoleLines.ReaderIsVisible | student-distrib/keyboard.c:288-319 | as long as no terminal is left while its Enter flag is set, every read is by a program of the visible terminal |
| ConsoleLines.OrderlyReads | student-distrib/keyboard.c:124-321 | over any run on any terminals in which an entered line is read before a key that is not spared or leaves its terminal, with no Ctrl-L in between lines, a read is by a program of the visible terminal and delivers what was typed there and a newline |
| ConsoleDriver.Driver.constructor | student-distrib/terminal.c:37-76 | the consoles after initialisation: cleared screen, empty lines, no Enter pending, right mapping |
| ConsoleDriver.Driver.Scroll | student-distrib/lib.c:494-506 | the loops move the rows of one page up by one, blank the last and touch no other page |
| ConsoleDriver.Driver.PutAt | student-distrib/lib.c:430-484 | the character plane and cursor after one character are those of the screen function, on one page only |
| ConsoleDriver.Driver.Putc | student-distrib/lib.c:372-428 | output through the remapped page has the effect of the specified print event |
| ConsoleDriver.Driver.Putck | student-distrib/lib.c:430-484 | an echoed character, or one printed by the kernel, has the effect of the specified event: it changes the visible terminal's screen only |
| ConsoleDriver.Driver.ClearAt | student-distrib/lib.c:58-78 | the clearing loop blanks the 2000 cells shown of one page and homes the cursor |
| ConsoleDriver.Driver.SwitchTerminal | student-distrib/terminal.c:86-140 | the copies of pages, buffers and index leave all three screens and lines as they were seen |
| ConsoleDriver.Driver.MapVideo | student-distrib/terminal.c:153-181 | the branches map, for any visible and scheduled terminal, the scheduled terminal's page twice |
| ConsoleDriver.Driver.KeyboardHandler | student-distrib/keyboard.c:61-260 | the handler, key by key and in place, has the effect of the specified key event |
| ConsoleDriver.Driver.TerminalRead | student-distrib/keyboard.c:281-321 | the two loops deliver the specified characters and clear the buffer |
| ConsoleDriver.Driver.TerminalWrite | student-distrib/keyboard.c:338-362 | the loop has the effect of one print event for each character, whatever the mapping; the result is the number of bytes, or -1 for NULL |
| ConsoleDriver.WrittenFresh | student-distrib/keyboard.c:350-359 | with a right mapping such a write adds the characters but NULs to the scheduled terminal's screen and changes nothing else |
| ConsoleDriver.WrittenStale | student-distrib/keyboard.c:350-359 | with a stale mapping that screen shows none of them and its cursor ends where it would have, the terminal on the mapped page, if any, gets them from that cursor on, and no other changes |
| ConsoleDriver.SwapSeen | student-distrib/terminal.c:106-121 | exchanging pages and line buffers together with the visible terminal changes nothing that is seen |
| FileImages.ContentsAt | student-distrib/file_system.c:110-120 | every byte of a whole file is where the reader computes it to be, inside the image |
| FileImages.AcceptedInsideIff | student-distrib/file_system.c:113-118 | an accepted byte is inside the file system if and only if its block number is below the number of data blocks, and otherwise in the one block behind it |
| FileImages.OverrunAccepted | student-distrib/file_system.c:113-118 | an image with an inode whose byte is accepted and lies behind the file system |
| FileLayouts.WordOfBytes | student-distrib/file_system.h:20-37 | a field is the 32-bit two's complement number whose bytes it holds, the lowest first |
| FileLayouts.StoredIsRead | student-distrib/file_system.c:102-127 | wherever its blocks are: an image with length, block numbers and blocks of a file at the literal offsets of the format gives that file |
| FileLayouts.StoredEntryIsFound | student-distrib/file_system.c:47-64 | a directory entry with a name, file type and inode number at their literal offsets is found with exactly these |
| FileLayouts.StoredEntryOpens | student-distrib/system_calls.c:142-184 | opened, an entry of type 2 gives a file descriptor for its inode, 1 a directory, 0 the clock, and any other none |
| FileLayouts.LayoutRoundTrip | student-distrib/file_system.c:102-127 | any files and directory laid out block by block are read back, every file and every entry |
| FileSystem.ReadByte | student-distrib/file_system.c:111-120 | the computed address holds the byte of the file, unless the block number is rejected |
| FileSystem.ReadData | student-distrib/file_system.c:102-127 | -1 exactly for an inode out of range or a rejected block; otherwise min(length, max(0, size - offset)) bytes equal to that slice of the flat file, and nothing beyond written |
| FileSystem.WholeInodeAccepted | student-distrib/file_system.c:112-114 | on a well-formed inode no error return is taken |
| FileSystem.ReadsAddUp | student-distrib/file_system.c:182-201 | any sequence of reads is one read of their total size |
| FileSystem.ReadsGiveFile | student-distrib/file_system.c:182-201 | enough reads of positive sizes give the whole file, and a read gives 0 bytes if and only if the whole file has been given |
| FileSystem.ReadDentryByName | student-distrib/file_system.c:47-64 | finds the first entry whose name, cut to 32 bytes, equals the given one cut to 32 bytes, and fails exactly when there is none |
| FileSystem.ReadDentryByIndex | student-distrib/file_system.c:76-88 | the entry at an index and the length of its name, or -1 beyond the directory |
| FileSystem.Strncmp | student-distrib/lib.c:756-770 | for any two C strings, 0 if and only if their first n characters agree, and otherwise the signed difference at the first place they differ |
| FileSystem.Strlen | student-distrib/lib.c:583-588 | the position of the first NUL |
| FileSystem.Reader.FileRead | student-distrib/file_system.c:182-201 | the exact conditions of failure, the bytes read and the offset moved by as many, everything else unchanged |
| FileSystem.Reader.DirRead | student-distrib/file_system.c:229-259 | the next name padded to 32 bytes and the offset moved by one, 0 at the end, -1 for what is not a directory |
| FileSystem.Reader.Cat | syscalls/ece391cat.c:21-28 | the loop ends for every descriptor, and for a whole file writes exactly the rest of it |
| Grep.FoundLine | syscalls/ece391grep.c:40-52 | a line that fits the buffer is searched once, whatever follows |
| Grep.FoundFull | syscalls/ece391grep.c:33-57 | a full buffer without a newline is one piece of its line |
| Grep.FoundShort | syscalls/ece391grep.c:6-57 | when no line is longer than 1024 characters the pieces searched are the lines |
| Grep.EffectiveFindsIff | syscalls/ece391grep.c:43-44 | the lines printed are those that hold the pattern if and only if its first byte is below 0x80 or no line holds it |
| Grep.HighByteMissed | syscalls/ece391grep.c:43-44 | a line that holds the byte 0xE9 is not printed when that byte is searched for |
| Grep.Strncmp | syscalls/ece391support.c:35-46 | for any n, 0 if and only if the first n characters of the pattern, its NUL included, start at that place, without leaving the NUL-terminated text |
| Grep.CopyDown | syscalls/ece391support.c:14-17 | the overlapping forward copy moves the string down whole |
| Grep.ScanLine | syscalls/ece391grep.c:29-56 | one turn of the inner loop prints or carries over exactly what makes up the whole output with the rest of the buffer and the text not yet read |
| Grep.ScanBuffer | syscalls/ece391grep.c:28-57 | one pass prints, and carries over, exactly what makes up the whole output with the text not yet read |
| Grep.ExpectedCuts | syscalls/ece391grep.c:33-38 | with a newline left behind the buffer, the file is searched as two, cut at the first multiple of 1024 that no newline precedes |
| Grep.StaleHarmlessIff | syscalls/ece391grep.c:33-38 | that does no harm, whatever is in effect searched for, if and only if nothing or a newline is behind the cut or the line in front of it is a multiple of 1024 long; otherwise the output for the character in front of the cut is wrong |
| Grep.StaleMisses | syscalls/ece391grep.c:33-38 | a file of 1025 bytes one line of which is missed that way |
| Grep.SearchFile | syscalls/ece391grep.c:20-60 | the reads and passes over a file end, stay in the buffer and print exactly what is to be expected with the byte behind the buffer |
| Grep.DoOneFile | syscalls/ece391grep.c:9-66 | for NUL-free files of any line lengths prints exactly the lines (pieces of 1024 for longer ones) containing the nonempty pattern, in order, unless the byte behind the buffer holds a newline and the cut it makes is not harmless, and then those of the two parts; nothing for a pattern that starts with 0x80 or above; fails exactly when opening, reading or closing fails |
| CommandLine.JoinArgsCollapses | syscalls/ece391emulate.c:85-98 | joining the arguments of a newline-free text gives the text with its runs of spaces collapsed |
| CommandLine.ArgsOfJoin | syscalls/ece391emulate.c:138-156 | splitting joined arguments gives the same arguments |
| CommandLine.ArgsAreWords | syscalls/ece391emulate.c:88-98 | no argument is empty or holds a separator |
| CommandLine.NewlineInArgs | syscalls/ece391emulate.c:88-98 | for any text with a newline: the arguments in front of it, and those behind it unless it follows a space or starts the text |
| CommandLine.CopyString | syscalls/ece391support.c:14-17 | the string and its NUL are written and nothing else |
| CommandLine.Tokenize | syscalls/ece391emulate.c:76-100 | the pointers in args lead to the path and the arguments as NUL-terminated strings inside the 1026-byte buffer, and neither array overflows for any command of up to 1023 characters |
| CommandLine.TokensAreWords | syscalls/ece391emulate.c:76-100 | the strings are the words of the command, the first with ./ in front |
| CommandLine.CutWord | syscalls/ece391emulate.c:94-97 | cutting a word keeps the strings found before and leaves the rest of the text to be cut |
| CommandLine.GetArgs | syscalls/ece391emulate.c:131-157 | succeeds if and only if the joined arguments and a NUL fit, then writes exactly them, and never writes beyond the one spare byte |
| Numbers.ParseNumeral | student-distrib/lib.c:528-558 | parsing the digits of any number in any radix from 2 to 36 gives it back, with no leading zero |
| Numbers.DigitTable | student-distrib/lib.c:529-529 | the digits are 0 to 9 and A to Z |
| Numbers.DigitsOfParse | student-distrib/lib.c:546-551 | a string of digits without a leading zero is what is printed for its value |
| Numbers.DigitsLength | student-distrib/lib.c:546-551 | a number below 2 to the n has at most n digits in any radix |
| Numbers.Strrev | student-distrib/lib.c:564-577 | the string is reversed in place and nothing around it changes |
| Numbers.EmitDigits | syscalls/ece391support.c:69-74 | the loop writes the digits in reverse |
| Numbers.Itoa | student-distrib/lib.c:528-558 | the buffer holds the numeral and a NUL, at most 33 characters |
| Numbers.FormatPadded | student-distrib/lib.c:165-175 | %#x prints exactly eight hexadecimal digits with the same value |
| Numbers.FormatSigned | student-distrib/lib.c:191-204 | %d prints a sign and the magnitude, also for the least 32-bit number |
| Blinkers.BlinksPeriodically | fish/blink.S:64-86 | after k ticks a blinker is on if and only if k modulo the period is below its on time, with the matching countdown, for all 16-bit lengths |
| Blinkers.WithinTicks | fish/blink.S:64-86 | one tick leads from one point of the period to the next |
| Blinkers.AddKeeps | fish/blink.S:131-162 | an addition keeps the list exactly the slots in use if and only if it fails or its location is not 0 |
| Blinkers.RemoveKeeps | fish/blink.S:206-222 | a removal keeps it |
| Blinkers.StepKeeps | fish/blink.S:49-300 | so does every other operation |
| Blinkers.AddFailsIffFull | fish/fish.c:160-170 | an addition at a location in 1..1999 fails if and only if 2000 blinkers are in the list |
| Blinkers.StepRefinesList | fish/blink.S:105-300 | every operation does to the blinkers in list order what it does to a plain list: added in front, the most recent match removed, all ticked |
| Blinkers.StepAnswers | fish/blink.S:105-349 | an operation gives 0 exactly if the blinkers it names are listed, or a location below 2000 and one of 2000 places are free for the one it adds, and otherwise -1 and changes nothing |
| Blinkers.RunRefinesList | fish/blink.S:105-300 | the same over whole runs |
| Blinkers.UndisturbedBlinks | fish/blink.S:49-99 | over any run that neither removes nor synchronises it, a blinker keeps its slot and follows the closed form counted from its addition |
| Blinkers.StepFaithful | fish/blink.S:74-82 | while locations are distinct and nothing is synchronised, the screen shows every blinker as it is |
| Blinkers.UndisturbedShows | fish/blink.S:64-86 | over any run with distinct locations an undisturbed blinker shows its on character in the first part of every period since it was added and its off character in the rest |
| Blinkers.SyncShowsOff | fish/blink.S:277-285 | after a synchronisation the screen is right if and only if the blinker is off or its characters are the same |
| Blinkers.SyncInStep | fish/blink.S:267-275 | after a synchronisation the second blinker only is changed, keeps place and characters, and is in step with the first for ever |
| BlinkLists.LocationZeroMakesCycle | fish/blink.S:131-162 | two additions at location 0 link a slot to itself |
| BlinkLists.BlinkList.constructor | fish/blink.S:17-19 | the empty list over a cleared pool |
| BlinkLists.BlinkList.Malloc | fish/fish.c:160-170 | the first slot whose location is 0, or none |
| BlinkLists.BlinkList.Add | fish/blink.S:105-184 | slots, links, head and screen after an addition; the list stays sound if and only if the addition fails or its location is not 0 |
| BlinkLists.BlinkList.FindHelper | fish/blink.S:351-379 | the walk ends and gives the most recently added blinker at the location, or NULL |
| BlinkLists.BlinkList.Find | fish/blink.S:302-349 | copies that blinker out, or fails when there is none |
| BlinkLists.BlinkList.Remove | fish/blink.S:187-237 | unlinks that blinker only, clears its slot, and the list stays sound |
| BlinkLists.BlinkList.Unlink | fish/blink.S:214-217 | one link changed takes exactly the k-th slot out of the list |
| BlinkLists.BlinkList.Sync | fish/blink.S:240-300 | the second blinker takes over lengths, countdown and status of the first |
| BlinkLists.BlinkList.Tick | fish/blink.S:49-99 | one walk along the links ticks every blinker of the list once |

## Left out

- DoOneFile: the output is stated for files without NULs, which end a line early when it is searched, copied or printed; for others, only that the search ends, stays in the buffer and fails exactly when it should.
- LoadImage: what an image longer than the user page writes behind it is not modelled; loading stops there. The outcome is stated exactly for whole files only.
- TerminalRead: reads of more than 128 bytes, which run off the line buffer, are excluded.
- ReadData: negative inode numbers and offsets, which would be addresses in front of the inodes, are excluded; `open` and `file_read` never give any for a directory without negative inode numbers.
- KeyboardHandler: Enter on a line of 128 characters, which runs off the line buffer, is excluded, and the halt of Ctrl-C is an event of the process model, not of the consoles.
- Putck: its attribute byte goes to the page and cursor of the scheduled terminal, so that only characters are modelled.
- FileRead: the descriptor offsets it moves are not fed back into the process model, where only open and close change descriptor tables.
- Execute: parsing the command (`getCommand`, `getArguments`) and the argument buffer of the PCB; what reading the executable gives is a parameter, and the shell is taken to be present and loadable.
- BuildPcb: the copy of the arguments into the PCB, which nothing modelled reads.
- getargs of the kernel: it reads the PCB of the first free pid, so that nothing general holds of it.
- The wait of `terminal_read` for Enter: a read is an event that happens once the flag is set.
- Reading the file system image through the page tables: the image is a sequence of bytes beside memory.
- Hardware cursor, attribute plane, interrupt controllers, descriptor tables of the processor, and the assembly of `iret` and stack switching.
- The real-time clock and its virtual rates, signals, and the programs that only call what is modelled.
- `printf`'s scanning of format strings and the directory loop of `main` in grep, which add easy members only.
- Starting the tokenized program in the emulated `execute`, and the file and directory wrappers of the emulation, which are calls into the host.
- The links of the blink list are kept in an array of their own beside the other fields of the structures.
