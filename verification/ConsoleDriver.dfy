/**
 The consoles as the kernel keeps them: four pages of video memory, of which one is
 mapped, one buffer for the line being typed, and the copies of the hidden terminals.
 */
module ConsoleDriver {
  import opened Screens
  import opened Keyboards
  import opened Consoles

  const PAGES := 4

  /** Cursor, read_buffer and rb_idx of a terminal. */
  datatype Terminal = Terminal(x: int, y: int, buffer: seq<char>, index: int)

  class Driver {
    const vram: array<char>           // the character cells of the pages 0xB8 to 0xBB
    const termBuffer: array<char>
    const terms: array<Terminal>
    const vidmap: array<int>
    const enter: array<bool>
    var bufferIndex: int
    var visible: int
    var sched: int
    var frame: int
    var flags: Flags

    ghost predicate Shape()
      reads this, terms
    {
      && vram.Length == PAGES * PAGE && termBuffer.Length == BUFFER_LIMIT && vram != termBuffer
      && terms.Length == vidmap.Length == enter.Length == NUM_TERMS
      && 0 <= visible < NUM_TERMS && 0 <= sched < NUM_TERMS
      && VIDEO_FRAME <= frame <= VIDEO_FRAME + NUM_TERMS
      && 0 <= bufferIndex <= BUFFER_LIMIT && ValidFlags(flags)
      && ValidTerms(terms[..])
    }

    /** The consoles after paging and terminals have been set up and the screen has been cleared;
        the video memory holds anything before. */
    constructor (memory: array<char>)
      requires memory.Length == PAGES * PAGE
      modifies memory
      ensures Shape() && vram == memory
      ensures fresh(termBuffer) && fresh(terms) && fresh(vidmap) && fresh(enter)
      ensures var d := Abs();
        && Fresh(d) && d.frame == d.vidmap[d.sched] && d.visible == d.sched == 0
        && d.screens[0] == Cleared(d.screens[0].cells)
        && (forall t | 0 <= t < NUM_TERMS :: !d.enter[t])
        && forall t | 0 <= t < NUM_TERMS :: Holds(d.lines[t], "") && CleanBehind(d.lines[t])
    {
      vram := memory;
      termBuffer := new char[BUFFER_LIMIT](_ => '\0');
      terms := new Terminal[NUM_TERMS](_ => Terminal(0, 0, seq(BUFFER_LIMIT, _ => '\0'), 0));
      vidmap := new int[NUM_TERMS](t => VIDEO_FRAME + t);
      enter := new bool[NUM_TERMS](_ => false);
      bufferIndex, visible, sched, frame := 0, 0, 0, VIDEO_FRAME;
      flags := Flags(false, false, false, false, false, false, 0);
      new;
      ClearAt(0, VIDEO_FRAME);
    }

    /** The pages 0xB8 to 0xBB. */
    ghost function Pages(): (pages: seq<seq<char>>)
      requires vram.Length == PAGES * PAGE
      reads vram
      ensures |pages| == PAGES && forall p | 0 <= p < PAGES :: |pages[p]| == PAGE
    {
      Paged(vram[..])
    }

    /** The consoles as the terminals see them. */
    ghost function Abs(): (d: Desk)
      requires Shape()
      reads this, vram, termBuffer, terms, vidmap, enter
      ensures Valid(d)
    {
      Desk(Seen(Pages(), terms[..], visible), LinesSeen(termBuffer[..], bufferIndex, terms[..], visible),
           visible, sched, frame, vidmap[..], flags, enter[..])
    }

    method Scroll(f: int)
      requires vram.Length == PAGES * PAGE && VIDEO_FRAME <= f < VIDEO_FRAME + PAGES
      modifies vram
      ensures Pages() == old(Pages())[f - VIDEO_FRAME := Scrolled(old(Pages()[f - VIDEO_FRAME]))]
    {
      hide Paged, Scrolled;
      ghost var was := vram[..];
      var base := (f - VIDEO_FRAME) * PAGE;
      for row := 1 to NUM_ROWS
        invariant Moved(vram[..], was, base, NUM_COLS * (row - 1))
      {
        MoveRow(base, row, was);
      }
      ghost var moved := vram[..];
      BlankRow(base + NUM_COLS * (NUM_ROWS - 1));
      ScrolledPage(vram[..], moved, was, base);
      OnePage(was, vram[..], f - VIDEO_FRAME);
    }

    method MoveRow(base: nat, row: nat, ghost was: seq<char>)
      requires 1 <= row < NUM_ROWS && base + PAGE <= vram.Length
      requires Moved(vram[..], was, base, NUM_COLS * (row - 1))
      modifies vram
      ensures Moved(vram[..], was, base, NUM_COLS * row)
    {
      for col := 0 to NUM_COLS
        invariant Moved(vram[..], was, base, NUM_COLS * (row - 1) + col)
      {
        vram[base + NUM_COLS * (row - 1) + col] := vram[base + NUM_COLS * row + col];
      }
    }

    method BlankRow(at: nat)
      requires at + NUM_COLS <= vram.Length
      modifies vram
      ensures Filled(vram[..], old(vram[..]), at, NUM_COLS)
    {
      for col := 0 to NUM_COLS
        invariant Filled(vram[..], old(vram[..]), at, col)
      {
        vram[at + col] := ' ';
      }
    }

    /** putc and putck: the same with the cursor of terminal t, on the page that is written to. */
    method PutAt(t: int, f: int, c: char)
      requires Shape() && 0 <= t < NUM_TERMS && VIDEO_FRAME <= f < VIDEO_FRAME + PAGES
      modifies vram, terms
      ensures var r := Put(Cursed(old(Pages())[f - VIDEO_FRAME], old(terms[..])[t]), c);
        Pages() == old(Pages())[f - VIDEO_FRAME := r.cells] && terms[..] == Placed(old(terms[..]), t, r)
    {
      ghost var start := Cursed(old(Pages())[f - VIDEO_FRAME], old(terms[..])[t]);
      if c == '\n' || c == '\r' {
        terms[t] := terms[t].(y := terms[t].y + 1);
        terms[t] := terms[t].(x := 0);
        ScrollIfBelow(t, f, start);
      } else if c == BACKSPACE {
        if terms[t].x == 0 {
          if terms[t].y > 0 {
            terms[t] := terms[t].(y := terms[t].y - 1);
            terms[t] := terms[t].(x := NUM_COLS - 1);
          }
        } else {
          terms[t] := terms[t].(x := terms[t].x - 1);
        }
        Poke(f, terms[t].x, terms[t].y, ' ');
      } else {
        if terms[t].x >= NUM_COLS {
          terms[t] := terms[t].(x := 0);
          terms[t] := terms[t].(y := terms[t].y + 1);
          ScrollIfBelow(t, f, start);
        }
        Poke(f, terms[t].x, terms[t].y, c);
        terms[t] := terms[t].(x := terms[t].x + 1);
      }
    }

    method ScrollIfBelow(t: int, f: int, ghost start: Screen)
      requires vram.Length == PAGES * PAGE && VIDEO_FRAME <= f < VIDEO_FRAME + PAGES
      requires 0 <= t < terms.Length && OnScreen(start) && start.cells == Pages()[f - VIDEO_FRAME]
      requires terms[t].x == 0 && terms[t].y == start.y + 1
      modifies vram, terms
      ensures Pages() == old(Pages())[f - VIDEO_FRAME := NextRow(start).cells]
      ensures terms[..] == Placed(old(terms[..]), t, NextRow(start))
    {
      if terms[t].y >= NUM_ROWS {
        Scroll(f);
        terms[t] := terms[t].(y := NUM_ROWS - 1);
      }
    }

    method Poke(f: int, x: int, y: int, c: char)
      requires vram.Length == PAGES * PAGE && VIDEO_FRAME <= f < VIDEO_FRAME + PAGES
      requires 0 <= x < NUM_COLS && 0 <= y < NUM_ROWS
      modifies vram
      ensures Pages() == old(Pages())[f - VIDEO_FRAME := old(Pages())[f - VIDEO_FRAME][NUM_COLS * y + x := c]]
    {
      vram[(f - VIDEO_FRAME) * PAGE + NUM_COLS * y + x] := c;
      OnePage(old(vram[..]), vram[..], f - VIDEO_FRAME);
    }

    /** clear and cleark. */
    method ClearAt(t: int, f: int)
      requires Shape() && 0 <= t < NUM_TERMS && VIDEO_FRAME <= f < VIDEO_FRAME + PAGES
      modifies vram, terms
      ensures var r := Cleared(old(Pages())[f - VIDEO_FRAME]);
        Pages() == old(Pages())[f - VIDEO_FRAME := r.cells] && terms[..] == Placed(old(terms[..]), t, r)
    {
      terms[t] := terms[t].(x := 0);
      terms[t] := terms[t].(y := 0);
      var base := (f - VIDEO_FRAME) * PAGE;
      for i := 0 to NUM_ROWS * NUM_COLS
        invariant Filled(vram[..], old(vram[..]), base, i)
        invariant terms[..] == Placed(old(terms[..]), t, Cleared(old(Pages())[f - VIDEO_FRAME]))
      {
        vram[base + i] := ' ';
      }
      ClearedPage(vram[..], old(vram[..]), base);
      OnePage(old(vram[..]), vram[..], f - VIDEO_FRAME);
    }

    method Putc(c: char)
      requires Shape()
      modifies vram, terms
      ensures Shape() && Abs() == Step(old(Abs()), Print(c))
    {
      if c == '\0' {
        return;
      }
      PutOne(Cursed(Pages()[frame - VIDEO_FRAME], terms[sched]), c);
      PutMapped(c);
    }

    method PutMapped(c: char)
      requires Shape()
      modifies vram, terms
      ensures Shape() && Abs() == old(Abs()).(screens := OnMapped(old(Abs()), Show([c])))
    {
      hide Put, PutAll, Step, Seen, LinesSeen;
      ghost var d, pages, placed := Abs(), Pages(), terms[..];
      ghost var start := Cursed(pages[frame - VIDEO_FRAME], placed[sched]);
      PutOne(start, c);
      PutAt(sched, frame, c);
      SeenMapped(d, pages, placed, Show([c]));
      LinesPlaced(termBuffer[..], bufferIndex, placed, visible, sched, Put(start, c));
    }

    method Putck(c: char)
      requires Shape()
      modifies vram, terms
      ensures Shape() && Abs() == Step(old(Abs()), Echo(c))
    {
      PutAt(visible, VIDEO_FRAME, c);
      SeenVisible(old(Pages()), old(terms[..]), visible, Put(old(Abs()).screens[visible], c));
    }

    method Clear()
      requires Shape()
      modifies vram, terms
      ensures Shape() && Abs() == Step(old(Abs()), Wipe)
    {
      hide Put, PutAll, OnMapped, Press, KeyStep, Seen, LinesSeen, Cleared, Paged;
      ghost var d, pages, placed := Abs(), Pages(), terms[..];
      ClearAt(sched, frame);
      SeenMapped(d, pages, placed, Blank);
      LinesPlaced(termBuffer[..], bufferIndex, placed, visible, sched, Cleared(pages[frame - VIDEO_FRAME]));
    }

    method Cleark()
      requires Shape()
      modifies vram, terms
      ensures Shape()
      ensures Abs() == old(Abs()).(screens := old(Abs()).screens[visible := Cleared(old(Abs()).screens[visible].cells)])
    {
      ClearAt(visible, VIDEO_FRAME);
      SeenVisible(old(Pages()), old(terms[..]), visible, Cleared(old(Abs()).screens[visible].cells));
    }

    /** memcpy of one page to another. */
    method CopyPage(to: int, from: int)
      requires vram.Length == PAGES * PAGE && to != from
      requires VIDEO_FRAME <= to < VIDEO_FRAME + PAGES && VIDEO_FRAME <= from < VIDEO_FRAME + PAGES
      modifies vram
      ensures Pages() == old(Pages())[to - VIDEO_FRAME := old(Pages())[from - VIDEO_FRAME]]
    {
      hide Paged;
      var dst, src := (to - VIDEO_FRAME) * PAGE, (from - VIDEO_FRAME) * PAGE;
      for i := 0 to PAGE
        invariant Copied(vram[..], old(vram[..]), dst, src, i)
      {
        vram[dst + i] := vram[src + i];
      }
      OnePage(old(vram[..]), vram[..], to - VIDEO_FRAME);
      CopiedPage(vram[..], old(vram[..]), to - VIDEO_FRAME, from - VIDEO_FRAME);
    }

    method SwitchTerminal(next: int)
      requires Shape() && 0 <= next < NUM_TERMS
      modifies this`bufferIndex, this`visible, this`frame, vram, termBuffer, terms
      ensures Shape() && Abs() == old(Abs()).(visible := next)
    {
      hide Swapped, Paged, Seen, LinesSeen;
      if next == visible {
        return;
      }
      var temp := frame;
      frame := VIDEO_FRAME;
      terms[visible] := terms[visible].(index := bufferIndex);
      terms[visible] := terms[visible].(buffer := termBuffer[..]);
      SwapPages(next);
      bufferIndex := terms[next].index;
      LoadLine(next);
      assert terms[..] == old(terms[..][visible := terms[visible].(buffer := termBuffer[..], index := bufferIndex)]);
      SwapSeen(old(Pages()), old(terms[..]), old(termBuffer[..]), old(bufferIndex), visible, next);
      visible := next;
      frame := temp;
    }

    /** The two copies between video memory and the backup pages. */
    method SwapPages(next: int)
      requires vram.Length == PAGES * PAGE && 0 <= visible < NUM_TERMS && 0 <= next < NUM_TERMS
      requires next != visible && frame == VIDEO_FRAME
      modifies vram
      ensures Pages() == Swapped(old(Pages()), visible, next)
    {
      CopyPage(BACKUP_FRAME + visible, frame);
      CopyPage(frame, BACKUP_FRAME + next);
    }

    /** memcpy of the read buffer of a terminal. */
    method LoadLine(t: int)
      requires 0 <= t < terms.Length && termBuffer.Length == BUFFER_LIMIT && |terms[t].buffer| == BUFFER_LIMIT
      modifies termBuffer
      ensures termBuffer[..] == terms[t].buffer
    {
      for i := 0 to BUFFER_LIMIT
        invariant termBuffer[..i] == terms[t].buffer[..i]
      {
        termBuffer[i] := terms[t].buffer[i];
      }
      assert termBuffer[..] == termBuffer[..BUFFER_LIMIT] && terms[t].buffer == terms[t].buffer[..BUFFER_LIMIT];
    }

    /** The part of the scheduler that maps the video memory. */
    method MapVideo()
      requires Shape()
      modifies this`sched, this`frame, vidmap
      ensures Shape() && Abs() == Step(old(Abs()), Tick)
    {
      hide OnMapped, Press, KeyStep, AfterRead, Seen, LinesSeen, Paged;
      sched := (sched + 1) % NUM_TERMS;
      if sched == visible {
        frame := VIDEO_FRAME;
        vidmap[sched] := VIDEO_FRAME;
      } else if sched == 0 {
        frame := 0xB9;
        vidmap[sched] := 0xB9;
      } else if sched == 1 {
        frame := 0xBA;
        vidmap[sched] := 0xBA;
      } else {
        frame := 0xBB;
        vidmap[sched] := 0xBB;
      }
      assert frame == Home(visible, sched) && vidmap[..] == old(vidmap[..])[sched := frame];
    }

    /** Copies at most n characters of the line to buf and clears n characters of the buffer. */
    method TerminalRead(buf: array<char>, n: nat) returns (bytes: nat)
      requires Shape() && Enabled(Abs(), Read(n)) && buf.Length >= n && buf != termBuffer && buf != vram
      modifies termBuffer, enter, buf
      ensures Shape() && Abs() == Step(old(Abs()), Read(n))
      ensures bytes <= n && buf[..bytes] == Delivered(old(Abs()), n)
    {
      bytes := CopyOut(buf, n);
      ClearLine(n);
      enter[visible] := false;
      assert Abs().lines == Step(old(Abs()), Read(n)).lines;
    }

    method CopyOut(buf: array<char>, n: nat) returns (bytes: nat)
      requires n <= termBuffer.Length && n <= buf.Length && buf != termBuffer
      modifies buf
      ensures bytes == ReadCount(termBuffer[..], n) && buf[..bytes] == termBuffer[..bytes]
    {
      bytes := 0;
      while bytes < n
        invariant bytes <= n
        invariant buf[..bytes] == termBuffer[..bytes]
        invariant ReadFrom(termBuffer[..], n, bytes) == ReadCount(termBuffer[..], n)
      {
        var c := termBuffer[bytes];
        buf[bytes] := c;
        if c == '\0' {
          break;
        }
        bytes := bytes + 1;
      }
    }

    method ClearLine(n: nat)
      requires n <= termBuffer.Length
      modifies termBuffer
      ensures termBuffer[..] == seq(n, _ => '\0') + old(termBuffer[n..])
    {
      for i := 0 to n
        invariant termBuffer[..] == seq(i, _ => '\0') + old(termBuffer[i..])
      {
        termBuffer[i] := '\0';
      }
    }

    /** putc for every character but NULs. */
    method TerminalWrite(buf: array?<char>, n: int) returns (bytes: int)
      requires Shape() && (buf != null ==> n <= buf.Length && buf != vram)
      modifies vram, terms
      ensures Shape() && bytes == if buf == null then -1 else n
      ensures Abs() == if buf == null || n <= 0 then old(Abs()) else AllPrinted(old(Abs()), old(buf[..n]))
    {
      hide Step, Valid;
      if buf == null {
        return -1;
      }
      ghost var d, text := Abs(), buf[..];
      var i := 0;
      while i < n
        invariant Shape() && 0 <= i && (i <= n || i == 0) && buf[..] == text
        invariant Abs() == AllPrinted(d, text[..i])
      {
        assert text[..i + 1][..i] == text[..i];
        if buf[i] != '\0' {
          Putc(buf[i]);
        } else {
          NulUnprinted(Abs());
        }
        i := i + 1;
      }
      return n;
    }

    /** Echo of a character that is added to the line. */
    method TypeChar(c: char)
      requires Shape() && bufferIndex < BUFFER_LIMIT
      modifies this`bufferIndex, vram, termBuffer, terms
      ensures Shape() && Abs() == Typing(old(Abs()), flags, Append(old(Abs()).lines[visible], c), [c])
    {
      hide Put, PutAll, OnMapped, Press, KeyStep, AfterRead, Seen, Paged;
      ghost var d := Abs();
      Putck(c);
      PutOne(d.screens[visible], c);
      termBuffer[bufferIndex] := c;
      bufferIndex := bufferIndex + 1;
      if bufferIndex < BUFFER_LIMIT {
        termBuffer[bufferIndex] := '\0';
      }
      assert Abs().lines == d.lines[visible := Append(d.lines[visible], c)];
    }

    /** Echo of a backspace that takes a character from the line. */
    method EraseChar()
      requires Shape() && bufferIndex > 0
      modifies this`bufferIndex, vram, termBuffer, terms
      ensures Shape() && Abs() == Typing(old(Abs()), flags, Erase(old(Abs()).lines[visible]), [BACKSPACE])
    {
      hide Put, PutAll, OnMapped, Press, KeyStep, AfterRead, Seen, Paged;
      ghost var d := Abs();
      bufferIndex := bufferIndex - 1;
      Putck(BACKSPACE);
      PutOne(d.screens[visible], BACKSPACE);
      termBuffer[bufferIndex] := '\0';
      assert Abs().lines == d.lines[visible := Erase(d.lines[visible])];
    }

    /** The key switch at the start of the handler. */
    method Modify(scan: int) returns (done: bool)
      requires ValidFlags(flags)
      modifies this`flags
      ensures flags == Modifier(old(flags), scan) && done == OnlyModifies(scan)
    {
      done := true;
      match scan {
        case 0x3A => flags := flags.(caps := !flags.caps);
        case 0x1D => flags := flags.(ctrl := true); done := false;
        case 0x9D => flags := flags.(ctrl := false);
        case 0x36 => flags := flags.(shift := true);
        case 0x2A => flags := flags.(shift := true);
        case 0xAA => flags := flags.(shift := false);
        case 0xB6 => flags := flags.(shift := false);
        case 0x38 => flags := flags.(alt := true);
        case 0xB8 => flags := flags.(alt := false);
        case 0x3B => flags := flags.(fkey := true); done := false;
        case 0x3C => flags := flags.(fkey := true); done := false;
        case 0x3D => flags := flags.(fkey := true); done := false;
        case _ => done := false;
      }
    }

    method KeyboardHandler(scan: int)
      requires Shape() && Enabled(Abs(), Key(scan))
      modifies this, vram, termBuffer, terms, enter
      ensures Shape() && Abs() == Step(old(Abs()), Key(scan))
    {
      ghost var d := Abs();
      var done := Modify(scan);
      StepParts(d, scan);
      if done {
        return;
      }
      if flags.ctrl && flags.alt && flags.fkey {
        flags := flags.(fkey := false);
        var terminal := scan - F1_PRESSED;
        if terminal > 127 {
          terminal := terminal - 256;       // int8_t
        }
        if terminal < 0 || terminal > 2 {
          return;
        }
        SwitchTerminal(terminal);
      }
      if IsFunctionKey(scan) {
        return;
      }
      EditKey(scan);
    }

    /** The part of the handler behind the modifier and function keys. */
    method EditKey(scan: int)
      requires Shape() && HasRoom(Abs().lines[visible], scan)
      modifies this`bufferIndex, this`flags, vram, termBuffer, terms, enter
      ensures Shape() && Abs() == Edited(old(Abs()), scan)
    {
      if scan == TAB_PRESSED {
        TabKey();
      } else if scan == ENTER_PRESSED {
        EnterKey();
      } else if scan < CHAR_LIMIT {
        CharacterKey(scan);
      } else {
        OtherKey(scan);
      }
    }

    method CharacterKey(scan: int)
      requires Shape() && scan < CHAR_LIMIT && scan != TAB_PRESSED && scan != ENTER_PRESSED
      modifies this`bufferIndex, this`flags, vram, termBuffer, terms
      ensures Shape() && Abs() == Edited(old(Abs()), scan)
    {
      EditCharacter(Abs(), scan);
      if bufferIndex < BUFFER_LIMIT {
        CountedKey(scan);
      } else {
        OverflowKey(scan);
      }
    }

    method CountedKey(scan: int)
      requires Shape() && bufferIndex < BUFFER_LIMIT && scan != ENTER_PRESSED
      modifies this`bufferIndex, this`flags, vram, termBuffer, terms
      ensures Shape() && Abs() == TypedKey(Counted(old(Abs())), scan)
    {
      flags := flags.(count := (flags.count + 1) % 256);
      assert Abs() == Counted(old(Abs()));
      TypeKey(scan);
    }

    method OtherKey(scan: int)
      requires Shape() && CHAR_LIMIT <= scan
      modifies this`flags, termBuffer, enter
      ensures Shape() && Abs() == Edited(old(Abs()), scan)
    {
      hide Put, PutAll, Type, Press, Step;
      Silent(Abs());
      if scan == TAB_RELEASED {
        flags := flags.(tab := false);
      } else if scan == ENTER_RELEASED {
        enter[visible] := false;
      } else {
        EndEmptyLine();
      }
    }

    method TabKey()
      requires Shape()
      modifies this`bufferIndex, this`flags, vram, termBuffer, terms
      ensures Shape() && Abs() == Edited(old(Abs()), TAB_PRESSED)
    {
      Silent(Abs());
      if !flags.tab {
        flags := flags.(tab := true);
        if bufferIndex + TAB_SIZE < BUFFER_LIMIT {
          TypeTab();
        }
      }
    }

    method TypeTab()
      requires Shape() && bufferIndex + TAB_SIZE < BUFFER_LIMIT
      modifies this`bufferIndex, vram, termBuffer, terms
      ensures Shape() && Abs() == Typing(old(Abs()), flags, Tabbed(old(Abs()).lines[visible]), Blanks(TAB_SIZE))
    {
      ghost var d := Abs();
      EchoBlanks(TAB_SIZE);
      AddTab();
      assert Abs().screens == d.screens[visible := PutAll(d.screens[visible], Blanks(TAB_SIZE))];
      assert Abs().lines == d.lines[visible := Tabbed(d.lines[visible])];
    }

    method AddTab()
      requires termBuffer.Length == BUFFER_LIMIT && 0 <= bufferIndex && bufferIndex + TAB_SIZE < BUFFER_LIMIT
      modifies this`bufferIndex, termBuffer
      ensures Line(termBuffer[..], bufferIndex) == Tabbed(old(Line(termBuffer[..], bufferIndex)))
    {
      FillTab();
      bufferIndex := bufferIndex + TAB_SIZE;
      termBuffer[bufferIndex] := '\0';
    }

    method EchoBlanks(n: nat)
      requires Shape()
      modifies vram, terms
      ensures Shape() && Abs() == Spaced(old(Abs()), n)
    {
      hide Step, Spaced;
      ghost var d := Abs();
      NothingEchoed(d);
      for i := 0 to n
        invariant Shape() && Abs() == Spaced(d, i)
      {
        SpacedOneMore(d, i);
        Putck(' ');
      }
    }

    method FillTab()
      requires 0 <= bufferIndex && bufferIndex + TAB_SIZE < termBuffer.Length
      modifies termBuffer
      ensures termBuffer[..]
           == old(termBuffer[..bufferIndex]) + Blanks(TAB_SIZE) + old(termBuffer[bufferIndex + TAB_SIZE..])
    {
      for i := 0 to TAB_SIZE
        invariant termBuffer[..] == old(termBuffer[..bufferIndex]) + Blanks(i) + old(termBuffer[bufferIndex + i..])
      {
        termBuffer[bufferIndex + i] := ' ';
      }
    }

    method EnterKey()
      requires Shape() && bufferIndex < BUFFER_LIMIT
      modifies this`bufferIndex, this`flags, vram, termBuffer, terms, enter
      ensures Shape() && Abs() == Edited(old(Abs()), ENTER_PRESSED)
    {
      hide Put, PutAll, OnMapped, Press, Edit, KeyStep, AfterRead, Seen, Paged;
      ghost var d := Abs();
      EndLine();
      Putck('\n');
      flags := flags.(count := 0);
      bufferIndex := 0;
      enter[visible] := true;
      EnterEdited(d);
      assert Abs().lines == d.lines[visible := Entered(d.lines[visible])];
    }

    method EndLine()
      requires 0 <= bufferIndex < termBuffer.Length
      modifies this`bufferIndex, termBuffer
      ensures termBuffer[..] == old(termBuffer[..][bufferIndex := '\n']) && bufferIndex == old(bufferIndex) + 1
    {
      termBuffer[bufferIndex] := '\n';
      bufferIndex := bufferIndex + 1;
    }

    /** The end of the handler. */
    method EndEmptyLine()
      requires Shape()
      modifies termBuffer
      ensures Shape() && Abs() == Typing(old(Abs()), flags, Blanked(old(Abs()).lines[visible]), "")
    {
      ghost var d := Abs();
      Silent(d);
      if bufferIndex == 0 {
        termBuffer[bufferIndex] := '\0';
      }
      assert Abs().lines == d.lines[visible := Blanked(d.lines[visible])];
    }

    /** A key while there is room. */
    method TypeKey(scan: int)
      requires Shape() && bufferIndex < BUFFER_LIMIT && scan != ENTER_PRESSED
      modifies this`bufferIndex, this`flags, vram, termBuffer, terms
      ensures Shape() && Abs() == TypedKey(old(Abs()), scan)
    {
      if flags.shift {
        ShiftKey(scan);
      } else if flags.ctrl {
        ControlKey(scan);
      } else if scan == BACKSPACE_PRESSED {
        BackspaceKey();
      } else {
        PlainKey(scan);
      }
    }

    /** A key with shift held: the caps flag is turned for letters. */
    method ShiftKey(scan: int)
      requires Shape() && bufferIndex < BUFFER_LIMIT && scan != ENTER_PRESSED && flags.shift
      modifies this`bufferIndex, vram, termBuffer, terms
      ensures Shape() && Abs() == TypedKey(old(Abs()), scan)
    {
      Silent(Abs());
      if scan == BACKSPACE_PRESSED {
        return;
      }
      if IsLetter(scan) {
        var caps := !flags.caps;
        if !caps {
          TypeChar(KeyChar(PLAIN, scan));
        } else {
          TypeChar(KeyChar(CAPS, scan));
        }
      } else {
        TypeChar(KeyChar(SHIFT, scan));
      }
    }

    method ControlKey(scan: int)
      requires Shape() && bufferIndex < BUFFER_LIMIT && scan != ENTER_PRESSED && !flags.shift && flags.ctrl
      modifies this`bufferIndex, this`flags, vram, terms
      ensures Shape() && Abs() == TypedKey(old(Abs()), scan)
    {
      hide Put, PutAll, TypedKey, Step;
      ControlTyped(Abs(), scan);
      if scan == L_KEY {
        ClearAndRestart();
        flags := flags.(shift := false);
      } else if scan == C_KEY {
        return;       // halt(0) does not return
      } else {
        flags := flags.(shift := false);
      }
    }

    method ClearAndRestart()
      requires Shape()
      modifies this`bufferIndex, this`flags, vram, terms
      ensures Shape() && Abs() == Restarted(old(Abs()))
    {
      ghost var d := Abs();
      Cleark();
      flags := flags.(count := 0);
      bufferIndex := 0;
      assert Abs().lines == d.lines[visible := d.lines[visible].(index := 0)];
    }

    /** The backspace key without modifiers; with caps lock on, the handler returns earlier. */
    method BackspaceKey()
      requires Shape() && bufferIndex < BUFFER_LIMIT && !flags.shift && !flags.ctrl
      modifies this`bufferIndex, this`flags, vram, termBuffer, terms
      ensures Shape() && Abs() == TypedKey(old(Abs()), BACKSPACE_PRESSED)
    {
      hide TypedKey;
      BackspaceTyped(Abs());
      if flags.count > 0 && bufferIndex > 0 {
        EraseChar();
        flags := flags.(count := flags.count - 1);
      } else if flags.caps && flags.count > 0 {
        return;
      } else {
        EndEmptyLine();
      }
    }

    method PlainKey(scan: int)
      requires Shape() && bufferIndex < BUFFER_LIMIT && scan != ENTER_PRESSED && scan != BACKSPACE_PRESSED
      requires !flags.shift && !flags.ctrl
      modifies this`bufferIndex, vram, termBuffer, terms
      ensures Shape() && Abs() == TypedKey(old(Abs()), scan)
    {
      if !flags.caps {
        TypeChar(KeyChar(PLAIN, scan));
      } else if flags.count > 0 {
        TypeChar(KeyChar(CAPS, scan));
      } else {
        EndEmptyLine();
      }
    }

    /** A key on a full line. */
    method OverflowKey(scan: int)
      requires Shape() && bufferIndex == BUFFER_LIMIT
      modifies this`bufferIndex, this`flags, vram, termBuffer, terms
      ensures Shape()
      ensures Abs() == KeyStep(old(Abs()), Overflowing(old(flags), old(Abs()).lines[old(visible)], scan))
    {
      hide Put, PutAll, Edit, Type, Press, Step;
      if scan == BACKSPACE_PRESSED {
        EraseChar();
        flags := flags.(count := (flags.count + 255) % 256);
      } else if flags.ctrl && scan == L_KEY {
        OverflowClear();
      } else {
        Silent(Abs());    // halt(0), on Ctrl-C, does not return
      }
    }

    method OverflowClear()
      requires Shape() && bufferIndex == BUFFER_LIMIT && flags.ctrl
      modifies this`bufferIndex, this`flags, vram, termBuffer, terms
      ensures Shape() && Abs() == KeyStep(old(Abs()), Overflowing(old(flags), old(Abs()).lines[old(visible)], L_KEY))
    {
      ghost var d := Abs();
      ClearAndRestart();
      EndEmptyLine();
      ClearedTyping(d);
    }
  }

  function Counted(d: Desk): (r: Desk)
    requires Valid(d)
    ensures Valid(r)
  {
    d.(flags := d.flags.(count := (d.flags.count + 1) % 256))
  }

  lemma EditCharacter(d: Desk, scan: int)
    requires Valid(d) && scan < CHAR_LIMIT && scan != TAB_PRESSED && scan != ENTER_PRESSED
    ensures Edited(d, scan)
         == if d.lines[d.visible].index < BUFFER_LIMIT then TypedKey(Counted(d), scan)
            else KeyStep(d, Overflowing(d.flags, d.lines[d.visible], scan))
  {
    if d.lines[d.visible].index < BUFFER_LIMIT {
      EditCounted(d, scan);
    } else {
      EditOverflows(d.flags, d.lines[d.visible], scan);
    }
  }

  lemma EditCounted(d: Desk, scan: int)
    requires Valid(d) && scan < CHAR_LIMIT && scan != TAB_PRESSED && scan != ENTER_PRESSED
    requires d.lines[d.visible].index < BUFFER_LIMIT
    ensures Edited(d, scan) == TypedKey(Counted(d), scan)
  {
    hide Edit, Type, KeyStep;
    var line, f := d.lines[d.visible], d.flags.(count := (d.flags.count + 1) % 256);
    var p := Type(f, line, scan);
    EditTypes(d.flags, line, scan);
    FlagsReplaced(d, f, p);
    assert Edited(d, scan) == KeyStep(d, p);
    assert TypedKey(Counted(d), scan) == KeyStep(d.(flags := f), p);
  }

  lemma EditOverflows(f: Flags, line: Line, scan: int)
    requires ValidFlags(f) && ValidLine(line) && line.index == BUFFER_LIMIT
    requires scan < CHAR_LIMIT && scan != TAB_PRESSED && scan != ENTER_PRESSED
    ensures Edit(f, line, scan) == Overflowing(f, line, scan)
  {
  }

  lemma EditTypes(f: Flags, line: Line, scan: int)
    requires ValidFlags(f) && ValidLine(line) && line.index < BUFFER_LIMIT
    requires scan < CHAR_LIMIT && scan != TAB_PRESSED && scan != ENTER_PRESSED
    ensures Edit(f, line, scan) == Type(f.(count := (f.count + 1) % 256), line, scan)
  {
  }

  /** A key step sets all flags. */
  lemma FlagsReplaced(d: Desk, f: Flags, p: Pressed)
    requires Valid(d) && ValidFlags(f) && ValidFlags(p.flags) && ValidLine(p.line)
    requires p.act.SwitchTo? ==> 0 <= p.act.terminal < NUM_TERMS
    ensures KeyStep(d.(flags := f), p) == KeyStep(d, p)
  {
  }

  /** n spaces echoed. */
  function Spaced(d: Desk, n: nat): (r: Desk)
    requires Valid(d)
    ensures Valid(r)
  {
    d.(screens := d.screens[d.visible := PutAll(d.screens[d.visible], Blanks(n))])
  }

  lemma NothingEchoed(d: Desk)
    requires Valid(d)
    ensures Spaced(d, 0) == d
  {
    var s := d.screens[d.visible];
    assert PutAll(s, "") == s && d.screens[d.visible := s] == d.screens;
  }

  lemma SpacedOneMore(d: Desk, n: nat)
    requires Valid(d)
    ensures Step(Spaced(d, n), Echo(' ')) == Spaced(d, n + 1)
  {
    var s := d.screens[d.visible];
    PutAllAppend(s, Blanks(n), " ");
    PutOne(PutAll(s, Blanks(n)), ' ');
    assert Blanks(n) + " " == Blanks(n + 1);
  }

  lemma BackspaceTyped(d: Desk)
    requires Valid(d) && d.lines[d.visible].index < BUFFER_LIMIT && !d.flags.shift && !d.flags.ctrl
    ensures var (f, line) := (d.flags, d.lines[d.visible]);
      TypedKey(d, BACKSPACE_PRESSED)
      == if f.count > 0 && line.index > 0 then Typing(d, f.(count := f.count - 1), Erase(line), [BACKSPACE])
         else if f.caps && f.count > 0 then d
         else Typing(d, f, Blanked(line), "")
  {
    Silent(d);
  }

  function TypedKey(d: Desk, scan: int): (r: Desk)
    requires Valid(d) && d.lines[d.visible].index < BUFFER_LIMIT && scan != ENTER_PRESSED
    ensures Valid(r)
  {
    KeyStep(d, Type(d.flags, d.lines[d.visible], scan))
  }

  /** Ctrl-L. */
  function Restarted(d: Desk): (r: Desk)
    requires Valid(d)
    ensures Valid(r)
  {
    var v := d.visible;
    d.(flags := d.flags.(count := 0), lines := d.lines[v := d.lines[v].(index := 0)],
       screens := d.screens[v := Cleared(d.screens[v].cells)])
  }

  lemma ControlTyped(d: Desk, scan: int)
    requires Valid(d) && d.lines[d.visible].index < BUFFER_LIMIT && scan != ENTER_PRESSED
    requires !d.flags.shift && d.flags.ctrl
    ensures TypedKey(d, scan) == if scan == L_KEY then Restarted(d) else d
  {
    Silent(d);
  }

  lemma EnterEdited(d: Desk)
    requires Valid(d) && d.lines[d.visible].index < BUFFER_LIMIT
    ensures var v := d.visible;
      Edited(d, ENTER_PRESSED)
      == d.(flags := d.flags.(count := 0), lines := d.lines[v := Entered(d.lines[v])],
            screens := d.screens[v := Put(d.screens[v], '\n')], enter := d.enter[v := true])
  {
    PutOne(d.screens[d.visible], '\n');
  }

  lemma ClearedTyping(d: Desk)
    requires Valid(d)
    ensures var r := Restarted(d);
      var line := Blanked(r.lines[d.visible]);
      Typing(r, r.flags, line, "") == KeyStep(d, Pressed(r.flags, line, "", ClearScreen))
  {
    Silent(d);
    Silent(Restarted(d));
  }

  /** What the part of the handler behind the modifier keys does to the consoles. */
  function Edited(d: Desk, scan: int): (r: Desk)
    requires Valid(d) && HasRoom(d.lines[d.visible], scan)
    ensures Valid(r)
  {
    KeyStep(d, Edit(d.flags, d.lines[d.visible], scan))
  }

  /** The parts of a key step. */
  lemma StepParts(d: Desk, scan: int)
    requires Valid(d) && Enabled(d, Key(scan))
    ensures var f := Modifier(d.flags, scan);
      var d1, d' := d.(flags := f), Step(d, Key(scan));
      if OnlyModifies(scan) then d' == d1
      else if f.ctrl && f.alt && f.fkey then
        d' == d1.(flags := f.(fkey := false),
                  visible := if F1_PRESSED <= scan <= F3_PRESSED then scan - F1_PRESSED else d.visible)
      else if IsFunctionKey(scan) then d' == d1
      else d' == Edited(d1, scan)
  {
    Silent(d);
  }

  /** A key that does nothing to line and screen. */
  lemma Silent(d: Desk)
    requires Valid(d)
    ensures forall f | ValidFlags(f) :: Typing(d, f, d.lines[d.visible], "") == d.(flags := f)
  {
    var v := d.visible;
    assert PutAll(d.screens[v], "") == d.screens[v];
    assert d.screens[v := d.screens[v]] == d.screens && d.lines[v := d.lines[v]] == d.lines;
  }

  lemma NulUnprinted(d: Desk)
    requires Valid(d)
    ensures Step(d, Print('\0')) == d
  {
  }

  /** A text printed by the scheduled program, one character after the other. */
  ghost function AllPrinted(d: Desk, text: seq<char>): (r: Desk)
    requires Valid(d)
    ensures Valid(r)
  {
    if text == [] then d else Step(AllPrinted(d, text[..|text| - 1]), Print(text[|text| - 1]))
  }

  /** What a program writes in one call: with a right mapping, its own screen shows the text without its NULs and
      nothing else changes. */
  lemma {:induction false} WrittenFresh(d: Desk, text: seq<char>)
    requires Valid(d) && Fresh(d)
    ensures AllPrinted(d, text)
         == d.(screens := d.screens[d.sched := PutAll(d.screens[d.sched], NoNuls(text))])
  {
    var s := d.screens[d.sched];
    if text == [] {
      assert PutAll(s, "") == s && d.screens[d.sched := s] == d.screens;
    } else {
      var n := |text| - 1;
      WrittenFresh(d, text[..n]);
      PrintedOneMore(d, AllPrinted(d, text[..n]), NoNuls(text[..n]), text[n]);
    }
  }

  lemma PrintedOneMore(d: Desk, before: Desk, out: string, c: char)
    requires Valid(d) && Fresh(d) && Valid(before)
    requires before == d.(screens := d.screens[d.sched := PutAll(d.screens[d.sched], out)])
    ensures Step(before, Print(c))
         == if c == '\0' then before
            else d.(screens := d.screens[d.sched := PutAll(d.screens[d.sched], out + [c])])
  {
    if c != '\0' {
      PrintFresh(before, Print(c));
      PutAllAppend(d.screens[d.sched], out, [c]);
      PutOne(before.screens[d.sched], c);
    }
  }

  /** With a stale mapping, its own screen shows none of it, and the cursor ends where it would have; all of it
      goes to the terminal that has the mapped page, if any, from that cursor on. */
  lemma {:induction false} WrittenStale(d: Desk, text: seq<char>)
    requires Valid(d) && !Fresh(d)
    ensures AllPrinted(d, text) == d.(screens := AllPrinted(d, text).screens)
    ensures Strayed(d, NoNuls(text), AllPrinted(d, text).screens)
  {
    if text == [] {
    } else {
      var n := |text| - 1;
      WrittenStale(d, text[..n]);
      var before := AllPrinted(d, text[..n]);
      if text[n] != '\0' {
        StrayedOneMore(d, before, NoNuls(text[..n]), text[n]);
      }
    }
  }

  /** Output that went astray: the scheduled terminal has its cursor moved, the one on the mapped page the text. */
  ghost predicate Strayed(d: Desk, out: string, screens: seq<Screen>)
    requires Valid(d)
  {
    && |screens| == NUM_TERMS
    && forall u | 0 <= u < NUM_TERMS :: screens[u] == Stray(d, out, u)
  }

  function Stray(d: Desk, out: string, u: int): Screen
    requires Valid(d) && 0 <= u < NUM_TERMS
  {
    var s, t := d.screens[d.sched], d.screens[u];
    if u == d.sched then PutAll(s, out).(cells := s.cells)
    else if u == Owner(d.visible, d.frame) then t.(cells := PutAll(s.(cells := t.cells), out).cells)
    else t
  }

  lemma StrayedOneMore(d: Desk, before: Desk, out: string, c: char)
    requires Valid(d) && !Fresh(d) && Valid(before) && c != '\0'
    requires before == d.(screens := before.screens) && Strayed(d, out, before.screens)
    ensures Strayed(d, out + [c], Step(before, Print(c)).screens)
  {
    hide Step, Put;
    var s := d.screens[d.sched];
    PrintStale(before, c);
    forall u | 0 <= u < NUM_TERMS ensures Step(before, Print(c)).screens[u] == Stray(d, out + [c], u) {
      assert before.screens[u] == Stray(d, out, u) && before.screens[d.sched] == Stray(d, out, d.sched);
      if u == d.sched {
        StaleOneMore(s, out, c);
      } else if u == Owner(d.visible, d.frame) {
        CellsOneMore(s, d.screens[u].cells, out, c);
      }
    }
  }

  lemma CellsOneMore(s: Screen, cells: seq<char>, out: string, c: char)
    requires OnScreen(s) && |cells| == PAGE
    ensures var (moved, page) := (PutAll(s, out), PutAll(s.(cells := cells), out));
      Put(moved.(cells := page.cells), c).cells == PutAll(s.(cells := cells), out + [c]).cells
  {
    PutAllCursor(s, cells, out);
    PutAllAppend(s.(cells := cells), out, [c]);
    PutOne(PutAll(s.(cells := cells), out), c);
  }

  lemma StaleOneMore(s: Screen, out: string, c: char)
    requires OnScreen(s)
    ensures var before := PutAll(s, out).(cells := s.cells);
      Put(before, c).(cells := s.cells) == PutAll(s, out + [c]).(cells := s.cells)
  {
    PutAllCursor(PutAll(s, out), s.cells, [c]);
    PutOne(PutAll(s, out), c);
    PutOne(PutAll(s, out).(cells := s.cells), c);
    PutAllAppend(s, out, [c]);
  }

  function NoNuls(s: seq<char>): string {
    if s == [] then ""
    else if s[|s| - 1] == '\0' then NoNuls(s[..|s| - 1])
    else NoNuls(s[..|s| - 1]) + [s[|s| - 1]]
  }

  ghost predicate Copied(now: seq<char>, was: seq<char>, dst: int, src: int, n: int) {
    && |now| == |was| && 0 <= dst && 0 <= src && 0 <= n && dst + n <= |was| && src + n <= |was|
    && (forall k | dst <= k < dst + n :: now[k] == was[k - dst + src])
    && forall k | 0 <= k < |was| && !(dst <= k < dst + n) :: now[k] == was[k]
  }

  lemma CopiedPage(now: seq<char>, was: seq<char>, to: int, from: int)
    requires |was| == PAGES * PAGE && 0 <= to < PAGES && 0 <= from < PAGES
    requires Copied(now, was, to * PAGE, from * PAGE, PAGE)
    ensures Paged(now)[to] == Paged(was)[from]
  {
    forall k | 0 <= k < PAGE ensures Paged(now)[to][k] == Paged(was)[from][k] {
      PagedAt(now, to, k);
      PagedAt(was, from, k);
    }
  }

  /** The pages after a switch. */
  function Swapped(pages: seq<seq<char>>, visible: int, next: int): (r: seq<seq<char>>)
    requires |pages| == PAGES && 0 <= visible < NUM_TERMS && 0 <= next < NUM_TERMS
    ensures |r| == PAGES
  {
    pages[visible + 1 := pages[0]][0 := pages[next + 1]]
  }

  /** A switch changes neither the screens nor the lines that the terminals see. */
  lemma SwapSeen(pages: seq<seq<char>>, terms: seq<Terminal>, buffer: seq<char>, index: int, visible: int, next: int)
    requires ValidPages(pages) && ValidTerms(terms) && 0 <= visible < NUM_TERMS && 0 <= next < NUM_TERMS
    requires visible != next && |buffer| == BUFFER_LIMIT && 0 <= index <= BUFFER_LIMIT
    ensures var terms' := terms[visible := terms[visible].(buffer := buffer, index := index)];
      && Seen(Swapped(pages, visible, next), terms', next) == Seen(pages, terms, visible)
      && LinesSeen(terms[next].buffer, terms[next].index, terms', next) == LinesSeen(buffer, index, terms, visible)
  {
  }

  // ----- pages and screens -----

  function Paged(vram: seq<char>): (pages: seq<seq<char>>)
    requires |vram| == PAGES * PAGE
    ensures |pages| == PAGES && forall p | 0 <= p < PAGES :: |pages[p]| == PAGE
  {
    [vram[..PAGE], vram[PAGE..2 * PAGE], vram[2 * PAGE..3 * PAGE], vram[3 * PAGE..]]
  }

  predicate ValidTerms(terms: seq<Terminal>) {
    && |terms| == NUM_TERMS
    && forall t | 0 <= t < NUM_TERMS ::
         && 0 <= terms[t].x <= NUM_COLS && 0 <= terms[t].y < NUM_ROWS
         && |terms[t].buffer| == BUFFER_LIMIT && 0 <= terms[t].index <= BUFFER_LIMIT
  }

  ghost predicate ValidPages(pages: seq<seq<char>>) {
    |pages| == PAGES && forall p | 0 <= p < PAGES :: |pages[p]| == PAGE
  }

  /** A page with the cursor of a terminal. */
  function Cursed(cells: seq<char>, term: Terminal): Screen {
    Screen(cells, term.x, term.y)
  }

  /** The terminals with the cursor of one of them moved. */
  function Placed(terms: seq<Terminal>, t: int, s: Screen): seq<Terminal>
    requires 0 <= t < |terms|
  {
    terms[t := terms[t].(x := s.x, y := s.y)]
  }

  function SeenBy(pages: seq<seq<char>>, terms: seq<Terminal>, visible: int, t: int): (s: Screen)
    requires ValidPages(pages) && ValidTerms(terms) && 0 <= visible < NUM_TERMS && 0 <= t < NUM_TERMS
    ensures OnScreen(s)
  {
    Cursed(pages[Home(visible, t) - VIDEO_FRAME], terms[t])
  }

  function Seen(pages: seq<seq<char>>, terms: seq<Terminal>, visible: int): (screens: seq<Screen>)
    requires ValidPages(pages) && ValidTerms(terms) && 0 <= visible < NUM_TERMS
    ensures |screens| == NUM_TERMS && forall t | 0 <= t < NUM_TERMS :: screens[t] == SeenBy(pages, terms, visible, t)
  {
    [SeenBy(pages, terms, visible, 0), SeenBy(pages, terms, visible, 1), SeenBy(pages, terms, visible, 2)]
  }

  function LineSeen(buffer: seq<char>, index: int, terms: seq<Terminal>, visible: int, t: int): Line
    requires |terms| == NUM_TERMS && 0 <= t < NUM_TERMS
  {
    if t == visible then Line(buffer, index) else Line(terms[t].buffer, terms[t].index)
  }

  function LinesSeen(buffer: seq<char>, index: int, terms: seq<Terminal>, visible: int): (lines: seq<Line>)
    requires |terms| == NUM_TERMS
    ensures |lines| == NUM_TERMS
    ensures forall t | 0 <= t < NUM_TERMS :: lines[t] == LineSeen(buffer, index, terms, visible, t)
  {
    [LineSeen(buffer, index, terms, visible, 0), LineSeen(buffer, index, terms, visible, 1),
     LineSeen(buffer, index, terms, visible, 2)]
  }

  lemma OnePage(was: seq<char>, now: seq<char>, p: int)
    requires |was| == |now| == PAGES * PAGE && 0 <= p < PAGES
    requires now[..p * PAGE] == was[..p * PAGE] && now[(p + 1) * PAGE..] == was[(p + 1) * PAGE..]
    ensures Paged(now) == Paged(was)[p := now[p * PAGE..(p + 1) * PAGE]]
    ensures Paged(was)[p] == was[p * PAGE..(p + 1) * PAGE]
  {
    forall k | 0 <= k < PAGE ensures Paged(now)[p][k] == now[p * PAGE..(p + 1) * PAGE][k] {
      PagedAt(now, p, k);
    }
    assert Paged(now)[p] == now[p * PAGE..(p + 1) * PAGE];
    forall k | 0 <= k < PAGE ensures Paged(was)[p][k] == was[p * PAGE..(p + 1) * PAGE][k] {
      PagedAt(was, p, k);
    }
    assert Paged(was)[p] == was[p * PAGE..(p + 1) * PAGE];
    forall q | 0 <= q < PAGES && q != p ensures Paged(now)[q] == Paged(was)[q] {
      forall k | 0 <= k < PAGE ensures Paged(now)[q][k] == Paged(was)[q][k] {
        PagedAt(was, q, k);
        PagedAt(now, q, k);
        if q < p {
          assert now[..p * PAGE][q * PAGE + k] == was[..p * PAGE][q * PAGE + k];
        } else {
          var j := q * PAGE + k - (p + 1) * PAGE;
          assert now[(p + 1) * PAGE..][j] == was[(p + 1) * PAGE..][j];
        }
      }
    }
  }

  lemma PagedAt(vram: seq<char>, q: int, k: int)
    requires |vram| == PAGES * PAGE && 0 <= q < PAGES && 0 <= k < PAGE
    ensures Paged(vram)[q][k] == vram[2048 * q + k]
  {
  }

  lemma LinesPlaced(buffer: seq<char>, index: int, terms: seq<Terminal>, visible: int, t: int, s: Screen)
    requires |terms| == NUM_TERMS && 0 <= t < NUM_TERMS
    ensures LinesSeen(buffer, index, Placed(terms, t, s), visible) == LinesSeen(buffer, index, terms, visible)
  {
  }

  /** A job done on the visible page with the cursor of the visible terminal. */
  lemma SeenVisible(pages: seq<seq<char>>, terms: seq<Terminal>, visible: int, r: Screen)
    requires ValidPages(pages) && ValidTerms(terms) && 0 <= visible < NUM_TERMS && OnScreen(r)
    ensures Seen(pages[0 := r.cells], Placed(terms, visible, r), visible) == Seen(pages, terms, visible)[visible := r]
  {
  }

  /** A job done on the mapped page with the cursor of the scheduled terminal. */
  lemma SeenMapped(d: Desk, pages: seq<seq<char>>, terms: seq<Terminal>, job: Job)
    requires Valid(d) && ValidPages(pages) && ValidTerms(terms) && d.screens == Seen(pages, terms, d.visible)
    ensures var r := Do(Cursed(pages[d.frame - VIDEO_FRAME], terms[d.sched]), job);
      Seen(pages[d.frame - VIDEO_FRAME := r.cells], Placed(terms, d.sched, r), d.visible) == OnMapped(d, job)
  {
    var own := d.screens[d.sched];
    if job.Show? {
      PutAllCursor(own, pages[d.frame - VIDEO_FRAME], job.out);
    }
  }

  lemma ClearedPage(now: seq<char>, was: seq<char>, base: int)
    requires 0 <= base && base + PAGE <= |was| && Filled(now, was, base, SHOWN)
    ensures now[base..base + PAGE] == Cleared(was[base..base + PAGE]).cells
    ensures now[..base] == was[..base] && now[base + PAGE..] == was[base + PAGE..]
  {
  }

  /** The n cells from base on hold what was one row further down. */
  ghost predicate Moved(now: seq<char>, was: seq<char>, base: int, n: int) {
    && |now| == |was| && 0 <= base && 0 <= n && base + n + NUM_COLS <= |was|
    && (forall k | base <= k < base + n :: now[k] == was[k + NUM_COLS])
    && forall k | 0 <= k < |was| && !(base <= k < base + n) :: now[k] == was[k]
  }

  ghost predicate Filled(now: seq<char>, was: seq<char>, base: int, n: int) {
    && |now| == |was| && 0 <= base && 0 <= n && base + n <= |was|
    && (forall k | base <= k < base + n :: now[k] == ' ')
    && forall k | 0 <= k < |was| && !(base <= k < base + n) :: now[k] == was[k]
  }

  lemma ScrolledPage(now: seq<char>, moved: seq<char>, was: seq<char>, base: int)
    requires 0 <= base && base + PAGE <= |was|
    requires Moved(moved, was, base, NUM_COLS * (NUM_ROWS - 1))
    requires Filled(now, moved, base + NUM_COLS * (NUM_ROWS - 1), NUM_COLS)
    ensures now[base..base + PAGE] == Scrolled(was[base..base + PAGE])
    ensures now[..base] == was[..base] && now[base + PAGE..] == was[base + PAGE..]
  {
    var page, here := was[base..base + PAGE], now[base..base + PAGE];
    forall k | 0 <= k < PAGE ensures here[k] == Scrolled(page)[k] {
      ScrolledCell(page, k);
      assert here[k] == now[base + k] && page[k] == was[base + k];
      if k < NUM_COLS * (NUM_ROWS - 1) {
        assert now[base + k] == moved[base + k] == was[base + k + NUM_COLS] == page[k + NUM_COLS];
      } else if k < SHOWN {
        assert now[base + k] == ' ';
      } else {
        assert now[base + k] == moved[base + k] == was[base + k];
      }
    }
  }

  lemma ScrolledCell(cells: seq<char>, k: nat)
    requires |cells| == PAGE && k < PAGE
    ensures Scrolled(cells)[k]
         == if k < NUM_COLS * (NUM_ROWS - 1) then cells[k + NUM_COLS] else if k < SHOWN then ' ' else cells[k]
  {
  }
}
