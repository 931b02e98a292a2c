/**
 What each key does, by its scan code and its place on the keyboard: the characters of the four rows under Shift
 and Caps Lock, and the keys that edit, end, clear or switch.
 */
module KeyEffects {
  import opened Screens
  import opened Keyboards

  /** What is printed on a key, in scan code set 1; NUL where a key types nothing. */
  function Legend(scan: int, shifted: bool): char {
    if 0x02 <= scan <= 0x0D then (if shifted then "!@#$%^&*()_+" else "1234567890-=")[scan - 0x02]
    else if 0x10 <= scan <= 0x1B then (if shifted then "QWERTYUIOP{}" else "qwertyuiop[]")[scan - 0x10]
    else if 0x1E <= scan <= 0x29 then (if shifted then "ASDFGHJKL:\"~" else "asdfghjkl;'`")[scan - 0x1E]
    else if 0x2B <= scan <= 0x35 then (if shifted then "|ZXCVBNM<>?" else "\\zxcvbnm,./")[scan - 0x2B]
    else if scan == 0x37 then '*'
    else if scan == 0x39 then ' '
    else '\0'
  }

  predicate Types(scan: int) {
    Legend(scan, false) != '\0'
  }

  predicate IsLetterKey(scan: int) {
    'a' <= Legend(scan, false) <= 'z'
  }

  // ----- the tables -----

  lemma RowOne(scan: int)
    requires 0x02 <= scan <= 0x0D
    ensures |DIGITS| == |SIGNS| == 14 && DIGITS[scan] == Legend(scan, false) && SIGNS[scan] == Legend(scan, true)
    ensures !IsLetterKey(scan) && !IsLetter(scan)
  {
  }

  lemma RowTwo(scan: int)
    requires 0x10 <= scan <= 0x1B
    ensures |PLAIN_LETTERS| == 44 && PLAIN_LETTERS[scan - 15] == Legend(scan, false)
  {
  }

  lemma RowTwoLetters(scan: int)
    requires 0x10 <= scan <= 0x1B
    ensures IsLetterKey(scan) <==> IsLetter(scan)
  {
  }

  lemma RowTwoCaps(scan: int)
    requires 0x10 <= scan <= 0x1B
    ensures |CAPS_LETTERS| == 44 && CAPS_LETTERS[scan - 15] == Legend(scan, IsLetterKey(scan))
  {
  }

  lemma RowTwoShift(scan: int)
    requires 0x10 <= scan <= 0x1B
    ensures |SHIFT_LETTERS| == 44 && SHIFT_LETTERS[scan - 15] == Legend(scan, true)
  {
  }

  lemma RowThree(scan: int)
    requires 0x1E <= scan <= 0x29
    ensures |PLAIN_LETTERS| == 44 && PLAIN_LETTERS[scan - 15] == Legend(scan, false)
    ensures IsLetterKey(scan) <==> IsLetter(scan)
  {
  }

  lemma RowThreeCaps(scan: int)
    requires 0x1E <= scan <= 0x29
    ensures |CAPS_LETTERS| == 44 && CAPS_LETTERS[scan - 15] == Legend(scan, IsLetterKey(scan))
  {
  }

  lemma RowThreeShift(scan: int)
    requires 0x1E <= scan <= 0x29
    ensures |SHIFT_LETTERS| == 44 && SHIFT_LETTERS[scan - 15] == Legend(scan, true)
  {
  }

  lemma RowFour(scan: int)
    requires 0x2B <= scan <= 0x35
    ensures |PLAIN_LETTERS| == 44 && PLAIN_LETTERS[scan - 15] == Legend(scan, false)
    ensures IsLetterKey(scan) <==> IsLetter(scan)
  {
  }

  lemma RowFourCaps(scan: int)
    requires 0x2B <= scan <= 0x35
    ensures |CAPS_LETTERS| == 44 && CAPS_LETTERS[scan - 15] == Legend(scan, IsLetterKey(scan))
  {
  }

  lemma RowFourShift(scan: int)
    requires 0x2B <= scan <= 0x35
    ensures |SHIFT_LETTERS| == 44 && SHIFT_LETTERS[scan - 15] == Legend(scan, true)
  {
  }

  lemma SpaceBar()
    ensures |PLAIN_LETTERS| == |CAPS_LETTERS| == |SHIFT_LETTERS| == 44
    ensures PLAIN_LETTERS[0x37 - 15] == CAPS_LETTERS[0x37 - 15] == SHIFT_LETTERS[0x37 - 15] == '*'
    ensures PLAIN_LETTERS[0x39 - 15] == CAPS_LETTERS[0x39 - 15] == SHIFT_LETTERS[0x39 - 15] == ' '
  {
  }

  lemma InTable(before: string, after: string, scan: int)
    requires |before| == 14 && 0 <= scan < 15 + |after| && scan != 14
    ensures KeyChar(before + [BACKSPACE] + after, scan) == if scan < 14 then before[scan] else after[scan - 15]
  {
  }

  lemma TableSizes()
    ensures |DIGITS| == |SIGNS| == 14 && |PLAIN_LETTERS| == |CAPS_LETTERS| == |SHIFT_LETTERS| == 44
  {
  }

  lemma InTables(scan: int)
    requires 0 <= scan < 59 && scan != 14
    ensures |DIGITS| == |SIGNS| == 14 && |PLAIN_LETTERS| == |CAPS_LETTERS| == |SHIFT_LETTERS| == 44
    ensures KeyChar(PLAIN, scan) == if scan < 14 then DIGITS[scan] else PLAIN_LETTERS[scan - 15]
    ensures KeyChar(CAPS, scan) == if scan < 14 then DIGITS[scan] else CAPS_LETTERS[scan - 15]
    ensures KeyChar(SHIFT, scan) == if scan < 14 then SIGNS[scan] else SHIFT_LETTERS[scan - 15]
  {
    hide KeyChar;
    TableSizes();
    InTable(DIGITS, PLAIN_LETTERS, scan);
    InTable(DIGITS, CAPS_LETTERS, scan);
    InTable(SIGNS, SHIFT_LETTERS, scan);
  }

  /** Which keys have a legend. */
  lemma LegendRows(scan: int)
    requires Types(scan)
    ensures 0x02 <= scan <= 0x0D || 0x10 <= scan <= 0x1B || 0x1E <= scan <= 0x29 || 0x2B <= scan <= 0x35
            || scan == 0x37 || scan == 0x39
    ensures scan == 0x37 || scan == 0x39 ==>
      Legend(scan, false) == Legend(scan, true) == (if scan == 0x37 then '*' else ' ')
      && !IsLetterKey(scan) && !IsLetter(scan)
  {
  }

  /** The three tables against the keyboard: Shift gives the upper legend, Caps Lock that of letters. */
  lemma TablesAgree(scan: int)
    requires Types(scan)
    ensures KeyChar(PLAIN, scan) == Legend(scan, false) && KeyChar(SHIFT, scan) == Legend(scan, true)
    ensures KeyChar(CAPS, scan) == Legend(scan, IsLetterKey(scan))
    ensures IsLetter(scan) <==> IsLetterKey(scan)
  {
    hide *;
    LegendRows(scan);
    InTables(scan);
    if scan <= 0x0D {
      RowOne(scan);
    } else if scan <= 0x1B {
      RowTwo(scan);
      RowTwoLetters(scan);
      RowTwoCaps(scan);
      RowTwoShift(scan);
    } else if scan <= 0x29 {
      RowThree(scan);
      RowThreeCaps(scan);
      RowThreeShift(scan);
    } else if scan <= 0x35 {
      RowFour(scan);
      RowFourCaps(scan);
      RowFourShift(scan);
    } else {
      SpaceBar();
    }
  }

  /** The letters of the upper legends are those of the lower ones. */
  lemma LettersRise(scan: int)
    requires IsLetterKey(scan)
    ensures Legend(scan, true) as int == Legend(scan, false) as int - 'a' as int + 'A' as int
  {
    if scan <= 0x1B {
      RisesTwo(scan);
    } else if scan <= 0x29 {
      RisesThree(scan);
    } else {
      RisesFour(scan);
    }
  }

  lemma RisesTwo(scan: int)
    requires 0x10 <= scan <= 0x19
    ensures Legend(scan, true) as int == Legend(scan, false) as int - 32
  {
  }

  lemma RisesThree(scan: int)
    requires 0x1E <= scan <= 0x26
    ensures Legend(scan, true) as int == Legend(scan, false) as int - 32
  {
  }

  lemma RisesFour(scan: int)
    requires 0x2C <= scan <= 0x32
    ensures Legend(scan, true) as int == Legend(scan, false) as int - 32
  {
  }

  // ----- typing -----

  /** A key with a legend, on a line with room, while Ctrl is up or Shift is down: it types its upper legend if Shift
      is down, or for letters if exactly one of Shift and Caps Lock is on, and its lower legend otherwise. Only the
      256th key since the line began is swallowed, under Caps Lock without Shift. */
  lemma KeyTypes(flags: Flags, line: Line, scan: int)
    requires ValidFlags(flags) && ValidLine(line) && line.index < 128 && Types(scan)
    requires flags.shift || !flags.ctrl
    requires !(flags.ctrl && flags.alt && flags.fkey)
    ensures var (p, c) := (Press(flags, line, scan),
                           Legend(scan, if IsLetterKey(scan) then flags.shift != flags.caps else flags.shift));
      && p.act.Nothing? && p.flags == flags.(count := (flags.count + 1) % 256)
      && if flags.caps && !flags.shift && flags.count == 255 then p.echo == "" && p.line.index == line.index
         else p.echo == [c] && p.line.index == line.index + 1
              && p.line.buffer[..p.line.index] == line.buffer[..line.index] + [c]
  {
    hide Legend, KeyChar;
    NoOtherKey(scan);
    TablesAgree(scan);
  }

  lemma NoOtherKey(scan: int)
    requires Types(scan)
    ensures 0 <= scan < CHAR_LIMIT && !OnlyModifies(scan) && !IsFunctionKey(scan)
    ensures scan != TAB_PRESSED && scan != ENTER_PRESSED && scan != BACKSPACE_PRESSED
    ensures forall flags :: Modifier(flags, scan) == flags
  {
  }

  /** Upper-case letters come from exactly one of Shift and Caps Lock, and are those of the lower case. */
  lemma LetterCase(flags: Flags, line: Line, scan: int)
    requires ValidFlags(flags) && ValidLine(line) && line.index < 128 && IsLetterKey(scan) && !flags.ctrl
    ensures var (echo, lower) := (Press(flags, line, scan).echo, Legend(scan, false));
      echo == "" || (&& |echo| == 1 && ('A' <= echo[0] <= 'Z' <==> flags.shift != flags.caps)
                     && echo[0] == if flags.shift != flags.caps then lower - 'a' + 'A' else lower)
  {
    hide Press;
    LettersRise(scan);
    KeyTypes(flags, line, scan);
  }

  /** Ctrl without Shift, and a full line, type nothing. */
  lemma KeyTypesNothing(flags: Flags, line: Line, scan: int)
    requires ValidFlags(flags) && ValidLine(line) && Types(scan)
    requires line.index == 128 || (flags.ctrl && !flags.shift) || (flags.ctrl && flags.alt && flags.fkey)
    ensures Press(flags, line, scan).echo == "" && Press(flags, line, scan).line.index in [line.index, 0]
    ensures Press(flags, line, scan).line.index == line.index || Press(flags, line, scan).act.ClearScreen?
  {
    hide Legend, KeyChar;
    NoOtherKey(scan);
  }

  /** A modifier key that does not return at once is typed like any other: Ctrl pressed while Shift is down puts a NUL
      into the line, which is where a read of it will end. */
  lemma CtrlTypesNul(flags: Flags, line: Line)
    requires ValidFlags(flags) && ValidLine(line) && line.index < 128 && flags.shift && !(flags.alt && flags.fkey)
    ensures var p := Press(flags, line, 0x1D);
      && p.echo == "\0" && p.line.index == line.index + 1
      && p.line.buffer[..p.line.index] == line.buffer[..line.index] + "\0"
  {
    NoShiftedCtrl();
  }

  lemma NoShiftedCtrl()
    ensures KeyChar(SHIFT, 0x1D) == '\0'
  {
    hide KeyChar;
    InTables(0x1D);
    assert SHIFT_LETTERS[0x1D - 15] == '\0';
  }

  /** Backspace, without Shift and Ctrl, takes back the last character of the line, unless it is the 256th key counted
      since the line began. It is not counted itself when it does, and on a full line it undoes the count of a key. */
  lemma BackspaceKeyErases(flags: Flags, line: Line)
    requires ValidFlags(flags) && ValidLine(line) && !flags.shift && !flags.ctrl
    ensures var p := Press(flags, line, 0x0E);
      && p.flags == flags.(count := p.flags.count) && p.act.Nothing?
      && if line.index > 0 && (line.index == 128 || flags.count < 255) then
        p.echo == "\U{08}" && p.line.index == line.index - 1
        && p.line.buffer[..p.line.index] == line.buffer[..p.line.index]
        && p.flags.count == (if line.index < 128 then flags.count else (flags.count + 255) % 256)
      else p.echo == "" && p.line.index == line.index && p.flags.count == (flags.count + 1) % 256
  {
  }

  /** So a character typed with room left is taken back by the next key. */
  lemma BackspaceUndoesKey(flags: Flags, line: Line, scan: int)
    requires ValidFlags(flags) && ValidLine(line) && line.index < 128 && Types(scan)
    requires !flags.shift && !flags.ctrl && flags.count < 254
    ensures var p := Press(flags, line, scan);
      var q := Press(p.flags, p.line, 0x0E);
      p.echo != "" && q.echo == [BACKSPACE] && q.line.index == line.index
      && q.line.buffer[..line.index] == line.buffer[..line.index]
  {
    hide Press, Legend;
    NoOtherKey(scan);
    KeyTypes(flags, line, scan);
    var p := Press(flags, line, scan);
    BackspaceKeyErases(p.flags, p.line);
    assert p.line.buffer[..p.line.index][..line.index] == line.buffer[..line.index];
  }

  /** Tab, once for every time it is pressed, types four spaces if they leave room. */
  lemma TabTypes(flags: Flags, line: Line)
    requires ValidFlags(flags) && ValidLine(line) && !(flags.ctrl && flags.alt && flags.fkey)
    ensures var p := Press(flags, line, 0x0F);
      if !flags.tab && line.index + 4 < 128 then
        p.echo == "    " && p.line.index == line.index + 4
        && p.line.buffer[..p.line.index] == line.buffer[..line.index] + "    "
      else p.echo == "" && p.line == line
    ensures Press(flags, line, 0x0F).flags.tab && !Press(flags, line, 0x8F).flags.tab
  {
    assert Blanks(4) == "    ";
  }

  // ----- the keys that do something else -----

  /** Ctrl, Alt and F1, F2 or F3 switch to the first, second or third terminal, and nothing else switches. */
  lemma SwitchesIff(flags: Flags, line: Line, scan: int, n: int)
    requires ValidFlags(flags) && ValidLine(line) && 0 <= scan < 256 && HasRoom(line, scan)
    ensures Press(flags, line, scan).act == SwitchTo(n)
      <==> 0 <= n <= 2 && scan == 0x3B + n && flags.ctrl && flags.alt
    ensures Press(flags, line, scan).act == SwitchTo(n) ==>
      Press(flags, line, scan) == Pressed(flags.(fkey := false), line, "", SwitchTo(n))
  {
  }

  /** Ctrl-L clears the screen and the line; while there is room, not with Shift. */
  lemma ClearsIff(flags: Flags, line: Line, scan: int)
    requires ValidFlags(flags) && ValidLine(line) && 0 <= scan < 256 && HasRoom(line, scan)
    ensures Press(flags, line, scan).act.ClearScreen?
      <==> scan == 0x26 && flags.ctrl && !(flags.alt && flags.fkey) && (line.index == 128 || !flags.shift)
    ensures var p := Press(flags, line, scan);
      p.act.ClearScreen? ==>
        && p.echo == "" && p.flags == flags.(count := 0)
        && p.line == Line(if line.index == 128 then line.buffer[0 := '\0'] else line.buffer, 0)
  {
  }

  /** Ctrl-C ends the program; while there is room, not with Shift. */
  lemma KillsIff(flags: Flags, line: Line, scan: int)
    requires ValidFlags(flags) && ValidLine(line) && 0 <= scan < 256 && HasRoom(line, scan)
    ensures Press(flags, line, scan).act.Kill?
      <==> scan == 0x2E && flags.ctrl && !(flags.alt && flags.fkey) && (line.index == 128 || !flags.shift)
  {
  }

  /** Enter ends the line with a newline, and its release withdraws it. */
  lemma EntersIff(flags: Flags, line: Line, scan: int)
    requires ValidFlags(flags) && ValidLine(line) && 0 <= scan < 256 && HasRoom(line, scan)
    ensures var p := Press(flags, line, scan);
      && (p.act.EnterDown? <==> scan == 0x1C && !(flags.ctrl && flags.alt && flags.fkey))
      && (p.act.EnterUp? <==> scan == 0x9C && !(flags.ctrl && flags.alt && flags.fkey))
      && (p.act.EnterDown? ==>
          && p.echo == "\n" && p.line.index == 0 && p.line.buffer == line.buffer[line.index := '\n']
          && p.flags == flags.(count := 0))
  {
  }

  /** The function keys and Escape do nothing but switch, whether pressed or released. */
  lemma FunctionKeysSilent(flags: Flags, line: Line, scan: int)
    requires ValidFlags(flags) && ValidLine(line)
    requires 0x3B <= scan <= 0x58 || 0xBB <= scan <= 0xD8 || scan == 0x01 || scan == 0x81
    ensures var p := Press(flags, line, scan);
      p.echo == "" && p.line == line && (p.act.Nothing? || p.act.SwitchTo?)
  {
  }

  /** While Ctrl and Alt are held and a function key is remembered, any other key that does not return at once is
      swallowed, and the function key forgotten. */
  lemma KeySwallowed(flags: Flags, line: Line, scan: int)
    requires ValidFlags(flags) && ValidLine(line) && 0 <= scan < 256 && flags.ctrl && flags.alt && flags.fkey
    requires HasRoom(line, scan) && !(0x3B <= scan <= 0x3D)
    requires scan !in {0x3A, 0x9D, 0x2A, 0x36, 0xAA, 0xB6, 0x38, 0xB8}
    ensures Press(flags, line, scan) == Pressed(flags.(fkey := false), line, "", Nothing)
  {
  }

  /** The release of a key that does nothing else leaves a line that is being typed as it is. */
  lemma ReleaseKeepsLine(flags: Flags, line: Line, scan: int)
    requires ValidFlags(flags) && ValidLine(line) && 0x59 <= scan < 256 && line.index > 0
    ensures Press(flags, line, scan).line == line && Press(flags, line, scan).echo == ""
  {
  }

  /** The scan code of a key when it is released. */
  function Release(scan: int): int {
    scan + 0x80
  }

  /** Ctrl, both Shift keys and Alt are held from their press to their release. */
  lemma HeldWhilePressed(f: Flags)
    ensures Modifier(f, 0x1D).ctrl && !Modifier(f, Release(0x1D)).ctrl
    ensures Modifier(f, 0x2A).shift && !Modifier(f, Release(0x2A)).shift
    ensures Modifier(f, 0x36).shift && !Modifier(f, Release(0x36)).shift
    ensures Modifier(f, 0x38).alt && !Modifier(f, Release(0x38)).alt
  {
  }

  /** No other key changes that, and Caps Lock turns with every press. */
  lemma HeldOtherwise(f: Flags, scan: int)
    ensures scan != 0x1D && scan != Release(0x1D) ==> Modifier(f, scan).ctrl == f.ctrl
    ensures scan !in {0x2A, 0x36, Release(0x2A), Release(0x36)} ==> Modifier(f, scan).shift == f.shift
    ensures scan != 0x38 && scan != Release(0x38) ==> Modifier(f, scan).alt == f.alt
    ensures Modifier(f, scan).caps == if scan == 0x3A then !f.caps else f.caps
  {
  }
}
