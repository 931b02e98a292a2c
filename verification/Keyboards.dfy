/**
 The line editor inside the keyboard interrupt handler, and terminal_read.
 */
module Keyboards {
  import opened Screens

  const BUFFER_LIMIT := 128
  const TAB_SIZE := 4
  const CHAR_LIMIT := 0x59
  const CAPS_PRESSED := 0x3A
  const CTRL_PRESSED := 0x1D
  const CTRL_RELEASED := 0x9D
  const L_SHIFT_PRESSED := 0x2A
  const R_SHIFT_PRESSED := 0x36
  const L_SHIFT_RELEASED := 0xB6
  const R_SHIFT_RELEASED := 0xAA
  const ALT_PRESSED := 0x38
  const ALT_RELEASED := 0xB8
  const TAB_PRESSED := 0x0F
  const TAB_RELEASED := 0x8F
  const ENTER_PRESSED := 0x1C
  const ENTER_RELEASED := 0x9C
  const BACKSPACE_PRESSED := 0x0E
  const ESCAPE_PRESSED := 0x01
  const ESCAPE_RELEASED := 0x81
  const A_RELEASED := 0x9E
  const L_KEY := 0x26
  const C_KEY := 0x2E
  const F1_PRESSED := 0x3B
  const F3_PRESSED := 0x3D
  const F12_PRESSED := 0x58
  const F1_RELEASED := 0xBB
  const F12_RELEASED := 0xD8

  // The three scan-code tables, around the entry of the backspace key.
  const DIGITS := "\0\01234567890-="
  const SIGNS := "\0\0!@#$%^&*()_+"
  const PLAIN_LETTERS := "\tqwertyuiop[]\0\0asdfghjkl;'`\0\\zxcvbnm,./\0*\0 \0"
  const CAPS_LETTERS := "\tQWERTYUIOP[]\0\0ASDFGHJKL;'`\0\\ZXCVBNM,./\0*\0 \0"
  const SHIFT_LETTERS := "\tQWERTYUIOP{}\0\0ASDFGHJKL:\"~\0|ZXCVBNM<>?\0*\0 \0"
  const PLAIN := DIGITS + [BACKSPACE] + PLAIN_LETTERS
  const CAPS := DIGITS + [BACKSPACE] + CAPS_LETTERS
  const SHIFT := SIGNS + [BACKSPACE] + SHIFT_LETTERS

  /** The modifier keys, and the 8-bit counter of keys since the last line began. */
  datatype Flags = Flags(caps: bool, shift: bool, ctrl: bool, alt: bool, tab: bool, fkey: bool, count: int)

  /** The line being typed: the first index characters of the buffer. */
  datatype Line = Line(buffer: seq<char>, index: int)

  datatype Act = Nothing | EnterDown | EnterUp | ClearScreen | SwitchTo(terminal: int) | Kill

  /** What a key does: the new flags and line, the characters echoed, and what else. */
  datatype Pressed = Pressed(flags: Flags, line: Line, echo: string, act: Act)

  ghost predicate ValidFlags(f: Flags) {
    0 <= f.count < 256
  }

  ghost predicate ValidLine(line: Line) {
    |line.buffer| == BUFFER_LIMIT && 0 <= line.index <= BUFFER_LIMIT
  }

  /** The buffer has no room for the newline of a line of 128 characters. */
  predicate HasRoom(line: Line, scan: int) {
    scan == ENTER_PRESSED ==> line.index < BUFFER_LIMIT
  }

  function KeyChar(table: string, scan: int): char {
    if 0 <= scan < |table| then table[scan] else '\0'
  }

  predicate IsLetter(scan: int) {
    0x10 <= scan <= 0x19 || 0x1E <= scan <= 0x26 || 0x2C <= scan <= 0x32
  }

  function Ended(line: Line): (r: Line)
    requires ValidLine(line)
    ensures ValidLine(r)
  {
    if line.index < BUFFER_LIMIT then line.(buffer := line.buffer[line.index := '\0']) else line
  }

  function Append(line: Line, c: char): (r: Line)
    requires ValidLine(line) && line.index < BUFFER_LIMIT
    ensures ValidLine(r)
  {
    Ended(Line(line.buffer[line.index := c], line.index + 1))
  }

  function Erase(line: Line): (r: Line)
    requires ValidLine(line) && line.index > 0
    ensures ValidLine(r)
  {
    Ended(line.(index := line.index - 1))
  }

  function Tabbed(line: Line): (r: Line)
    requires ValidLine(line) && line.index + TAB_SIZE < BUFFER_LIMIT
    ensures ValidLine(r)
  {
    var i := line.index;
    Ended(Line(line.buffer[..i] + Blanks(TAB_SIZE) + line.buffer[i + TAB_SIZE..], i + TAB_SIZE))
  }

  function Entered(line: Line): (r: Line)
    requires ValidLine(line) && line.index < BUFFER_LIMIT
    ensures ValidLine(r)
  {
    Line(line.buffer[line.index := '\n'], 0)
  }

  function Modifier(f: Flags, scan: int): Flags {
    if scan == CAPS_PRESSED then f.(caps := !f.caps)
    else if scan == CTRL_PRESSED then f.(ctrl := true)
    else if scan == CTRL_RELEASED then f.(ctrl := false)
    else if scan in {L_SHIFT_PRESSED, R_SHIFT_PRESSED} then f.(shift := true)
    else if scan in {L_SHIFT_RELEASED, R_SHIFT_RELEASED} then f.(shift := false)
    else if scan == ALT_PRESSED then f.(alt := true)
    else if scan == ALT_RELEASED then f.(alt := false)
    else if F1_PRESSED <= scan <= F3_PRESSED then f.(fkey := true)
    else f
  }

  /** Keys after which the handler returns at once. */
  predicate OnlyModifies(scan: int) {
    scan in {CAPS_PRESSED, CTRL_RELEASED, L_SHIFT_PRESSED, R_SHIFT_PRESSED, L_SHIFT_RELEASED, R_SHIFT_RELEASED,
             ALT_PRESSED, ALT_RELEASED}
  }

  predicate IsFunctionKey(scan: int) {
    || F1_PRESSED <= scan <= F12_PRESSED || F1_RELEASED <= scan <= F12_RELEASED
    || scan == ESCAPE_PRESSED || scan == ESCAPE_RELEASED
  }

  function Press(flags: Flags, line: Line, scan: int): (r: Pressed)
    requires ValidFlags(flags) && ValidLine(line) && 0 <= scan < 256 && HasRoom(line, scan)
    ensures ValidFlags(r.flags) && ValidLine(r.line)
    ensures r.act.SwitchTo? ==> 0 <= r.act.terminal <= 2
  {
    var f := Modifier(flags, scan);
    if OnlyModifies(scan) then Pressed(f, line, "", Nothing)
    else if f.ctrl && f.alt && f.fkey then
      if F1_PRESSED <= scan <= F3_PRESSED then
        Pressed(f.(fkey := false), line, "", SwitchTo(scan - F1_PRESSED))
      else Pressed(f.(fkey := false), line, "", Nothing)
    else if IsFunctionKey(scan) then Pressed(f, line, "", Nothing)
    else Edit(f, line, scan)
  }

  /** The part of the handler behind the modifier and function keys. */
  function Edit(f: Flags, line: Line, scan: int): (r: Pressed)
    requires ValidFlags(f) && ValidLine(line) && HasRoom(line, scan)
    ensures ValidFlags(r.flags) && ValidLine(r.line) && !r.act.SwitchTo?
  {
    if scan == TAB_PRESSED then
      if !f.tab && line.index + TAB_SIZE < BUFFER_LIMIT then
        Pressed(f.(tab := true), Tabbed(line), Blanks(TAB_SIZE), Nothing)
      else Pressed(f.(tab := true), line, "", Nothing)
    else if scan == TAB_RELEASED then Pressed(f.(tab := false), line, "", Nothing)
    else if scan == ENTER_PRESSED then Pressed(f.(count := 0), Entered(line), "\n", EnterDown)
    else if scan == ENTER_RELEASED then Pressed(f, line, "", EnterUp)
    else if scan < CHAR_LIMIT && line.index < BUFFER_LIMIT then
      Type(f.(count := (f.count + 1) % 256), line, scan)
    else if scan < CHAR_LIMIT then Overflowing(f, line, scan)
    else Pressed(f, Blanked(line), "", Nothing)
  }

  /** The handler ends by terminating an empty line, unless it has returned before. */
  function Blanked(line: Line): (r: Line)
    requires ValidLine(line)
    ensures ValidLine(r)
  {
    if line.index == 0 then Ended(line) else line
  }

  function Typed(f: Flags, line: Line, c: char): (r: Pressed)
    requires ValidFlags(f) && ValidLine(line) && line.index < BUFFER_LIMIT
    ensures ValidFlags(r.flags) && ValidLine(r.line)
  {
    Pressed(f, Append(line, c), [c], Nothing)
  }

  /** A key while there is room; the key has already been counted. */
  function Type(f: Flags, line: Line, scan: int): (r: Pressed)
    requires ValidFlags(f) && ValidLine(line) && line.index < BUFFER_LIMIT && scan != ENTER_PRESSED
    ensures ValidFlags(r.flags) && ValidLine(r.line) && !r.act.SwitchTo?
  {
    if f.shift then
      if scan == BACKSPACE_PRESSED then Pressed(f, line, "", Nothing)
      else if IsLetter(scan) then Typed(f, line, KeyChar(if f.caps then PLAIN else CAPS, scan))
      else Typed(f, line, KeyChar(SHIFT, scan))
    else if f.ctrl then
      if scan == L_KEY then Pressed(f.(count := 0), line.(index := 0), "", ClearScreen)
      else if scan == C_KEY then Pressed(f, line, "", Kill)
      else Pressed(f, line, "", Nothing)
    else if scan == BACKSPACE_PRESSED then
      if f.count > 0 && line.index > 0 then
        Pressed(f.(count := f.count - 1), Erase(line), [BACKSPACE], Nothing)
      else Pressed(f, if f.caps && f.count > 0 then line else Blanked(line), "", Nothing)
    else if f.caps && f.count == 0 then Pressed(f, Blanked(line), "", Nothing)
    else Typed(f, line, KeyChar(if f.caps then CAPS else PLAIN, scan))
  }

  /** A key on a full line. */
  function Overflowing(f: Flags, line: Line, scan: int): (r: Pressed)
    requires ValidFlags(f) && ValidLine(line) && line.index == BUFFER_LIMIT
    ensures ValidFlags(r.flags) && ValidLine(r.line) && !r.act.SwitchTo?
  {
    if scan == BACKSPACE_PRESSED then
      Pressed(f.(count := (f.count + 255) % 256), Erase(line), [BACKSPACE], Nothing)
    else if f.ctrl && scan == L_KEY then
      Pressed(f.(count := 0), Blanked(line.(index := 0)), "", ClearScreen)
    else if f.ctrl && scan == C_KEY then Pressed(f, line, "", Kill)
    else Pressed(f, line, "", Nothing)
  }

  /** The keys, with the modifiers held, that leave an entered line to be read: those that only change flags,
      switch terminals or do nothing, releases of Tab and Enter, and keys that type nothing. */
  predicate Spares(flags: Flags, scan: int) {
    var f := Modifier(flags, scan);
    || OnlyModifies(scan) || (f.ctrl && f.alt && f.fkey) || IsFunctionKey(scan)
    || scan == TAB_RELEASED || scan == ENTER_RELEASED
    || (scan == TAB_PRESSED && f.tab)
    || (scan < CHAR_LIMIT && scan != TAB_PRESSED && scan != ENTER_PRESSED && TypesNothing(f, scan))
  }

  /** A key that gives no character and does not end the handler's way through to its last statement. */
  predicate TypesNothing(f: Flags, scan: int) {
    if f.shift then scan == BACKSPACE_PRESSED
    else f.ctrl || (scan == BACKSPACE_PRESSED && f.caps && (f.count + 1) % 256 > 0)
  }

  /** How many characters terminal_read delivers: up to the first NUL, and at most n. */
  function ReadCount(buffer: seq<char>, n: nat): (k: nat)
    requires n <= |buffer|
    ensures k <= n
    ensures forall i | 0 <= i < k :: buffer[i] != '\0'
    ensures k < n ==> buffer[k] == '\0'
  {
    ReadFrom(buffer, n, 0)
  }

  function ReadFrom(buffer: seq<char>, n: nat, i: nat): (k: nat)
    requires i <= n <= |buffer|
    ensures i <= k <= n
    ensures forall j | i <= j < k :: buffer[j] != '\0'
    ensures k < n ==> buffer[k] == '\0'
    decreases n - i
  {
    if i == n || buffer[i] == '\0' then i else ReadFrom(buffer, n, i + 1)
  }

  /** What terminal_read does to the line: it clears as many characters as were asked for. */
  function AfterRead(line: Line, n: nat): (r: Line)
    requires ValidLine(line) && n <= BUFFER_LIMIT
    ensures ValidLine(r)
  {
    line.(buffer := seq(n, _ => '\0') + line.buffer[n..])
  }

  // ----- the line is a replay of what was echoed -----

  /** What is left of a text when every backspace takes one character back. */
  function Replay(typed: string): string {
    if typed == "" then ""
    else
      var before, c := Replay(typed[..|typed| - 1]), typed[|typed| - 1];
      if c != BACKSPACE then before + [c]
      else if before == "" then ""
      else before[..|before| - 1]
  }

  /** The line holds what has been typed since it began. */
  ghost predicate Holds(line: Line, typed: string) {
    ValidLine(line) && line.buffer[..line.index] == Replay(typed)
  }

  /** Nothing is left behind the line. */
  ghost predicate CleanBehind(line: Line) {
    ValidLine(line) && forall k | line.index <= k < BUFFER_LIMIT :: line.buffer[k] == '\0'
  }

  /** The characters echoed since the line began; Enter and Ctrl-L begin a new line. */
  function TypedAfter(typed: string, p: Pressed): string {
    if p.act.EnterDown? || p.act.ClearScreen? then "" else typed + p.echo
  }

  /** A key leaves the line a replay of what was echoed since it began, and unless it ends the line
      it leaves nothing behind a clean one. */
  ghost predicate KeepsLine(line: Line, typed: string, p: Pressed) {
    && Holds(p.line, TypedAfter(typed, p))
    && (CleanBehind(line) && !p.act.EnterDown? && !p.act.ClearScreen? ==> CleanBehind(p.line))
  }

  lemma ReplaySnoc(typed: string, c: char)
    ensures var r := Replay(typed);
      Replay(typed + [c]) == if c != BACKSPACE then r + [c] else if r == "" then "" else r[..|r| - 1]
  {
    assert (typed + [c])[..|typed|] == typed;
  }

  lemma AppendHolds(line: Line, typed: string, c: char)
    requires Holds(line, typed) && line.index < BUFFER_LIMIT && c != BACKSPACE
    ensures Holds(Append(line, c), typed + [c])
    ensures CleanBehind(line) ==> CleanBehind(Append(line, c))
  {
    ReplaySnoc(typed, c);
    var i := line.index;
    assert Append(line, c).buffer[..i + 1] == line.buffer[..i] + [c];
  }

  lemma EraseHolds(line: Line, typed: string)
    requires Holds(line, typed) && line.index > 0
    ensures Holds(Erase(line), typed + [BACKSPACE])
    ensures CleanBehind(line) ==> CleanBehind(Erase(line))
  {
    ReplaySnoc(typed, BACKSPACE);
    var i := line.index;
    assert Erase(line).buffer[..i - 1] == line.buffer[..i][..i - 1];
  }

  lemma TabbedHolds(line: Line, typed: string)
    requires Holds(line, typed) && line.index + TAB_SIZE < BUFFER_LIMIT
    ensures Holds(Tabbed(line), typed + Blanks(TAB_SIZE))
    ensures CleanBehind(line) ==> CleanBehind(Tabbed(line))
  {
    var i := line.index;
    ReplayAppend(typed, Blanks(TAB_SIZE));
    assert Tabbed(line).buffer[..i + TAB_SIZE] == line.buffer[..i] + Blanks(TAB_SIZE);
  }

  lemma {:induction false} ReplayAppend(typed: string, more: string)
    requires BACKSPACE !in more
    ensures Replay(typed + more) == Replay(typed) + more
    decreases |more|
  {
    if more == "" {
      assert typed + more == typed;
    } else {
      var n := |more| - 1;
      assert typed + more == typed + more[..n] + [more[n]];
      ReplayAppend(typed, more[..n]);
      ReplaySnoc(typed + more[..n], more[n]);
    }
  }

  /** Only the backspace key gives a backspace. */
  lemma NoOtherBackspace(scan: int)
    requires scan != BACKSPACE_PRESSED
    ensures KeyChar(PLAIN, scan) != BACKSPACE && KeyChar(CAPS, scan) != BACKSPACE && KeyChar(SHIFT, scan) != BACKSPACE
  {
    PlainTable();
    CapsTable();
    ShiftTable();
    OneBackspace(DIGITS, PLAIN_LETTERS, scan);
    OneBackspace(DIGITS, CAPS_LETTERS, scan);
    OneBackspace(SIGNS, SHIFT_LETTERS, scan);
  }

  /** No key gives a newline; Enter is handled apart. */
  lemma NoKeyNewline(scan: int)
    ensures KeyChar(PLAIN, scan) != '\n' && KeyChar(CAPS, scan) != '\n' && KeyChar(SHIFT, scan) != '\n'
  {
    hide KeyChar;
    DigitsNoNewline();
    LettersNoNewline();
    CapsNoNewline();
    ShiftNoNewline();
    NoNewline(DIGITS, PLAIN_LETTERS, scan);
    NoNewline(DIGITS, CAPS_LETTERS, scan);
    NoNewline(SIGNS, SHIFT_LETTERS, scan);
  }

  lemma DigitsNoNewline()
    ensures '\n' !in DIGITS && '\n' !in SIGNS
  {
  }

  lemma LettersNoNewline()
    ensures '\n' !in PLAIN_LETTERS
  {
  }

  lemma CapsNoNewline()
    ensures '\n' !in CAPS_LETTERS
  {
  }

  lemma ShiftNoNewline()
    ensures '\n' !in SHIFT_LETTERS
  {
  }

  lemma NoNewline(before: string, after: string, scan: int)
    requires '\n' !in before && '\n' !in after
    ensures KeyChar(before + [BACKSPACE] + after, scan) != '\n'
  {
    var table := before + [BACKSPACE] + after;
    if 0 <= scan < |table| {
      assert table[scan] in before || table[scan] == BACKSPACE || table[scan] in after;
    }
  }

  lemma PlainTable()
    ensures |DIGITS| == BACKSPACE_PRESSED && BACKSPACE !in DIGITS && BACKSPACE !in PLAIN_LETTERS
  {
  }

  lemma CapsTable()
    ensures BACKSPACE !in CAPS_LETTERS
  {
  }

  lemma ShiftTable()
    ensures |SIGNS| == BACKSPACE_PRESSED && BACKSPACE !in SIGNS && BACKSPACE !in SHIFT_LETTERS
  {
  }

  lemma OneBackspace(before: string, after: string, scan: int)
    requires |before| == BACKSPACE_PRESSED && scan != BACKSPACE_PRESSED
    requires BACKSPACE !in before && BACKSPACE !in after
    ensures KeyChar(before + [BACKSPACE] + after, scan) != BACKSPACE
  {
    if 0 <= scan < |before| {
      assert (before + [BACKSPACE] + after)[scan] == before[scan];
    } else if |before| < scan < |before| + 1 + |after| {
      assert (before + [BACKSPACE] + after)[scan] == after[scan - |before| - 1];
    }
  }

  lemma TypeHolds(f: Flags, line: Line, scan: int, typed: string)
    requires ValidFlags(f) && Holds(line, typed) && line.index < BUFFER_LIMIT && scan != ENTER_PRESSED
    ensures KeepsLine(line, typed, Type(f, line, scan))
  {
    hide Append, Erase, Blanked, KeyChar, CleanBehind;
    SilentHolds(f, line, typed, Nothing);
    SilentHolds(f, line, typed, Kill);
    if scan == BACKSPACE_PRESSED {
      if line.index > 0 {
        EraseHolds(line, typed);
      }
    } else {
      NoOtherBackspace(scan);
      AppendHolds(line, typed, KeyChar(SHIFT, scan));
      AppendHolds(line, typed, KeyChar(PLAIN, scan));
      AppendHolds(line, typed, KeyChar(CAPS, scan));
    }
  }

  lemma OverflowHolds(f: Flags, line: Line, scan: int, typed: string)
    requires ValidFlags(f) && Holds(line, typed) && line.index == BUFFER_LIMIT
    ensures KeepsLine(line, typed, Overflowing(f, line, scan))
  {
    assert typed + "" == typed;
    EraseHolds(line, typed);
  }

  /** Keys that echo nothing. */
  lemma SilentHolds(f: Flags, line: Line, typed: string, act: Act)
    requires Holds(line, typed) && !act.EnterDown? && !act.ClearScreen?
    ensures KeepsLine(line, typed, Pressed(f, line, "", act))
    ensures KeepsLine(line, typed, Pressed(f, Blanked(line), "", act))
  {
    assert typed + "" == typed;
  }

  lemma EditHolds(f: Flags, line: Line, scan: int, typed: string)
    requires ValidFlags(f) && Holds(line, typed) && HasRoom(line, scan)
    ensures KeepsLine(line, typed, Edit(f, line, scan))
  {
    hide Type, Overflowing, Tabbed, Blanked, CleanBehind;
    var p := Edit(f, line, scan);
    if scan == TAB_PRESSED {
      if line.index + TAB_SIZE < BUFFER_LIMIT {
        TabbedHolds(line, typed);
      }
      SilentHolds(p.flags, line, typed, Nothing);
    } else if scan < CHAR_LIMIT && scan != ENTER_PRESSED {
      if line.index < BUFFER_LIMIT {
        TypeHolds(f.(count := (f.count + 1) % 256), line, scan, typed);
      } else {
        OverflowHolds(f, line, scan, typed);
      }
    } else {
      SilentHolds(p.flags, line, typed, Nothing);
      SilentHolds(p.flags, line, typed, EnterUp);
    }
  }

  /** Whatever key is pressed, with whatever modifiers: the line stays the replay of the characters
      echoed since it began, and if nothing was left behind the line then nothing is, unless the
      key ends the line (Enter, Ctrl-L). */
  lemma PressHolds(flags: Flags, line: Line, scan: int, typed: string)
    requires ValidFlags(flags) && Holds(line, typed) && 0 <= scan < 256 && HasRoom(line, scan)
    ensures KeepsLine(line, typed, Press(flags, line, scan))
  {
    var p := Press(flags, line, scan);
    if !p.act.EnterDown? && !p.act.ClearScreen? {
      SilentHolds(p.flags, line, typed, p.act);
    }
    EditHolds(Modifier(flags, scan), line, scan, typed);
  }

  /** Enter followed by a read of the whole buffer delivers the line and a newline exactly when no
      NUL was typed and the character behind the newline is a NUL. */
  lemma ReadDeliversLine(line: Line)
    requires ValidLine(line) && line.index < BUFFER_LIMIT
    ensures var entered := Entered(line);
      var k := ReadCount(entered.buffer, BUFFER_LIMIT);
      (entered.buffer[..k] == line.buffer[..line.index] + "\n")
      <==> ('\0' !in line.buffer[..line.index]
            && (line.index + 1 < BUFFER_LIMIT ==> line.buffer[line.index + 1] == '\0'))
  {
    var i := line.index;
    var b := Entered(line).buffer;
    var k := ReadCount(b, BUFFER_LIMIT);
    assert b[..i + 1] == line.buffer[..i] + "\n";
    if '\0' in line.buffer[..i] {
      var j :| 0 <= j < i && line.buffer[..i][j] == '\0';
      assert b[j] == '\0';
      assert k <= j;
      assert |b[..k]| == k;
    } else {
      forall j | 0 <= j <= i ensures b[j] != '\0' {
        assert j < i ==> line.buffer[..i][j] == b[j];
      }
      assert k > i;
      assert i + 1 < BUFFER_LIMIT ==> b[i + 1] == line.buffer[i + 1];
      assert |line.buffer[..i] + "\n"| == i + 1 && |b[..k]| == k;
    }
  }

  /** A read leaves a line in order exactly when what it cleared of the line was NUL already: in
      particular when it comes before the next key. */
  lemma ReadHoldsIff(line: Line, typed: string, n: nat)
    requires Holds(line, typed) && n <= BUFFER_LIMIT
    ensures Holds(AfterRead(line, n), typed)
      <==> forall k | 0 <= k < n && k < line.index :: line.buffer[k] == '\0'
  {
    var line' := AfterRead(line, n);
    if forall k | 0 <= k < n && k < line.index :: line.buffer[k] == '\0' {
      assert line'.buffer[..line.index] == line.buffer[..line.index];
    } else {
      var k :| 0 <= k < n && k < line.index && line.buffer[k] != '\0';
      assert line'.buffer[..line.index][k] != line.buffer[..line.index][k];
    }
  }
}
