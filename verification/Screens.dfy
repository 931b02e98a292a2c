/**
 One terminal's screen: the character plane of its 4 KB page and its cursor.
 Only the first 80 * 25 cells of the page are shown.
 */
module Screens {
  import opened Text

  const NUM_COLS := 80
  const NUM_ROWS := 25
  const SHOWN := 2000
  const PAGE := 2048
  const BACKSPACE := '\U{08}'

  datatype Screen = Screen(cells: seq<char>, x: int, y: int)

  /** The cursor may stand one column to the right of the last one: the wrap is deferred. */
  ghost predicate OnScreen(s: Screen) {
    |s.cells| == PAGE && 0 <= s.x <= NUM_COLS && 0 <= s.y < NUM_ROWS
  }

  function At(s: Screen, row: int, col: int): char
    requires |s.cells| == PAGE && 0 <= row < NUM_ROWS && 0 <= col < NUM_COLS
  {
    s.cells[NUM_COLS * row + col]
  }

  function Blanks(n: nat): seq<char> {
    seq(n, _ => ' ')
  }

  /** The rows move up by one and a blank row comes in below; the rest of the page stays. */
  function Scrolled(cells: seq<char>): (r: seq<char>)
    requires |cells| == PAGE
    ensures |r| == PAGE
  {
    cells[NUM_COLS..SHOWN] + Blanks(NUM_COLS) + cells[SHOWN..]
  }

  function Cleared(cells: seq<char>): (s: Screen)
    requires |cells| == PAGE
    ensures OnScreen(s)
  {
    Screen(Blanks(SHOWN) + cells[SHOWN..], 0, 0)
  }

  /** Down to the start of the next row. */
  function NextRow(s: Screen): (r: Screen)
    requires OnScreen(s)
    ensures OnScreen(r)
  {
    if s.y + 1 < NUM_ROWS then s.(x := 0, y := s.y + 1) else Screen(Scrolled(s.cells), 0, NUM_ROWS - 1)
  }

  function StepBack(s: Screen): (r: Screen)
    requires OnScreen(s)
    ensures OnScreen(r) && r.x < NUM_COLS
  {
    if s.x > 0 then s.(x := s.x - 1)
    else if s.y > 0 then s.(x := NUM_COLS - 1, y := s.y - 1)
    else s
  }

  function Mark(s: Screen, c: char): (r: Screen)
    requires OnScreen(s) && s.x < NUM_COLS
    ensures OnScreen(r)
  {
    s.(cells := s.cells[NUM_COLS * s.y + s.x := c])
  }

  /** What printing one character does. */
  function Put(s: Screen, c: char): (r: Screen)
    requires OnScreen(s)
    ensures OnScreen(r)
  {
    if c == '\n' || c == '\r' then NextRow(s)
    else if c == BACKSPACE then Mark(StepBack(s), ' ')
    else
      var w := if s.x >= NUM_COLS then NextRow(s) else s;
      Mark(w, c).(x := w.x + 1)
  }

  function PutAll(s: Screen, out: string): (r: Screen)
    requires OnScreen(s)
    ensures OnScreen(r)
  {
    if out == "" then s else Put(PutAll(s, out[..|out| - 1]), out[|out| - 1])
  }

  lemma {:induction false} PutAllAppend(s: Screen, first: string, rest: string)
    requires OnScreen(s)
    ensures PutAll(s, first + rest) == PutAll(PutAll(s, first), rest)
    decreases |rest|
  {
    if rest == "" {
      assert first + rest == first;
    } else {
      PutAllAppend(s, first, rest[..|rest| - 1]);
      assert (first + rest)[..|first + rest| - 1] == first + rest[..|rest| - 1];
    }
  }

  /** Where the cursor goes does not depend on what is on the page. */
  lemma {:induction false} PutAllCursor(s: Screen, cells: seq<char>, out: string)
    requires OnScreen(s) && |cells| == PAGE
    ensures var r, r' := PutAll(s, out), PutAll(s.(cells := cells), out);
      r'.x == r.x && r'.y == r.y
    decreases |out|
  {
    if out != "" {
      PutAllCursor(s, cells, out[..|out| - 1]);
    }
  }

  /** Whatever is printed, only the 2000 cells shown are written to. */
  lemma {:induction false} PutAllShown(s: Screen, out: string)
    requires OnScreen(s)
    ensures PutAll(s, out).cells[SHOWN..] == s.cells[SHOWN..]
    decreases |out|
  {
    if out != "" {
      PutAllShown(s, out[..|out| - 1]);
      PutShown(PutAll(s, out[..|out| - 1]), out[|out| - 1]);
    }
  }

  lemma PutShown(s: Screen, c: char)
    requires OnScreen(s)
    ensures Put(s, c).cells[SHOWN..] == s.cells[SHOWN..]
  {
  }

  // ----- what a text looks like -----

  /** A carriage return prints as a newline. */
  function Plain(out: string): (r: string)
    ensures |r| == |out|
  {
    seq(|out|, i requires 0 <= i < |out| => if out[i] == '\r' then '\n' else out[i])
  }

  /** The rows of a text wrapped at the width of the screen. */
  function Rows(out: string): (rows: seq<string>)
    ensures rows != []
  {
    Wrap(Lines(Plain(out)), NUM_COLS)
  }

  function CharAt(rows: seq<string>, row: int, col: int): char {
    if 0 <= row < |rows| && 0 <= col < |rows[row]| then rows[row][col] else ' '
  }

  /** The last 25 rows of a text, or all of them and blank rows below, with the cursor behind the
      last character. */
  ghost predicate Shows(s: Screen, rows: seq<string>) {
    && OnScreen(s) && rows != []
    && var top := if |rows| <= NUM_ROWS then 0 else |rows| - NUM_ROWS;
      && s.x == |Last(rows)|
      && s.y == |rows| - 1 - top
      && forall row, col | 0 <= row < NUM_ROWS && 0 <= col < NUM_COLS ::
           At(s, row, col) == CharAt(rows, top + row, col)
  }

  /** What one more character does to the wrapped rows. */
  function RowsPut(rows: seq<string>, c: char): (r: seq<string>)
    requires rows != []
    ensures r != []
  {
    WrapPut(rows, if c == '\r' then '\n' else c, NUM_COLS)
  }

  lemma RowsSnoc(out: string, c: char)
    ensures Rows(out + [c]) == RowsPut(Rows(out), c)
  {
    var c' := if c == '\r' then '\n' else c;
    assert Plain(out + [c]) == Plain(out) + [c'];
    LinesSnoc(Plain(out), c');
    WrapSnoc(Lines(Plain(out)), c', NUM_COLS);
  }

  lemma ScrolledAt(s: Screen, row: int, col: int)
    requires OnScreen(s) && 0 <= row < NUM_ROWS && 0 <= col < NUM_COLS
    ensures At(s.(cells := Scrolled(s.cells)), row, col)
         == if row < NUM_ROWS - 1 then At(s, row + 1, col) else ' '
  {
  }

  lemma NextRowShows(s: Screen, rows: seq<string>)
    requires Shows(s, rows)
    ensures Shows(NextRow(s), rows + [""])
  {
    var top := if |rows| <= NUM_ROWS then 0 else |rows| - NUM_ROWS;
    var top' := if |rows| + 1 <= NUM_ROWS then 0 else |rows| + 1 - NUM_ROWS;
    var s' := NextRow(s);
    forall row, col | 0 <= row < NUM_ROWS && 0 <= col < NUM_COLS
      ensures At(s', row, col) == CharAt(rows + [""], top' + row, col)
    {
      assert CharAt(rows + [""], top' + row, col) == CharAt(rows, top' + row, col);
      if s.y + 1 < NUM_ROWS {
        assert At(s', row, col) == At(s, row, col);
      } else {
        ScrolledAt(s, row, col);
      }
    }
  }

  lemma MarkShows(s: Screen, rows: seq<string>, c: char)
    requires Shows(s, rows) && s.x < NUM_COLS
    ensures Shows(Mark(s, c).(x := s.x + 1), Front(rows) + [Last(rows) + [c]])
  {
    var rows' := Front(rows) + [Last(rows) + [c]];
    var s' := Mark(s, c).(x := s.x + 1);
    var top := if |rows| <= NUM_ROWS then 0 else |rows| - NUM_ROWS;
    forall row, col | 0 <= row < NUM_ROWS && 0 <= col < NUM_COLS
      ensures At(s', row, col) == CharAt(rows', top + row, col)
    {
      if row == s.y && col == s.x {
        assert At(s', row, col) == c;
      } else {
        assert At(s', row, col) == At(s, row, col);
        assert CharAt(rows', top + row, col) == CharAt(rows, top + row, col);
      }
    }
  }

  lemma PutShows(s: Screen, rows: seq<string>, c: char)
    requires Shows(s, rows) && c != BACKSPACE
    ensures Shows(Put(s, c), RowsPut(rows, c))
  {
    if c == '\n' || c == '\r' {
      NextRowShows(s, rows);
    } else if s.x < NUM_COLS {
      MarkShows(s, rows, c);
    } else {
      NextRowShows(s, rows);
      MarkShows(NextRow(s), rows + [""], c);
      assert Front(rows + [""]) == rows;
    }
  }

  lemma ClearedShows(cells: seq<char>)
    requires |cells| == PAGE
    ensures Shows(Cleared(cells), Rows(""))
  {
    assert Plain("") == "" && Lines("") == [""] && Front([""]) == [];
    assert Rows("") == [""];
  }

  lemma PutShowsText(s: Screen, out: string, c: char)
    requires Shows(s, Rows(out)) && c != BACKSPACE
    ensures Shows(Put(s, c), Rows(out + [c]))
  {
    PutShows(s, Rows(out), c);
    RowsSnoc(out, c);
  }

  /** A text without backspaces, printed to a cleared screen, shows as its last 25 rows wrapped at
      80 columns. */
  lemma {:induction false} ScreenShowsText(cells: seq<char>, out: string)
    requires |cells| == PAGE && BACKSPACE !in out
    ensures Shows(PutAll(Cleared(cells), out), Rows(out))
    decreases |out|
  {
    if out == "" {
      ClearedShows(cells);
    } else {
      var front, c := out[..|out| - 1], out[|out| - 1];
      assert out == front + [c];
      ScreenShowsText(cells, front);
      PutShowsText(PutAll(Cleared(cells), front), front, c);
    }
  }

  /** No row is wider than the screen, so that every character of the last 25 rows is on it. */
  lemma NothingCut(cells: seq<char>, out: string, row: nat, col: nat)
    requires |cells| == PAGE && BACKSPACE !in out
    requires row < |Rows(out)| <= row + 25 && col < |Rows(out)[row]|
    ensures var top := if |Rows(out)| <= 25 then 0 else |Rows(out)| - 25;
      && col < 80 && top <= row
      && PutAll(Cleared(cells), out).cells[80 * (row - top) + col] == Rows(out)[row][col]
  {
    hide Rows, PutAll;
    ScreenShowsText(cells, out);
    RowFits(out, row);
    var top := if |Rows(out)| <= 25 then 0 else |Rows(out)| - 25;
    assert At(PutAll(Cleared(cells), out), row - top, col) == CharAt(Rows(out), top + (row - top), col);
  }

  lemma RowFits(out: string, row: nat)
    requires row < |Rows(out)|
    ensures |Rows(out)[row]| <= NUM_COLS
  {
    WrapWidths(Lines(Plain(out)), NUM_COLS);
    assert Rows(out)[row] in Rows(out);
  }

  /** A backspace takes a printed character back exactly when the character went to a blank cell
      without wrapping. */
  lemma BackspaceTakesBack(s: Screen, c: char)
    requires OnScreen(s) && c != '\n' && c != '\r' && c != BACKSPACE
    ensures Put(Put(s, c), BACKSPACE) == s <==> s.x < NUM_COLS && At(s, s.y, s.x) == ' '
  {
    var i := NUM_COLS * s.y + s.x;
    if s.x < NUM_COLS {
      assert Put(Put(s, c), BACKSPACE).cells == s.cells[i := ' '];
      if s.cells[i] == ' ' {
        assert s.cells[i := ' '] == s.cells;
      }
    }
  }

  // ----- typing and taking back -----

  predicate Ordinary(out: string) {
    forall i | 0 <= i < |out| :: out[i] != '\n' && out[i] != '\r' && out[i] != BACKSPACE
  }

  function Backspaces(n: nat): string {
    seq(n, _ => BACKSPACE)
  }

  /** The cells with n of them, from position p on, written over. */
  function Over(cells: seq<char>, p: nat, out: string): (r: seq<char>)
    requires p + |out| <= |cells|
    ensures |r| == |cells|
  {
    cells[..p] + out + cells[p + |out|..]
  }

  /** Characters fill the cells from the cursor on, row after row; the cursor stays in the row of the last one. */
  lemma {:induction false} OrdinaryFills(s: Screen, out: string)
    requires OnScreen(s) && Ordinary(out) && out != "" && s.x < 80 && 80 * s.y + s.x + |out| <= 2000
    ensures var (r, last) := (PutAll(s, out), 80 * s.y + s.x + |out| - 1);
      r.cells == Over(s.cells, 80 * s.y + s.x, out) && r.y == last / 80 && r.x == last % 80 + 1
    decreases |out|
  {
    var n, p := |out| - 1, 80 * s.y + s.x;
    var front := out[..n];
    if n > 0 {
      OrdinaryFills(s, front);
    } else {
      assert PutAll(s, "") == s && Over(s.cells, p, "") == s.cells;
    }
    OneMoreFills(PutAll(s, front), p + n, out[n]);
    assert Over(s.cells, p, front)[p + n := out[n]] == Over(s.cells, p, out);
  }

  lemma OneMoreFills(s: Screen, q: nat, c: char)
    requires OnScreen(s) && q < 2000 && 80 * s.y + s.x == q && Ordinary([c])
    ensures var r := Put(s, c); r.cells == s.cells[q := c] && r.y == q / 80 && r.x == q % 80 + 1
  {
    assert [c][0] == c;
  }

  /** Backspaces empty the cells in front of the cursor, row after row. */
  lemma {:induction false} BackspacesEmpty(s: Screen, n: nat)
    requires OnScreen(s) && n > 0 && n <= 80 * s.y + s.x
    ensures var (r, first) := (PutAll(s, Backspaces(n)), 80 * s.y + s.x - n);
      r.cells == Over(s.cells, first, Blanks(n)) && r.y == first / 80 && r.x == first % 80
  {
    var q := 80 * s.y + s.x;
    if n > 1 {
      BackspacesEmpty(s, n - 1);
    } else {
      assert PutAll(s, "") == s && Over(s.cells, q, "") == s.cells && Blanks(0) == "";
    }
    assert Backspaces(n)[..n - 1] == Backspaces(n - 1) && Backspaces(n)[n - 1] == BACKSPACE;
    hide Over, Put, Backspaces;
    OneMoreEmpty(PutAll(s, Backspaces(n - 1)), q - n + 1);
    OneMoreBlank(s.cells, q - n, n);
  }

  lemma OneMoreBlank(cells: seq<char>, p: nat, n: nat)
    requires n > 0 && p + n <= |cells|
    ensures Over(cells, p + 1, Blanks(n - 1))[p := ' '] == Over(cells, p, Blanks(n))
  {
  }

  lemma OverTwice(cells: seq<char>, p: nat, out: string, more: string)
    requires p + |out| <= |cells| && |more| == |out|
    ensures Over(Over(cells, p, out), p, more) == Over(cells, p, more)
  {
  }

  lemma OverBlankIff(cells: seq<char>, p: nat, n: nat)
    requires p + n <= |cells|
    ensures Over(cells, p, Blanks(n)) == cells <==> forall i | p <= i < p + n :: cells[i] == ' '
  {
    if i :| p <= i < p + n && cells[i] != ' ' {
      assert Over(cells, p, Blanks(n))[i] == ' ';
    }
  }

  lemma OneMoreEmpty(s: Screen, q: nat)
    requires OnScreen(s) && q > 0 && 80 * s.y + s.x == q
    ensures var r := Put(s, BACKSPACE); r.cells == s.cells[q - 1 := ' '] && r.y == (q - 1) / 80 && r.x == (q - 1) % 80
  {
  }

  /** Over any number of rows: characters that do not scroll the screen, and as many backspaces, give the screen
      back, cursor included, if and only if the cells they went to were blank. */
  lemma BackspacesTakeBack(s: Screen, out: string)
    requires OnScreen(s) && Ordinary(out) && s.x < 80 && 80 * s.y + s.x + |out| <= 2000
    ensures var p := 80 * s.y + s.x;
      PutAll(PutAll(s, out), Backspaces(|out|)) == s <==> forall i | p <= i < p + |out| :: s.cells[i] == ' '
  {
    var p, n := 80 * s.y + s.x, |out|;
    if n == 0 {
      assert out == "" && Backspaces(0) == "";
    } else {
      hide *;
      var r := TypedAndTaken(s, out, p);
      OverBlankIff(s.cells, p, n);
    }
  }

  lemma TypedAndTaken(s: Screen, out: string, p: nat) returns (r: Screen)
    requires OnScreen(s) && Ordinary(out) && out != "" && s.x < 80 && p == 80 * s.y + s.x && p + |out| <= 2000
    ensures p + |out| <= |s.cells| && r == PutAll(PutAll(s, out), Backspaces(|out|))
    ensures r == s.(cells := Over(s.cells, p, Blanks(|out|)))
  {
    var n, s1 := |out|, PutAll(s, out);
    OrdinaryFills(s, out);
    assert 80 * s1.y + s1.x == p + n && p % 80 == s.x && p / 80 == s.y;
    BackspacesEmpty(s1, n);
    r := PutAll(s1, Backspaces(n));
    hide Over, Put, PutAll, Backspaces;
    OverTwice(s.cells, p, out, Blanks(n));
  }

  /** A newline or carriage return goes to the start of the next row; on the last row all rows move up instead. */
  lemma NewlineGoesDown(s: Screen, c: char, row: int, col: int)
    requires OnScreen(s) && c in ['\n', '\r'] && 0 <= row < 25 && 0 <= col < 80
    ensures var r := Put(s, c);
      && r.x == 0 && r.y == (if s.y < 24 then s.y + 1 else 24)
      && r.cells[80 * row + col]
         == if s.y < 24 then s.cells[80 * row + col] else if row < 24 then s.cells[80 * (row + 1) + col] else ' '
  {
  }
}
