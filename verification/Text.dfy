/**
 Lines of text, and lines cut into pieces of a fixed width.
 */
module Text {

  function FirstNewline(s: string): (i: nat)
    ensures i <= |s|
    ensures '\n' !in s[..i]
    ensures i < |s| ==> s[i] == '\n'
  {
    if s == "" || s[0] == '\n' then 0 else 1 + FirstNewline(s[1..])
  }

  /** The lines of a text; a text with n newlines has n + 1 lines. */
  function Lines(s: string): (lines: seq<string>)
    ensures lines != []
    decreases |s|
  {
    var i := FirstNewline(s);
    if i == |s| then [s] else [s[..i]] + Lines(s[i + 1..])
  }

  /** The pieces of a line: all of the given width but the last, which is shorter or of that width. */
  function Chunks(line: string, width: nat): (pieces: seq<string>)
    requires width > 0
    ensures pieces != []
    decreases |line|
  {
    if |line| <= width then [line] else [line[..width]] + Chunks(line[width..], width)
  }

  /** All the pieces of all the lines. */
  function Wrap(lines: seq<string>, width: nat): (pieces: seq<string>)
    requires width > 0
    ensures lines != [] ==> pieces != []
  {
    if lines == [] then [] else Wrap(lines[..|lines| - 1], width) + Chunks(lines[|lines| - 1], width)
  }

  function Last(ss: seq<string>): string
    requires ss != []
  {
    ss[|ss| - 1]
  }

  function Front(ss: seq<string>): seq<string>
    requires ss != []
  {
    ss[..|ss| - 1]
  }

  function Flatten(ss: seq<string>): string {
    if ss == [] then "" else Flatten(Front(ss)) + Last(ss)
  }

  /** The lines put together again with newlines between them. */
  function Unlines(lines: seq<string>): string {
    if lines == [] then "" else if |lines| == 1 then lines[0] else lines[0] + "\n" + Unlines(lines[1..])
  }

  /** Lines is the only way to cut a text at its newlines. */
  lemma {:induction false} LinesUnlines(s: string)
    ensures Unlines(Lines(s)) == s
    ensures forall line | line in Lines(s) :: '\n' !in line
    decreases |s|
  {
    var i := FirstNewline(s);
    if i < |s| {
      LinesUnlines(s[i + 1..]);
      assert Lines(s)[1..] == Lines(s[i + 1..]);
      assert s == s[..i] + "\n" + s[i + 1..];
    }
  }

  lemma {:induction false} NewlineAt(line: string, rest: string)
    requires '\n' !in line && (rest == "" || rest[0] == '\n')
    ensures FirstNewline(line + rest) == |line|
  {
    if line != "" {
      assert (line + rest)[1..] == line[1..] + rest;
      NewlineAt(line[1..], rest);
    } else {
      assert line + rest == rest;
    }
  }

  lemma LinesSingle(line: string)
    requires '\n' !in line
    ensures Lines(line) == [line]
  {
    NewlineAt(line, "");
    assert line + "" == line;
  }

  lemma LinesCons(line: string, rest: string)
    requires '\n' !in line
    ensures Lines(line + "\n" + rest) == [line] + Lines(rest)
  {
    var s := line + "\n" + rest;
    NewlineAt(line, "\n" + rest);
    assert s == line + ("\n" + rest);
    assert s[..|line|] == line && s[|line| + 1..] == rest;
  }

  lemma {:induction false} UnlinesLines(lines: seq<string>)
    requires lines != [] && forall line | line in lines :: '\n' !in line
    ensures Lines(Unlines(lines)) == lines
  {
    assert lines[0] in lines;
    if |lines| == 1 {
      LinesSingle(lines[0]);
    } else {
      UnlinesLines(lines[1..]);
      LinesCons(lines[0], Unlines(lines[1..]));
    }
  }

  function Snoc(lines: seq<string>, c: char): seq<string>
    requires lines != []
  {
    if c == '\n' then lines + [""] else Front(lines) + [Last(lines) + [c]]
  }

  lemma {:induction false} SnocSingle(line: string, c: char)
    requires '\n' !in line
    ensures Lines(line + [c]) == Snoc([line], c)
  {
    if c == '\n' {
      LinesCons(line, "");
      LinesSingle("");
      assert line + "\n" + "" == line + [c];
    } else {
      LinesSingle(line + [c]);
      assert Front([line]) == [];
    }
  }

  lemma SnocCons(line: string, lines: seq<string>, c: char)
    requires lines != []
    ensures Snoc([line] + lines, c) == [line] + Snoc(lines, c)
  {
    assert Front([line] + lines) == [line] + Front(lines);
  }

  /** One more character makes the last line longer, one more newline adds an empty line. */
  lemma {:induction false} LinesSnoc(s: string, c: char)
    ensures Lines(s + [c]) == Snoc(Lines(s), c)
    decreases |s|
  {
    var i := FirstNewline(s);
    if i == |s| {
      assert s[..i] == s;
      SnocSingle(s, c);
    } else {
      var line, t := s[..i], s[i + 1..];
      assert s == line + "\n" + t;
      assert s + [c] == line + "\n" + (t + [c]);
      LinesCons(line, t + [c]);
      LinesSnoc(t, c);
      SnocCons(line, Lines(t), c);
    }
  }

  lemma ChunksCons(line: string, rest: string, width: nat)
    requires width > 0 && |line| == width && rest != ""
    ensures Chunks(line + rest, width) == [line] + Chunks(rest, width)
  {
    assert (line + rest)[..width] == line && (line + rest)[width..] == rest;
  }

  lemma {:induction false} ChunksSnoc(line: string, c: char, width: nat)
    requires width > 0
    ensures var cs := Chunks(line, width);
      Chunks(line + [c], width)
      == if |Last(cs)| < width then Front(cs) + [Last(cs) + [c]] else cs + [[c]]
    decreases |line|
  {
    if |line| > width {
      var first, rest := line[..width], line[width..];
      assert line == first + rest && line + [c] == first + (rest + [c]);
      ChunksCons(first, rest, width);
      ChunksCons(first, rest + [c], width);
      ChunksSnoc(rest, c, width);
      assert Front([first] + Chunks(rest, width)) == [first] + Front(Chunks(rest, width));
    } else if |line| == width {
      ChunksCons(line, [c], width);
    } else {
      assert Front([line]) == [];
    }
  }

  lemma {:induction false} ChunkWidths(line: string, width: nat)
    requires width > 0
    ensures forall p | p in Chunks(line, width) :: |p| <= width
    decreases |line|
  {
    if |line| > width {
      ChunkWidths(line[width..], width);
    }
  }

  lemma {:induction false} WrapWidths(lines: seq<string>, width: nat)
    requires width > 0
    ensures forall p | p in Wrap(lines, width) :: |p| <= width
  {
    if lines != [] {
      WrapWidths(Front(lines), width);
      ChunkWidths(Last(lines), width);
    }
  }

  /** The pieces of a line are the line, and all but the last are of full width. */
  lemma {:induction false} ChunksFlatten(line: string, width: nat)
    requires width > 0
    ensures Flatten(Chunks(line, width)) == line
    ensures forall i | 0 <= i < |Chunks(line, width)| - 1 :: |Chunks(line, width)[i]| == width
    ensures Last(Chunks(line, width)) == "" ==> line == ""
    decreases |line|
  {
    if |line| > width {
      ChunksFlatten(line[width..], width);
      FlattenCons(line[..width], Chunks(line[width..], width));
    } else {
      assert Front([line]) == [];
    }
  }

  lemma {:induction false} FlattenCons(s: string, ss: seq<string>)
    ensures Flatten([s] + ss) == s + Flatten(ss)
  {
    if ss == [] {
      assert Front([s] + ss) == [];
    } else {
      assert Front([s] + ss) == [s] + Front(ss);
      FlattenCons(s, Front(ss));
    }
  }

  lemma WrapOneMore(lines: seq<string>, line: string, width: nat)
    requires width > 0
    ensures Wrap(lines + [line], width) == Wrap(lines, width) + Chunks(line, width)
  {
    assert (lines + [line])[..|lines|] == lines;
  }

  lemma {:induction false} WrapAppend(first: seq<string>, rest: seq<string>, width: nat)
    requires width > 0
    ensures Wrap(first + rest, width) == Wrap(first, width) + Wrap(rest, width)
    decreases |rest|
  {
    if rest == [] {
      assert first + rest == first;
    } else {
      var front, last := Front(rest), Last(rest);
      var pieces := Chunks(last, width);
      calc {
        Wrap(first + rest, width);
        { assert first + rest == (first + front) + [last]; WrapOneMore(first + front, last, width); }
        Wrap(first + front, width) + pieces;
        { WrapAppend(first, front, width); }
        (Wrap(first, width) + Wrap(front, width)) + pieces;
        Wrap(first, width) + (Wrap(front, width) + pieces);
        { assert rest == front + [last]; WrapOneMore(front, last, width); }
        Wrap(first, width) + Wrap(rest, width);
      }
    }
  }

  /** Wrapping a text that fits does nothing to it. */
  lemma {:induction false} WrapShort(lines: seq<string>, width: nat)
    requires width > 0 && forall line | line in lines :: |line| <= width
    ensures Wrap(lines, width) == lines
  {
    if lines != [] {
      WrapShort(Front(lines), width);
      assert lines == Front(lines) + [Last(lines)];
    }
  }

  /** What one more character does to wrapped lines. */
  function WrapPut(pieces: seq<string>, c: char, width: nat): (r: seq<string>)
    requires pieces != []
    ensures r != []
  {
    if c == '\n' then pieces + [""]
    else if |Last(pieces)| < width then Front(pieces) + [Last(pieces) + [c]]
    else pieces + [[c]]
  }

  lemma WrapPutAppend(above: seq<string>, pieces: seq<string>, c: char, width: nat)
    requires pieces != []
    ensures WrapPut(above + pieces, c, width) == above + WrapPut(pieces, c, width)
  {
    assert Front(above + pieces) == above + Front(pieces) && Last(above + pieces) == Last(pieces);
  }

  lemma WrapSnoc(lines: seq<string>, c: char, width: nat)
    requires lines != [] && width > 0
    ensures Wrap(Snoc(lines, c), width) == WrapPut(Wrap(lines, width), c, width)
  {
    var front, last := Front(lines), Last(lines);
    assert lines == front + [last];
    if c == '\n' {
      WrapOneMore(lines, "", width);
    } else {
      WrapOneMore(front, last, width);
      WrapOneMore(front, last + [c], width);
      ChunksSnoc(last, c, width);
      WrapPutAppend(Wrap(front, width), Chunks(last, width), c, width);
    }
  }
}
