/**
 The line search of ece391grep.c: reads of at most 1024 bytes into one buffer, with the unfinished line
 copied down to the front before the next read. Bytes are characters below 256.
 */
module Grep {
  import opened Text

  const BUFSIZE := 1024

  type Byte = c: char | c as int < 0x100

  /** A file as the search meets it; reads at offset fault and beyond fail. */
  datatype File = Missing | File(text: seq<Byte>, fault: nat, closes: bool)

  /** A byte of the pattern, whose type is signed, as it is compared with a byte of the buffer. */
  function Signed(c: Byte): (v: int)
    ensures -128 <= v < 128 && v % 256 == c as int
  {
    if c as int < 0x80 then c as int else c as int - 0x100
  }

  /** A first byte of 0x80 or more is negative and equals no byte of the buffer. */
  predicate Comparable(s: seq<Byte>) {
    s == [] || s[0] as int < 0x80
  }

  /** The pattern that is in effect searched for; nothing contains the empty one. */
  function Effective(s: seq<Byte>): seq<Byte> {
    if Comparable(s) then s else []
  }

  predicate StartsAt(text: string, s: string, i: nat) {
    i + |s| <= |text| && text[i..i + |s|] == s
  }

  ghost predicate Contains(text: string, s: string) {
    s != "" && exists i: nat :: StartsAt(text, s, i)
  }

  ghost function Entry(piece: string, s: string, fname: string): string {
    if Contains(piece, s) then fname + ":" + piece + "\n" else ""
  }

  ghost function Report(pieces: seq<string>, s: string, fname: string): string {
    if pieces == [] then "" else Entry(pieces[0], s, fname) + Report(pieces[1..], s, fname)
  }

  /** What should be printed for a text: the pieces of its lines that contain the pattern, in order. */
  ghost function Found(text: string, s: string, fname: string): string {
    Report(Wrap(Lines(text), BUFSIZE), s, fname)
  }

  lemma {:induction false} ReportAppend(first: seq<string>, rest: seq<string>, s: string, fname: string)
    ensures Report(first + rest, s, fname) == Report(first, s, fname) + Report(rest, s, fname)
  {
    if first == [] {
      assert first + rest == rest;
    } else {
      assert (first + rest)[1..] == first[1..] + rest;
      ReportAppend(first[1..], rest, s, fname);
    }
  }

  lemma FoundCons(lines: seq<string>, line: string, s: string, fname: string)
    ensures Report(Wrap([line] + lines, BUFSIZE), s, fname)
         == Report(Chunks(line, BUFSIZE), s, fname) + Report(Wrap(lines, BUFSIZE), s, fname)
  {
    WrapAppend([line], lines, BUFSIZE);
    assert [line][..0] == [];
    assert Wrap([line], BUFSIZE) == Chunks(line, BUFSIZE);
    ReportAppend(Chunks(line, BUFSIZE), Wrap(lines, BUFSIZE), s, fname);
  }

  lemma ReportSingle(piece: string, s: string, fname: string)
    ensures Report([piece], s, fname) == Entry(piece, s, fname)
  {
    assert [piece][1..] == [];
  }

  /** A line that fits the buffer is searched once, whatever follows it. */
  lemma FoundLine(line: string, rest: string, s: string, fname: string)
    requires '\n' !in line && |line| <= BUFSIZE
    ensures Found(line + "\n" + rest, s, fname) == Entry(line, s, fname) + Found(rest, s, fname)
  {
    LinesCons(line, rest);
    FoundCons(Lines(rest), line, s, fname);
    ReportSingle(line, s, fname);
  }

  lemma FoundLast(line: string, s: string, fname: string)
    requires '\n' !in line && |line| <= BUFSIZE
    ensures Found(line, s, fname) == Entry(line, s, fname)
  {
    LinesSingle(line);
    FoundCons([], line, s, fname);
    assert [line] + [] == [line];
    ReportSingle(line, s, fname);
  }

  /** A full buffer without a newline is one piece of its line, and the line goes on after it. */
  lemma FoundFull(piece: string, rest: string, s: string, fname: string)
    requires '\n' !in piece && |piece| == 1024
    ensures Found(piece + rest, s, fname) == Entry(piece, s, fname) + Found(rest, s, fname)
  {
    var i := FirstNewline(rest);
    if rest == "" {
      assert piece + rest == piece;
      FoundLast(piece, s, fname);
      FoundLast("", s, fname);
    } else if i == 0 {
      assert rest == "" + "\n" + rest[1..] && piece + rest == piece + "\n" + rest[1..];
      FoundLine(piece, rest[1..], s, fname);
      FoundLine("", rest[1..], s, fname);
    } else {
      FoundLong(piece, rest, s, fname);
    }
  }

  lemma ChunksLong(piece: string, line: string, s: string, fname: string)
    requires |piece| == BUFSIZE && line != ""
    ensures Report(Chunks(piece + line, BUFSIZE), s, fname)
         == Entry(piece, s, fname) + Report(Chunks(line, BUFSIZE), s, fname)
  {
    ChunksCons(piece, line, BUFSIZE);
    ReportAppend([piece], Chunks(line, BUFSIZE), s, fname);
    ReportSingle(piece, s, fname);
  }

  lemma ReportLong(piece: string, line: string, after: seq<string>, s: string, fname: string)
    requires |piece| == BUFSIZE && line != ""
    ensures Report(Wrap([piece + line] + after, BUFSIZE), s, fname)
         == Entry(piece, s, fname) + Report(Wrap([line] + after, BUFSIZE), s, fname)
  {
    var entry := Entry(piece, s, fname);
    var here, there := Report(Chunks(line, BUFSIZE), s, fname), Report(Wrap(after, BUFSIZE), s, fname);
    calc {
      Report(Wrap([piece + line] + after, BUFSIZE), s, fname);
      { FoundCons(after, piece + line, s, fname); ChunksLong(piece, line, s, fname); }
      (entry + here) + there;
      entry + (here + there);
      { FoundCons(after, line, s, fname); }
      entry + Report(Wrap([line] + after, BUFSIZE), s, fname);
    }
  }

  ghost function After(text: string): seq<string> {
    var i := FirstNewline(text);
    if i == |text| then [] else Lines(text[i + 1..])
  }

  lemma LinesSplit(text: string)
    ensures Lines(text) == [text[..FirstNewline(text)]] + After(text)
  {
    var i := FirstNewline(text);
    if i == |text| {
      assert text[..i] == text;
    }
  }

  lemma LinesLong(piece: string, rest: string)
    requires '\n' !in piece
    ensures Lines(piece + rest) == [piece + rest[..FirstNewline(rest)]] + After(rest)
  {
    var i := FirstNewline(rest);
    if i == |rest| {
      LinesSingle(piece + rest);
      assert rest[..i] == rest;
    } else {
      assert piece + rest == (piece + rest[..i]) + "\n" + rest[i + 1..];
      LinesCons(piece + rest[..i], rest[i + 1..]);
    }
  }

  lemma FoundLong(piece: string, rest: string, s: string, fname: string)
    requires '\n' !in piece && |piece| == BUFSIZE && FirstNewline(rest) > 0
    ensures Found(piece + rest, s, fname) == Entry(piece, s, fname) + Found(rest, s, fname)
  {
    var line := rest[..FirstNewline(rest)];
    LinesSplit(rest);
    LinesLong(piece, rest);
    ReportLong(piece, line, After(rest), s, fname);
  }

  /** When no line is longer than the buffer, the pieces are the lines. */
  lemma FoundShort(text: string, s: string, fname: string)
    requires forall line | line in Lines(text) :: |line| <= 1024
    ensures Found(text, s, fname) == Report(Lines(text), s, fname)
  {
    WrapShort(Lines(text), BUFSIZE);
  }

  lemma {:induction false} ReportNothing(pieces: seq<string>, fname: string)
    ensures Report(pieces, "", fname) == ""
  {
    if pieces != [] {
      ReportNothing(pieces[1..], fname);
    }
  }

  /** What is printed is what should be exactly when the first byte of the pattern is below 0x80 or there
      is nothing to print. */
  lemma EffectiveFindsIff(text: string, s: seq<Byte>, fname: string)
    ensures !Comparable(s) ==> Found(text, Effective(s), fname) == ""
    ensures Found(text, Effective(s), fname) == Found(text, s, fname)
      <==> Comparable(s) || Found(text, s, fname) == ""
  {
    ReportNothing(Wrap(Lines(text), BUFSIZE), fname);
  }

  /** A line that holds nothing but the byte searched for is missed when that byte is 0xE9. */
  lemma HighByteMissed(fname: string)
    ensures Found(['\U{E9}'], ['\U{E9}'], fname) == fname + ":" + ['\U{E9}'] + "\n"
    ensures Found(['\U{E9}'], Effective(['\U{E9}']), fname) == ""
  {
    var s: seq<Byte> := ['\U{E9}'];
    FoundLast(s, s, fname);
    assert StartsAt(s, s, 0);
    EffectiveFindsIff(s, s, fname);
  }

  lemma PrefixDiffers(text: string, prefix: string, i: nat)
    requires i < |text| && i < |prefix| && text[i] != prefix[i]
    ensures !StartsAt(text, prefix, 0)
  {
    assert |prefix| <= |text| ==> text[..|prefix|][i] == text[i];
  }

  /** ece391_strncmp of the text at an offset with the first n bytes of the pattern. */
  method Strncmp(data: array<Byte>, at: nat, s: seq<Byte>, n: nat, ghost end: nat) returns (r: int)
    requires '\0' !in s && at <= end < data.Length && data[end] == '\0'
    ensures r == 0 <==> StartsAt(data[at..end + 1], (s + "\0")[..if n <= |s| then n else |s| + 1], 0)
  {
    if 0 == n {
      return 0;
    }
    ghost var whole: string := s + "\0";
    ghost var text: string := data[at..end + 1];
    var i := 0;
    while data[at + i] == if i < |s| then s[i] else '\0'
      invariant i < n && i <= |s| && at + i <= end
      invariant text[..i] == whole[..i]
      decreases n - i
    {
      assert text[..i + 1] == text[..i] + [text[i]] && whole[..i + 1] == whole[..i] + [whole[i]];
      if data[at + i] == '\0' || i + 1 == n {
        return 0;
      }
      i := i + 1;
    }
    ghost var m := if n <= |s| then n else |s| + 1;
    assert text[i] != whole[i] && i < m;
    PrefixDiffers(text, whole[..m], i);
    return data[at + i] as int - (if i < |s| then s[i] else '\0') as int;
  }

  /** Does the whole pattern start at an offset? */
  method PatternAt(data: array<Byte>, at: nat, s: seq<Byte>, ghost end: nat) returns (found: bool)
    requires '\0' !in s && at <= end < data.Length && data[end] == '\0'
    ensures found <==> StartsAt(data[at..end], s, 0)
  {
    var r := Strncmp(data, at, s, |s|, end);
    found := r == 0;
    assert (s + "\0")[..|s|] == s;
    ghost var text := data[at..end + 1];
    assert data[at..end] == text[..end - at];
    if |s| <= end - at {
      assert text[..|s|] == data[at..end][..|s|];
    }
  }

  /** Does the pattern start anywhere in data[from..end]? Its first byte is compared as a signed one. */
  method Search(data: array<Byte>, from: nat, end: nat, s: seq<Byte>) returns (found: bool)
    requires '\0' !in s && from <= end < data.Length && data[end] == '\0'
    ensures '\0' !in data[from..end] ==> (found <==> Contains(data[from..end], Effective(s)))
  {
    var first := if s == [] then 0 else Signed(s[0]);
    ghost var line := data[from..end];
    var check := from;
    while check < end
      invariant from <= check <= end
      invariant '\0' !in line ==> forall i: nat | i < check - from :: s == [] || !Comparable(s) || !StartsAt(line, s, i)
    {
      assert data[check] == line[check - from];
      if first == data[check] as int {
        var here := PatternAt(data, check, s, end);
        assert data[check..end] == line[check - from..];
        StartsIn(line, s, check - from);
        if here {
          return true;
        }
      } else {
        FirstDiffers(line, s, check - from);
      }
      check := check + 1;
    }
    found := false;
  }

  lemma FirstDiffers(line: seq<Byte>, s: seq<Byte>, i: nat)
    requires i < |line| && (s != [] ==> Signed(s[0]) != line[i] as int)
    ensures s == [] || !Comparable(s) || !StartsAt(line, s, i)
  {
    if s != [] && StartsAt(line, s, i) {
      assert line[i] == line[i..i + |s|][0] == s[0];
    }
  }

  lemma StartsIn(text: string, s: string, i: nat)
    requires i <= |text|
    ensures StartsAt(text[i..], s, 0) <==> StartsAt(text, s, i)
  {
    if i + |s| <= |text| {
      assert text[i..][..|s|] == text[i..i + |s|];
    }
  }

  /** The characters up to the terminating NUL, as ece391_fdputs writes them. */
  method Puts(data: array<Byte>, from: nat, ghost end: nat) returns (text: string)
    requires from <= end < data.Length && data[end] == '\0'
    ensures '\0' !in data[from..end] ==> text == data[from..end]
  {
    var len := 0;
    while data[from + len] != '\0'
      invariant from + len <= end
      invariant '\0' !in data[from..from + len]
      decreases end - from - len
    {
      len := len + 1;
    }
    assert from + len < end ==> data[from..end][len] == '\0';
    text := data[from..from + len];
  }

  /** ece391_strcpy (data, data + from): a forward copy down over itself. */
  method CopyDown(data: array<Byte>, from: nat, ghost end: nat)
    requires 0 < from <= end < data.Length && data[end] == '\0'
    modifies data
    ensures '\0' !in old(data[from..end]) ==> data[..end - from] == old(data[from..end]) && data[end - from] == '\0'
    ensures data[end..] == old(data[end..])
  {
    ghost var was := data[..];
    var i := 0;
    var c := data[from];
    data[0] := c;
    while c != '\0'
      invariant from + i <= end && c == data[i] && Shifted(data[..], was, from, i)
      invariant '\0' !in was[from..from + i]
      decreases end - from - i
    {
      assert was[from..from + i + 1] == was[from..from + i] + [c];
      i := i + 1;
      c := data[from + i];
      data[i] := c;
    }
    ShiftedDown(data[..], was, from, i, end);
    assert data[..][..end - from] == data[..end - from] && data[..][end..] == data[end..];
    assert was[from..end] == old(data[from..end]) && was[end..] == old(data[end..]);
  }

  /** The first i + 1 bytes have come down. */
  ghost predicate Shifted(now: string, was: string, from: nat, i: nat) {
    && |now| == |was| && from + i < |was|
    && (forall j | 0 <= j <= i :: now[j] == was[from + j])
    && forall j | i < j < |was| :: now[j] == was[j]
  }

  lemma ShiftedDown(now: string, was: string, from: nat, i: nat, end: nat)
    requires Shifted(now, was, from, i) && 0 < from && from + i <= end < |was| && was[end] == now[i] == '\0'
    requires '\0' !in was[from..from + i]
    ensures '\0' !in was[from..end] ==> now[..end - from] == was[from..end] && now[end - from] == '\0'
    ensures now[end..] == was[end..]
  {
    assert from + i < end ==> was[from..end][i] == '\0';
  }

  /** Searches data[from..end], closing it with a NUL first, and gives what is printed for it. */
  method SearchLine(data: array<Byte>, from: nat, end: nat, s: seq<Byte>, fname: string) returns (out: string)
    requires '\0' !in s && from <= end < data.Length
    modifies data
    ensures data[..] == old(data[..])[end := '\0']
    ensures '\0' !in old(data[from..end]) ==> out == Entry(old(data[from..end]), Effective(s), fname)
  {
    data[end] := '\0';
    assert data[from..end] == old(data[from..end]);
    var found := Search(data, from, end, s);
    out := "";
    if found {
      var line := Puts(data, from, end);
      out := fname + ":" + line + "\n";
    }
  }

  method LineEnd(data: array<Byte>, from: nat, last: nat) returns (end: nat)
    requires from <= last < data.Length
    ensures from <= end <= last && '\n' !in data[from..end]
    ensures end < last ==> data[end] == '\n'
  {
    end := from;
    while end < last && '\n' != data[end]
      invariant from <= end <= last && '\n' !in data[from..end]
    {
      end := end + 1;
    }
  }

  /** The last piece of the buffer: end of file, a full buffer, or a newline left beyond the text. */
  lemma FoundRest(piece: string, after: string, s: string, fname: string)
    requires '\n' !in piece && |piece| <= BUFSIZE && (|piece| == BUFSIZE || after == "")
    ensures Found(piece + after, s, fname) == Entry(piece, s, fname) + Found(after, s, fname)
  {
    hide Found;
    if after == "" {
      assert piece + after == piece;
      FoundLast(piece, s, fname);
      FoundLast("", s, fname);
    } else {
      FoundFull(piece, after, s, fname);
    }
  }

  /** What has been printed, the text at hand and the text not read yet make up the whole output. */
  ghost predicate Accounts(here: string, after: string, all: string, out: string, s: string, fname: string) {
    '\0' !in here && all == out + Found(here + after, s, fname)
  }

  /** What is left of the text behind a line. */
  ghost function Beyond(here: string, end: nat): string {
    if end < |here| then here[end + 1..] else ""
  }

  /** Can the line up to this place be searched without cutting it short? */
  ghost predicate Whole(here: string, end: nat, after: string) {
    && end <= |here| <= BUFSIZE && '\n' !in here[..end]
    && if end < |here| then here[end] == '\n' else |here| == BUFSIZE || after == ""
  }

  lemma FoundStep(here: string, end: nat, after: string, s: string, fname: string)
    requires Whole(here, end, after)
    ensures Found(here + after, s, fname) == Entry(here[..end], s, fname) + Found(Beyond(here, end) + after, s, fname)
  {
    hide Found;
    var line, next := here[..end], Beyond(here, end);
    if end < |here| {
      assert here + after == line + "\n" + (next + after);
      FoundLine(line, next + after, s, fname);
    } else {
      assert here == line && next + after == after;
      FoundRest(line, after, s, fname);
    }
  }

  lemma AccountsStep(here: string, end: nat, after: string, all: string, out: string, s: string, fname: string)
    requires Whole(here, end, after) && Accounts(here, after, all, out, s, fname)
    ensures Accounts(Beyond(here, end), after, all, out + Entry(here[..end], s, fname), s, fname)
  {
    hide Found;
    FoundStep(here, end, after, s, fname);
  }

  /** Closes the unfinished line with a NUL and copies it down. */
  method CarryLine(data: array<Byte>, from: nat, last: nat)
    requires 0 < from <= last < data.Length
    modifies data
    ensures '\0' !in old(data[from..last]) ==> data[..last - from] == old(data[from..last])
    ensures data[last] == '\0' && data[last + 1..] == old(data[last + 1..])
  {
    data[last] := '\0';
    assert data[from..last] == old(data[from..last]);
    CopyDown(data, from, last);
    assert data[last..][0] == '\0' && data[last..][1..] == data[last + 1..];
  }

  /** Searches one line of the buffer and keeps account of what is still to be printed. */
  method SearchStep(data: array<Byte>, from: nat, end: nat, last: nat, s: seq<Byte>, fname: string, out: string,
                    ghost after: string, ghost all: string)
    returns (grown: string)
    requires '\0' !in s && from <= end <= last < data.Length
    modifies data
    ensures data[..] == old(data[..])[end := '\0']
    ensures var here := old(data[from..last]);
      Whole(here, end - from, after) && Accounts(here, after, all, out, Effective(s), fname)
      ==> Accounts(Beyond(here, end - from), after, all, grown, Effective(s), fname)
  {
    hide Found;
    ghost var here := data[from..last];
    assert data[from..end] == here[..end - from];
    var found := SearchLine(data, from, end, s, fname);
    grown := out + found;
    if Whole(here, end - from, after) && Accounts(here, after, all, out, Effective(s), fname) {
      assert '\0' !in here[..end - from];
      AccountsStep(here, end - from, after, all, out, Effective(s), fname);
    }
  }

  /** Is the buffer full or the file at its end, and no old newline behind the text? */
  ghost predicate Closed(data: array<Byte>, last: nat, after: string)
    requires last < data.Length
    reads data
  {
    after == "" || (last == BUFSIZE && data[last] != '\n')
  }

  /** One turn of the inner loop: the unfinished line is carried down, or a line is searched. */
  method ScanLine(data: array<Byte>, from: nat, last: nat, cnt: nat, s: seq<Byte>, fname: string, out: string,
                  ghost after: string, ghost all: string)
    returns (carried: bool, grown: string, next: nat)
    requires '\0' !in s && from <= last <= BUFSIZE < data.Length && (cnt == 0 ==> after == "")
    modifies data
    ensures carried ==> 0 < from && cnt != 0 && old(data[last]) != '\n'
    ensures !carried ==> from < next <= last + 1
    ensures forall k | 0 <= k < data.Length && k > (if carried then last else next - 1) :: data[k] == old(data[k])
    ensures if carried || next == last + 1 then data[last] == '\0' else old(data[next - 1]) == '\n'
    ensures (carried || next == last + 1) && from < last ==> old(data[last - 1]) != '\n'
    ensures old(Closed(data, last, after) && Accounts(data[from..last], after, all, out, Effective(s), fname))
      ==> if carried then Accounts(data[..last - from], after, all, grown, Effective(s), fname)
          else Accounts(if next <= last then data[next..last] else [], after, all, grown, Effective(s), fname)
  {
    hide Found;
    var end := LineEnd(data, from, last);
    ghost var here := data[from..last];
    assert end == last && from < last ==> data[last - 1] in data[from..end];
    if '\n' != data[end] && 0 != cnt && from != 0 {
      CarryLine(data, from, end);
      SameBehind(data[..], old(data[..]), last + 1);
      return true, out, end;
    }
    assert data[from..end] == here[..end - from];
    grown := SearchStep(data, from, end, last, s, fname, out, after, all);
    next := end + 1;
    carried := false;
    assert Beyond(here, end - from) == if next <= last then data[next..last] else [];
  }

  /**
   One pass over the buffer. What it prints and what it leaves at the front of the buffer account for all
   that was in it. A newline behind the text keeps an unfinished line from being carried over.
   */
  method ScanBuffer(data: array<Byte>, last: nat, cnt: nat, s: seq<Byte>, fname: string, out: string,
                    ghost after: string, ghost all: string)
    returns (grown: string, left: nat)
    requires '\0' !in s && data.Length == BUFSIZE + 1 && last <= BUFSIZE && (cnt == 0 ==> after == "")
    modifies data
    ensures left < BUFSIZE && left <= last && (cnt == 0 || old(data[last]) == '\n' ==> left == 0)
    ensures data[BUFSIZE] == if last == BUFSIZE && old(data[BUFSIZE - 1]) != '\n' then '\0' else old(data[BUFSIZE])
    ensures old(Closed(data, last, after) && Accounts(data[..last], after, all, out, Effective(s), fname))
      ==> Accounts(data[..left], after, all, grown, Effective(s), fname)
  {
    hide Found, Accounts;
    ghost var exact := Closed(data, last, after) && Accounts(data[..last], after, all, out, Effective(s), fname);
    var from := 0;
    grown := out;
    assert data[..last] == data[from..last];
    while true
      invariant from <= last && (from == last ==> from == 0)
      invariant forall k | from <= k < data.Length :: data[k] == old(data[k])
      invariant exact ==> Accounts(data[from..last], after, all, grown, Effective(s), fname)
      decreases last - from
    {
      var carried, next;
      carried, grown, next := ScanLine(data, from, last, cnt, s, fname, grown, after, all);
      if carried {
        return grown, last - from;
      }
      if next >= last {
        assert data[..0] == if next <= last then data[next..last] else [];
        return grown, 0;
      }
      from := next;
    }
  }

  lemma SameBehind(now: seq<Byte>, was: seq<Byte>, from: nat)
    requires |now| == |was| && from <= |now| && now[from..] == was[from..]
    ensures forall k | from <= k < |now| :: now[k] == was[k]
  {
    forall k | from <= k < |now| ensures now[k] == was[k] {
      assert now[from..][k - from] == was[from..][k - from];
    }
  }

  /** A read of the file at an offset: as much as fits and is there. */
  method Read(data: array<Byte>, last: nat, text: seq<Byte>, pos: nat) returns (cnt: nat)
    requires last < data.Length == BUFSIZE + 1 && pos <= |text|
    modifies data
    ensures last + cnt <= BUFSIZE && pos + cnt <= |text|
    ensures last + cnt == BUFSIZE || pos + cnt == |text|
    ensures data[..last + cnt] == old(data[..last]) + text[pos..pos + cnt]
    ensures data[last + cnt..] == old(data[last + cnt..])
  {
    cnt := if |text| - pos < BUFSIZE - last then |text| - pos else BUFSIZE - last;
    forall k | 0 <= k < cnt {
      data[last + k] := text[pos + k];
    }
  }

  // ----- a newline left behind the buffer -----

  /**
   What is printed for the rest of a file when the buffer is empty. If the byte behind the buffer holds a
   newline, a full buffer is searched to its end, and the newline goes unless the buffer ends in one itself.
   */
  ghost function Expected(rest: string, stale: bool, s: string, fname: string): string
    decreases |rest|
  {
    if !stale || |rest| < BUFSIZE then Found(rest, s, fname)
    else Found(rest[..BUFSIZE], s, fname) + Expected(rest[BUFSIZE..], rest[BUFSIZE - 1] == '\n', s, fname)
  }

  /** The end of the first full buffer that does not end in a newline. */
  function FirstCut(text: string): (k: nat)
    ensures k <= |text|
    ensures k == |text| || (k >= BUFSIZE && text[k - 1] != '\n')
    decreases |text|
  {
    if |text| < BUFSIZE then |text|
    else if text[BUFSIZE - 1] != '\n' then BUFSIZE
    else
      var rest := text[BUFSIZE..];
      var k := FirstCut(rest);
      assert 0 < k <= |rest| ==> rest[k - 1] == text[BUFSIZE + k - 1];
      BUFSIZE + k
  }

  lemma {:induction false} CutIsMultiple(text: string)
    ensures FirstCut(text) == |text| || FirstCut(text) % BUFSIZE == 0
    decreases |text|
  {
    if |text| >= BUFSIZE && text[BUFSIZE - 1] == '\n' {
      CutIsMultiple(text[BUFSIZE..]);
    }
  }

  /** Nothing is cut at the end of a line. */
  lemma {:induction false} FoundLines(text: string, rest: string, s: string, fname: string)
    requires text == "" || text[|text| - 1] == '\n'
    ensures Found(text + rest, s, fname) == Found(text, s, fname) + Found(rest, s, fname)
    decreases |text|
  {
    hide Found;
    if text == "" {
      FoundLast("", s, fname);
      assert text + rest == rest;
    } else {
      var i := FirstNewline(text);
      var line, more := text[..i], text[i + 1..];
      assert text == line + "\n" + more && text + rest == line + "\n" + (more + rest);
      FoundLines(more, rest, s, fname);
      FoundLineMore(line, more, rest, s, fname);
    }
  }

  lemma FoundLineMore(line: string, more: string, rest: string, s: string, fname: string)
    requires '\n' !in line && Found(more + rest, s, fname) == Found(more, s, fname) + Found(rest, s, fname)
    ensures Found(line + "\n" + (more + rest), s, fname)
         == Found(line + "\n" + more, s, fname) + Found(rest, s, fname)
  {
    hide Found;
    var entries, first, second := Report(Chunks(line, BUFSIZE), s, fname), Found(more, s, fname), Found(rest, s, fname);
    FoundAnyLine(line, more, s, fname);
    FoundAnyLine(line, more + rest, s, fname);
    assert entries + (first + second) == (entries + first) + second;
  }

  /** A line of any length contributes its own pieces. */
  lemma FoundAnyLine(line: string, rest: string, s: string, fname: string)
    requires '\n' !in line
    ensures Found(line + "\n" + rest, s, fname)
         == Report(Chunks(line, BUFSIZE), s, fname) + Found(rest, s, fname)
  {
    LinesCons(line, rest);
    FoundCons(Lines(rest), line, s, fname);
  }

  /** With the newline the file is searched as two files, cut at that place. */
  lemma {:induction false} ExpectedCuts(text: string, s: string, fname: string)
    ensures var k := FirstCut(text);
      && (k == |text| || k % 1024 == 0)
      && Expected(text, true, s, fname) == Found(text[..k], s, fname) + Found(text[k..], s, fname)
    decreases |text|
  {
    hide Found;
    CutIsMultiple(text);
    if |text| < BUFSIZE {
      FoundLast("", s, fname);
      assert text[..|text|] == text && text[|text|..] == "";
    } else if text[BUFSIZE - 1] == '\n' {
      var first, rest := text[..BUFSIZE], text[BUFSIZE..];
      ExpectedCuts(rest, s, fname);
      CutsAppend(first, rest, FirstCut(rest), s, fname);
      assert text == first + rest;
    }
  }

  lemma CutsAppend(first: string, rest: string, k: nat, s: string, fname: string)
    requires k <= |rest| && first != "" && first[|first| - 1] == '\n'
    ensures Found(first, s, fname) + (Found(rest[..k], s, fname) + Found(rest[k..], s, fname))
         == Found((first + rest)[..|first| + k], s, fname) + Found((first + rest)[|first| + k..], s, fname)
  {
    hide Found;
    FoundLines(first, rest[..k], s, fname);
    assert (first + rest)[..|first| + k] == first + rest[..k] && (first + rest)[|first| + k..] == rest[k..];
  }

  /** The number of characters behind the last newline of a text. */
  function Column(text: string): (n: nat)
    ensures n <= |text| && '\n' !in text[|text| - n..]
    ensures text[..|text| - n] == "" || text[..|text| - n][|text| - n - 1] == '\n'
  {
    if text == "" || text[|text| - 1] == '\n' then 0
    else
      var front := text[..|text| - 1];
      var n := Column(front);
      assert text[|text| - n - 1..] == front[|front| - n..] + [text[|text| - 1]];
      assert text[..|front| - n] == front[..|front| - n];
      n + 1
  }

  /** The cut does not change what is searched: there is nothing behind it, or a newline, or the line in front of
      it is a multiple of 1024 long, and so is cut there anyway. */
  predicate Harmless(text: string) {
    var k := FirstCut(text);
    k == |text| || text[k] == '\n' || Column(text[..k]) % BUFSIZE == 0
  }

  lemma ShortUncut(text: string)
    ensures |text| <= BUFSIZE ==> Harmless(text)
    ensures !Harmless(text) ==> FirstCut(text) > 0
  {
  }

  /** The newline does no harm, whatever is in effect searched for, if and only if the cut is harmless; otherwise
      it does when the character in front of the cut is searched for. A file that fits the buffer is not cut. */
  lemma StaleHarmlessIff(text: string, fname: string)
    ensures (forall s :: Expected(text, true, s, fname) == Found(text, s, fname)) <==> Harmless(text)
    ensures !Harmless(text) ==>
      Expected(text, true, [text[FirstCut(text) - 1]], fname) != Found(text, [text[FirstCut(text) - 1]], fname)
    ensures |text| <= BUFSIZE ==> Harmless(text)
  {
    hide Found, Expected, FirstCut, Column, Harmless;
    ShortUncut(text);
    if Harmless(text) {
      forall s ensures Expected(text, true, s, fname) == Found(text, s, fname) {
        StaleHarmless(text, s, fname);
      }
    } else {
      StaleHarms(text, fname);
    }
  }

  lemma StaleHarmless(text: string, s: string, fname: string)
    requires Harmless(text)
    ensures Expected(text, true, s, fname) == Found(text, s, fname)
  {
    hide Found, Expected, FirstCut, Column;
    var pre, a := CutLine(text);
    CutInLine(text, pre, a, text[FirstCut(text)..], s, fname);
    CutHarmless(a, text[FirstCut(text)..], s, fname);
  }

  lemma StaleHarms(text: string, fname: string)
    requires !Harmless(text)
    ensures FirstCut(text) > 0
    ensures var s := [text[FirstCut(text) - 1]]; Expected(text, true, s, fname) != Found(text, s, fname)
  {
    hide Found, Expected, FirstCut, Column;
    var pre, a := CutLine(text);
    var s, rest := [text[FirstCut(text) - 1]], text[FirstCut(text)..];
    assert |a| % BUFSIZE != 0 && rest != "" && rest[0] == text[FirstCut(text)] != '\n';
    CutHarms(a, rest, s, fname);
    CutInLine(text, pre, a, rest, s, fname);
  }

  /** The line that is cut, up to the cut, and what is in front of it. */
  lemma CutLine(text: string) returns (pre: string, a: string)
    ensures text[..FirstCut(text)] == pre + a && '\n' !in a && |a| == Column(text[..FirstCut(text)])
    ensures pre == "" || pre[|pre| - 1] == '\n'
    ensures a != "" ==> FirstCut(text) > 0 && a[|a| - 1] == text[FirstCut(text) - 1]
  {
    hide FirstCut, Column;
    var t := text[..FirstCut(text)];
    var n := |t| - Column(t);
    pre, a := t[..n], t[n..];
    assert t == pre + a;
    assert a != "" ==> a[|a| - 1] == t[|t| - 1] == text[|t| - 1];
  }

  /** Only the line that is cut matters. */
  lemma CutInLine(text: string, pre: string, a: string, rest: string, s: string, fname: string)
    requires text[..FirstCut(text)] == pre + a && text[FirstCut(text)..] == rest
    requires pre == "" || pre[|pre| - 1] == '\n'
    ensures Expected(text, true, s, fname) == Found(text, s, fname)
      <==> Found(a + rest, s, fname) == Found(a, s, fname) + Found(rest, s, fname)
  {
    hide Found;
    ExpectedCuts(text, s, fname);
    assert text == (pre + a) + rest == pre + (a + rest);
    FoundLines(pre, a, s, fname);
    FoundLines(pre, a + rest, s, fname);
    SamePrefix(Found(pre, s, fname), Found(a, s, fname), Found(rest, s, fname), Found(a + rest, s, fname));
  }

  lemma SamePrefix(x: string, y: string, z: string, w: string)
    ensures (x + y) + z == x + w <==> w == y + z
  {
    assert (x + y) + z == x + (y + z);
    assert (x + (y + z))[|x|..] == y + z && (x + w)[|x|..] == w;
  }

  lemma {:induction false} CutHarmless(a: string, rest: string, s: string, fname: string)
    requires '\n' !in a && (rest == "" || rest[0] == '\n' || |a| % BUFSIZE == 0)
    ensures Found(a + rest, s, fname) == Found(a, s, fname) + Found(rest, s, fname)
    decreases |a|
  {
    hide Found;
    if rest == "" {
      FoundLast("", s, fname);
      assert a + rest == a;
    } else if rest[0] == '\n' {
      CutAtNewline(a, rest[1..], s, fname);
      assert rest == "\n" + rest[1..] && a + rest == a + "\n" + rest[1..];
    } else if a == "" {
      FoundLast("", s, fname);
      assert a + rest == rest;
    } else {
      var first, more := a[..BUFSIZE], a[BUFSIZE..];
      CutHarmless(more, rest, s, fname);
      FullInFront(first, more, rest, s, fname);
      assert a == first + more && a + rest == first + (more + rest);
    }
  }

  lemma CutAtNewline(a: string, rest: string, s: string, fname: string)
    requires '\n' !in a
    ensures Found(a + "\n" + rest, s, fname) == Found(a, s, fname) + Found("\n" + rest, s, fname)
  {
    hide Found, Chunks, Report;
    FoundLastAny(a, s, fname);
    FoundAnyLine(a, rest, s, fname);
    FoundLine("", rest, s, fname);
    assert "" + "\n" + rest == "\n" + rest;
  }

  lemma FoundLastAny(line: string, s: string, fname: string)
    requires '\n' !in line
    ensures Found(line, s, fname) == Report(Chunks(line, BUFSIZE), s, fname)
  {
    hide Chunks;
    LinesSingle(line);
    FoundCons([], line, s, fname);
    assert [line] + [] == [line];
  }

  /** A full piece in front of a line contributes the same to both sides. */
  lemma FullInFront(first: string, more: string, rest: string, s: string, fname: string)
    requires '\n' !in first && |first| == BUFSIZE
    ensures Found(first + (more + rest), s, fname) == Found(first + more, s, fname) + Found(rest, s, fname)
      <==> Found(more + rest, s, fname) == Found(more, s, fname) + Found(rest, s, fname)
  {
    hide Found;
    FoundFull(first, more, s, fname);
    FoundFull(first, more + rest, s, fname);
    SamePrefix(Entry(first, s, fname), Found(more, s, fname), Found(rest, s, fname), Found(more + rest, s, fname));
  }

  lemma {:induction false} CutHarms(a: string, rest: string, s: string, fname: string)
    requires '\n' !in a && |a| % BUFSIZE != 0 && s == [a[|a| - 1]] && rest != "" && rest[0] != '\n'
    ensures Found(a + rest, s, fname) != Found(a, s, fname) + Found(rest, s, fname)
    decreases |a|
  {
    hide Found;
    if |a| > BUFSIZE {
      var first, more := a[..BUFSIZE], a[BUFSIZE..];
      CutHarms(more, rest, s, fname);
      FullInFront(first, more, rest, s, fname);
      assert a == first + more && a + rest == first + (more + rest);
    } else {
      var b, others := FirstPiece(a, rest, s, fname);
      ContainsLast(a, b, s);
      FoundLast(a, s, fname);
      ContainsLast(a, "", s);
      assert a + "" == a;
      EntriesDiffer(fname, a, b, others, Found(rest, s, fname));
    }
  }

  /** The first thing searched is the line up to the end of the buffer. */
  lemma FirstPiece(a: string, rest: string, s: string, fname: string) returns (b: string, others: string)
    requires '\n' !in a && |a| < BUFSIZE && rest != "" && rest[0] != '\n'
    ensures b != "" && b[0] == rest[0] && Found(a + rest, s, fname) == Entry(a + b, s, fname) + others
  {
    hide Chunks, Lines;
    var line := a + rest[..FirstNewline(rest)];
    LinesLong(a, rest);
    FoundCons(After(rest), line, s, fname);
    var more;
    b, more := FirstChunk(a, line, s, fname);
    others := more + Report(Wrap(After(rest), BUFSIZE), s, fname);
    AddedLast(Entry(a + b, s, fname), more, Report(Wrap(After(rest), BUFSIZE), s, fname));
  }

  lemma FirstChunk(a: string, line: string, s: string, fname: string) returns (b: string, more: string)
    requires |a| < BUFSIZE && a < line
    ensures b != "" && b[0] == line[|a|] && Report(Chunks(line, BUFSIZE), s, fname) == Entry(a + b, s, fname) + more
  {
    var pieces := Chunks(line, BUFSIZE);
    b := pieces[0][|a|..];
    assert pieces[0] == a + b;
    more := Report(pieces[1..], s, fname);
  }

  lemma AddedLast(x: string, y: string, z: string)
    ensures (x + y) + z == x + (y + z)
  {
  }

  lemma ContainsLast(a: string, b: string, s: string)
    requires a != "" && s == [a[|a| - 1]]
    ensures Contains(a + b, s)
  {
    assert StartsAt(a + b, s, |a| - 1);
  }

  lemma EntriesDiffer(fname: string, a: string, b: string, others: string, rest: string)
    requires b != "" && b[0] != '\n'
    ensures (fname + ":" + (a + b) + "\n") + others != (fname + ":" + a + "\n") + rest
  {
    var i := |fname| + 1 + |a|;
    assert ((fname + ":" + (a + b) + "\n") + others)[i] == b[0];
    assert ((fname + ":" + a + "\n") + rest)[i] == '\n';
  }

  /** A text of two lines whose second one has the pattern across the end of the first buffer. */
  function Straddling(): (text: seq<Byte>)
    ensures |text| == BUFSIZE + 1
  {
    "\n" + Filler() + "pq"
  }

  function Filler(): (x: seq<Byte>)
    ensures |x| == BUFSIZE - 2 && forall i | 0 <= i < |x| :: x[i] == 'x'
  {
    seq(BUFSIZE - 2, _ => 'x')
  }

  lemma StraddlingFound(fname: string)
    ensures Found(Straddling(), "pq", fname) != ""
  {
    var line := Filler() + "pq";
    assert Straddling() == "" + "\n" + line;
    FoundLine("", line, "pq", fname);
    FoundLast(line, "pq", fname);
    assert StartsAt(line, "pq", |Filler()|);
  }

  lemma StraddlingCut(fname: string)
    ensures Found("\n" + Filler() + "p", "pq", fname) == "" && Found("q", "pq", fname) == ""
  {
    var cut := Filler() + "p";
    assert "\n" + Filler() + "p" == "" + "\n" + cut;
    forall i: nat ensures !StartsAt(cut, "pq", i) {
      assert i + 2 <= |cut| ==> cut[i..i + 2][1] == cut[i + 1];
    }
    FoundLine("", cut, "pq", fname);
    FoundLast(cut, "pq", fname);
    FoundLast("q", "pq", fname);
  }

  /** That line should be printed, and with the newline behind the buffer it is not. */
  lemma StaleMisses(fname: string)
    ensures Found(Straddling(), "pq", fname) != ""
    ensures Expected(Straddling(), true, "pq", fname) == ""
  {
    hide Found;
    StraddlingFound(fname);
    StraddlingCut(fname);
    ExpectedCuts(Straddling(), "pq", fname);
    assert Straddling()[..BUFSIZE] == "\n" + Filler() + "p" && Straddling()[BUFSIZE..] == "q";
  }

  // ----- a whole file -----

  /** Where the search of a NUL-free file is: what has been printed, and what is still to be expected. */
  ghost predicate Searching(data: array<Byte>, last: nat, rest: string, all: string, out: string, s: string,
                            fname: string)
    requires last <= BUFSIZE < data.Length
    reads data
  {
    if data[BUFSIZE] == '\n' && rest != "" then last == 0 && all == out + Expected(rest, true, s, fname)
    else Accounts(data[..last], rest, all, out, s, fname)
  }

  lemma AccountsEnd(here: string, after: string, all: string, out: string, s: string, fname: string)
    requires here == after == "" && Accounts(here, after, all, out, s, fname)
    ensures all == out
  {
    assert here + after == "";
    FoundLast("", s, fname);
  }

  /** One read and one pass over what is then in the buffer. */
  method ReadAndScan(data: array<Byte>, last: nat, text: seq<Byte>, pos: nat, s: seq<Byte>, fname: string,
                     out: string, ghost all: string)
    returns (grown: string, left: nat, cnt: nat)
    requires '\0' !in s && last <= pos <= |text| && last < data.Length - 1 == BUFSIZE
    modifies data
    ensures left < BUFSIZE && left <= pos + cnt <= |text| && (cnt == 0 ==> pos == |text| && left == 0)
    ensures '\0' !in text && old(Searching(data, last, text[pos..], all, out, Effective(s), fname))
      ==> Searching(data, left, text[pos + cnt..], all, grown, Effective(s), fname)
  {
    hide Found;
    ghost var p, carried, unread := Effective(s), data[..last], text[pos..];
    ghost var sound := '\0' !in text && Searching(data, last, unread, all, out, p, fname);
    cnt := Read(data, last, text, pos);
    assert data[BUFSIZE] == old(data[BUFSIZE]) by {
      assert data[BUFSIZE] == data[last + cnt..][BUFSIZE - last - cnt];
    }
    ghost var cut := data[BUFSIZE] == '\n' && unread != "" && last + cnt == BUFSIZE;
    ghost var here: string, rest: string := data[..last + cnt], text[pos + cnt..];
    ghost var after, goal := if cut then "" else rest, if cut then out + Found(here, p, fname) else all;
    if sound {
      PassStarts(carried, unread, cnt, here, rest, old(data[BUFSIZE]) == '\n', all, out, p, fname);
    }
    grown, left := ScanBuffer(data, last + cnt, cnt, s, fname, out, after, goal);
    if sound && cut {
      PassEnds(unread, here, all, out, data[..left], grown, data[BUFSIZE] == '\n', p, fname);
    }
  }

  /** What is still to be expected after a pass that ended in a cut. */
  lemma PassEnds(unread: string, here: string, all: string, out: string, left: string, grown: string, stale: bool,
                 s: string, fname: string)
    requires |here| == BUFSIZE <= |unread| && here == unread[..BUFSIZE] && left == ""
    requires stale <==> here[BUFSIZE - 1] == '\n'
    requires all == out + Expected(unread, true, s, fname)
    requires Accounts(left, "", out + Found(here, s, fname), grown, s, fname)
    ensures var rest := unread[BUFSIZE..];
      if stale && rest != "" then all == grown + Expected(rest, true, s, fname)
      else Accounts(left, rest, all, grown, s, fname)
  {
    hide Found;
    var rest := unread[BUFSIZE..];
    var entries, tail := Found(here, s, fname), Expected(rest, stale, s, fname);
    AccountsEnd(left, "", out + entries, grown, s, fname);
    assert out + (entries + tail) == (out + entries) + tail;
    ExpectedRest(left, rest, stale, s, fname);
  }

  lemma ExpectedRest(left: string, rest: string, stale: bool, s: string, fname: string)
    requires left == ""
    ensures (stale && rest != "") || Expected(rest, stale, s, fname) == Found(left + rest, s, fname)
  {
    hide Found;
    assert left + rest == rest;
  }

  /** What a pass over the buffer has to account for, after a read of cnt bytes. */
  lemma PassStarts(carried: string, unread: string, cnt: nat, here: string, rest: string, stale: bool, all: string,
                   out: string, s: string, fname: string)
    requires cnt <= |unread| && here == carried + unread[..cnt] && rest == unread[cnt..] && '\0' !in here
    requires |here| <= BUFSIZE && (|here| == BUFSIZE || rest == "")
    requires if stale && unread != "" then carried == "" && all == out + Expected(unread, true, s, fname)
             else Accounts(carried, unread, all, out, s, fname)
    ensures if stale && unread != "" && |here| == BUFSIZE
            then Accounts(here, "", out + Found(here, s, fname), out, s, fname)
            else Accounts(here, rest, all, out, s, fname)
  {
    hide Found;
    assert here + rest == carried + unread;
    if stale && unread != "" && |here| == BUFSIZE {
      assert here + "" == here;
    } else if stale && unread != "" {
      assert here + rest == unread && |unread| < BUFSIZE;
      assert Expected(unread, true, s, fname) == Found(unread, s, fname);
    }
  }

  lemma SearchingStarts(data: array<Byte>, text: string, s: string, fname: string)
    requires data.Length == BUFSIZE + 1
    ensures Searching(data, 0, text, Expected(text, data[BUFSIZE] == '\n', s, fname), "", s, fname)
  {
    assert data[..0] + text == text;
    assert "" + Expected(text, data[BUFSIZE] == '\n', s, fname) == Expected(text, data[BUFSIZE] == '\n', s, fname);
  }

  lemma SearchingEnds(data: array<Byte>, rest: string, all: string, out: string, s: string, fname: string)
    requires BUFSIZE < data.Length && rest == "" && Searching(data, 0, rest, all, out, s, fname)
    ensures all == out
  {
    FoundLast("", s, fname);
    if data[BUFSIZE] != '\n' {
      AccountsEnd(data[..0], rest, all, out, s, fname);
    }
  }

  /** Reads and searches a file from its start to its end. */
  method SearchFile(s: seq<Byte>, fname: string, text: seq<Byte>, fault: nat, data: array<Byte>)
    returns (ok: bool, out: string)
    requires '\0' !in s && data.Length == BUFSIZE + 1
    modifies data
    ensures ok <==> fault > |text|
    ensures ok && '\0' !in text ==> out == Expected(text, old(data[BUFSIZE]) == '\n', Effective(s), fname)
  {
    hide Found;
    ghost var p := Effective(s);
    ghost var all := Expected(text, data[BUFSIZE] == '\n', p, fname);
    var pos: nat, last: nat := 0, 0;
    out := "";
    SearchingStarts(data, text, p, fname);
    assert text[0..] == text;
    while true
      invariant last <= pos <= |text| && last < BUFSIZE
      invariant '\0' !in text ==> Searching(data, last, text[pos..], all, out, p, fname)
      decreases |text| - pos
    {
      if fault <= pos {
        return false, out + "file read failed\n";
      }
      var cnt;
      out, last, cnt := ReadAndScan(data, last, text, pos, s, fname, out, all);
      pos := pos + cnt;
      if 0 == cnt {
        if '\0' !in text {
          SearchingEnds(data, text[pos..], all, out, p, fname);
        }
        return true, out;
      }
    }
  }

  /**
   do_one_file. The buffer starts with whatever the stack holds. The search always ends, inside the buffer,
   and fails exactly when the file cannot be opened, read to its end, or closed.
   */
  method DoOneFile(s: seq<Byte>, fname: string, file: File, data: array<Byte>) returns (rc: int, out: string)
    requires '\0' !in s && data.Length == BUFSIZE + 1
    modifies data
    ensures rc == if file.File? && file.fault > |file.text| && file.closes then 0 else -1
    ensures file.Missing? ==> out == "file open failed\n"
    ensures rc == 0 && '\0' !in file.text ==>
      out == Expected(file.text, old(data[BUFSIZE]) == '\n', Effective(s), fname)
    ensures rc == 0 && '\0' !in file.text && (Harmless(file.text) || old(data[BUFSIZE]) != '\n') ==>
      out == if Comparable(s) then Found(file.text, s, fname) else ""
  {
    hide Found;
    if file.Missing? {
      return -1, "file open failed\n";
    }
    var ok;
    ok, out := SearchFile(s, fname, file.text, file.fault, data);
    if !ok {
      return -1, out;
    }
    if !file.closes {
      return -1, out + "file close failed\n";
    }
    rc := 0;
    StaleHarmlessIff(file.text, fname);
    EffectiveFindsIff(file.text, s, fname);
  }
}
