/**
 The command line of the emulated system calls: execute cuts a command into strings inside one buffer, and
 getargs joins the arguments with single spaces into the caller's buffer.
 */
module CommandLine {

  const MAX_COMMAND := 1023
  const BUFFER := 1026
  const MAX_ARGS := 1024

  predicate Separates(c: char) {
    c == ' ' || c == '\n'
  }

  /** The length of the word a text starts with. */
  function WordEnd(s: string): (n: nat)
    ensures n <= |s|
    ensures forall i | 0 <= i < n :: !Separates(s[i])
    ensures n < |s| ==> Separates(s[n])
  {
    if s == "" || Separates(s[0]) then 0 else 1 + WordEnd(s[1..])
  }

  /** The arguments in the text behind the program name. A newline ends a word like a space does, and at
      the start of a word it ends the list. */
  function Args(s: string): (args: seq<string>)
    decreases |s|
  {
    if s == "" || s[0] == '\n' then []
    else if s[0] == ' ' then Args(s[1..])
    else
      var n := WordEnd(s);
      if n == |s| then [s] else [s[..n]] + Args(s[n + 1..])
  }

  /** All the strings a command is cut into, the first of them the path of the program. */
  function Tokens(command: string): seq<string> {
    var n := WordEnd(command);
    ["./" + command[..n]] + if n == |command| then [] else Args(command[n + 1..])
  }

  function Join(args: seq<string>): string {
    if args == [] then "" else if |args| == 1 then args[0] else args[0] + " " + Join(args[1..])
  }

  /** The text without leading and trailing spaces and with one space for every run of spaces inside. */
  function Collapse(s: string): string {
    if s == "" then ""
    else if s[0] == ' ' then Collapse(s[1..])
    else
      var rest := Collapse(s[1..]);
      [s[0]] + (if |s| > 1 && s[1] == ' ' && rest != "" then " " else "") + rest
  }

  // ----- splitting and joining -----

  lemma {:induction false} ArgsAreWords(s: string)
    ensures forall i, j | 0 <= i < |Args(s)| && 0 <= j < |Args(s)[i]| :: !Separates(Args(s)[i][j])
    ensures forall i | 0 <= i < |Args(s)| :: Args(s)[i] != ""
    decreases |s|
  {
    if s == "" || s[0] == '\n' {
    } else if s[0] == ' ' {
      ArgsAreWords(s[1..]);
    } else {
      var n := WordEnd(s);
      if n < |s| {
        ArgsAreWords(s[n + 1..]);
        assert Args(s)[1..] == Args(s[n + 1..]);
      }
    }
  }

  lemma JoinCons(c: char, word: string, rest: seq<string>)
    ensures Join([[c] + word] + rest) == [c] + Join([word] + rest)
  {
    assert ([[c] + word] + rest)[1..] == rest == ([word] + rest)[1..];
    if rest != [] {
      assert ([c] + word) + " " + Join(rest) == [c] + (word + " " + Join(rest));
    }
  }

  lemma {:induction false} JoinEmpty(args: seq<string>)
    requires forall i | 0 <= i < |args| :: args[i] != ""
    ensures Join(args) == "" <==> args == []
  {
    if args != [] {
      assert args[0] != "";
    }
  }

  /** Joining the arguments gives back the text behind the program name, its spaces collapsed. */
  lemma {:induction false} JoinArgsCollapses(s: string)
    requires '\n' !in s
    ensures Join(Args(s)) == Collapse(s)
    decreases |s|
  {
    if s != "" {
      JoinArgsCollapses(s[1..]);
      ArgsAreWords(s[1..]);
      JoinEmpty(Args(s[1..]));
      if s[0] != ' ' {
        CollapseWord(s);
      }
    }
  }

  lemma ArgsStep(text: string)
    requires text != "" && !Separates(text[0])
    ensures var n := WordEnd(text);
      n > 0 && Args(text) == [text[..n]] + Args(if n < |text| then text[n + 1..] else "")
  {
    var n := WordEnd(text);
    if n == |text| {
      assert text[..n] == text && [text] + Args("") == [text];
    }
  }

  /** The strings of a command that starts with a word are its words, the first one with ./ in front. */
  lemma TokensAreWords(command: string)
    requires command != "" && !Separates(command[0])
    ensures Args(command) != [] && Tokens(command) == ["./" + Args(command)[0]] + Args(command)[1..]
  {
    ArgsStep(command);
  }

  lemma CollapseWord(s: string)
    requires s != "" && '\n' !in s && s[0] != ' '
    requires Join(Args(s[1..])) == Collapse(s[1..])
    requires Collapse(s[1..]) == "" <==> Args(s[1..]) == []
    ensures Join(Args(s)) == Collapse(s)
  {
    if |s| == 1 {
    } else if s[1] == ' ' {
      ArgsLetter(s);
    } else {
      ArgsLonger(s);
    }
  }

  /** A word of one letter. */
  lemma ArgsLetter(s: string)
    requires |s| > 1 && !Separates(s[0]) && s[1] == ' '
    ensures Args(s) == [[s[0]]] + Args(s[1..])
    ensures Join(Args(s)) == [s[0]] + if Args(s[1..]) == [] then "" else " " + Join(Args(s[1..]))
  {
    assert WordEnd(s) == 1 && s[..1] == [s[0]] && s[2..] == s[1..][1..];
    assert Args(s)[1..] == Args(s[1..]);
  }

  /** A word with another letter in front. */
  lemma ArgsLonger(s: string)
    requires |s| > 1 && !Separates(s[0]) && !Separates(s[1])
    ensures Join(Args(s)) == [s[0]] + Join(Args(s[1..]))
  {
    var n, rest := WordEnd(s), s[1..];
    assert n == 1 + WordEnd(rest);
    ArgsStep(s);
    ArgsStep(rest);
    hide Args, Join, WordEnd;
    var tail := Args(if n < |s| then s[n + 1..] else "");
    assert n < |s| ==> s[n + 1..] == rest[n..];
    assert s[..n] == [s[0]] + rest[..n - 1];
    JoinCons(s[0], rest[..n - 1], tail);
  }

  ghost predicate AreWords(args: seq<string>) {
    forall i | 0 <= i < |args| :: args[i] != "" && WordEnd(args[i]) == |args[i]|
  }

  lemma {:induction false} WordEndAppend(word: string, rest: string)
    requires WordEnd(word) == |word| && (rest == "" || Separates(rest[0]))
    ensures WordEnd(word + rest) == |word|
  {
    if word == "" {
      assert word + rest == rest;
    } else {
      assert (word + rest)[1..] == word[1..] + rest;
      WordEndAppend(word[1..], rest);
    }
  }

  /** Splitting a join gives back the same arguments. */
  lemma {:induction false} ArgsOfJoin(args: seq<string>)
    requires AreWords(args)
    ensures Args(Join(args)) == args
  {
    if |args| == 1 {
      assert !Separates(args[0][0]);
    } else if args != [] {
      var word, rest := args[0], " " + Join(args[1..]);
      assert WordEnd(word) == |word| && !Separates(word[0]);
      WordEndAppend(word, rest);
      assert Join(args) == word + rest;
      assert (word + rest)[..|word|] == word && (word + rest)[|word| + 1..] == Join(args[1..]);
      ArgsOfJoin(args[1..]);
    }
  }

  /** What a newline does to the arguments. */
  ghost predicate NewlineSplits(line: string, rest: string) {
    Args(line + "\n" + rest) == Args(line) + if NewlineEnds(line) then [] else Args(rest)
  }

  /** Does a newline behind this text end the arguments? */
  predicate NewlineEnds(line: string) {
    line == "" || line[|line| - 1] == ' '
  }

  lemma NoArgs()
    ensures Args("") == []
  {
  }

  /** A separator behind a word ends it. */
  lemma WordThen(word: string, c: char, rest: string)
    requires word != "" && WordEnd(word) == |word| && Separates(c)
    ensures Args(word + [c] + rest) == [word] + Args(rest)
  {
    var s := word + [c] + rest;
    WordEndAppend(word, [c] + rest);
    assert s == word + ([c] + rest);
    assert s[..|word|] == word && s[|word| + 1..] == rest && s[0] == word[0];
  }

  lemma {:induction false} WordEndCut(s: string)
    ensures WordEnd(s[..WordEnd(s)]) == WordEnd(s)
  {
    var n := WordEnd(s);
    if n > 0 {
      assert s[..n][1..] == s[1..][..n - 1];
      WordEndCut(s[1..]);
    }
  }

  /** The arguments of any text with a newline in it: one right behind a word only separates, one behind a
      space, or at the start, ends them. */
  lemma {:induction false} NewlineInArgs(line: string, rest: string)
    requires '\n' !in line
    ensures Args(line + "\n" + rest) == Args(line) + if NewlineEnds(line) then [] else Args(rest)
    ensures Args(line + "\n" + rest) == Args(line) <==> NewlineEnds(line) || Args(rest) == []
    decreases |line|
  {
    hide Args;
    if line == "" {
      EmptyLine(line, rest);
    } else if line[0] == ' ' {
      SpaceInFront(line, rest);
      NewlineInArgs(line[1..], rest);
    } else {
      if WordEnd(line) < |line| {
        NewlineInArgs(line[WordEnd(line) + 1..], rest);
      }
      WordInFront(line, rest);
    }
  }

  lemma EmptyLine(line: string, rest: string)
    requires line == ""
    ensures Args(line + "\n" + rest) == [] && Args(line) == []
  {
    assert (line + "\n" + rest)[0] == '\n';
  }

  lemma WordInFront(line: string, rest: string)
    requires '\n' !in line && line != "" && line[0] != ' '
    requires WordEnd(line) < |line| ==> NewlineSplits(line[WordEnd(line) + 1..], rest)
    ensures NewlineSplits(line, rest)
  {
    var n := WordEnd(line);
    WordEndCut(line);
    if n == |line| {
      OneWord(line, rest);
    } else {
      FirstWord(line);
      hide Args, WordEnd;
      NewlineBehindWord(line[..n], line[n + 1..], rest);
    }
  }

  lemma OneWord(word: string, rest: string)
    requires word != "" && WordEnd(word) == |word|
    ensures NewlineSplits(word, rest)
  {
    WordThen(word, '\n', rest);
    ArgsStep(word);
    NoArgs();
    hide Args;
    assert word[..|word|] == word && !Separates(word[|word| - 1]);
  }

  lemma FirstWord(line: string)
    requires '\n' !in line && WordEnd(line) < |line|
    ensures var n := WordEnd(line);
      line == line[..n] + " " + line[n + 1..]
    ensures line != "" && line[0] != ' ' ==> line[..WordEnd(line)] != ""
  {
    assert line[0] in line && line[WordEnd(line)] in line;
    SpaceAt(line, WordEnd(line));
  }

  lemma SpaceAt(line: string, n: nat)
    requires n < |line| && line[n] == ' '
    ensures line == line[..n] + " " + line[n + 1..]
  {
  }

  lemma SpaceInFront(line: string, rest: string)
    requires line != "" && line[0] == ' '
    ensures Args(line + "\n" + rest) == Args(line[1..] + "\n" + rest) && Args(line) == Args(line[1..])
    ensures NewlineEnds(line) <==> NewlineEnds(line[1..])
  {
    assert (line + "\n" + rest)[1..] == line[1..] + "\n" + rest;
  }

  /** A word in front of a text for which it is known what the newline does. */
  lemma NewlineBehindWord(word: string, more: string, rest: string)
    requires word != "" && WordEnd(word) == |word|
    requires NewlineSplits(more, rest)
    ensures NewlineSplits(word + " " + more, rest)
  {
    WordThen(word, ' ', more);
    WordThen(word, ' ', more + "\n" + rest);
    hide Args, WordEnd;
    MoreBehind(word, more, rest);
    OneMoreArg(word, Args(more), if NewlineEnds(more) then [] else Args(rest));
  }

  lemma MoreBehind(word: string, more: string, rest: string)
    ensures word + " " + more + "\n" + rest == word + " " + (more + "\n" + rest)
    ensures NewlineEnds(word + " " + more) <==> NewlineEnds(more)
  {
  }

  lemma OneMoreArg(word: string, args: seq<string>, tail: seq<string>)
    ensures [word] + (args + tail) == [word] + args + tail
  {
  }

  // ----- the tokenizer -----

  /** Does the C string s start at this place of the buffer? */
  predicate StringAt(buf: seq<char>, at: nat, s: string) {
    at + |s| < |buf| && buf[at..at + |s|] == s && buf[at + |s|] == '\0'
  }

  ghost predicate StringsAt(buf: seq<char>, at: seq<int>, strings: seq<string>) {
    |at| == |strings| && forall k | 0 <= k < |at| :: at[k] >= 0 && StringAt(buf, at[k], strings[k])
  }

  /** All those strings, and the NULs behind them, lie in front of scan; the last NUL may be the one that
      ends the text. */
  ghost predicate InFront(at: seq<int>, strings: seq<string>, scan: nat, end: nat) {
    |at| == |strings| && forall k | 0 <= k < |at| :: at[k] + |strings[k]| < scan || at[k] + |strings[k]| == scan == end
  }

  /** The separators are skipped, the rest of the text is still to be cut. */
  ghost predicate Cutting(buf: seq<char>, scan: nat, end: nat) {
    scan <= end < |buf| && buf[end] == '\0' && '\0' !in buf[scan..end]
  }

  /** ece391_strcpy of a string into a buffer. */
  method CopyString(buf: array<char>, at: nat, s: string)
    requires at + |s| < buf.Length
    modifies buf
    ensures buf[..] == old(buf[..at]) + s + "\0" + old(buf[at + |s| + 1..])
  {
    var i := 0;
    while i < |s|
      invariant i <= |s|
      invariant buf[..] == old(buf[..at]) + s[..i] + old(buf[at + i..])
    {
      buf[at + i] := s[i];
      i := i + 1;
    }
    buf[at + i] := '\0';
    assert s[..i] == s;
  }

  /** Moves scan over the rest of a word. */
  method SkipWord(buf: array<char>, from: nat, ghost end: nat) returns (scan: nat)
    requires Cutting(buf[..], from, end)
    ensures scan == from + WordEnd(buf[from..end])
  {
    scan := from;
    while '\0' != buf[scan] && ' ' != buf[scan] && '\n' != buf[scan]
      invariant from <= scan <= end
      invariant WordEnd(buf[from..end]) == scan - from + WordEnd(buf[scan..end])
      decreases end - scan
    {
      assert scan < end;
      assert buf[scan..end][1..] == buf[scan + 1..end];
      scan := scan + 1;
    }
    assert scan < end ==> buf[from..end][scan - from] == buf[scan] && buf[scan..end][0] == buf[scan];
  }

  method SkipSpaces(buf: array<char>, from: nat, ghost end: nat) returns (scan: nat)
    requires Cutting(buf[..], from, end)
    ensures from <= scan <= end && buf[scan] != ' '
    ensures Args(buf[scan..end]) == Args(buf[from..end])
  {
    scan := from;
    while ' ' == buf[scan]
      invariant from <= scan <= end
      invariant Args(buf[scan..end]) == Args(buf[from..end])
      decreases end - scan
    {
      assert buf[scan..end][1..] == buf[scan + 1..end];
      scan := scan + 1;
    }
  }

  lemma StringsKept(buf: seq<char>, buf': seq<char>, at: seq<int>, strings: seq<string>, scan: nat, end: nat)
    requires StringsAt(buf, at, strings) && InFront(at, strings, scan, end) && |buf| == |buf'| && scan < |buf|
    requires buf'[..scan] == buf[..scan] && (scan == end ==> buf'[scan] == buf[scan])
    ensures StringsAt(buf', at, strings)
  {
    forall j | 0 <= j < scan ensures buf'[j] == buf[j] {
      assert buf'[..scan][j] == buf[..scan][j];
    }
    forall k | 0 <= k < |at| ensures StringAt(buf', at[k], strings[k]) {
      var from, to := at[k], at[k] + |strings[k]|;
      assert StringAt(buf, from, strings[k]) && to <= scan;
      assert buf'[from..to] == buf[from..to];
    }
  }

  /** Where the loop is: the strings found lie in front of scan, the others are those of the text behind it. */
  ghost predicate Cut(buf: seq<char>, at: seq<int>, done: seq<string>, scan: nat, end: nat, all: seq<string>) {
    && Cutting(buf, scan, end)
    && StringsAt(buf, at, done) && InFront(at, done, scan, end)
    && |done| + 2 <= scan
    && done + Args(buf[scan..end]) == all
  }

  lemma CutStrings(buf: seq<char>, buf': seq<char>, at: seq<int>, done: seq<string>, from: nat, to: nat, end: nat)
    requires Cutting(buf, from, end) && StringsAt(buf, at, done) && InFront(at, done, from, end)
    requires from < to <= end && buf' == buf[to := '\0']
    ensures StringsAt(buf', at + [from], done + [buf[from..to]])
    ensures InFront(at + [from], done + [buf[from..to]], if to < end then to + 1 else to, end)
  {
    assert buf'[from..to] == buf[from..to];
    assert StringAt(buf', from, buf[from..to]);
    StringsKept(buf, buf', at, done, from, end);
  }

  lemma CutRest(buf: seq<char>, buf': seq<char>, from: nat, to: nat, end: nat)
    requires Cutting(buf, from, end) && from < end && !Separates(buf[from])
    requires to == from + WordEnd(buf[from..end]) && buf' == buf[to := '\0']
    ensures from < to <= end
    ensures var scan := if to < end then to + 1 else to;
      && Cutting(buf', scan, end)
      && Args(buf[from..end]) == [buf[from..to]] + Args(buf'[scan..end])
  {
    hide Args, WordEnd;
    var text := buf[from..end];
    var scan := if to < end then to + 1 else to;
    ArgsStep(text);
    assert buf[from..to] == text[..to - from] && text[0] == buf[from];
    assert buf'[scan..end] == buf[scan..end] == if to < end then text[to - from + 1..] else "";
    assert text[scan - from..] == buf[scan..end];
  }

  lemma CutStep(buf: seq<char>, buf': seq<char>, at: seq<int>, done: seq<string>, from: nat, end: nat, all: seq<string>)
    requires Cut(buf, at, done, from, end, all) && from < end && !Separates(buf[from])
    requires var to := from + WordEnd(buf[from..end]); buf' == buf[to := '\0']
    ensures var to := from + WordEnd(buf[from..end]);
      Cut(buf', at + [from], done + [buf[from..to]], if to < end then to + 1 else to, end, all)
  {
    hide Args, WordEnd;
    var to := from + WordEnd(buf[from..end]);
    var scan, word := if to < end then to + 1 else to, buf[from..to];
    CutRest(buf, buf', from, to, end);
    CutStrings(buf, buf', at, done, from, to, end);
    var rest := Args(buf'[scan..end]);
    calc {
      all;
      done + Args(buf[from..end]);
      done + ([word] + rest);
      (done + [word]) + rest;
    }
  }

  /** Cuts one word off the text. */
  method CutWord(buf: array<char>, args: array<int>, n: nat, from: nat, ghost end: nat, ghost done: seq<string>,
                 ghost all: seq<string>)
    returns (scan: nat, ghost done': seq<string>)
    requires n < args.Length == MAX_ARGS && Cut(buf[..], args[..n], done, from, end, all)
    requires buf[from] != ' ' && buf[from] != '\0' && buf[from] != '\n'
    modifies buf, args
    ensures from < scan && Cut(buf[..], args[..n + 1], done', scan, end, all)
  {
    hide Args, StringsAt, InFront;
    ghost var was, at := buf[..], args[..n];
    assert was[from..end][0] == was[from];
    var to := SkipWord(buf, from, end);
    CutStep(was, was[to := '\0'], at, done, from, end, all);
    scan := EndWord(buf, to, end);
    args[n] := from;
    done' := done + [was[from..to]];
    assert args[..n + 1] == at + [from];
  }

  /** Closes a word with a NUL and steps over it, unless the text ends here. */
  method EndWord(buf: array<char>, at: nat, ghost end: nat) returns (scan: nat)
    requires at <= end < buf.Length && buf[end] == '\0' && (at < end ==> buf[at] != '\0')
    modifies buf
    ensures buf[..] == old(buf[..])[at := '\0']
    ensures scan == if at < end then at + 1 else at
  {
    scan := at;
    if '\0' != buf[scan] {
      buf[scan] := '\0';
      scan := scan + 1;
    }
  }

  const NULL := -1

  /** Writes the path and the command into the buffer and finds the end of the program name. */
  method LayOut(command: string, buf: array<char>) returns (scan: nat)
    requires '\0' !in command && |command| <= MAX_COMMAND && buf.Length == BUFFER
    modifies buf
    ensures scan == 2 + WordEnd(command)
    ensures Cutting(buf[..], scan, 2 + |command|)
    ensures buf[..scan] == "./" + command[..WordEnd(command)]
    ensures buf[scan..2 + |command|] == command[WordEnd(command)..]
  {
    buf[0], buf[1] := '.', '/';
    CopyString(buf, 2, command);
    ghost var end := 2 + |command|;
    assert buf[2..end] == command && buf[end] == '\0' && buf[..2] == "./";
    scan := SkipWord(buf, 2, end);
    assert buf[..scan] == buf[..2] + buf[2..end][..scan - 2];
    assert buf[scan..end] == buf[2..end][scan - 2..];
  }

  /** The first part of ece391_execute: the path and the arguments as strings inside the buffer. Every
      command of at most 1023 characters stays inside both arrays. */
  method Tokenize(command: string, buf: array<char>, args: array<int>) returns (ok: bool, n: nat)
    requires '\0' !in command && buf.Length == 1026 && args.Length == 1024
    modifies buf, args
    ensures ok <==> |command| <= 1023
    ensures ok ==> n < MAX_ARGS && args[n] == NULL && StringsAt(buf[..], args[..n], Tokens(command))
  {
    if MAX_COMMAND < |command| {
      return false, 0;
    }
    ghost var end := 2 + |command|;
    var scan := LayOut(command, buf);
    args[0] := 0;
    n := 1;
    ghost var path := buf[..scan];
    assert args[..1] == [0];
    if '\0' != buf[scan] {
      ghost var rest := buf[scan..end];
      buf[scan] := '\0';
      assert StringAt(buf[..], 0, path);
      scan := scan + 1;
      assert buf[scan..end] == rest[1..] && rest[1..] == command[scan - 2..];
      n := ParseArgs(buf, args, scan, end, [path], Tokens(command));
    } else {
      assert StringAt(buf[..], 0, path);
    }
    ghost var found := args[..n];
    args[n] := NULL;
    ok := true;
    assert args[..n] == found;
  }

  /** The loop over the arguments, behind the program name. */
  method ParseArgs(buf: array<char>, args: array<int>, from: nat, ghost end: nat, ghost first: seq<string>,
                   ghost all: seq<string>)
    returns (n: nat)
    requires buf.Length == BUFFER && args.Length == MAX_ARGS && |first| == 1 && end < BUFFER
    requires Cut(buf[..], args[..1], first, from, end, all)
    modifies buf, args
    ensures n < MAX_ARGS && StringsAt(buf[..], args[..n], all)
  {
    n := 1;
    var scan := from;
    ghost var done := first;
    while true
      invariant n < MAX_ARGS && Cut(buf[..], args[..n], done, scan, end, all)
      decreases end - scan
    {
      scan := SkipSpaces(buf, scan, end);
      if '\0' == buf[scan] || '\n' == buf[scan] {
        assert Args(buf[scan..end]) == [];
        StringsKept(buf[..], buf[..][scan := '\0'], args[..n], done, scan, end);
        buf[scan] := '\0';
        return;
      }
      scan, done := CutWord(buf, args, n, scan, end, done, all);
      n := n + 1;
    }
  }

  /** The first k arguments, a space behind each of them. */
  function Lead(args: seq<string>, k: nat): string
    requires k <= |args|
  {
    if k == 0 then "" else Lead(args, k - 1) + args[k - 1] + " "
  }

  lemma {:induction false} JoinFrom(args: seq<string>, k: nat)
    requires k < |args|
    ensures Join(args) == Lead(args, k) + Join(args[k..])
  {
    if k == 0 {
      assert args[0..] == args;
    } else {
      JoinFrom(args, k - 1);
      assert args[k - 1..][1..] == args[k..];
      assert Lead(args, k - 1) + (args[k - 1] + " " + Join(args[k..])) == Lead(args, k) + Join(args[k..]);
    }
  }

  /** What getargs needs of the caller's buffer to succeed: room for the joined arguments and the NUL. */
  predicate Fits(args: seq<string>, nbytes: int) {
    |Join(args)| + 1 <= nbytes
  }

  /** The tests of getargs at argument k, when the arguments before it have been written. */
  lemma FitsFrom(args: seq<string>, k: nat, nbytes: int)
    requires k < |args|
    ensures |Lead(args, k)| + |args[k]| > nbytes ==> !Fits(args, nbytes)
    ensures k + 1 < |args| && |Lead(args, k)| + |args[k]| >= nbytes ==> !Fits(args, nbytes)
    ensures k + 1 < |args| ==> Lead(args, k + 1) == Lead(args, k) + args[k] + " "
    ensures k + 1 == |args| ==> Join(args) == Lead(args, k) + args[k]
  {
    JoinFrom(args, k);
  }

  /** What the buffer holds when k arguments have been written. */
  function Written(args: seq<string>, k: nat): string
    requires k <= |args|
  {
    if k < |args| then Lead(args, k) else Join(args)
  }

  /** The body of the loop of getargs: one argument and, unless it is the last, a space behind it. */
  method PutArg(argv: seq<string>, idx: nat, buf: array<char>, from: nat, nbytes: int) returns (ok: bool, at: nat)
    requires idx < |argv| && nbytes < buf.Length && from <= buf.Length && buf[..from] == Written(argv, idx)
    modifies buf
    ensures !ok ==> !Fits(argv, nbytes)
    ensures ok ==> at <= nbytes && buf[..at] == Written(argv, idx + 1)
    ensures forall k | 0 <= k < buf.Length && k > nbytes :: buf[k] == old(buf[k])
  {
    FitsFrom(argv, idx, nbytes);
    var len, left := |argv[idx]|, nbytes - from;
    if len > left {
      return false, from;
    }
    PutString(buf, from, argv[idx]);
    at, left := from + len, left - len;
    if idx + 1 >= |argv| {
      return true, at;
    }
    if left < 1 {
      return false, at;
    }
    PutSpace(buf, at);
    return true, at + 1;
  }

  /**
   ece391_getargs: argv are the arguments behind the program name. The buffer has one byte more than it is
   said to have, since a call that fails may leave a NUL in it.
   */
  method GetArgs(argv: seq<string>, buf: array<char>, nbytes: int) returns (r: int)
    requires (forall s | s in argv :: '\0' !in s) && nbytes < buf.Length
    modifies buf
    ensures r == if Fits(argv, nbytes) then 0 else -1
    ensures r == 0 ==> StringAt(buf[..], 0, Join(argv))
    ensures forall k | 0 <= k < buf.Length && k > nbytes :: buf[k] == old(buf[k])
  {
    var at, idx := 0, 0;
    while idx < |argv|
      invariant 0 <= idx <= |argv| && 0 <= at <= buf.Length && (idx > 0 ==> at <= nbytes)
      invariant forall k | 0 <= k < buf.Length && k > nbytes :: buf[k] == old(buf[k])
      invariant buf[..at] == Written(argv, idx)
    {
      var ok;
      ok, at := PutArg(argv, idx, buf, at, nbytes);
      if !ok {
        return -1;
      }
      idx := idx + 1;
    }
    if nbytes - at < 1 {
      return -1;
    }
    ghost var joined := buf[..at];
    buf[at] := '\0';
    assert buf[..at] == joined;
    r := 0;
  }

  method PutString(buf: array<char>, at: nat, s: string)
    requires at + |s| < buf.Length
    modifies buf
    ensures buf[..at + |s|] == old(buf[..at]) + s
    ensures forall k | at + |s| < k < buf.Length :: buf[k] == old(buf[k])
  {
    ghost var back := buf[at + |s| + 1..];
    CopyString(buf, at, s);
    assert buf[at + |s| + 1..] == back;
    forall k | at + |s| < k < buf.Length ensures buf[k] == old(buf[k]) {
      assert buf[k] == buf[at + |s| + 1..][k - (at + |s| + 1)];
    }
  }

  method PutSpace(buf: array<char>, at: nat)
    requires at < buf.Length
    modifies buf
    ensures buf[..at + 1] == old(buf[..at]) + " "
    ensures forall k | at < k < buf.Length :: buf[k] == old(buf[k])
  {
    buf[at] := ' ';
  }
}
