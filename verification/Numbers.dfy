/**
 Printing numbers: the digits are emitted in reverse and the string is then reversed in place.
 */
module Numbers {
  import opened Arithmetic

  const MAX_RADIX := 36
  const WORD := 0x1_0000_0000

  predicate Radix(radix: int) {
    2 <= radix <= MAX_RADIX
  }

  /** The table of digits: 0 to 9, then A to Z. */
  function Digit(d: nat): (c: char)
    requires d < MAX_RADIX
  {
    if d < 10 then '0' + d as char else 'A' + (d - 10) as char
  }

  /** The digits of a number, without a leading zero; none for 0. */
  function Digits(value: nat, radix: int): (s: string)
    requires Radix(radix)
    decreases value
  {
    if value == 0 then "" else Digits(value / radix, radix) + [Digit(value % radix)]
  }

  function Numeral(value: nat, radix: int): string
    requires Radix(radix)
  {
    if value == 0 then "0" else Digits(value, radix)
  }

  /** The value of a digit, or a number too large to be one. */
  function DigitValue(c: char): (d: nat)
    ensures d < MAX_RADIX ==> Digit(d) == c
  {
    if '0' <= c <= '9' then c as int - '0' as int
    else if 'A' <= c <= 'Z' then c as int - 'A' as int + 10
    else MAX_RADIX
  }

  predicate IsDigits(s: string, radix: int) {
    forall i | 0 <= i < |s| :: DigitValue(s[i]) < radix
  }

  /** The number a string of digits stands for. */
  function Parse(s: string, radix: int): nat
    requires Radix(radix)
  {
    if s == "" then 0 else Parse(s[..|s| - 1], radix) * radix + DigitValue(s[|s| - 1])
  }

  function Reverse(s: string): (r: string)
    ensures |r| == |s|
  {
    seq(|s|, i requires 0 <= i < |s| => s[|s| - 1 - i])
  }

  function Pow2(n: nat): (p: nat)
    ensures p > 0
  {
    if n == 0 then 1 else 2 * Pow2(n - 1)
  }

  // ----- the round trip -----

  /** Division by a radix: the quotient is at most half of the number. */
  lemma Divide(value: nat, radix: int)
    requires Radix(radix)
    ensures value == (value / radix) * radix + value % radix && 0 <= value % radix < radix
    ensures 2 * (value / radix) <= value
    ensures value > 0 ==> value / radix < value
  {
    TwiceAtMost(value / radix, radix);
  }

  /** The digits are those of the table. */
  lemma DigitTable(d: nat)
    requires d < 36
    ensures Digit(d) == "0123456789ABCDEFGHIJKLMNOPQRSTUVWXYZ"[d]
  {
  }

  lemma DigitRoundTrip(d: nat)
    requires d < MAX_RADIX
    ensures DigitValue(Digit(d)) == d
  {
  }

  lemma ParseSnoc(s: string, c: char, radix: int)
    requires Radix(radix)
    ensures Parse(s + [c], radix) == Parse(s, radix) * radix + DigitValue(c)
  {
    assert (s + [c])[..|s|] == s;
  }

  lemma {:induction false} ParseDigits(value: nat, radix: int)
    requires Radix(radix)
    ensures IsDigits(Digits(value, radix), radix)
    ensures Parse(Digits(value, radix), radix) == value
    ensures value > 0 ==> Digits(value, radix) != "" && Digits(value, radix)[0] != '0'
    decreases value
  {
    if value > 0 {
      var upper, d := value / radix, value % radix;
      Divide(value, radix);
      ParseDigits(upper, radix);
      DigitRoundTrip(d);
      ParseSnoc(Digits(upper, radix), Digit(d), radix);
      if upper == 0 {
        assert Digit(d) != '0';
      }
    }
  }

  /** Parsing what is printed gives the number back, and nothing printed starts with a superfluous zero. */
  lemma ParseNumeral(value: nat, radix: int)
    requires Radix(radix)
    ensures var s := Numeral(value, radix);
      && IsDigits(s, radix) && Parse(s, radix) == value
      && s != "" && (s[0] == '0' <==> value == 0) && (value == 0 ==> s == "0")
  {
    ParseDigits(value, radix);
    assert value == 0 ==> "0"[..0] == "";
  }

  /** No two strings stand for the same number: digits without a leading zero are printed as they are. */
  lemma {:induction false} DigitsOfParse(s: string, radix: int)
    requires Radix(radix) && IsDigits(s, radix) && (s != "" ==> s[0] != '0')
    ensures Digits(Parse(s, radix), radix) == s
    ensures s != "" ==> Parse(s, radix) > 0
  {
    if s != "" {
      var front, last := s[..|s| - 1], s[|s| - 1];
      assert DigitValue(last) < radix;
      DigitsOfParse(front, radix);
      QuotientUnique(Parse(s, radix), radix, Parse(front, radix), DigitValue(last));
      assert s == front + [last];
      if front == "" {
        assert last != '0';
      } else {
        Multiple(Parse(front, radix), radix);
      }
    }
  }

  lemma {:induction false} DigitsStep(value: nat, radix: int, upper: nat, digit: char)
    requires Radix(radix) && value > 0 && upper == value / radix && digit == Digit(value % radix)
    ensures upper < value && 2 * upper <= value && Digits(value, radix) == Digits(upper, radix) + [digit]
  {
    Divide(value, radix);
  }

  lemma {:induction false} DigitsLength(value: nat, n: nat, radix: int)
    requires Radix(radix) && value < Pow2(n)
    ensures |Digits(value, radix)| <= n
    decreases n
  {
    if value > 0 {
      var upper, digit := value / radix, Digit(value % radix);
      DigitsStep(value, radix, upper, digit);
      DigitsLength(upper, n - 1, radix);
    }
  }

  lemma {:induction false} HexLength(value: nat, n: nat)
    requires value < Pow2(4 * n)
    ensures |Digits(value, 16)| <= n
    decreases n
  {
    if value > 0 {
      assert Pow2(4 * n) == 2 * Pow2(4 * n - 1) == 4 * Pow2(4 * n - 2) == 8 * Pow2(4 * n - 3) == 16 * Pow2(4 * (n - 1));
      HexLength(value / 16, n - 1);
    }
  }

  lemma WordBits()
    ensures Pow2(32) == WORD
  {
    assert Pow2(8) == 0x100;
    assert Pow2(16) == 0x1_0000;
    assert Pow2(24) == 0x100_0000;
  }

  /** Zeros in front do not change the number. */
  lemma {:induction false} ParsePadded(zeros: string, s: string, radix: int)
    requires Radix(radix) && forall i | 0 <= i < |zeros| :: zeros[i] == '0'
    ensures Parse(zeros + s, radix) == Parse(s, radix)
    decreases |zeros| + |s|
  {
    if s != "" {
      assert (zeros + s)[..|zeros + s| - 1] == zeros + s[..|s| - 1];
      ParsePadded(zeros, s[..|s| - 1], radix);
    } else if zeros != "" {
      var front := zeros[..|zeros| - 1];
      assert (zeros + s)[..|zeros| - 1] == front + s;
      ParsePadded(front, s, radix);
    }
  }

  // ----- the code -----

  /** Does the buffer hold this C string at that place? */
  predicate Holds(buf: seq<char>, at: nat, s: string) {
    at + |s| < |buf| && buf[at..at + |s|] == s && buf[at + |s|] == '\0' && '\0' !in s
  }

  method Strlen(buf: array<char>, at: nat, ghost s: string) returns (len: nat)
    requires Holds(buf[..], at, s)
    ensures len == |s|
  {
    len := 0;
    while buf[at + len] != '\0'
      invariant len <= |s|
      decreases |s| - len
    {
      assert len < |s|;
      len := len + 1;
    }
  }

  lemma ReverseNotIn(s: string, c: char)
    requires c !in s
    ensures c !in Reverse(s)
  {
  }

  /** A string with its first n characters and its last n exchanged in mirror order. */
  function Mirror(s: string, n: nat): (r: string)
    ensures |r| == |s|
  {
    seq(|s|, k requires 0 <= k < |s| => if k < n || k >= |s| - n then s[|s| - 1 - k] else s[k])
  }

  lemma MirrorStep(front: string, s: string, back: string, n: nat)
    requires 2 * n + 1 < |s|
    ensures var (i, j) := (|front| + n, |front| + |s| - 1 - n);
      var all := front + Mirror(s, n) + back;
      all[i := all[j]][j := all[i]] == front + Mirror(s, n + 1) + back
  {
  }

  lemma MirrorEnds(s: string, n: nat)
    requires 2 * n + 1 >= |s|
    ensures Mirror(s, 0) == s && Mirror(s, n) == Reverse(s)
  {
  }

  lemma HoldsBetween(front: string, s: string, back: string)
    requires back != "" && back[0] == '\0' && '\0' !in s
    ensures Holds(front + s + back, |front|, s)
  {
    assert (front + s + back)[|front|..|front| + |s|] == s;
  }

  method Swap(buf: array<char>, beg: nat, end: nat)
    requires beg < end < buf.Length
    modifies buf
    ensures buf[..] == old(buf[..])[beg := old(buf[end])][end := old(buf[beg])]
  {
    var tmp := buf[end];
    buf[end] := buf[beg];
    buf[beg] := tmp;
  }

  /** strrev, in place. */
  method Strrev(buf: array<char>, at: nat, ghost s: string)
    requires Holds(buf[..], at, s)
    modifies buf
    ensures Holds(buf[..], at, Reverse(s))
    ensures buf[..] == old(buf[..at]) + Reverse(s) + old(buf[at + |s|..])
  {
    hide Mirror, Reverse;
    var len := Strlen(buf, at, s);
    ghost var front, back := buf[..at], buf[at + len..];
    MirrorEnds(s, len);
    assert buf[..] == front + s + back;
    assert back[0] == buf[at + len];
    var beg: int, end: int := 0, len as int - 1;
    while beg < end
      invariant beg + end + 1 == len && 0 <= beg <= end + 2
      invariant buf[..] == front + Mirror(s, beg) + back
    {
      MirrorStep(front, s, back, beg);
      Swap(buf, at + beg, at + end);
      beg := beg + 1;
      end := end - 1;
    }
    MirrorEnds(s, beg);
    ReverseNotIn(s, '\0');
    HoldsBetween(front, Reverse(s), back);
  }

  lemma {:induction false} DigitsNotNul(value: nat, radix: int)
    requires Radix(radix)
    ensures '\0' !in Digits(value, radix)
  {
    ParseDigits(value, radix);
    assert DigitValue('\0') == MAX_RADIX;
  }

  lemma ReverseSnoc(s: string, c: char)
    ensures Reverse(s + [c]) == [c] + Reverse(s)
  {
  }

  lemma ReverseTwice(s: string)
    ensures Reverse(Reverse(s)) == s
  {
  }

  /** Are these the digits of a number from the last one on, with those of rest still to come? */
  ghost predicate Emitted(value: nat, radix: int, rest: nat, digits: string)
    requires Radix(radix)
  {
    Digits(value, radix) == Digits(rest, radix) + Reverse(digits)
  }

  lemma EmitStep(value: nat, radix: int, rest: nat, rest': nat, digits: string, digit: char)
    requires Radix(radix) && Emitted(value, radix, rest, digits)
    requires Digits(rest, radix) == Digits(rest', radix) + [digit]
    ensures |digits| < |Digits(value, radix)|
    ensures Emitted(value, radix, rest', digits + [digit])
  {
    ReverseSnoc(digits, digit);
  }

  method LastDigit(value: nat, radix: int) returns (upper: nat, digit: char)
    requires Radix(radix) && value > 0
    ensures upper < value && Digits(value, radix) == Digits(upper, radix) + [digit]
  {
    digit := Digit(value % radix);
    upper := value / radix;
    DigitsStep(value, radix, upper, digit);
  }

  lemma EmittedAll(value: nat, radix: int, emitted: string)
    requires Radix(radix) && value > 0 && Emitted(value, radix, 0, emitted)
    ensures '\0' !in emitted && Reverse(emitted) == Numeral(value, radix)
  {
    DigitsNotNul(value, radix);
    ReverseTwice(emitted);
    ReverseNotIn(Digits(value, radix), '\0');
  }

  /** One turn of the loop of itoa. */
  method EmitDigit(ghost value: nat, buf: array<char>, at: nat, radix: int, n: nat, rest: nat) returns (rest': nat)
    requires Radix(radix) && rest > 0 && at + n < buf.Length && Emitted(value, radix, rest, buf[at..at + n])
    modifies buf
    ensures rest' < rest && n < |Digits(value, radix)|
    ensures Emitted(value, radix, rest', buf[at..at + n + 1])
    ensures forall k | 0 <= k < buf.Length && k != at + n :: buf[k] == old(buf[k])
  {
    ghost var before := buf[at..at + n];
    var digit;
    rest', digit := LastDigit(rest, radix);
    buf[at + n] := digit;
    assert buf[at..at + n + 1] == before + [digit];
    EmitStep(value, radix, rest, rest', before, digit);
  }

  /** The loop of itoa: the digits come out in reverse. */
  method EmitDigits(value: nat, buf: array<char>, at: nat, radix: int) returns (n: nat)
    requires value < WORD && Radix(radix) && at + 33 <= buf.Length
    modifies buf
    ensures n <= 32 && Emitted(value, radix, 0, buf[at..at + n])
    ensures forall k | 0 <= k < buf.Length && !(at <= k < at + 33) :: buf[k] == old(buf[k])
  {
    n := 0;
    var rest: nat := value;
    WordBits();
    DigitsLength(value, 32, radix);
    while rest > 0
      invariant n <= 32 && Emitted(value, radix, rest, buf[at..at + n])
      invariant forall k | 0 <= k < buf.Length && !(at <= k < at + 33) :: buf[k] == old(buf[k])
    {
      rest := EmitDigit(value, buf, at, radix, n, rest);
      n := n + 1;
    }
  }

  /** itoa: at most 32 digits and the NUL are written. */
  method Itoa(value: nat, buf: array<char>, at: nat, radix: int)
    requires value < WORD && Radix(radix) && at + 33 <= buf.Length
    modifies buf
    ensures Holds(buf[..], at, Numeral(value, radix)) && |Numeral(value, radix)| <= 32
    ensures forall k | 0 <= k < buf.Length && !(at <= k < at + 33) :: buf[k] == old(buf[k])
  {
    if value == 0 {
      buf[at] := '0';
      buf[at + 1] := '\0';
      return;
    }
    hide Emitted, Digits;
    var n := EmitDigits(value, buf, at, radix);
    ghost var emitted := buf[at..at + n];
    EmittedAll(value, radix, emitted);
    buf[at + n] := '\0';
    assert buf[..][at..at + n] == emitted;
    Strrev(buf, at, emitted);
  }

  /** The characters puts writes. */
  method Puts(buf: array<char>, at: nat, ghost s: string) returns (text: string)
    requires Holds(buf[..], at, s)
    ensures text == s
  {
    var len := Strlen(buf, at, s);
    text := buf[at..at + len];
  }

  /** What %#x prints: always eight digits, with the same value. */
  method FormatPadded(value: nat) returns (s: string)
    requires value < WORD
    ensures |s| == 8 && IsDigits(s, 16) && Parse(s, 16) == value
  {
    hide Digits, Parse;
    var buf := new char[64];
    Itoa(value, buf, 8, 16);
    ghost var digits := Numeral(value, 16);
    var start := Strlen(buf, 8, digits);
    assert start <= 8 by {
      WordBits();
      HexLength(value, 8);
    }
    var i := start;
    while i < 8
      invariant start <= i <= 8
      invariant forall k | start <= k < i :: buf[k] == '0'
      invariant Holds(buf[..], 8, digits)
    {
      buf[i] := '0';
      i := i + 1;
    }
    ghost var zeros := buf[start..8];
    assert Holds(buf[..], start, zeros + digits);
    s := Puts(buf, start, zeros + digits);
    ParseNumeral(value, 16);
    ParsePadded(zeros, digits, 16);
  }

  /** What %d prints: the digits of the magnitude, also for the least number. */
  method FormatSigned(value: int) returns (s: string)
    requires -0x8000_0000 <= value < 0x8000_0000
    ensures s == if value < 0 then "-" + Numeral(-value, 10) else Numeral(value, 10)
  {
    var buf := new char[36];
    if value < 0 {
      ghost var digits := Numeral(-value, 10);
      buf[0] := '-';
      Itoa(-value, buf, 1, 10);
      assert Holds(buf[..], 0, "-" + digits);
      s := Puts(buf, 0, "-" + digits);
    } else {
      Itoa(value, buf, 0, 10);
      s := Puts(buf, 0, Numeral(value, 10));
    }
  }
}
