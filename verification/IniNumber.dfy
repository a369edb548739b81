/** `sprintf("%d")` and `atoi`, which carry integers through the string store. */
module IniNumber {
  import opened Base

  type int32 = x: int | -0x8000_0000 <= x < 0x8000_0000

  /** `sprintf("%d", v)`. */
  function Itoa(v: int): string {
    if v < 0 then "-" + Digits(-v) else Digits(v)
  }

  predicate IsDigit(c: char) {
    '0' <= c <= '9'
  }

  /** The number in the leading digits of `s`, continuing from `acc`. */
  function Accumulate(s: string, acc: nat): nat {
    if s != [] && IsDigit(s[0]) then Accumulate(s[1..], 10 * acc + (s[0] as int - '0' as int)) else acc
  }

  function SkipSpace(s: string): string {
    if s != [] && (s[0] == ' ' || '\t' <= s[0] <= '\r') then SkipSpace(s[1..]) else s
  }

  /** `atoi(s)`, on values that fit an `int`. */
  function Atoi(s: string): int {
    var t := SkipSpace(s);
    if t != [] && t[0] == '-' then 0 - Accumulate(t[1..], 0) as int
    else if t != [] && t[0] == '+' then Accumulate(t[1..], 0)
    else Accumulate(t, 0)
  }

  lemma {:induction false} AccumulateLast(s: string, c: char, acc: nat)
    requires AllDigits(s) && '0' <= c <= '9'
    ensures Accumulate(s + [c], acc) == 10 * Accumulate(s, acc) + (c as int - '0' as int)
  {
    var t := s + [c];
    if s == [] {
      assert t[1..] == [];
    } else {
      assert t[1..] == s[1..] + [c] && t[0] == s[0];
      AccumulateLast(s[1..], c, 10 * acc + (s[0] as int - '0' as int));
    }
  }

  /** A row of digits is read in full. */
  lemma {:induction false} AccumulateIsDecimal(d: string)
    requires AllDigits(d)
    ensures Accumulate(d, 0) == DecimalValue(d)
  {
    if d != "" {
      var n := |d| - 1;
      assert d == d[..n] + [d[n]];
      AccumulateIsDecimal(d[..n]);
      AccumulateLast(d[..n], d[n], 0);
    }
  }

  /** What follows the digits and is none ends the number and does not change it. */
  lemma {:induction false} AccumulateStops(d: string, rest: string, acc: nat)
    requires AllDigits(d) && (rest == "" || !('0' <= rest[0] <= '9'))
    ensures Accumulate(d + rest, acc) == Accumulate(d, acc)
  {
    if d == "" {
      assert d + rest == rest;
    } else {
      assert (d + rest)[0] == d[0] && (d + rest)[1..] == d[1..] + rest;
      AccumulateStops(d[1..], rest, 10 * acc + (d[0] as int - '0' as int));
    }
  }

  lemma DigitsReadBack(n: nat)
    ensures Digits(n) != [] && AllDigits(Digits(n)) && Accumulate(Digits(n), 0) == n
  {
    DigitsAreDecimal(n);
    AccumulateIsDecimal(Digits(n));
  }

  /** A printed integer reads back as itself. */
  lemma ItoaReadsBack(v: int)
    ensures Atoi(Itoa(v)) == v
  {
    if v < 0 {
      DigitsReadBack(-v);
      assert ("-" + Digits(-v))[1..] == Digits(-v);
    } else {
      DigitsReadBack(v);
    }
  }

  /** Every 32-bit integer, with its terminator, fits the 32-byte buffer it is printed into. */
  lemma ItoaFits(v: int32)
    ensures 0 < |Itoa(v)| <= 11
  {
    assert Pow10(10) == 10_000_000_000 by {
      assert Pow10(4) == 10_000;
      assert Pow10(7) == 10_000_000;
    }
    if v < 0 { DigitsLength(0 - v as int, 10); } else { DigitsLength(v, 10); }
  }

  // ----- any text as a number -----

  /** White space as `atoi` knows it: blank, tab, newline, vertical tab, form feed, return. */
  predicate WhiteChar(c: char) {
    c == ' ' || c == 9 as char || c == 10 as char || c == 11 as char || c == 12 as char || c == 13 as char
  }

  predicate White(s: string) {
    forall i :: 0 <= i < |s| ==> WhiteChar(s[i])
  }

  predicate Sign(s: string) {
    s == "" || s == "+" || s == "-"
  }

  predicate DigitFirst(s: string) {
    s != "" && '0' <= s[0] <= '9'
  }

  /** The text is white space, perhaps a sign, digits that stand for the number, and then anything
      that is no digit. */
  ghost predicate NumberText(text: string, v: int) {
    exists w, sign, d, rest :: IsNumberText(text, w, sign, d, rest)
                               && v == if sign == "-" then 0 - DecimalValue(d) as int else DecimalValue(d)
  }

  predicate IsNumberText(text: string, w: string, sign: string, d: string, rest: string) {
    White(w) && Sign(sign) && d != "" && AllDigits(d) && !DigitFirst(rest) && text == w + sign + d + rest
  }

  /** There is no digit where one would have to stand. */
  ghost predicate NoNumber(text: string) {
    exists w, sign, rest :: IsNoNumber(text, w, sign, rest)
  }

  predicate IsNoNumber(text: string, w: string, sign: string, rest: string) {
    && White(w) && Sign(sign) && !DigitFirst(rest) && text == w + sign + rest
    && (sign == "" && rest != "" ==> !WhiteChar(rest[0]) && rest[0] != '+' && rest[0] != '-')
  }

  lemma {:induction false} SkipsWhite(w: string, s: string)
    requires White(w) && (s == "" || !WhiteChar(s[0]))
    ensures SkipSpace(w + s) == s
  {
    if w == "" {
      assert w + s == s;
    } else {
      assert (w + s)[0] == w[0] && (w + s)[1..] == w[1..] + s;
      SkipsWhite(w[1..], s);
    }
  }

  lemma SignedReads(sign: string, t: string)
    requires Sign(sign) && (sign == "" && t != "" ==> t[0] != '+' && t[0] != '-')
    requires sign == "" && t != "" ==> !WhiteChar(t[0])
    ensures SkipSpace(sign + t) == sign + t
    ensures Atoi(sign + t) == if sign == "-" then 0 - Accumulate(t, 0) as int else Accumulate(t, 0)
  {
    SkipsWhite("", sign + t);
    assert "" + (sign + t) == sign + t;
    if sign == "" {
      assert sign + t == t;
    } else {
      assert (sign + t)[0] == sign[0] && (sign + t)[1..] == t;
    }
  }

  lemma WhiteIsSkipped(w: string, s: string)
    requires White(w) && (s == "" || !WhiteChar(s[0]))
    ensures Atoi(w + s) == Atoi(s)
  {
    SkipsWhite(w, s);
    SkipsWhite("", s);
    assert "" + s == s;
  }

  /** A number in the text is read, wherever its digits end. */
  lemma AtoiReads(text: string, v: int)
    requires NumberText(text, v)
    ensures Atoi(text) == v
  {
    var w, sign, d, rest :| IsNumberText(text, w, sign, d, rest)
                            && v == if sign == "-" then 0 - DecimalValue(d) as int else DecimalValue(d);
    assert (d + rest)[0] == d[0];
    var s := sign + (d + rest);
    assert text == w + s;
    assert s[0] == if sign == "" then d[0] else sign[0];
    WhiteIsSkipped(w, s);
    SignedReads(sign, d + rest);
    AccumulateStops(d, rest, 0);
    AccumulateIsDecimal(d);
  }

  /** A text without one reads as 0. */
  lemma AtoiOfNoNumber(text: string)
    requires NoNumber(text)
    ensures Atoi(text) == 0
  {
    var w, sign, rest :| IsNoNumber(text, w, sign, rest);
    var s := sign + rest;
    assert text == w + s;
    if s != "" { assert s[0] == if sign == "" then rest[0] else sign[0]; }
    if sign == "" { assert s == rest; }
    WhiteIsSkipped(w, s);
    SignedReads(sign, rest);
  }

  lemma {:induction false} WhiteInFront(text: string) returns (w: string)
    ensures White(w) && text == w + SkipSpace(text)
    ensures SkipSpace(text) != "" ==> !WhiteChar(SkipSpace(text)[0])
  {
    if text != "" && WhiteChar(text[0]) {
      w := WhiteInFront(text[1..]);
      w := [text[0]] + w;
    } else {
      w := "";
    }
  }

  lemma {:induction false} DigitsInFront(t: string) returns (d: string, rest: string)
    ensures AllDigits(d) && !DigitFirst(rest) && t == d + rest
  {
    if DigitFirst(t) {
      d, rest := DigitsInFront(t[1..]);
      d := [t[0]] + d;
    } else {
      d, rest := "", t;
    }
  }

  /** There is no third kind of text: what is read is the number in it, or 0 for none. */
  lemma EveryTextReads(text: string)
    ensures NumberText(text, Atoi(text)) || (NoNumber(text) && Atoi(text) == 0)
  {
    var w := WhiteInFront(text);
    var t := SkipSpace(text);
    var sign := if t != "" && (t[0] == '+' || t[0] == '-') then t[..1] else "";
    var d, rest := DigitsInFront(t[|sign|..]);
    assert text == w + sign + d + rest;
    if d == "" {
      assert IsNoNumber(text, w, sign, rest);
      AtoiOfNoNumber(text);
    } else {
      assert IsNumberText(text, w, sign, d, rest);
      var v := if sign == "-" then 0 - DecimalValue(d) as int else DecimalValue(d);
      assert NumberText(text, v);
      AtoiReads(text, v);
    }
  }

  /** The text of an integer: a '-' for the negative ones, then its decimal digits. */
  lemma ItoaIsDecimal(v: int)
    ensures var d := if v < 0 then Itoa(v)[1..] else Itoa(v);
            && (v < 0 ==> Itoa(v)[0] == '-')
            && d != "" && AllDigits(d) && DecimalValue(d) == (if v < 0 then 0 - v else v)
            && (|d| > 1 ==> d[0] != '0')
  {
    DigitsAreDecimal(if v < 0 then 0 - v else v);
    if v < 0 { assert Itoa(v)[1..] == Digits(0 - v); }
  }
}
