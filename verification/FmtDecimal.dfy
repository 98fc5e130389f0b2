/** Decimal printing into a buffer from its end, two digits at a time, with or without separators. */
module FmtDecimal {
  import opened FmtDigits

  /** The numerals of 0 to 99, two characters each. */
  const DIGITS: string := seq(200, i requires 0 <= i < 200 => DigitChar(if i % 2 == 0 then i / 2 / 10 else i / 2 % 10))

  /**
   * The numeral of `n` with `sep` in front of every third digit from the right, when `index`
   * digits stand to the right of it already.
   */
  function Separated(n: nat, index: nat, sep: string): (s: string)
    ensures |s| >= 1
  {
    if n < 10 then [DigitChar(n)]
    else Separated(n / 10, index + 1, sep) + (if (index + 1) % 3 == 0 then sep else []) + [DigitChar(n % 10)]
  }

  /** The characters from `p` on up to `end` are `s`, and nothing before `p` or from `end` on has changed. */
  ghost predicate Wrote(was: seq<char>, now: seq<char>, p: nat, end: nat, s: string) {
    && p <= end <= |was| == |now|
    && now[p..end] == s && now[..p] == was[..p] && now[end..] == was[end..]
  }

  /** What stands from `p` on up to `end`, with `rest` still to be written in front of it, is `goal`. */
  ghost predicate Progress(was: seq<char>, now: seq<char>, p: nat, end: nat, rest: string, goal: string) {
    && p <= end <= |was| == |now| && |rest| <= p
    && rest + now[p..end] == goal && now[..p] == was[..p] && now[end..] == was[end..]
  }

  lemma ProgressStep(was: seq<char>, now: seq<char>, later: seq<char>, q: nat, p: nat, end: nat,
                     rest: string, piece: string, goal: string)
    requires Progress(was, now, p, end, rest + piece, goal) && Wrote(now, later, q, p, piece)
    ensures Progress(was, later, q, end, rest, goal)
  {
    assert later[p..end] == later[p..][..end - p] == now[p..][..end - p] == now[p..end];
    assert later[q..end] == piece + now[p..end];
    assert rest + (piece + now[p..end]) == rest + piece + now[p..end];
    assert later[..q] == now[..p][..q] == was[..q];
    assert later[end..] == later[p..][end - p..] == now[p..][end - p..] == now[end..];
  }

  /** Writes a separator in front of every third digit; one without characters changes nothing. */
  class ThousandsSep {
    const sep: string
    var digitIndex: nat

    constructor (sep: string)
      ensures this.sep == sep && digitIndex == 0
    {
      this.sep, digitIndex := sep, 0;
    }

    /** The functor, called after each digit. */
    method Apply(buf: array<char>, p: nat) returns (q: nat)
      requires (digitIndex + 1) % 3 == 0 ==> |sep| <= p <= buf.Length
      requires p <= buf.Length
      modifies this, buf
      ensures digitIndex == old(digitIndex) + 1
      ensures q + (if digitIndex % 3 == 0 then |sep| else 0) == p
      ensures Wrote(old(buf[..]), buf[..], q, p, if digitIndex % 3 == 0 then sep else [])
    {
      digitIndex := digitIndex + 1;
      if digitIndex % 3 != 0 { return p; }
      q := p - |sep|;
      forall i | 0 <= i < |sep| {
        buf[q + i] := sep[i];
      }
    }
  }

  /** `*--buffer = c` */
  method PutBefore(buf: array<char>, p: nat, c: char) returns (q: nat)
    requires 0 < p <= buf.Length
    modifies buf
    ensures q == p - 1 && Wrote(old(buf[..]), buf[..], q, p, [c])
  {
    q := p - 1;
    buf[q] := c;
  }

  /** The last digit of `value`, and then the separator in front of it. */
  method PutDigit(buf: array<char>, p: nat, c: char, t: ThousandsSep, ghost value: nat,
                  ghost was: seq<char>, ghost end: nat, ghost goal: string) returns (q: nat)
    requires value >= 10 && c == DigitChar(value % 10)
    requires Progress(was, buf[..], p, end, Separated(value, t.digitIndex, t.sep), goal)
    modifies t, buf
    ensures t.digitIndex == old(t.digitIndex) + 1
    ensures Progress(was, buf[..], q, end, Separated(value / 10, t.digitIndex, t.sep), goal)
  {
    hide Progress, Wrote, Separated;
    ghost var rest := Separated(value / 10, t.digitIndex + 1, t.sep);
    ghost var piece := if (t.digitIndex + 1) % 3 == 0 then t.sep else [];
    ghost var before := buf[..];
    SeparatedStep(value, t.digitIndex, t.sep);
    Room(was, before, p, end, rest + piece, [c], goal);
    q := PutBefore(buf, p, c);
    ghost var between := buf[..];
    ProgressStep(was, before, between, q, p, end, rest + piece, [c], goal);
    Room(was, between, q, end, rest, piece, goal);
    q := t.Apply(buf, q);
    ProgressStep(was, between, buf[..], q, p - 1, end, rest, piece, goal);
  }

  lemma SeparatedStep(value: nat, index: nat, sep: string)
    requires value >= 10
    ensures Separated(value, index, sep)
      == Separated(value / 10, index + 1, sep) + (if (index + 1) % 3 == 0 then sep else []) + [DigitChar(value % 10)]
  {
  }

  lemma Room(was: seq<char>, now: seq<char>, p: nat, end: nat, rest: string, piece: string, goal: string)
    requires Progress(was, now, p, end, rest + piece, goal)
    ensures |piece| <= p <= |now|
  {
  }

  /** The two characters of the table for the two lowest digits of `v`. */
  lemma TwoLowest(v: nat)
    ensures DIGITS[v % 100 * 2 + 1] == DigitChar(v % 10)
    ensures DIGITS[v % 100 * 2] == DigitChar(v / 10 % 10)
    ensures v / 10 / 10 == v / 100
  {
    var h, k := v / 100, v % 100;
    Split(h, k / 10, k % 10);
    TableAt(k);
  }

  lemma Split(h: nat, a: nat, b: nat)
    requires a < 10 && b < 10
    ensures var v := 100 * h + 10 * a + b;
      v % 10 == b && v / 10 == 10 * h + a && v / 10 % 10 == a && v / 10 / 10 == h
  {
    var v := 100 * h + 10 * a + b;
    assert v == 10 * (10 * h + a) + b;
    assert v / 10 == 10 * h + a;
  }

  lemma TableAt(k: nat)
    requires k < 100
    ensures DIGITS[k * 2] == DigitChar(k / 10) && DIGITS[k * 2 + 1] == DigitChar(k % 10)
  {
    assert (k * 2) % 2 == 0 && (k * 2) / 2 == k && (k * 2 + 1) % 2 == 1 && (k * 2 + 1) / 2 == k;
  }

  /** One round of the loop. */
  method PutPair(buf: array<char>, p: nat, v: nat, t: ThousandsSep,
                 ghost was: seq<char>, ghost end: nat, ghost goal: string) returns (q: nat)
    requires v >= 100 && Progress(was, buf[..], p, end, Separated(v, t.digitIndex, t.sep), goal)
    modifies t, buf
    ensures Progress(was, buf[..], q, end, Separated(v / 100, t.digitIndex, t.sep), goal)
  {
    hide Progress, Separated;
    TwoLowest(v);
    var index := v % 100 * 2;
    q := PutDigit(buf, p, DIGITS[index + 1], t, v, was, end, goal);
    q := PutDigit(buf, q, DIGITS[index], t, v / 10, was, end, goal);
  }

  /** `format_decimal`; `end` is the position after the last digit. */
  method FormatDecimal(buf: array<char>, end: nat, value: nat, sep: string) returns (start: nat)
    requires |Separated(value, 0, sep)| <= end <= buf.Length
    modifies buf
    ensures start == end - |Separated(value, 0, sep)|
    ensures Wrote(old(buf[..]), buf[..], start, end, Separated(value, 0, sep))
  {
    var t := new ThousandsSep(sep);
    var p, v := end, value;
    ghost var was, goal := buf[..], Separated(value, 0, sep);
    assert Progress(was, was, end, end, goal, goal);
    hide Separated, Progress, Wrote;
    while v >= 100
      invariant Progress(was, buf[..], p, end, Separated(v, t.digitIndex, t.sep), goal)
    {
      p := PutPair(buf, p, v, t, was, end, goal);
      v := v / 100;
    }
    start := PutLast(buf, p, v, t, was, end, goal);
  }

  /** The last one or two digits. */
  method PutLast(buf: array<char>, p: nat, v: nat, t: ThousandsSep,
                 ghost was: seq<char>, ghost end: nat, ghost goal: string) returns (start: nat)
    requires v < 100 && Progress(was, buf[..], p, end, Separated(v, t.digitIndex, t.sep), goal)
    modifies t, buf
    ensures start == end - |goal| && Wrote(was, buf[..], start, end, goal)
  {
    var q, rest := p, v;
    if v >= 10 {
      TwoLowest(v);
      var index := v * 2;
      q := PutDigit(buf, p, DIGITS[index + 1], t, v, was, end, goal);
      rest := v / 10;
    }
    ghost var before := buf[..];
    start := PutBefore(buf, q, DigitChar(rest));
    assert [] + [DigitChar(rest)] == [DigitChar(rest)];
    ProgressStep(was, before, buf[..], start, q, end, [], [DigitChar(rest)], goal);
  }

  // ---------- what the characters mean ----------

  /** Without a separator the plain numeral is written. */
  lemma {:induction false} PlainNumeral(n: nat, index: nat)
    ensures Separated(n, index, "") == Numeral(n)
  {
    if n >= 10 {
      PlainNumeral(n / 10, index + 1);
    }
  }

  /** A digit string with `sep` between groups of three, counted from the right. */
  function Grouped(digits: string, sep: string): string {
    if |digits| <= 3 then digits
    else Grouped(digits[..|digits| - 3], sep) + sep + digits[|digits| - 3..]
  }

  lemma {:induction false} ThreesCancel(n: nat, index: nat, sep: string)
    ensures Separated(n, index + 3, sep) == Separated(n, index, sep)
  {
    if n >= 10 {
      ThreesCancel(n / 10, index + 1, sep);
    }
  }

  /** The three lowest digits of `n`. */
  function LastThree(n: nat): string {
    [DigitChar(n / 100 % 10), DigitChar(n / 10 % 10), DigitChar(n % 10)]
  }

  lemma NumeralInThrees(n: nat)
    requires n >= 1000
    ensures Numeral(n) == Numeral(n / 1000) + LastThree(n)
  {
    assert Numeral(n) == Numeral(n / 10) + [DigitChar(n % 10)];
    assert Numeral(n / 10) == Numeral(n / 10 / 10) + [DigitChar(n / 10 % 10)];
    assert n / 10 / 10 == n / 100;
    assert Numeral(n / 100) == Numeral(n / 100 / 10) + [DigitChar(n / 100 % 10)];
    assert n / 100 / 10 == n / 1000;
  }

  lemma SeparatedInThrees(n: nat, sep: string)
    requires n >= 1000
    ensures Separated(n, 0, sep) == Separated(n / 1000, 0, sep) + sep + LastThree(n)
  {
    hide Separated;
    SeparatedStep(n, 0, sep);
    SeparatedStep(n / 10, 1, sep);
    assert n / 10 / 10 == n / 100;
    SeparatedStep(n / 100, 2, sep);
    assert n / 100 / 10 == n / 1000;
    ThreesCancel(n / 1000, 0, sep);
  }

  /** The separators fall every three digits from the right. */
  lemma {:induction false} SeparatedIsGrouped(n: nat, sep: string)
    ensures Separated(n, 0, sep) == Grouped(Numeral(n), sep)
  {
    if n >= 1000 {
      SeparatedIsGrouped(n / 1000, sep);
      NumeralInThrees(n);
      SeparatedInThrees(n, sep);
      var ds := Numeral(n);
      assert ds[..|ds| - 3] == Numeral(n / 1000) && ds[|ds| - 3..] == LastThree(n);
    } else {
      ShortSeparated(n, sep);
    }
  }

  lemma ShortSeparated(n: nat, sep: string)
    requires n < 1000
    ensures Separated(n, 0, sep) == Numeral(n) && |Numeral(n)| <= 3
  {
    if n >= 10 {
      SeparatedStep(n, 0, sep);
      if n >= 100 {
        SeparatedStep(n / 10, 1, sep);
        assert n / 10 / 10 < 10;
        assert Numeral(n) == Numeral(n / 10) + [DigitChar(n % 10)];
        assert Numeral(n / 10) == Numeral(n / 10 / 10) + [DigitChar(n / 10 % 10)];
      }
    }
  }

  /** The length that `write_int` reserves for a number with separators. */
  lemma {:induction false} GroupedLength(digits: string, sep: string)
    requires |digits| > 0
    ensures |Grouped(digits, sep)| == |digits| + |sep| * ((|digits| - 1) / 3)
  {
    if |digits| > 3 {
      GroupedLength(digits[..|digits| - 3], sep);
      var k := (|digits| - 4) / 3;
      assert (|digits| - 1) / 3 == k + 1;
      assert |sep| * (k + 1) == |sep| * k + |sep|;
    }
  }

  lemma MillionGrouped(sep: string)
    ensures Separated(1234567, 0, sep) == "1" + sep + "234" + sep + "567"
  {
    hide Separated;
    SeparatedInThrees(1234567, sep);
    SeparatedInThrees(1234, sep);
    ShortSeparated(1, sep);
  }

  function Without(s: string, drop: char -> bool): string {
    if s == "" then "" else (if drop(s[0]) then "" else [s[0]]) + Without(s[1..], drop)
  }

  lemma {:induction false} WithoutConcat(s: string, t: string, drop: char -> bool)
    ensures Without(s + t, drop) == Without(s, drop) + Without(t, drop)
  {
    if s == "" {
      assert s + t == t;
    } else {
      assert (s + t)[1..] == s[1..] + t;
      WithoutConcat(s[1..], t, drop);
    }
  }

  lemma {:induction false} WithoutAllOrNone(s: string, drop: char -> bool)
    ensures (forall c :: c in s ==> drop(c)) ==> Without(s, drop) == ""
    ensures (forall c :: c in s ==> !drop(c)) ==> Without(s, drop) == s
  {
    if s != "" {
      WithoutAllOrNone(s[1..], drop);
    }
  }

  /** Taking the separators out gives the plain numeral back. */
  lemma {:induction false} SeparatorsOut(digits: string, sep: string, isSep: char -> bool)
    requires forall c :: c in sep ==> isSep(c)
    requires forall c :: c in digits ==> !isSep(c)
    ensures Without(Grouped(digits, sep), isSep) == digits
  {
    hide Grouped, Without;
    GroupedStep(digits, sep);
    if |digits| <= 3 {
      WithoutAllOrNone(digits, isSep);
    } else {
      var front, last := digits[..|digits| - 3], digits[|digits| - 3..];
      SeparatorsOut(front, sep, isSep);
      OneGroupOut(Grouped(front, sep), sep, last, isSep);
      assert front + last == digits;
    }
  }

  lemma GroupedStep(digits: string, sep: string)
    ensures Grouped(digits, sep) ==
      if |digits| <= 3 then digits else Grouped(digits[..|digits| - 3], sep) + sep + digits[|digits| - 3..]
  {
  }

  lemma OneGroupOut(front: string, sep: string, last: string, isSep: char -> bool)
    requires (forall c :: c in sep ==> isSep(c)) && (forall c :: c in last ==> !isSep(c))
    ensures Without(front + sep + last, isSep) == Without(front, isSep) + last
  {
    hide Without;
    WithoutConcat(front + sep, last, isSep);
    WithoutConcat(front, sep, isSep);
    WithoutAllOrNone(sep, isSep);
    WithoutAllOrNone(last, isSep);
  }
}
