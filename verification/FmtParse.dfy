/** The integers in format strings: `parse_nonnegative_int`, and which numbers its test for wrap-around lets pass. */
module FmtParse {
  import opened Powers
  import opened FmtDigits
  import opened FmtInt
  import opened Options

  const MAX_INT: int := 0x7fff_ffff

  predicate IsDigit(c: char) {
    '0' <= c <= '9'
  }

  function DigitValue(c: char): nat
    requires IsDigit(c)
  {
    c as int - '0' as int
  }

  predicate AllDigits(s: string) {
    forall i :: 0 <= i < |s| ==> IsDigit(s[i])
  }

  /** The number that a string of digits stands for. */
  function ValueOf(s: string): nat
    requires AllDigits(s)
  {
    if s == "" then 0 else 10 * ValueOf(s[..|s| - 1]) + DigitValue(s[|s| - 1])
  }

  lemma {:induction false} ValueOfNumeral(n: nat)
    ensures AllDigits(Numeral(n)) && ValueOf(Numeral(n)) == n
  {
    if n >= 10 {
      ValueOfNumeral(n / 10);
      assert Numeral(n)[..|Numeral(n)| - 1] == Numeral(n / 10);
    }
  }

  /** As the digits come in, the number read so far, in 32 bits, never falls. */
  predicate NeverFalls(ds: string)
    requires AllDigits(ds)
  {
    |ds| <= 1 || (NeverFalls(ds[..|ds| - 1]) && ValueOf(ds[..|ds| - 1]) % TWO_32 <= ValueOf(ds) % TWO_32)
  }

  /** What becomes of a string of digits: a number, or the error "number is too big". */
  function Parsed(ds: string): Option<nat>
    requires AllDigits(ds)
  {
    if NeverFalls(ds) && ValueOf(ds) % TWO_32 <= MAX_INT then Some(ValueOf(ds) % TWO_32) else None
  }

  /** The digits that `s` continues with at position `at`. */
  function DigitRun(s: string, at: nat): (r: string)
    requires at <= |s|
    ensures AllDigits(r) && at + |r| <= |s| && s[at..at + |r|] == r
    decreases |s| - at
  {
    if at < |s| && IsDigit(s[at]) then [s[at]] + DigitRun(s, at + 1) else ""
  }

  /** Adding a digit in 32-bit arithmetic. */
  lemma NextResidue(ds: string, c: char)
    requires AllDigits(ds) && IsDigit(c)
    ensures AllDigits(ds + [c]) && ValueOf(ds + [c]) == 10 * ValueOf(ds) + DigitValue(c)
    ensures (ValueOf(ds) % TWO_32 * 10 + DigitValue(c)) % TWO_32 == ValueOf(ds + [c]) % TWO_32
  {
    assert (ds + [c])[..|ds|] == ds;
    var v, q := ValueOf(ds), ValueOf(ds) / TWO_32;
    var r := v % TWO_32 * 10 + DigitValue(c);
    assert 10 * v + DigitValue(c) == r + 10 * q * TWO_32;
    ShiftResidue(r, 10 * q);
  }

  lemma {:induction false} ShiftResidue(r: nat, k: nat)
    ensures (r + k * TWO_32) % TWO_32 == r % TWO_32
  {
    if k > 0 {
      ShiftResidue(r, k - 1);
      assert r + k * TWO_32 == (r + (k - 1) * TWO_32) + TWO_32;
    }
  }

  /** `parse_nonnegative_int`, at a digit of `s` */
  method ParseNonnegativeInt(s: string, at: nat) returns (r: Option<nat>)
    requires at < |s| && IsDigit(s[at])
    ensures r == Parsed(DigitRun(s, at))
  {
    hide ValueOf, NeverFalls, DigitRun;
    var value, i := 0, at;
    ghost var run := DigitRun(s, at);
    RunStart(s, at);
    while true
      invariant at <= i < at + |run| && value == ValueOf(run[..i - at]) % TWO_32 && NeverFalls(run[..i - at])
      decreases |s| - i
    {
      ghost var ds := run[..i - at];
      assert run[i - at] == s[i] && run[..i + 1 - at] == ds + [s[i]];
      NextResidue(ds, s[i]);
      NeverFallsNext(ds, s[i]);
      var next := (value * 10 + DigitValue(s[i])) % TWO_32;
      i := i + 1;
      if next < value {
        FallsForGood(run, i - at);
        return None;
      }
      value := next;
      RunGoesOn(s, at, i);
      if i == |s| || !IsDigit(s[i]) { break; }
    }
    assert run[..|run|] == run;
    if value > MAX_INT { return None; }
    r := Some(value);
  }

  lemma NeverFallsNext(ds: string, c: char)
    requires AllDigits(ds) && IsDigit(c)
    ensures AllDigits(ds + [c]) && (ds == "" ==> NeverFalls(ds + [c]))
    ensures ds != "" ==>
      (NeverFalls(ds + [c]) <==> NeverFalls(ds) && ValueOf(ds) % TWO_32 <= ValueOf(ds + [c]) % TWO_32)
  {
    hide ValueOf;
    assert (ds + [c])[..|ds|] == ds;
  }

  lemma RunStart(s: string, at: nat)
    requires at < |s| && IsDigit(s[at])
    ensures |DigitRun(s, at)| > 0 && DigitRun(s, at)[..0] == "" && ValueOf("") == 0 && NeverFalls("")
  {
  }

  lemma {:induction false} RunGoesOn(s: string, at: nat, i: nat)
    requires at <= |s| && at <= i <= at + |DigitRun(s, at)|
    ensures i == at + |DigitRun(s, at)| <==> i == |s| || !IsDigit(s[i])
    decreases |s| - at
  {
    if at < i {
      RunGoesOn(s, at + 1, i);
    }
  }

  /** Once the number has fallen, the whole run is refused. */
  lemma {:induction false} FallsForGood(ds: string, k: nat)
    requires AllDigits(ds) && k <= |ds| && !NeverFalls(ds[..k])
    ensures !NeverFalls(ds)
  {
    if k == |ds| {
      assert ds[..k] == ds;
    } else {
      assert ds[..|ds| - 1][..k] == ds[..k];
      FallsForGood(ds[..|ds| - 1], k);
    }
  }

  /** The value of a numeral is returned exactly if it does not exceed the largest `int`. */
  lemma {:induction false} ParsedExact(ds: string)
    requires AllDigits(ds)
    ensures Parsed(ds) == Some(ValueOf(ds)) <==> ValueOf(ds) <= MAX_INT
  {
    if ValueOf(ds) <= MAX_INT {
      SmallNeverFalls(ds);
    }
  }

  lemma {:induction false} SmallNeverFalls(ds: string)
    requires AllDigits(ds) && ValueOf(ds) <= MAX_INT
    ensures NeverFalls(ds)
  {
    if |ds| > 1 {
      SmallNeverFalls(ds[..|ds| - 1]);
    }
  }

  /** Printing and parsing: a number up to the largest `int` comes back. */
  lemma PrintParse(n: nat)
    requires n <= MAX_INT
    ensures AllDigits(Numeral(n)) && Parsed(Numeral(n)) == Some(n)
  {
    ValueOfNumeral(n);
    ParsedExact(Numeral(n));
  }

  /** `n` without its last `j` digits */
  function Cut(n: nat, j: nat): nat {
    Division(n, Tens(j));
    n / Tens(j)
  }

  /** In 32 bits, leaving out the last of the remaining digits does not give more. */
  predicate RisesAt(n: nat, j: nat) {
    Cut(n, j + 1) % TWO_32 <= Cut(n, j) % TWO_32
  }

  /** One digit more is left out at the front, so to speak, or at the end. */
  lemma CutTwice(n: nat, j: nat)
    ensures Cut(n, j + 1) == Cut(n / 10, j) == Cut(n, j) / 10
  {
    DivideTwice(n, 10, Tens(j));
    DivideTwice(n, Tens(j), 10);
  }

  lemma RisesLater(n: nat, j: nat)
    ensures RisesAt(n / 10, j) <==> RisesAt(n, j + 1)
  {
    CutTwice(n, j);
    CutTwice(n, j + 1);
  }

  lemma RisesAtEnd(n: nat)
    ensures RisesAt(n, 0) <==> n / 10 % TWO_32 <= n % TWO_32
  {
    assert Tens(1) == 10 * Tens(0);
  }

  /** The conditions for `n`, from those for `n` without its last digit. */
  lemma RisesFront(n: nat, m: nat)
    ensures (forall j :: 0 <= j < m + 1 ==> RisesAt(n, j))
      <==> RisesAt(n, 0) && forall j :: 0 <= j < m ==> RisesAt(n / 10, j)
  {
    hide RisesAt;
    forall j: nat
      ensures RisesAt(n / 10, j) <==> RisesAt(n, j + 1)
    {
      RisesLater(n, j);
    }
    assert forall j :: 1 <= j < m + 1 ==> (RisesAt(n, j) <==> RisesAt(n / 10, j - 1));
  }

  lemma NeverFallsStep(ds: string)
    requires AllDigits(ds)
    ensures |ds| <= 1 ==> NeverFalls(ds)
    ensures |ds| > 1 ==>
      var front, n := ds[..|ds| - 1], ValueOf(ds);
      ValueOf(front) == n / 10 && (NeverFalls(ds) <==> NeverFalls(front) && n / 10 % TWO_32 <= n % TWO_32)
  {
  }

  /** The numbers met on the way are the cuts of the last one. */
  lemma {:induction false} NeverFallsIs(ds: string)
    requires AllDigits(ds)
    ensures NeverFalls(ds) <==> forall j :: 0 <= j < |ds| - 1 ==> RisesAt(ValueOf(ds), j)
  {
    hide NeverFalls, ValueOf, RisesAt;
    NeverFallsStep(ds);
    if |ds| > 1 {
      NeverFallsIs(ds[..|ds| - 1]);
      RisesAtEnd(ValueOf(ds));
      RisesFront(ValueOf(ds), |ds| - 2);
    }
  }

  /**
   * The test for wrap-around does not catch every number that is too big: one is taken for its low 32 bits
   * exactly if these make an `int`, and the low 32 bits never grow when digits are left out at the end.
   */
  lemma TooBigExact(ds: string)
    requires AllDigits(ds) && ValueOf(ds) > MAX_INT
    ensures var n := ValueOf(ds);
      Parsed(ds) == (if n % TWO_32 <= MAX_INT && (forall j :: 0 <= j < |ds| - 1 ==> RisesAt(n, j)) then Some(n % TWO_32)
                     else None)
  {
    NeverFallsIs(ds);
  }

  /** With ten digits only the last step can wrap around. */
  lemma TenDigits(ds: string)
    requires AllDigits(ds) && |ds| == 10 && ValueOf(ds) > MAX_INT
    ensures Parsed(ds) != None <==> ValueOf(ds) / 10 <= ValueOf(ds) % TWO_32 <= MAX_INT
  {
    var n := ValueOf(ds);
    TooBigExact(ds);
    ValueBound(ds);
    RisesAtEnd(n);
    forall j | 1 <= j < 9
      ensures RisesAt(n, j)
    {
      CutsFall(n, j);
    }
  }

  lemma {:induction false} ValueBound(ds: string)
    requires AllDigits(ds)
    ensures ValueOf(ds) < Tens(|ds|)
  {
    if ds != "" {
      ValueBound(ds[..|ds| - 1]);
    }
  }

  /** Leaving out digits makes a number smaller, if nothing wraps around. */
  lemma CutsFall(n: nat, j: nat)
    requires j >= 1 && n < 10 * TWO_32
    ensures RisesAt(n, j)
  {
    CutTwice(n, j - 1);
    CutTwice(n, j);
    CutShrinks(n / 10, j - 1);
    hide Cut;
    assert Cut(n, j + 1) <= Cut(n, j) <= n / 10 < TWO_32;
  }

  lemma CutShrinks(n: nat, j: nat)
    ensures Cut(n, j) <= n
  {
    Division(n, Tens(j));
    Scale(Cut(n, j), 1, Tens(j));
  }

  /** The largest `int` is read, and the next number is refused. */
  lemma ParseLimits()
    ensures AllDigits(Numeral(2147483647)) && Parsed(Numeral(2147483647)) == Some(2147483647)
    ensures AllDigits(Numeral(2147483648)) && Parsed(Numeral(2147483648)) == None
  {
    hide Numeral, Parsed, AllDigits;
    PrintParse(2147483647);
    ValueOfNumeral(2147483648);
    hide ValueOf, NeverFalls;
    TooBigResult(Numeral(2147483648));
  }

  lemma TooBigResult(ds: string)
    requires AllDigits(ds) && MAX_INT < ValueOf(ds) < TWO_32
    ensures Parsed(ds) == None
  {
    hide NeverFalls, ValueOf;
  }

  lemma TooBigNumeral(n: nat, m: nat)
    requires n > MAX_INT && n % TWO_32 == m <= MAX_INT && forall j :: 0 <= j < Digits(n) - 1 ==> RisesAt(n, j)
    ensures AllDigits(Numeral(n)) && Parsed(Numeral(n)) == Some(m)
  {
    ValueOfNumeral(n);
    TooBigExact(Numeral(n));
  }

  lemma TenDigitsAccepted(n: nat)
    requires n == 5_000_000_000
    ensures AllDigits(Numeral(n)) && Parsed(Numeral(n)) == Some(705_032_704)
  {
    hide RisesAt, Cut, AllDigits, Parsed, Numeral, Digits;
    forall j: nat
      ensures RisesAt(n, j)
    {
      if j == 0 {
        RisesAtEnd(n);
      } else {
        CutsFall(n, j);
      }
    }
    TooBigNumeral(n, 705_032_704);
  }

  lemma ElevenDigitsAccepted(n: nat)
    requires n == 47_949_672_960
    ensures AllDigits(Numeral(n)) && Parsed(Numeral(n)) == Some(705_032_704)
  {
    hide RisesAt, Cut, AllDigits, Parsed, Numeral, Digits;
    forall j: nat
      ensures RisesAt(n, j)
    {
      if j == 0 {
        RisesAtEnd(n);
      } else {
        RisesLater(n, j - 1);
        if j == 1 {
          RisesAtEnd(n / 10);
        } else {
          CutsFall(n / 10, j - 1);
        }
      }
    }
    TooBigNumeral(n, 705_032_704);
  }

  /** 5000000000 and 47949672960 are such numbers: both are taken for 705032704. */
  lemma TooBigAccepted()
    ensures AllDigits(Numeral(5_000_000_000)) && Parsed(Numeral(5_000_000_000)) == Some(705_032_704)
    ensures AllDigits(Numeral(47_949_672_960)) && Parsed(Numeral(47_949_672_960)) == Some(705_032_704)
  {
    hide AllDigits, Parsed, Numeral;
    TenDigitsAccepted(5_000_000_000);
    ElevenDigitsAccepted(47_949_672_960);
  }
}
