/** Decimal numerals, and the digit count that the formatter estimates from the bit length. */
module FmtDigits {
  import opened Powers

  /** The number of decimal digits, one for zero. */
  function Digits(n: nat): (r: nat)
    ensures r >= 1
  {
    if n < 10 then 1 else 1 + Digits(n / 10)
  }

  function DigitChar(d: nat): char
    requires d < 10
  {
    '0' + d as char
  }

  /** The plain decimal numeral. */
  function Numeral(n: nat): (s: string)
    ensures |s| == Digits(n)
  {
    if n < 10 then [DigitChar(n)] else Numeral(n / 10) + [DigitChar(n % 10)]
  }

  /** A number of `k` digits lies between two powers of ten, and only such a number has `k` digits. */
  lemma {:induction false} DigitsExact(n: nat, k: nat)
    requires k >= 1
    ensures Digits(n) == k <==> n < Tens(k) && (k == 1 || Tens(k - 1) <= n)
  {
    if n < 10 {
      if k > 1 {
        TensGrow(1, k - 1);
      }
    } else if k > 1 {
      DigitsExact(n / 10, k - 1);
    }
  }

  /** The bit length: the width of the type less what `__builtin_clz` counts. */
  function Bits(n: nat): nat {
    if n == 0 then 0 else 1 + Bits(n / 2)
  }

  lemma {:induction false} BitsBound(n: nat)
    ensures n < Twos(Bits(n)) && (n > 0 ==> Twos(Bits(n) - 1) <= n)
  {
    if n > 0 {
      BitsBound(n / 2);
    }
  }

  lemma {:induction false} BitsWithin(n: nat, k: nat)
    requires n < Twos(k)
    ensures Bits(n) <= k
  {
    if n > 0 {
      BitsWithin(n / 2, k - 1);
    }
  }

  const POWERS_OF_10_32: seq<nat> :=
    [0, 10, 100, 1000, 10000, 100000, 1000000, 10000000, 100000000, 1000000000]

  const POWERS_OF_10_64: seq<nat> := POWERS_OF_10_32 + [
    10_000_000_000, 100_000_000_000, 1_000_000_000_000, 10_000_000_000_000, 100_000_000_000_000,
    1_000_000_000_000_000, 10_000_000_000_000_000, 100_000_000_000_000_000, 1_000_000_000_000_000_000,
    10_000_000_000_000_000_000]

  /** `b * 1233 >> 12`, about `b` times the logarithm of two to the base ten */
  function Estimate(b: nat): nat {
    b * 1233 / 4096
  }

  /** `n | 1` */
  function OrOne(n: nat): nat {
    if n % 2 == 0 then n + 1 else n
  }

  /** The estimate is right up to one for a number of `b` bits. */
  ghost predicate Close(t: nat, b: nat)
    requires b > 0
  {
    (t > 0 ==> Tens(t - 1) <= Twos(b - 1)) && Twos(b) <= Tens(t + 1)
  }

  /** One run of bit lengths with the same estimate `t`, from the values of the powers at its start. */
  lemma Between(t: nat, lo: nat, hi: nat, b: nat, two: nat, ten: nat)
    requires 0 < lo && lo + 2 <= hi <= lo + 3
    requires Twos(lo - 1) == two && Tens(t) == ten && (t > 0 ==> ten <= 10 * two)
    requires (if hi == lo + 2 then 8 else 16) * two <= 10 * ten
    ensures lo <= b <= hi ==> Close(t, b)
    ensures Twos(hi) == (if hi == lo + 2 then 8 else 16) * two && Tens(t + 1) == 10 * ten
  {
    assert Twos(lo + 2) == 2 * Twos(lo + 1) == 4 * Twos(lo) == 8 * Twos(lo - 1);
    if lo <= b <= hi {
      TwosGrow(lo - 1, b - 1);
      TwosGrow(b, hi);
    }
  }

  /** The lengths up to 64 bits fall into twenty runs. */
  lemma EstimateClose(b: nat)
    requires 1 <= b <= 64
    ensures Estimate(b) < 20 && Close(Estimate(b), b)
  {
    EstimateLow(b);
    EstimateHigh(b);
  }

  lemma EstimateLow(b: nat)
    ensures 1 <= b <= 33 ==> Estimate(b) < 20 && Close(Estimate(b), b)
    ensures Twos(33) == 8589934592 && Tens(10) == 10000000000
  {
    hide Close, Twos, Tens;
    PowersOfNought();
    Between(0, 1, 3, b, 1, 1);
    Between(1, 4, 6, b, 8, 10);
    Between(2, 7, 9, b, 64, 100);
    Between(3, 10, 13, b, 512, 1000);
    Between(4, 14, 16, b, 8192, 10000);
    Between(5, 17, 19, b, 65536, 100000);
    Between(6, 20, 23, b, 524288, 1000000);
    Between(7, 24, 26, b, 8388608, 10000000);
    Between(8, 27, 29, b, 67108864, 100000000);
    Between(9, 30, 33, b, 536870912, 1000000000);
  }

  lemma EstimateHigh(b: nat)
    ensures 34 <= b <= 64 ==> Estimate(b) < 20 && Close(Estimate(b), b)
    ensures Twos(66) == 0x4_0000_0000_0000_0000
  {
    hide Close, Twos, Tens;
    EstimateLow(b);
    Between(10, 34, 36, b, 8589934592, 10000000000);
    Between(11, 37, 39, b, 68719476736, 100000000000);
    Between(12, 40, 43, b, 549755813888, 1000000000000);
    Between(13, 44, 46, b, 8796093022208, 10000000000000);
    Between(14, 47, 49, b, 70368744177664, 100000000000000);
    Between(15, 50, 53, b, 562949953421312, 1000000000000000);
    Between(16, 54, 56, b, 9007199254740992, 10000000000000000);
    Between(17, 57, 59, b, 72057594037927936, 100000000000000000);
    Between(18, 60, 63, b, 576460752303423488, 1000000000000000000);
    Between(19, 64, 66, b, 9223372036854775808, 10000000000000000000);
  }

  lemma PowersOfNought()
    ensures Twos(0) == 1 && Tens(0) == 1
  {
  }

  /** `count_digits`, with the table of the 32-bit or the 64-bit version */
  function CountDigits(n: nat, powers: seq<nat>): int
    requires Estimate(Bits(OrOne(n))) < |powers|
  {
    var t := Estimate(Bits(OrOne(n)));
    t - (if n < powers[t] then 1 else 0) + 1
  }

  lemma {:induction false} TableIs(t: nat)
    requires 0 < t < 20
    ensures POWERS_OF_10_64[t] == Tens(t)
    ensures t < 10 ==> POWERS_OF_10_32[t] == Tens(t)
  {
    if t == 1 {
      assert Tens(1) == 10 * Tens(0);
    } else {
      TableIs(t - 1);
      assert POWERS_OF_10_64[t] == 10 * POWERS_OF_10_64[t - 1];
      assert t < 10 ==> POWERS_OF_10_32[t] == 10 * POWERS_OF_10_32[t - 1];
    }
  }

  lemma TwosStep(k: nat)
    requires k > 0
    ensures Twos(k) % 2 == 0 && (k > 1 ==> Twos(k - 1) % 2 == 0)
  {
    assert Twos(k) == 2 * Twos(k - 1);
    if k > 1 {
      assert Twos(k - 1) == 2 * Twos(k - 2);
    }
  }

  /** The bit length of `n | 1` bounds `n` as well. */
  lemma OrOneBound(n: nat, k: nat)
    requires n < Twos(k) && k > 0
    ensures var b := Bits(OrOne(n)); 1 <= b <= k && n < Twos(b) && (b > 1 ==> Twos(b - 1) <= n)
  {
    hide Bits, Twos;
    var m := OrOne(n);
    BitsBound(m);
    TwosStep(k);
    BitsWithin(m, k);
    BitsPositive(m);
    TwosStep(Bits(m));
  }

  lemma BitsPositive(n: nat)
    requires n > 0
    ensures Bits(n) > 0
  {
  }

  /** One look-up decides between two digit counts. */
  lemma LookUp(n: nat, t: nat)
    requires t < 20 && (t > 0 ==> Tens(t - 1) <= n) && n < Tens(t + 1)
    ensures t - (if n < POWERS_OF_10_64[t] then 1 else 0) + 1 == Digits(n)
    ensures t < 10 ==> t - (if n < POWERS_OF_10_32[t] then 1 else 0) + 1 == Digits(n)
  {
    hide Tens, Digits;
    if t == 0 {
      DigitsExact(n, 1);
    } else {
      TableIs(t);
      DigitsExact(n, t);
      DigitsExact(n, t + 1);
    }
  }

  lemma EstimateFits(n: nat, k: nat)
    requires n < Twos(k) && 0 < k <= 64
    ensures var t := Estimate(Bits(OrOne(n)));
      t < 20 && (k <= 32 ==> t < 10) && (t > 0 ==> Tens(t - 1) <= n) && n < Tens(t + 1)
  {
    hide Bits, OrOne, Twos, Tens;
    OrOneBound(n, k);
    EstimateClose(Bits(OrOne(n)));
  }

  /** The estimate and one table look-up give the exact number of digits, for every number of up to 64 bits. */
  lemma CountDigitsExact(n: nat, k: nat)
    requires n < Twos(k) && 0 < k <= 64
    ensures Estimate(Bits(OrOne(n))) < 20 && CountDigits(n, POWERS_OF_10_64) == Digits(n)
    ensures k <= 32 ==> Estimate(Bits(OrOne(n))) < 10 && CountDigits(n, POWERS_OF_10_32) == Digits(n)
  {
    hide Bits, OrOne, Twos, Tens, Digits, Estimate;
    EstimateFits(n, k);
    LookUp(n, Estimate(Bits(OrOne(n))));
  }

  lemma WidestTwos()
    ensures Twos(32) == 0x1_0000_0000 && Twos(64) == 0x1_0000_0000_0000_0000
  {
    EstimateLow(64);
    EstimateHigh(64);
    assert Twos(33) == 2 * Twos(32);
    assert Twos(66) == 2 * Twos(65) == 4 * Twos(64);
  }
}
