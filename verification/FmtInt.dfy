/** Magnitudes, and the fast integer formatter. */
module FmtInt {
  import opened Powers
  import opened FmtDigits
  import opened FmtDecimal

  const TWO_32: int := 0x1_0000_0000
  const TWO_64: int := 0x1_0000_0000_0000_0000

  /** The decimal form of an integer. */
  function Decimal(x: int): string {
    if x < 0 then ['-'] + Numeral(-x) else Numeral(x)
  }

  /** The unsigned type that holds the magnitudes: 32 bits if they suffice for all values of the type, and else 64. */
  datatype MainType = U32 | U64

  function Modulus(t: MainType): int {
    if t == U32 then TWO_32 else TWO_64
  }

  /** The signed and unsigned values of the types with this magnitude type. */
  predicate Covers(t: MainType, x: int) {
    -Modulus(t) <= 2 * x && x < Modulus(t)
  }

  /** All signed and unsigned values of the widths are covered. */
  lemma CoversWidths(x: int)
    ensures Covers(U32, x) <==> -0x8000_0000 <= x < 0x1_0000_0000
    ensures Covers(U64, x) <==> -0x8000_0000_0000_0000 <= x < 0x1_0000_0000_0000_0000
  {
  }

  /**
   * The magnitude as the code computes it: a cast to the unsigned type, and for negative values a subtraction
   * from zero.
   */
  function AbsValue(x: int, t: MainType): nat {
    if x < 0 then (0 - x % Modulus(t)) % Modulus(t) else x % Modulus(t)
  }

  /** It is right for every value, the least one included. */
  lemma AbsValueExact(x: int, t: MainType)
    requires Covers(t, x)
    ensures AbsValue(x, t) == if x < 0 then -x else x
  {
    if x < 0 {
      assert x % Modulus(t) == x + Modulus(t);
      assert (0 - x % Modulus(t)) % Modulus(t) == -x;
    }
  }

  /** Numbers of up to 64 bits have at most twenty digits. */
  lemma TwentyDigits(n: nat)
    requires n < TWO_64
    ensures Digits(n) <= 20
  {
    assert Digits(n) <= 20 by {
      LastPower();
      AtMost(n, 20);
    }
  }

  lemma {:induction false} AtMost(n: nat, k: nat)
    requires k >= 1 && n < Tens(k)
    ensures Digits(n) <= k
  {
    if n >= 10 {
      AtMost(n / 10, k - 1);
    }
  }

  lemma LastPower()
    ensures TWO_64 <= Tens(20)
  {
    TableIs(19);
    assert Tens(20) == 10 * Tens(19);
  }

  // ---------- FormatInt ----------

  /** `digits10 + 3` of a 64-bit number */
  const BUFFER_SIZE := 22

  class FormatInt {
    const buffer: array<char>
    var str: nat

    ghost predicate Valid()
      reads this
    {
      buffer.Length == BUFFER_SIZE && str < BUFFER_SIZE
    }

    /** What the object holds, short of the final cell for the terminator. */
    ghost function Text(): string
      requires Valid()
      reads this, buffer
    {
      buffer[str..BUFFER_SIZE - 1]
    }

    /** `FormatSigned` */
    constructor Signed(value: int)
      requires -0x8000_0000_0000_0000 <= value < 0x8000_0000_0000_0000
      ensures Valid() && buffer.Length == 22 && Text() == Decimal(value)
    {
      buffer := new char[BUFFER_SIZE](_ => '\0');
      str := 0;
      new;
      AbsValueExact(value, U64);
      hide AbsValue, Numeral, Digits;
      str := FillBack(buffer, AbsValue(value, U64));
      if value < 0 {
        ghost var done := buffer[str..BUFFER_SIZE - 1];
        str := str - 1;
        buffer[str] := '-';
        assert buffer[str..BUFFER_SIZE - 1] == ['-'] + done;
      }
    }

    /** The constructors for unsigned values */
    constructor Unsigned(value: nat)
      requires value < 0x1_0000_0000_0000_0000
      ensures Valid() && Text() == Numeral(value)
    {
      buffer := new char[BUFFER_SIZE](_ => '\0');
      str := 0;
      new;
      str := FillBack(buffer, value);
    }
  }

  /** `FormatInt::format_decimal`: the same loop over a fixed buffer, which always leaves room for a sign. */
  method FillBack(buffer: array<char>, value: nat) returns (start: nat)
    requires buffer.Length == BUFFER_SIZE && value < TWO_64
    modifies buffer
    ensures 1 <= start < BUFFER_SIZE && buffer[start..BUFFER_SIZE - 1] == Numeral(value)
  {
    hide Numeral, Digits;
    TwentyDigits(value);
    var p, v := BUFFER_SIZE - 1, value;
    while v >= 100
      invariant Digits(v) <= p < BUFFER_SIZE && p - Digits(v) == BUFFER_SIZE - 1 - Digits(value)
      invariant Numeral(v) + buffer[p..BUFFER_SIZE - 1] == Numeral(value)
    {
      var index := v % 100 * 2;
      TwoLowest(v);
      TwoDigitStep(v);
      p := PutTwo(buffer, p, DIGITS[index], DIGITS[index + 1]);
      v := v / 100;
    }
    start := PutRest(buffer, p, v, value);
  }

  method PutTwo(buffer: array<char>, p: nat, a: char, b: char) returns (q: nat)
    requires buffer.Length == BUFFER_SIZE && 2 <= p < BUFFER_SIZE
    modifies buffer
    ensures q == p - 2 && buffer[q..BUFFER_SIZE - 1] == [a, b] + old(buffer[p..BUFFER_SIZE - 1])
  {
    q := p - 1;
    buffer[q] := b;
    q := q - 1;
    buffer[q] := a;
  }

  /** The last one or two digits. */
  method PutRest(buffer: array<char>, p: nat, v: nat, ghost value: nat) returns (start: nat)
    requires buffer.Length == BUFFER_SIZE && v < 100 && Digits(v) < p < BUFFER_SIZE
    requires Numeral(v) + buffer[p..BUFFER_SIZE - 1] == Numeral(value)
    modifies buffer
    ensures start == p - Digits(v) && buffer[start..BUFFER_SIZE - 1] == Numeral(value)
  {
    hide Numeral, Digits;
    LastDigits(v);
    if v < 10 {
      start := p - 1;
      ghost var done := buffer[p..BUFFER_SIZE - 1];
      buffer[start] := DigitChar(v);
      assert buffer[start..BUFFER_SIZE - 1] == [DigitChar(v)] + done;
    } else {
      var index := v * 2;
      start := PutTwo(buffer, p, DIGITS[index], DIGITS[index + 1]);
    }
  }

  lemma NumeralOfTwo(v: nat)
    requires v < 100
    ensures v < 10 ==> Digits(v) == 1 && Numeral(v) == [DigitChar(v)]
    ensures v >= 10 ==> Digits(v) == 2 && Numeral(v) == [DigitChar(v / 10), DigitChar(v % 10)]
  {
    if v >= 10 {
      assert Numeral(v) == Numeral(v / 10) + [DigitChar(v % 10)];
    }
  }

  lemma LastDigits(v: nat)
    requires v < 100
    ensures v < 10 ==> Digits(v) == 1 && Numeral(v) == [DigitChar(v)]
    ensures v >= 10 ==> Digits(v) == 2 && Numeral(v) == [DIGITS[v * 2], DIGITS[v * 2 + 1]]
  {
    hide Numeral, Digits, DigitChar;
    NumeralOfTwo(v);
    TableAt(v);
  }

  lemma TwoDigitStep(v: nat)
    requires v >= 100
    ensures Digits(v) == Digits(v / 100) + 2
    ensures Numeral(v) == Numeral(v / 100) + [DigitChar(v / 10 % 10), DigitChar(v % 10)]
  {
    assert Numeral(v) == Numeral(v / 10) + [DigitChar(v % 10)];
    assert Numeral(v / 10) == Numeral(v / 10 / 10) + [DigitChar(v / 10 % 10)];
    assert v / 10 / 10 == v / 100;
  }
}
