/** A tuple written to a stream and read back: its kind, its fields and its null bits. */
module TupleStream {
  import opened Bytes
  import opened Options
  import opened Powers
  import opened Codec
  import opened Serializer

  // ---------- null bits ----------

  /** `sizeof(std::bitset<n>)`: whole words of 64 bits. */
  function BitsetWidth(n: nat): nat {
    8 * ((n + 63) / 64)
  }

  /** The bits as a number, bit 0 the lowest: in memory the low byte comes first. */
  function BitsNumber(bits: seq<bool>): nat {
    if bits == [] then 0 else (if bits[0] then 1 else 0) + 2 * BitsNumber(bits[1..])
  }

  function NumberBits(x: nat, n: nat): (r: seq<bool>)
    ensures |r| == n
  {
    if n == 0 then [] else [x % 2 == 1] + NumberBits(x / 2, n - 1)
  }

  lemma {:induction false} BitsBack(bits: seq<bool>)
    ensures NumberBits(BitsNumber(bits), |bits|) == bits && BitsNumber(bits) < Twos(|bits|)
  {
    if bits != [] {
      BitsBack(bits[1..]);
    }
  }

  /** The bits fit the bytes of the bitset. */
  lemma {:induction false} TwosFit(n: nat, k: nat)
    requires n <= 8 * k
    ensures Twos(n) <= Power(k)
  {
    if n == 0 {
      PowerPositive(k);
    } else if n < 8 {
      TwosGrow(n, 8);
      PowerPositive(k - 1);
      EightTwos(0);
    } else {
      TwosFit(n - 8, k - 1);
      EightTwos(n - 8);
    }
  }

  lemma EightTwos(n: nat)
    ensures Twos(n + 8) == 256 * Twos(n)
  {
    assert Twos(n + 8) == 2 * Twos(n + 7) == 4 * Twos(n + 6) == 8 * Twos(n + 5) == 16 * Twos(n + 4);
    assert Twos(n + 4) == 2 * Twos(n + 3) == 4 * Twos(n + 2) == 8 * Twos(n + 1) == 16 * Twos(n);
  }

  function NullBytes(bits: seq<bool>): seq<Byte> {
    LowFirst(BitsNumber(bits), BitsetWidth(|bits|))
  }

  lemma NullsBack(bits: seq<bool>)
    ensures NumberBits(Number(NullBytes(bits)), |bits|) == bits
  {
    BitsBack(bits);
    TwosFit(|bits|, BitsetWidth(|bits|));
    NumberBack(BitsNumber(bits), BitsetWidth(|bits|));
  }

  lemma Halves(h: nat, l: nat, j: nat)
    requires j > 0
    ensures var x, half := Twos(j) * h + l, Twos(j - 1) * h;
      x >= 0 && half >= 0 && x % 2 == l % 2 && x / 2 == half + l / 2
    ensures l < Twos(j) ==> l / 2 < Twos(j - 1)
  {
    var p := Twos(j - 1);
    assert Twos(j) == 2 * p;
    assert (2 * p) * h == 2 * (p * h);
    HalfOf(p * h, l);
  }

  lemma HalfOf(a: nat, l: nat)
    ensures (2 * a + l) % 2 == l % 2 && (2 * a + l) / 2 == a + l / 2
  {
  }

  lemma NextBit(x: nat, n: nat)
    requires n > 0
    ensures NumberBits(x, n) == [x % 2 == 1] + NumberBits(x / 2, n - 1)
  {
  }

  lemma NoBits(x: nat)
    ensures NumberBits(x, 0) == [] && Twos(0) * x == x
  {
  }

  /** The low bits of a number, and then those of the rest. */
  lemma {:induction false} LowBits(h: nat, l: nat, j: nat, m: nat)
    requires l < Twos(j)
    ensures Twos(j) * h + l >= 0
    ensures NumberBits(Twos(j) * h + l, j + m) == NumberBits(l, j) + NumberBits(h, m)
  {
    if j > 0 {
      Halves(h, l, j);
      hide NumberBits, Twos;
      LowBits(h, l / 2, j - 1, m);
      NextBit(Twos(j) * h + l, j + m);
      NextBit(l, j);
      var bit, low, high := [l % 2 == 1], NumberBits(l / 2, j - 1), NumberBits(h, m);
      assert bit + (low + high) == bit + low + high;
    } else {
      NoBits(h);
      NoBits(l);
      assert l == 0;
      hide NumberBits, Twos;
      assert [] + NumberBits(h, m) == NumberBits(h, m);
    }
  }

  lemma FirstByte(n: nat, m: nat)
    ensures NumberBits(n, 8 + m) == NumberBits(n % 256, 8) + NumberBits(n / 256, m)
  {
    EightTwos(0);
    assert n == 256 * (n / 256) + n % 256;
    LowBits(n / 256, n % 256, 8, m);
  }

  lemma {:induction false} BytesBits(n: nat, w: nat, i: nat)
    requires i < 8 * w
    ensures NumberBits(n, 8 * w)[i] == NumberBits(LowFirst(n, w)[i / 8], 8)[i % 8]
  {
    hide NumberBits;
    FirstByte(n, 8 * (w - 1));
    if i >= 8 {
      BytesBits(n / 256, w - 1, i - 8);
      assert i / 8 == (i - 8) / 8 + 1;
    }
  }

  lemma {:induction false} BitsFront(x: nat, n: nat, m: nat)
    requires n <= m
    ensures NumberBits(x, n) == NumberBits(x, m)[..n]
  {
    if n > 0 {
      BitsFront(x / 2, n - 1, m - 1);
    }
  }

  lemma {:induction false} BitIs(x: nat, n: nat, j: nat)
    requires j < n
    ensures Twos(j) > 0 && (NumberBits(x, n)[j] <==> x / Twos(j) % 2 == 1)
  {
    if j > 0 {
      BitIs(x / 2, n - 1, j - 1);
      DivideTwice(x, 2, Twos(j - 1));
    }
  }

  /** Bit `i` of a bitset is bit `i % 8`, from the lowest on, of byte `i / 8`; there are whole words of eight bytes. */
  lemma NullBit(bits: seq<bool>, i: nat)
    requires i < |bits|
    ensures |NullBytes(bits)| == 8 * ((|bits| + 63) / 64)
    ensures Twos(i % 8) > 0 && (bits[i] <==> NullBytes(bits)[i / 8] / Twos(i % 8) % 2 == 1)
  {
    hide NumberBits, BitsNumber;
    var n, w := BitsNumber(bits), BitsetWidth(|bits|);
    BitsBack(bits);
    BitsFront(n, |bits|, 8 * w);
    BytesBits(n, w, i);
    BitIs(NullBytes(bits)[i / 8], 8, i % 8);
  }

  // ---------- the tuple ----------

  /** `TupleType::Normal`, one byte */
  const NORMAL := Raw([0])
  const KIND := Fixed(1)

  /** The bytes that a tuple is written as. */
  function Image(fields: seq<Type>, data: Value, nulls: seq<bool>): seq<Byte>
    requires IsA(data, Codec.Tuple(fields))
  {
    Encode(NORMAL, KIND) + Encode(data, Codec.Tuple(fields)) + NullBytes(nulls)
  }

  /** What can stand in a stream, by the first byte. */
  datatype TupleType = Normal | Punctuation

  function KindOf(bs: seq<Byte>): Option<TupleType> {
    if bs == [] then None
    else if bs[0] == 0 then Some(Normal)
    else if bs[0] == 1 then Some(Punctuation)
    else None
  }

  /** A tuple is announced as one, and not as a punctuation; then come its fields, and whole words of null bits. */
  lemma ImageIs(fields: seq<Type>, data: Value, nulls: seq<bool>)
    requires IsA(data, Codec.Tuple(fields)) && |nulls| == |fields|
    ensures var image := Image(fields, data, nulls);
      && image == [0] + Encode(data, Codec.Tuple(fields)) + NullBytes(nulls)
      && KindOf(image) == Some(Normal)
      && |image| == 1 + GetSize(data, Codec.Tuple(fields)) + 8 * ((|fields| + 63) / 64)
  {
    SizeExact(data, Codec.Tuple(fields));
  }

  /** What is read from the front of a stream, if it does not end too early. */
  function Parse(fields: seq<Type>, bs: seq<Byte>): Option<(Value, seq<bool>)> {
    match Decode(KIND, bs, 0)
    case None => None
    case Some((_, at)) =>
      match Decode(Codec.Tuple(fields), bs, at)
      case None => None
      case Some((data, next)) =>
        match ReadBytes(bs, next, BitsetWidth(|fields|))
        case None => None
        case Some(raw) => Some((data, NumberBits(Number(raw), |fields|)))
  }

  /** A tuple read from a stream that begins with its image has the same fields and null bits. */
  lemma ImageBack(fields: seq<Type>, data: Value, nulls: seq<bool>, rest: seq<Byte>)
    requires IsA(data, Codec.Tuple(fields)) && |nulls| == |fields|
    ensures Parse(fields, Image(fields, data, nulls) + rest) == Some((data, nulls))
  {
    var bs := Image(fields, data, nulls) + rest;
    var k, f, b := Encode(NORMAL, KIND), Encode(data, Codec.Tuple(fields)), NullBytes(nulls);
    assert bs == k + (f + (b + rest));
    StandsSplit(bs, 0, k, f + (b + rest));
    StandsSplit(bs, 1, f, b + rest);
    StandsSplit(bs, 1 + |f|, b, rest);
    hide Encode, Decode, NullBytes;
    RoundTrip(NORMAL, KIND, bs, 0);
    RoundTrip(data, Codec.Tuple(fields), bs, 1);
    NullsBack(nulls);
  }

  class Tuple {
    const fields: seq<Type>
    var data: Value
    var nulls: seq<bool>

    ghost predicate Valid()
      reads this
    {
      IsA(data, Codec.Tuple(fields)) && |nulls| == |fields|
    }

    constructor (fields: seq<Type>, data: Value, nulls: seq<bool>)
      requires IsA(data, Codec.Tuple(fields)) && |nulls| == |fields|
      ensures Valid() && this.fields == fields && this.data == data && this.nulls == nulls
    {
      this.fields, this.data, this.nulls := fields, data, nulls;
    }

    method SerializeToStream(s: Stream)
      requires Valid()
      modifies s
      ensures s.bytes[..] == old(s.bytes[..]) + Image(fields, data, nulls)
      ensures var n := |old(s.bytes[..])|;
        && s.bytes.Length == n + 1 + GetSize(data, Codec.Tuple(fields)) + 8 * ((|fields| + 63) / 64)
        && s.bytes[n] == 0 && KindOf(s.bytes[n..]) == Some(Normal)
    {
      ImageIs(fields, data, nulls);
      var bits := Raw(NullBytes(nulls));
      s.Serialize(NORMAL, KIND);
      s.Serialize(data, Codec.Tuple(fields));
      s.Serialize(bits, Fixed(BitsetWidth(|nulls|)));
    }

    /** Overwrites fields and null bits with what the stream holds; false where the stream ends too early. */
    method DeserializeFromStream(s: Stream) returns (ok: bool)
      modifies this
      ensures match Parse(fields, s.bytes[..])
        case None => !ok
        case Some((d, n)) => ok && data == d && nulls == n
    {
      var bs := s.bytes[..];
      var kind := Read(KIND, bs, 0);
      if kind.None? { return false; }
      var fs := Read(Codec.Tuple(fields), bs, kind.value.1);
      if fs.None? { return false; }
      data := fs.value.0;
      var bits := Read(Fixed(BitsetWidth(|fields|)), bs, fs.value.1);
      if bits.None? { return false; }
      nulls := NumberBits(Number(bits.value.0.bytes), |fields|);
      ok := true;
    }
  }
}
