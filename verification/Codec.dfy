/**
 * The binary form of nested values: fixed-width values as they lie in memory, strings and vectors behind their
 * lengths.
 */
module Codec {
  import opened Bytes
  import opened Options
  import opened Powers

  /** `sizeof(size_t)`; sizes lie in memory with the low byte first. */
  const SIZE_BYTES := 8

  /** The types that can be serialized; a tuple has at least one field. */
  datatype Type =
    | Fixed(width: nat)
    | Text
    | Vector(elem: Type)
    | Tuple(fields: seq<Type>)

  datatype Value =
    | Raw(bytes: seq<Byte>)
    | Chars(chars: seq<Byte>)
    | Items(items: seq<Value>)

  /** `v` is a value of type `ty` whose sizes fit a `size_t`. */
  ghost predicate IsA(v: Value, ty: Type)
    decreases ty
  {
    match ty
    case Fixed(width) => v.Raw? && |v.bytes| == width
    case Text => v.Chars? && |v.chars| < Power(SIZE_BYTES)
    case Vector(elem) =>
      && v.Items? && |v.items| < Power(SIZE_BYTES)
      && forall i :: 0 <= i < |v.items| ==> IsA(v.items[i], elem)
    case Tuple(fields) =>
      v.Items? && |v.items| == |fields| > 0 && forall i :: 0 <= i < |fields| ==> IsA(v.items[i], fields[i])
  }

  // ---------- numbers ----------

  function Power(k: nat): nat {
    if k == 0 then 1 else 256 * Power(k - 1)
  }

  /** `n` in `k` bytes, the low byte first. */
  function LowFirst(n: nat, k: nat): (r: seq<Byte>)
    ensures |r| == k
  {
    if k == 0 then [] else [n % 256] + LowFirst(n / 256, k - 1)
  }

  function Number(bs: seq<Byte>): nat {
    if bs == [] then 0 else bs[0] + 256 * Number(bs[1..])
  }

  lemma {:induction false} NumberBack(n: nat, k: nat)
    requires n < Power(k)
    ensures Number(LowFirst(n, k)) == n
  {
    if k > 0 {
      NumberBack(n / 256, k - 1);
      assert LowFirst(n, k)[1..] == LowFirst(n / 256, k - 1);
    }
  }

  lemma PowerPositive(k: nat)
    ensures Power(k) > 0
  {
  }

  /** Byte number `i` of a number that is stored low byte first. */
  lemma {:induction false} ByteOf(n: nat, k: nat, i: nat)
    requires i < k
    ensures Power(i) > 0 && LowFirst(n, k)[i] == n / Power(i) % 256
  {
    PowerPositive(i);
    if i > 0 {
      ByteOf(n / 256, k - 1, i - 1);
      DivideTwice(n, 256, Power(i - 1));
    }
  }

  // ---------- sizes and bytes ----------

  /** The type of item number `i`, in a vector or a tuple. */
  function ItemType(ty: Type, i: nat): Type
    requires ty.Vector? || (ty.Tuple? && i < |ty.fields|)
  {
    if ty.Vector? then ty.elem else ty.fields[i]
  }

  /** `get_size` */
  function GetSize(v: Value, ty: Type): nat
    requires IsA(v, ty)
    decreases ty, 1, 0
  {
    match ty
    case Fixed(width) => width
    case Text => SIZE_BYTES + |v.chars|
    case Vector(_) => SIZE_BYTES + ItemsSize(v, ty, 0)
    case Tuple(_) => ItemsSize(v, ty, 0)
  }

  function ItemsSize(v: Value, ty: Type, i: nat): nat
    requires IsA(v, ty) && v.Items? && i <= |v.items|
    decreases ty, 0, |v.items| - i
  {
    if i == |v.items| then 0
    else GetSize(v.items[i], ItemType(ty, i)) + ItemsSize(v, ty, i + 1)
  }

  /** What `serializer` writes. */
  function Encode(v: Value, ty: Type): seq<Byte>
    requires IsA(v, ty)
    decreases ty, 1, 0
  {
    match ty
    case Fixed(_) => v.bytes
    case Text => LowFirst(|v.chars|, SIZE_BYTES) + v.chars
    case Vector(_) => LowFirst(|v.items|, SIZE_BYTES) + EncodeItems(v, ty, 0)
    case Tuple(_) => EncodeItems(v, ty, 0)
  }

  function EncodeItems(v: Value, ty: Type, i: nat): seq<Byte>
    requires IsA(v, ty) && v.Items? && i <= |v.items|
    decreases ty, 0, |v.items| - i
  {
    if i == |v.items| then []
    else Encode(v.items[i], ItemType(ty, i)) + EncodeItems(v, ty, i + 1)
  }

  /** `serialize` writes exactly as many bytes as `get_size` says. */
  lemma {:induction false} SizeExact(v: Value, ty: Type)
    requires IsA(v, ty)
    ensures |Encode(v, ty)| == GetSize(v, ty)
    decreases ty, 1, 0
  {
    if ty.Vector? || ty.Tuple? {
      ItemsSizeExact(v, ty, 0);
    }
  }

  lemma {:induction false} ItemsSizeExact(v: Value, ty: Type, i: nat)
    requires IsA(v, ty) && v.Items? && i <= |v.items|
    ensures |EncodeItems(v, ty, i)| == ItemsSize(v, ty, i)
    decreases ty, 0, |v.items| - i
  {
    if i < |v.items| {
      SizeExact(v.items[i], ItemType(ty, i));
      ItemsSizeExact(v, ty, i + 1);
    }
  }

  /** Strings and vectors begin with their length in eight bytes, the low byte first. */
  lemma LengthFirst(v: Value, ty: Type, i: nat)
    requires IsA(v, ty) && (ty.Text? || ty.Vector?) && i < 8
    ensures var n := if ty.Text? then |v.chars| else |v.items|;
      && |Encode(v, ty)| >= 8 && Power(i) > 0 && Encode(v, ty)[i] == n / Power(i) % 256
      && (ty.Text? ==> Encode(v, ty)[8..] == v.chars)
  {
    ByteOf(if ty.Text? then |v.chars| else |v.items|, SIZE_BYTES, i);
    hide LowFirst;
  }

  // ---------- reading back ----------

  /** The next `n` bytes, where a read past the end of the stream fails. */
  function ReadBytes(bs: seq<Byte>, at: nat, n: nat): Option<seq<Byte>> {
    if at + n <= |bs| then Some(bs[at..at + n]) else None
  }

  function ReadSize(bs: seq<Byte>, at: nat): Option<nat> {
    match ReadBytes(bs, at, SIZE_BYTES)
    case None => None
    case Some(raw) => Some(Number(raw))
  }

  /** `deserialize`: a value of type `ty` that starts at position `at`, and the position after it. */
  function Decode(ty: Type, bs: seq<Byte>, at: nat): Option<(Value, nat)>
    decreases ty, 1, 0
  {
    match ty
    case Fixed(width) =>
      (match ReadBytes(bs, at, width)
       case None => None
       case Some(raw) => Some((Raw(raw), at + width)))
    case Text =>
      (match ReadSize(bs, at)
       case None => None
       case Some(n) =>
         match ReadBytes(bs, at + SIZE_BYTES, n)
         case None => None
         case Some(raw) => Some((Chars(raw), at + SIZE_BYTES + n)))
    case Vector(_) =>
      (match ReadSize(bs, at)
       case None => None
       case Some(n) => DecodeItems(ty, n, 0, bs, at + SIZE_BYTES, []))
    case Tuple(fields) => DecodeItems(ty, |fields|, 0, bs, at, [])
  }

  /** Items `i` to `n`, behind the ones read so far. */
  function DecodeItems(ty: Type, n: nat, i: nat, bs: seq<Byte>, at: nat, got: seq<Value>): Option<(Value, nat)>
    requires i <= n && (ty.Vector? || (ty.Tuple? && n == |ty.fields|))
    decreases ty, 0, n - i
  {
    if i == n then Some((Items(got), at))
    else
      match Decode(ItemType(ty, i), bs, at)
      case None => None
      case Some((v, next)) => DecodeItems(ty, n, i + 1, bs, next, got + [v])
  }

  /** The bytes `e` stand at position `at`. */
  ghost predicate StandsAt(bs: seq<Byte>, at: nat, e: seq<Byte>) {
    at + |e| <= |bs| && bs[at..at + |e|] == e
  }

  lemma StandsSplit(bs: seq<Byte>, at: nat, a: seq<Byte>, b: seq<Byte>)
    requires StandsAt(bs, at, a + b)
    ensures StandsAt(bs, at, a) && StandsAt(bs, at + |a|, b)
  {
    var w := bs[at..at + |a + b|];
    assert w[..|a|] == a && w[|a|..] == b;
    assert bs[at..at + |a|] == w[..|a|] && bs[at + |a|..at + |a| + |b|] == w[|a|..];
  }

  lemma SizeBack(bs: seq<Byte>, at: nat, n: nat)
    requires n < Power(SIZE_BYTES) && StandsAt(bs, at, LowFirst(n, SIZE_BYTES))
    ensures ReadSize(bs, at) == Some(n)
  {
    NumberBack(n, SIZE_BYTES);
  }

  /**
   * Wherever a value stands in a stream, whatever follows it, reading gives the value back and stops right
   * after it.
   */
  lemma {:induction false} RoundTrip(v: Value, ty: Type, bs: seq<Byte>, at: nat)
    requires IsA(v, ty) && StandsAt(bs, at, Encode(v, ty))
    ensures Decode(ty, bs, at) == Some((v, at + |Encode(v, ty)|))
    decreases ty, 1, 0
  {
    match ty {
      case Fixed(_) =>
      case Text =>
        StandsSplit(bs, at, LowFirst(|v.chars|, SIZE_BYTES), v.chars);
        SizeBack(bs, at, |v.chars|);
      case Vector(_) =>
        StandsSplit(bs, at, LowFirst(|v.items|, SIZE_BYTES), EncodeItems(v, ty, 0));
        SizeBack(bs, at, |v.items|);
        ItemsRoundTrip(v, ty, 0, bs, at + SIZE_BYTES);
      case Tuple(_) =>
        ItemsRoundTrip(v, ty, 0, bs, at);
    }
  }

  lemma {:induction false} ItemsRoundTrip(v: Value, ty: Type, i: nat, bs: seq<Byte>, at: nat)
    requires IsA(v, ty) && v.Items? && i <= |v.items| && (ty.Vector? || ty.Tuple?)
    requires StandsAt(bs, at, EncodeItems(v, ty, i))
    ensures DecodeItems(ty, |v.items|, i, bs, at, v.items[..i]) == Some((v, at + |EncodeItems(v, ty, i)|))
    decreases ty, 0, |v.items| - i
  {
    hide IsA, Encode, EncodeItems, Decode, DecodeItems, StandsAt;
    ItemEncoded(v, ty, i);
    ItemDecoded(ty, |v.items|, i, bs, at, v.items[..i]);
    if i == |v.items| {
      assert v.items[..i] == v.items;
    } else {
      var e := Encode(v.items[i], ItemType(ty, i));
      StandsSplit(bs, at, e, EncodeItems(v, ty, i + 1));
      RoundTrip(v.items[i], ItemType(ty, i), bs, at);
      ItemsRoundTrip(v, ty, i + 1, bs, at + |e|);
      assert v.items[..i + 1] == v.items[..i] + [v.items[i]];
    }
  }

  /** Types whose tuples all have fields. */
  ghost predicate Proper(ty: Type)
    decreases ty
  {
    match ty
    case Vector(elem) => Proper(elem)
    case Tuple(fields) => |fields| > 0 && forall i :: 0 <= i < |fields| ==> Proper(fields[i])
    case _ => true
  }

  lemma {:induction false} BytesBack(bs: seq<Byte>)
    ensures Number(bs) < Power(|bs|) && LowFirst(Number(bs), |bs|) == bs
  {
    if bs != [] {
      BytesBack(bs[1..]);
      assert Number(bs) % 256 == bs[0] && Number(bs) / 256 == Number(bs[1..]);
      assert bs == [bs[0]] + bs[1..];
    }
  }

  /** What is read is a value of the type, and stands there in its binary form. */
  lemma {:induction false} DecodedStands(ty: Type, bs: seq<Byte>, at: nat)
    requires Proper(ty) && at <= |bs| && Decode(ty, bs, at).Some?
    ensures var (v, next) := Decode(ty, bs, at).value;
      IsA(v, ty) && StandsAt(bs, at, Encode(v, ty)) && next == at + |Encode(v, ty)|
    decreases ty, 1, 0
  {
    match ty {
      case Fixed(_) =>
      case Text =>
        TextStands(bs, at);
      case Vector(_) =>
        var raw := bs[at..at + SIZE_BYTES];
        BytesBack(raw);
        ItemsStand(ty, Number(raw), 0, bs, at + SIZE_BYTES, []);
        hide DecodeItems, EncodeItems, IsA, StandsAt;
        SizeStands(bs, at);
        Joins(bs, at, raw, EncodeItems(DecodeItems(ty, Number(raw), 0, bs, at + SIZE_BYTES, []).value.0, ty, 0));
      case Tuple(fields) =>
        ItemsStand(ty, |fields|, 0, bs, at, []);
    }
  }

  lemma SizeStands(bs: seq<Byte>, at: nat)
    requires at + SIZE_BYTES <= |bs|
    ensures StandsAt(bs, at, bs[at..at + SIZE_BYTES])
  {
  }

  lemma TextStands(bs: seq<Byte>, at: nat)
    requires at <= |bs| && Decode(Text, bs, at).Some?
    ensures var (v, next) := Decode(Text, bs, at).value;
      IsA(v, Text) && StandsAt(bs, at, Encode(v, Text)) && next == at + |Encode(v, Text)|
  {
    var raw := bs[at..at + SIZE_BYTES];
    BytesBack(raw);
    Joins(bs, at, raw, bs[at + SIZE_BYTES..at + SIZE_BYTES + Number(raw)]);
  }

  lemma Joins(bs: seq<Byte>, at: nat, a: seq<Byte>, b: seq<Byte>)
    requires StandsAt(bs, at, a) && StandsAt(bs, at + |a|, b)
    ensures StandsAt(bs, at, a + b)
  {
    assert bs[at..at + |a + b|] == bs[at..at + |a|] + bs[at + |a|..at + |a| + |b|];
  }

  lemma {:induction false} ItemsStand(ty: Type, n: nat, i: nat, bs: seq<Byte>, at: nat, got: seq<Value>)
    requires Proper(ty) && i <= n && (ty.Vector? || (ty.Tuple? && n == |ty.fields|)) && at <= |bs|
    requires ty.Vector? ==> n < Power(SIZE_BYTES)
    requires |got| == i && forall j :: 0 <= j < i ==> IsA(got[j], ItemType(ty, j))
    requires DecodeItems(ty, n, i, bs, at, got).Some?
    ensures var (v, next) := DecodeItems(ty, n, i, bs, at, got).value;
      && IsA(v, ty) && v.Items? && |v.items| == n && v.items[..i] == got
      && StandsAt(bs, at, EncodeItems(v, ty, i)) && next == at + |EncodeItems(v, ty, i)|
    decreases ty, 0, n - i
  {
    hide Encode, EncodeItems, Decode, DecodeItems, StandsAt;
    ItemDecoded(ty, n, i, bs, at, got);
    if i == n {
      NoneStand(ty, bs, at, got);
    } else {
      DecodedStands(ItemType(ty, i), bs, at);
      var (w, next) := Decode(ItemType(ty, i), bs, at).value;
      StandsWithin(bs, at, Encode(w, ItemType(ty, i)));
      ItemsStand(ty, n, i + 1, bs, next, got + [w]);
      var v := DecodeItems(ty, n, i + 1, bs, next, got + [w]).value.0;
      assert v.items[..i + 1][..i] == got && v.items[..i + 1][i] == w;
      ItemEncoded(v, ty, i);
      Joins(bs, at, Encode(w, ItemType(ty, i)), EncodeItems(v, ty, i + 1));
    }
  }

  lemma StandsWithin(bs: seq<Byte>, at: nat, e: seq<Byte>)
    requires StandsAt(bs, at, e)
    ensures at + |e| <= |bs|
  {
  }

  lemma NoneStand(ty: Type, bs: seq<Byte>, at: nat, got: seq<Value>)
    requires ty.Vector? || (ty.Tuple? && |got| == |ty.fields| > 0)
    requires at <= |bs| && forall j :: 0 <= j < |got| ==> IsA(got[j], ItemType(ty, j))
    requires ty.Vector? ==> |got| < Power(SIZE_BYTES)
    ensures IsA(Items(got), ty) && EncodeItems(Items(got), ty, |got|) == [] && StandsAt(bs, at, [])
    ensures got[..|got|] == got
  {
  }

  /** Reading succeeds exactly where the binary form of a value stands, and gives that value. */
  lemma DecodeExact(v: Value, ty: Type, bs: seq<Byte>, at: nat, next: nat)
    requires Proper(ty) && at <= |bs|
    ensures Decode(ty, bs, at) == Some((v, next))
      <==> IsA(v, ty) && StandsAt(bs, at, Encode(v, ty)) && next == at + |Encode(v, ty)|
  {
    if Decode(ty, bs, at) == Some((v, next)) {
      DecodedStands(ty, bs, at);
    }
    if IsA(v, ty) && StandsAt(bs, at, Encode(v, ty)) {
      RoundTrip(v, ty, bs, at);
    }
  }

  /** Where item number `i` stands in what the items of a vector or tuple are written as. */
  lemma {:induction false} ItemAt(v: Value, ty: Type, i: nat, j: nat)
    requires IsA(v, ty) && v.Items? && (ty.Vector? || ty.Tuple?) && i <= j < |v.items|
    ensures ty.Tuple? ==> |v.items| == |ty.fields|
    ensures ItemsSize(v, ty, j) <= ItemsSize(v, ty, i)
    ensures var offset := ItemsSize(v, ty, i) - ItemsSize(v, ty, j);
      StandsAt(EncodeItems(v, ty, i), offset, Encode(v.items[j], ItemType(ty, j)))
    decreases j - i
  {
    hide IsA, Encode, EncodeItems, StandsAt;
    ItemEncoded(v, ty, i);
    ItemEncoded(v, ty, j);
    SizeExact(v.items[i], ItemType(ty, i));
    if i < j {
      ItemAt(v, ty, i + 1, j);
      StandsBehind(Encode(v.items[i], ItemType(ty, i)), EncodeItems(v, ty, i + 1),
                   ItemsSize(v, ty, i + 1) - ItemsSize(v, ty, j), Encode(v.items[j], ItemType(ty, j)));
    } else {
      StandsFirst(Encode(v.items[i], ItemType(ty, i)), EncodeItems(v, ty, i + 1));
    }
  }

  lemma StandsFirst(a: seq<Byte>, b: seq<Byte>)
    ensures StandsAt(a + b, 0, a)
  {
  }

  lemma StandsBehind(a: seq<Byte>, b: seq<Byte>, at: nat, e: seq<Byte>)
    requires StandsAt(b, at, e)
    ensures StandsAt(a + b, |a| + at, e)
  {
    assert (a + b)[|a| + at..|a| + at + |e|] == b[at..at + |e|];
  }

  lemma ItemEncoded(v: Value, ty: Type, i: nat)
    requires IsA(v, ty) && v.Items? && i <= |v.items| && (ty.Vector? || ty.Tuple?)
    ensures ty.Tuple? ==> |v.items| == |ty.fields|
    ensures i < |v.items| ==> IsA(v.items[i], ItemType(ty, i))
    ensures EncodeItems(v, ty, i) ==
      if i == |v.items| then [] else Encode(v.items[i], ItemType(ty, i)) + EncodeItems(v, ty, i + 1)
  {
  }

  lemma ItemDecoded(ty: Type, n: nat, i: nat, bs: seq<Byte>, at: nat, got: seq<Value>)
    requires i <= n && (ty.Vector? || (ty.Tuple? && n == |ty.fields|))
    ensures DecodeItems(ty, n, i, bs, at, got) ==
      if i == n then Some((Items(got), at))
      else match Decode(ItemType(ty, i), bs, at)
        case None => None
        case Some((v, next)) => DecodeItems(ty, n, i + 1, bs, next, got + [v])
  {
  }

  /** The form is self-delimiting: if one encoding begins another of the same type, they are of the same value. */
  lemma SelfDelimiting(v: Value, w: Value, ty: Type)
    requires IsA(v, ty) && IsA(w, ty) && Encode(v, ty) <= Encode(w, ty)
    ensures v == w
  {
    RoundTrip(v, ty, Encode(w, ty), 0);
    RoundTrip(w, ty, Encode(w, ty), 0);
  }
}
