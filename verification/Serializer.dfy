/** The serializer at work: an iterator that moves through a byte buffer, and the tuple that uses it. */
module Serializer {
  import opened Bytes
  import opened Options
  import opened Codec

  /** Stores `bytes` at `at` and moves on. */
  method WriteBytes(bytes: seq<Byte>, buf: array<Byte>, at: nat) returns (next: nat)
    requires at + |bytes| <= buf.Length
    modifies buf
    ensures next == at + |bytes| && buf[at..next] == bytes
    ensures buf[..at] == old(buf[..at]) && buf[next..] == old(buf[next..])
  {
    forall i | 0 <= i < |bytes| {
      buf[at + i] := bytes[i];
    }
    next := at + |bytes|;
  }

  /** `serializer`, which writes through an iterator into a buffer that is long enough. */
  method Write(v: Value, ty: Type, buf: array<Byte>, at: nat) returns (next: nat)
    requires IsA(v, ty) && at + GetSize(v, ty) <= buf.Length
    modifies buf
    ensures next == at + GetSize(v, ty) && buf[at..next] == Encode(v, ty)
    ensures buf[..at] == old(buf[..at]) && buf[next..] == old(buf[next..])
    decreases ty, 1
  {
    SizeExact(v, ty);
    match ty {
      case Fixed(_) =>
        next := WriteBytes(v.bytes, buf, at);
      case Text =>
        next := WriteSized(v.chars, buf, at);
      case Vector(_) =>
        next := WriteBytes(LowFirst(|v.items|, SIZE_BYTES), buf, at);
        ItemsSizeExact(v, ty, 0);
        next := WriteItems(v, ty, buf, next);
        assert buf[at..next] == buf[at..at + SIZE_BYTES] + buf[at + SIZE_BYTES..next];
      case Tuple(_) =>
        next := WriteItems(v, ty, buf, at);
    }
  }

  /** A string: its length, then its characters one by one. */
  method WriteSized(chars: seq<Byte>, buf: array<Byte>, at: nat) returns (next: nat)
    requires at + SIZE_BYTES + |chars| <= buf.Length
    modifies buf
    ensures next == at + SIZE_BYTES + |chars| && buf[at..next] == LowFirst(|chars|, SIZE_BYTES) + chars
    ensures buf[..at] == old(buf[..at]) && buf[next..] == old(buf[next..])
  {
    hide LowFirst;
    next := WriteBytes(LowFirst(|chars|, SIZE_BYTES), buf, at);
    var i := 0;
    while i < |chars|
      invariant i <= |chars| && next == at + SIZE_BYTES + i
      invariant buf[at..next] == LowFirst(|chars|, SIZE_BYTES) + chars[..i]
      invariant buf[..at] == old(buf[..at]) && buf[at + SIZE_BYTES + |chars|..] == old(buf[at + SIZE_BYTES + |chars|..])
    {
      ghost var done := buf[at..next];
      buf[next] := chars[i];
      assert buf[at..next + 1] == done + [chars[i]];
      assert chars[..i + 1] == chars[..i] + [chars[i]];
      next := next + 1;
      i := i + 1;
    }
    assert chars[..i] == chars;
  }

  /** The items of a vector or tuple, one after the other. */
  method WriteItems(v: Value, ty: Type, buf: array<Byte>, at: nat) returns (next: nat)
    requires IsA(v, ty) && v.Items? && (ty.Vector? || ty.Tuple?)
    requires at + ItemsSize(v, ty, 0) <= buf.Length
    modifies buf
    ensures next == at + ItemsSize(v, ty, 0) && buf[at..next] == EncodeItems(v, ty, 0)
    ensures buf[..at] == old(buf[..at]) && buf[next..] == old(buf[next..])
    decreases ty, 0
  {
    hide Encode, EncodeItems, GetSize, ItemsSize, IsA;
    next := at;
    var i := 0;
    ghost var end := at + ItemsSize(v, ty, 0);
    while i < |v.items|
      invariant i <= |v.items| && at <= next && next + ItemsSize(v, ty, i) == end
      invariant buf[at..next] + EncodeItems(v, ty, i) == EncodeItems(v, ty, 0)
      invariant buf[..at] == old(buf[..at]) && buf[end..] == old(buf[end..])
    {
      ItemStep(v, ty, i);
      ghost var was, start := buf[..], next;
      next := Write(v.items[i], ItemType(ty, i), buf, next);
      Joined(was, buf[..], at, start, next, end, Encode(v.items[i], ItemType(ty, i)));
      i := i + 1;
    }
    ItemsEnd(v, ty);
  }

  lemma ItemStep(v: Value, ty: Type, i: nat)
    requires IsA(v, ty) && v.Items? && (ty.Vector? || ty.Tuple?) && i < |v.items|
    ensures ty.Tuple? ==> |v.items| == |ty.fields|
    ensures IsA(v.items[i], ItemType(ty, i))
    ensures ItemsSize(v, ty, i) == GetSize(v.items[i], ItemType(ty, i)) + ItemsSize(v, ty, i + 1)
    ensures EncodeItems(v, ty, i) == Encode(v.items[i], ItemType(ty, i)) + EncodeItems(v, ty, i + 1)
  {
  }

  lemma ItemsEnd(v: Value, ty: Type)
    requires IsA(v, ty) && v.Items?
    ensures ItemsSize(v, ty, |v.items|) == 0 && EncodeItems(v, ty, |v.items|) == []
  {
  }

  /** A write from `start` to `next` leaves what was written before it and what lies after `end`. */
  lemma Joined(was: seq<Byte>, now: seq<Byte>, at: nat, start: nat, next: nat, end: nat, e: seq<Byte>)
    requires at <= start <= next <= end <= |was| == |now|
    requires now[start..next] == e && now[..start] == was[..start] && now[next..] == was[next..]
    ensures now[at..next] == was[at..start] + e && now[..at] == was[..at] && now[end..] == was[end..]
  {
    assert now[at..start] == now[..start][at..] == was[at..start];
    assert now[at..next] == now[at..start] + now[start..next];
    assert now[..at] == now[..start][..at];
    assert now[end..] == now[next..][end - next..];
  }

  class Stream {
    var bytes: array<Byte>

    constructor ()
      ensures bytes[..] == [] && fresh(bytes)
    {
      bytes := new Byte[0];
    }

    /** `serialize`: makes room for the value at the end and writes it there. */
    method Serialize(v: Value, ty: Type)
      requires IsA(v, ty)
      modifies this
      ensures bytes[..] == old(bytes[..]) + Encode(v, ty) && fresh(bytes)
    {
      var offset := bytes.Length;
      var grown := new Byte[offset + GetSize(v, ty)](i requires 0 <= i reads this, bytes =>
        if i < bytes.Length then bytes[i] else 0);
      ghost var was := bytes[..];
      assert grown[..offset] == was;
      var end := Write(v, ty, grown, offset);
      assert grown[..] == grown[..offset] + grown[offset..end];
      bytes := grown;
    }
  }

  // ---------- reading ----------

  /** `deserialize`, which moves an iterator through the stream; None where an assertion on its end would fail. */
  method Read(ty: Type, bs: seq<Byte>, at: nat) returns (r: Option<(Value, nat)>)
    ensures r == Decode(ty, bs, at)
    decreases ty, 1
  {
    match ty {
      case Fixed(width) =>
        if |bs| < at + width { return None; }
        r := Some((Raw(bs[at..at + width]), at + width));
      case Text =>
        r := ReadSized(bs, at);
      case Vector(_) =>
        var n := ReadSize(bs, at);
        if n.None? { return None; }
        r := ReadItems(ty, n.value, bs, at + SIZE_BYTES);
      case Tuple(fields) =>
        r := ReadItems(ty, |fields|, bs, at);
    }
  }

  method ReadSized(bs: seq<Byte>, at: nat) returns (r: Option<(Value, nat)>)
    ensures r == Decode(Text, bs, at)
  {
    var n := ReadSize(bs, at);
    if n.None? { return None; }
    var str, next := [], at + SIZE_BYTES;
    var i := 0;
    while i < n.value
      invariant i <= n.value && next == at + SIZE_BYTES + i <= |bs| && str == bs[at + SIZE_BYTES..next]
    {
      if |bs| < next + 1 { return None; }
      str := str + [bs[next]];
      next := next + 1;
      i := i + 1;
    }
    r := Some((Chars(str), next));
  }

  method ReadItems(ty: Type, n: nat, bs: seq<Byte>, at: nat) returns (r: Option<(Value, nat)>)
    requires ty.Vector? || (ty.Tuple? && n == |ty.fields|)
    ensures r == DecodeItems(ty, n, 0, bs, at, [])
    decreases ty, 0
  {
    var items, next := [], at;
    var i := 0;
    while i < n
      invariant i <= n && DecodeItems(ty, n, i, bs, next, items) == DecodeItems(ty, n, 0, bs, at, [])
    {
      var item := Read(ItemType(ty, i), bs, next);
      if item.None? { return None; }
      items, next := items + [item.value.0], item.value.1;
      i := i + 1;
    }
    r := Some((Items(items), next));
  }
}
