/** Bytes, keys, memory copies and the prefix order on keys. */
module Bytes {

  type Byte = b: int | 0 <= b < 256

  type Key = seq<Byte>

  /** The key bytes the tree supports: a C string of 7-bit characters. */
  predicate IsKey(key: Key) {
    forall i :: 0 <= i < |key| ==> 1 <= key[i] <= 127
  }

  /** `a` and `b` both have `n` bytes, and agree on them. */
  ghost predicate Same(a: Key, b: Key, n: int) {
    && n <= |a| && n <= |b|
    && forall i :: 0 <= i < n ==> a[i] == b[i]
  }

  /** One of the two keys is a prefix of the other. */
  ghost predicate Nested(a: Key, b: Key) {
    Same(a, b, |a|) || Same(a, b, |b|)
  }

  /** The first `n` bytes of `partial` are those of `key` from `d` on. */
  ghost predicate SpelledAt(partial: seq<Byte>, n: nat, key: Key, d: nat) {
    && n <= |partial| && d + n <= |key|
    && forall i :: 0 <= i < n ==> partial[i] == key[d + i]
  }

  function Min(a: int, b: int): int {
    if a < b then a else b
  }

  /** `key[i]`, with the string terminator standing for every position past the end. */
  function At(key: Key, i: nat): Byte {
    if i < |key| then key[i] else 0
  }

  /** The bytes of `s` from position `d` on; none when `d` lies past the end. */
  function Drop(s: seq<Byte>, d: nat): seq<Byte> {
    if d <= |s| then s[d..] else []
  }

  /** `memcpy(dst + at, src, n)`; callers show that the copy stays within both buffers. */
  function Patch(dst: seq<Byte>, at: nat, src: seq<Byte>, n: nat): seq<Byte> {
    if at + n <= |dst| && n <= |src| then dst[..at] + src[..n] + dst[at + n..] else dst
  }

  /**
   * How many bytes of `a` from `i` on and of `b` from `j` on agree, at most `limit` of them:
   * where the byte-compare loops of the tree stop.
   */
  function Agree(a: seq<Byte>, i: nat, b: seq<Byte>, j: nat, limit: int): (n: nat)
    ensures n > 0 ==> n <= limit && i + n <= |a| && j + n <= |b|
    decreases |a| - i
  {
    if limit <= 0 || i >= |a| || j >= |b| || a[i] != b[j] then 0
    else 1 + Agree(a, i + 1, b, j + 1, limit - 1)
  }

  lemma {:induction false} AgreeStops(a: seq<Byte>, i: nat, b: seq<Byte>, j: nat, limit: int)
    ensures var n := Agree(a, i, b, j, limit);
      && (forall p :: i <= p < i + n ==> a[p] == b[j + (p - i)])
      && (forall q :: j <= q < j + n ==> b[q] == a[i + (q - j)])
      && (n < limit && i + n < |a| && j + n < |b| ==> a[i + n] != b[j + n])
    decreases |a| - i
  {
    if limit > 0 && i < |a| && j < |b| && a[i] == b[j] {
      AgreeStops(a, i + 1, b, j + 1, limit - 1);
    }
  }

  /** Length of the longest common prefix. */
  function Common(a: seq<Byte>, b: seq<Byte>): nat {
    Agree(a, 0, b, 0, |a|)
  }

  /** The three properties of the longest common prefix leave one length only. */
  lemma CommonIs(a: seq<Byte>, b: seq<Byte>, n: nat)
    requires Same(a, b, n)
    requires n < |a| && n < |b| ==> a[n] != b[n]
    ensures Common(a, b) == n
  {
    AgreeStops(a, 0, b, 0, |a|);
  }

  /** Copying the bytes of `key` at `d` to the front of a buffer makes the buffer spell them. */
  lemma PatchSpells(dst: seq<Byte>, key: Key, d: nat, n: nat)
    requires n <= |dst| && d + n <= |key|
    ensures |Patch(dst, 0, Drop(key, d), n)| == |dst| && SpelledAt(Patch(dst, 0, Drop(key, d), n), n, key, d)
  {
  }

  /** A buffer that spells `key` up to `at` goes on doing so when the next bytes are copied in. */
  lemma PatchOnto(dst: seq<Byte>, at: nat, src: seq<Byte>, n: nat, key: Key, d: nat)
    requires at + n <= |dst| && SpelledAt(dst, at, key, d) && SpelledAt(src, n, key, d + at)
    ensures |Patch(dst, at, src, n)| == |dst| && SpelledAt(Patch(dst, at, src, n), at + n, key, d)
  {
  }

  /** Two keys neither of which is a prefix of the other part before either one ends: the bytes a split reads exist. */
  lemma PartingPoint(a: Key, b: Key, d: nat)
    requires Same(a, b, d)
    ensures var n := d + Agree(a, d, b, d, Min(|a|, |b|) - d);
      && Same(a, b, n)
      && (!Nested(a, b) <==> n < |a| && n < |b|)
      && (!Nested(a, b) ==> a[n] != b[n])
  {
    AgreeStops(a, d, b, d, Min(|a|, |b|) - d);
    var n := d + Agree(a, d, b, d, Min(|a|, |b|) - d);
    assert Same(a, b, n);
  }

  /** Byte-lexicographic order, a proper prefix coming first. */
  predicate Less(a: Key, b: Key) {
    var n := Common(a, b);
    n < |b| && (n == |a| || a[n] < b[n])
  }

  lemma LessAt(a: Key, b: Key, n: nat)
    requires Same(a, b, n) && n < |a| && n < |b| && a[n] < b[n]
    ensures Less(a, b) && !Less(b, a) && a != b
  {
    CommonIs(a, b, n);
    CommonIs(b, a, n);
  }

  /** Any two distinct keys are ordered, one way only. */
  lemma LessTotal(a: Key, b: Key)
    ensures a == b || Less(a, b) || Less(b, a)
    ensures !(Less(a, b) && Less(b, a))
  {
    AgreeStops(a, 0, b, 0, |a|);
    CommonIs(b, a, Common(a, b));
  }

  lemma LessTransitive(a: Key, b: Key, c: Key)
    requires Less(a, b) && Less(b, c)
    ensures Less(a, c)
  {
    AgreeStops(a, 0, b, 0, |a|);
    AgreeStops(b, 0, c, 0, |b|);
    CommonIs(a, c, Min(Common(a, b), Common(b, c)));
  }
}
