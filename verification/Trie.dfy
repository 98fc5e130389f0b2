/**
 * The tree as a value: leaves that hold whole keys, and inner nodes with a
 * compressed path of which at most ten bytes are stored.
 */
module Trie {
  import opened Bytes

  const MAX_PREFIX_LEN := 10

  /** The address of a version cell, which a leaf points to. */
  type CellId = nat

  datatype Kind = Node4 | Node16 | Node48 | Node256

  /** `partial` is the ten-byte field; its bytes past `plen` are whatever an earlier use left there. */
  datatype Tree =
    | Leaf(key: Key, val: CellId)
    | Inner(kind: Kind, plen: nat, partial: seq<Byte>, kids: map<Byte, Tree>)

  function Capacity(kind: Kind): nat {
    match kind
    case Node4 => 4
    case Node16 => 16
    case Node48 => 48
    case Node256 => 256
  }

  /** How many children a node of each kind holds between two operations. */
  predicate Occupancy(kind: Kind, n: nat) {
    match kind
    case Node4 => 2 <= n <= 4
    case Node16 => 4 <= n <= 16
    case Node48 => 13 <= n <= 48
    case Node256 => 38 <= n <= 256
  }

  /** How many bytes of a path of length `plen` are stored. */
  function Stored(plen: nat): nat {
    Min(MAX_PREFIX_LEN, plen)
  }

  /** The first byte at or above `b` that has a child. */
  function LeastFrom(kids: map<Byte, Tree>, b: Byte): (c: Byte)
    requires exists d :: d in kids && b <= d
    ensures c in kids
    decreases 256 - b
  {
    if b in kids then b else LeastFrom(kids, b + 1)
  }

  function Least(kids: map<Byte, Tree>): (c: Byte)
    requires kids != map[]
    ensures c in kids
  {
    assert exists d :: d in kids && 0 <= d by {
      var d :| d in kids.Keys;
    }
    LeastFrom(kids, 0)
  }

  lemma {:induction false} LeastFromIs(kids: map<Byte, Tree>, b: Byte, c: Byte)
    requires c in kids && b <= c
    ensures b <= LeastFrom(kids, b) <= c
    decreases 256 - b
  {
    if b !in kids {
      LeastFromIs(kids, b + 1, c);
    }
  }

  lemma LeastIs(kids: map<Byte, Tree>, c: Byte)
    requires c in kids && forall d :: d in kids ==> c <= d
    ensures kids != map[] && Least(kids) == c
  {
    LeastFromIs(kids, 0, c);
  }

  /** The key that `minimum` reads the hidden path bytes from. */
  function MinKey(t: Tree): Key {
    match t
    case Leaf(key, _) => key
    case Inner(_, _, _, kids) => if kids == map[] then [] else MinKey(kids[Least(kids)])
  }

  /** Some leaf below `t` holds `key` with payload `val`. */
  ghost predicate Has(t: Tree, key: Key, val: CellId) {
    match t
    case Leaf(k, v) => k == key && v == val
    case Inner(_, _, _, kids) => exists b :: b in kids && Has(kids[b], key, val)
  }

  ghost predicate Holds(t: Tree, key: Key) {
    exists v :: Has(t, key, v)
  }

  /**
   * The path-compression invariant at one inner node at depth `d`: the stored bytes, the hidden
   * rest of the compressed path and the edge bytes agree with every key below, `w` being any key
   * that spells the compressed path.
   */
  ghost predicate NodeOk(t: Tree, d: nat, w: Key)
    decreases t, 0
  {
    && t.Inner?
    && |t.partial| == MAX_PREFIX_LEN
    && d + t.plen <= |w|
    && SpelledAt(t.partial, Stored(t.plen), w, d)
    && Occupancy(t.kind, |t.kids|)
    && forall b :: b in t.kids ==> WF(t.kids[b], d + t.plen + 1) && Edge(MinKey(t.kids[b]), w, d + t.plen, b)
  }

  /** `m` agrees with `w` up to `n` and continues with `b`. */
  ghost predicate Edge(m: Key, w: Key, n: nat, b: Byte) {
    Same(m, w, n) && n < |m| && m[n] == b
  }

  /** Well-formed as a subtree at depth `d`. */
  ghost predicate WF(t: Tree, d: nat)
    decreases t, 1
  {
    match t
    case Leaf(key, _) => IsKey(key) && d <= |key|
    case Inner(_, _, _, _) => NodeOk(t, d, MinKey(t))
  }

  lemma MinKeyOf(t: Tree, c: Byte)
    requires t.Inner? && c in t.kids && forall d :: d in t.kids ==> c <= d
    ensures MinKey(t) == MinKey(t.kids[c])
  {
    LeastIs(t.kids, c);
  }

  // ---------- what well-formedness says about the leaves ----------

  lemma LeafFacts(t: Tree, d: nat)
    requires t.Leaf?
    ensures MinKey(t) == t.key
    ensures WF(t, d) <==> IsKey(t.key) && d <= |t.key|
    ensures forall k, v :: Has(t, k, v) <==> k == t.key && v == t.val
  {
  }

  /** The least leaf is one of the leaves. */
  lemma {:induction false} MinKeyHeld(t: Tree, d: nat)
    requires WF(t, d)
    ensures Holds(t, MinKey(t))
    ensures IsKey(MinKey(t)) && d <= |MinKey(t)|
  {
    if t.Leaf? {
      assert Has(t, t.key, t.val);
    } else {
      var child := t.kids[Least(t.kids)];
      MinKeyHeld(child, d + t.plen + 1);
      var v :| Has(child, MinKey(child), v);
      assert Has(t, MinKey(t), v);
    }
  }

  /** A node whose path is spelled by any key `w` is well-formed, and its least leaf spells that path too. */
  lemma StemKnown(t: Tree, d: nat, w: Key)
    requires NodeOk(t, d, w)
    ensures WF(t, d) && Same(MinKey(t), w, d + t.plen) && d + t.plen < |MinKey(t)|
  {
    assert Edge(MinKey(t), w, d + t.plen, Least(t.kids));
  }

  lemma NodeOkAt(t: Tree, d: nat)
    requires WF(t, d) && t.Inner?
    ensures NodeOk(t, d, MinKey(t))
  {
  }

  /** The stored bytes and the path length, against the least leaf. */
  lemma Header(t: Tree, d: nat)
    requires WF(t, d) && t.Inner?
    ensures |t.partial| == MAX_PREFIX_LEN == 10 && d + t.plen < |MinKey(t)|
    ensures SpelledAt(t.partial, Stored(t.plen), MinKey(t), d) && Stored(t.plen) == Min(10, t.plen)
    ensures Occupancy(t.kind, |t.kids|)
    ensures match t.kind
      case Node4 => 2 <= |t.kids| <= 4
      case Node16 => 4 <= |t.kids| <= 16
      case Node48 => 13 <= |t.kids| <= 48
      case Node256 => 38 <= |t.kids| <= 256
  {
    StemKnown(t, d, MinKey(t));
  }

  lemma Child(t: Tree, d: nat, b: Byte)
    requires WF(t, d) && t.Inner? && b in t.kids
    ensures WF(t.kids[b], d + t.plen + 1)
    ensures Edge(MinKey(t.kids[b]), MinKey(t), d + t.plen, b)
  {
  }

  /** Every key below a node spells the node's whole path and then the edge byte that leads to it. */
  lemma {:induction false} KeyThrough(t: Tree, d: nat, key: Key, val: CellId)
    requires WF(t, d) && Has(t, key, val)
    ensures IsKey(key) && Same(key, MinKey(t), d)
    ensures t.Inner? ==>
      var n := d + t.plen;
      && Same(key, MinKey(t), n) && n < |key|
      && key[n] in t.kids && Has(t.kids[key[n]], key, val)
  {
    if t.Leaf? {
      assert MinKey(t) == key;
    } else {
      var b :| b in t.kids && Has(t.kids[b], key, val);
      Child(t, d, b);
      KeyThrough(t.kids[b], d + t.plen + 1, key, val);
      assert Edge(MinKey(t.kids[b]), MinKey(t), d + t.plen, b);
    }
    hide MinKey, WF;
  }

  /** Moving the start of a compressed path, with its bytes, changes nothing below the node. */
  lemma Relabel(t: Tree, d: nat, plen: nat, partial: seq<Byte>, e: nat)
    requires WF(t, d) && t.Inner? && e + plen == d + t.plen
    requires |partial| == MAX_PREFIX_LEN && SpelledAt(partial, Stored(plen), MinKey(t), e)
    ensures var r := t.(plen := plen, partial := partial);
      && WF(r, e) && MinKey(r) == MinKey(t)
      && forall k, v :: Has(r, k, v) <==> Has(t, k, v)
  {
    Header(t, d);
    var r := t.(plen := plen, partial := partial);
    assert MinKey(r) == MinKey(t);
    assert NodeOk(r, e, MinKey(t));
  }

  lemma {:induction false} OneValue(t: Tree, d: nat, key: Key, v: CellId, w: CellId)
    requires WF(t, d) && Has(t, key, v) && Has(t, key, w)
    ensures v == w
  {
    if t.Inner? {
      KeyThrough(t, d, key, v);
      KeyThrough(t, d, key, w);
      Child(t, d, key[d + t.plen]);
      hide MinKey, WF;
      OneValue(t.kids[key[d + t.plen]], d + t.plen + 1, key, v, w);
    }
  }

  /** Edges carry 7-bit bytes, so no node ever has 128 children. */
  lemma EdgeBytes(t: Tree, d: nat)
    requires WF(t, d) && t.Inner?
    ensures forall b :: b in t.kids ==> 1 <= b <= 127
    ensures |t.kids| <= 127
  {
    forall b | b in t.kids
      ensures 1 <= b <= 127
    {
      Child(t, d, b);
      hide MinKey, WF;
      MinKeyHeld(t.kids[b], d + t.plen + 1);
    }
    SmallSet(t.kids.Keys, 127);
  }

  lemma {:induction false} SmallSet(s: set<Byte>, n: nat)
    requires forall b :: b in s ==> 1 <= b <= n
    ensures |s| <= n
  {
    if n == 0 {
      assert forall b: Byte :: b !in s;
      assert |s| == 0;
    } else if n < 256 && n as Byte in s {
      SmallSet(s - {n as Byte}, n - 1);
    } else {
      SmallSet(s, n - 1);
    }
  }

  lemma {:induction false} SubsetSize(a: set<Byte>, b: set<Byte>)
    requires a <= b
    ensures |a| <= |b|
  {
    if a != {} {
      var x :| x in a;
      SubsetSize(a - {x}, b - {x});
    }
  }

  /** The tree `t` stores exactly the map `m`. */
  ghost predicate Denotes(t: Tree, m: map<Key, CellId>) {
    forall k, v :: Has(t, k, v) <==> k in m && m[k] == v
  }

  /** Neither `key` nor any other stored key is a prefix of the other. */
  ghost predicate PrefixFree(t: Tree, key: Key) {
    forall k, v :: Has(t, k, v) && k != key ==> !Nested(k, key)
  }
}
