/** The shape of a tree depends on its contents alone, not on the operations that built it. */
module TrieShape {
  import opened Bytes
  import opened Trie

  /** Equal compressed paths, edges and leaves; node kinds and unused bytes may differ. */
  ghost predicate SameShape(t: Tree, u: Tree) {
    match (t, u)
    case (Leaf(_, _), Leaf(_, _)) => t == u
    case (Inner(_, p, _, kids), Inner(_, q, _, lids)) =>
      p == q && kids.Keys == lids.Keys && forall b :: b in kids ==> SameShape(kids[b], lids[b])
    case _ => false
  }

  ghost predicate SameContents(t: Tree, u: Tree) {
    forall k, v :: Has(t, k, v) <==> Has(u, k, v)
  }

  lemma Shares(t: Tree, u: Tree, k: Key, v: CellId)
    requires SameContents(t, u)
    ensures Has(t, k, v) <==> Has(u, k, v)
  {
  }

  /** Every edge leads to some key. */
  lemma KeyBelow(t: Tree, d: nat, b: Byte) returns (k: Key, v: CellId)
    requires WF(t, d) && t.Inner? && b in t.kids
    ensures Has(t, k, v) && d + t.plen < |k| && k[d + t.plen] == b
  {
    hide WF, NodeOk, MinKey;
    Child(t, d, b);
    MinKeyHeld(t.kids[b], d + t.plen + 1);
    k := MinKey(t.kids[b]);
    v :| Has(t.kids[b], k, v);
  }

  /** An inner node parts two of its keys at the byte after its path. */
  lemma Parts(t: Tree, d: nat) returns (j: Key, v: CellId, k: Key, w: CellId)
    requires WF(t, d) && t.Inner?
    ensures Has(t, j, v) && Has(t, k, w)
    ensures var n := d + t.plen; n < |j| && n < |k| && j[n] != k[n]
  {
    hide WF, NodeOk, MinKey;
    Header(t, d);
    var b :| b in t.kids.Keys;
    assert t.kids.Keys != {b};
    var c :| c in t.kids.Keys && c != b;
    j, v := KeyBelow(t, d, b);
    k, w := KeyBelow(t, d, c);
  }

  /** No tree with the same contents compresses more than the other. */
  lemma PathNotLonger(t: Tree, u: Tree, d: nat)
    requires WF(t, d) && WF(u, d) && t.Inner? && SameContents(t, u)
    ensures u.Inner? && u.plen <= t.plen
  {
    hide WF, NodeOk, MinKey;
    var j, v, k, w := Parts(t, d);
    KeyThrough(u, d, j, v);
    KeyThrough(u, d, k, w);
  }

  lemma ChildContents(t: Tree, d: nat, b: Byte, k: Key, v: CellId)
    requires WF(t, d) && t.Inner? && b in t.kids
    ensures Has(t.kids[b], k, v) <==> Has(t, k, v) && d + t.plen < |k| && k[d + t.plen] == b
  {
    hide WF, NodeOk, MinKey;
    Child(t, d, b);
    if Has(t.kids[b], k, v) {
      KeyThrough(t.kids[b], d + t.plen + 1, k, v);
    }
    if Has(t, k, v) {
      KeyThrough(t, d, k, v);
    }
  }

  lemma EdgesAgree(t: Tree, u: Tree, d: nat, b: Byte)
    requires WF(t, d) && WF(u, d) && t.Inner? && u.Inner? && t.plen == u.plen && SameContents(t, u)
    requires b in t.kids
    ensures b in u.kids
  {
    hide WF, NodeOk, MinKey;
    var k, v := KeyBelow(t, d, b);
    Shares(t, u, k, v);
    hide SameContents;
    KeyThrough(u, d, k, v);
  }

  lemma EdgeSets(t: Tree, u: Tree, d: nat)
    requires WF(t, d) && WF(u, d) && t.Inner? && u.Inner? && t.plen == u.plen
    requires SameContents(t, u) && SameContents(u, t)
    ensures t.kids.Keys == u.kids.Keys
  {
    hide WF, NodeOk, MinKey;
    forall b
      ensures b in t.kids <==> b in u.kids
    {
      if b in t.kids {
        EdgesAgree(t, u, d, b);
      } else if b in u.kids {
        EdgesAgree(u, t, d, b);
      }
    }
  }

  lemma ChildrenShare(t: Tree, u: Tree, d: nat, b: Byte)
    requires WF(t, d) && WF(u, d) && t.Inner? && u.Inner? && t.plen == u.plen && SameContents(t, u)
    requires b in t.kids && b in u.kids
    ensures SameContents(t.kids[b], u.kids[b])
  {
    hide WF, NodeOk, MinKey;
    forall k, v: CellId
      ensures Has(t.kids[b], k, v) <==> Has(u.kids[b], k, v)
    {
      Shares(t, u, k, v);
      ChildContents(t, d, b, k, v);
      ChildContents(u, d, b, k, v);
    }
  }

  /** Two well-formed trees with the same contents have the same shape. */
  lemma {:induction false} ShapeByContents(t: Tree, u: Tree, d: nat)
    requires WF(t, d) && WF(u, d) && SameContents(t, u)
    ensures SameShape(t, u)
  {
    hide WF, NodeOk, MinKey;
    if t.Leaf? {
      if u.Inner? {
        assert SameContents(u, t);
        PathNotLonger(u, t, d);
      } else {
        LeafFacts(t, d);
        LeafFacts(u, d);
        Shares(t, u, t.key, t.val);
      }
    } else {
      assert SameContents(u, t);
      PathNotLonger(t, u, d);
      PathNotLonger(u, t, d);
      EdgeSets(t, u, d);
      hide WF, MinKey, Has, SameContents;
      forall b | b in t.kids
        ensures SameShape(t.kids[b], u.kids[b])
      {
        Child(t, d, b);
        Child(u, d, b);
        ChildrenShare(t, u, d, b);
        ShapeByContents(t.kids[b], u.kids[b], d + t.plen + 1);
      }
    }
  }

  /** How many inner nodes the way down to `key` passes. */
  function PathNodes(t: Tree, key: Key, d: nat): nat {
    match t
    case Leaf(_, _) => 0
    case Inner(_, plen, _, kids) =>
      var n := d + plen;
      1 + if n < |key| && key[n] in kids then PathNodes(kids[key[n]], key, n + 1) else 0
  }

  /** A stored key lies below at most as many inner nodes as it has bytes. */
  lemma {:induction false} PathAtMostKeyLength(t: Tree, key: Key, val: CellId, d: nat)
    requires WF(t, d) && Has(t, key, val)
    ensures d + PathNodes(t, key, d) <= |key|
  {
    hide WF, NodeOk, MinKey;
    KeyThrough(t, d, key, val);
    if t.Inner? {
      Child(t, d, key[d + t.plen]);
      PathAtMostKeyLength(t.kids[key[d + t.plen]], key, val, d + t.plen + 1);
    }
  }
}
