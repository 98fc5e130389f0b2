/** Physical removal: taking a leaf out of a node, shrinking the node, and merging a path. */
module TrieDelete {
  import opened Bytes
  import opened Options
  import opened Trie
  import opened TrieInsert
  import opened TrieSearch

  /**
   * The ten-byte field that replaces the child's when a node with one child left is dropped:
   * the node's stored bytes, the edge byte, and the child's stored bytes, as far as they fit.
   */
  function MergedPartial(partial: seq<Byte>, plen: nat, b: Byte, below: seq<Byte>, plenBelow: nat): seq<Byte> {
    var p1 := if plen < MAX_PREFIX_LEN then Patch(partial, plen, [b], 1) else partial;
    var n1 := if plen < MAX_PREFIX_LEN then plen + 1 else plen;
    var sub := Min(plenBelow, MAX_PREFIX_LEN - n1);
    var p2 := if n1 < MAX_PREFIX_LEN then Patch(p1, n1, below, sub) else p1;
    var n2 := if n1 < MAX_PREFIX_LEN then n1 + sub else n1;
    Patch(below, 0, p2, Min(n2, MAX_PREFIX_LEN))
  }

  /** What a Node4 whose only child is `child` gives way to. */
  function Collapsed(t: Tree, b: Byte, child: Tree): Tree
    requires t.Inner?
  {
    match child
    case Leaf(_, _) => child
    case Inner(_, plen, partial, _) =>
      child.(plen := plen + t.plen + 1,
             partial := MergedPartial(t.partial, t.plen, b, partial, plen))
  }

  function RemoveChild(t: Tree, b: Byte): Tree
    requires t.Inner?
  {
    var kids := t.kids - {b};
    if t.kind == Node4 && |kids| == 1 then
      var c := Least(kids);
      Collapsed(t, c, kids[c])
    else
      var kind := Shrunk(t.kind, |kids|);
      Inner(kind, t.plen, if kind == t.kind then t.partial else HeaderCopy(t.plen, t.partial), kids)
  }

  /** A node shrinks well below the size that it has grown at, so that it does not go back and forth. */
  lemma ShrinksLater(t: Tree, b: Byte)
    requires t.Inner? && b in t.kids && Occupancy(t.kind, |t.kids|) && !(t.kind == Node4 && |t.kids| == 2)
    ensures |t.kids - {b}| == |t.kids| - 1
    ensures RemoveChild(t, b).Inner? && RemoveChild(t, b).kids == t.kids - {b}
    ensures RemoveChild(t, b).kind ==
      match t.kind
      case Node4 => Node4
      case Node16 => if |t.kids| == 4 then Node4 else Node16
      case Node48 => if |t.kids| == 13 then Node16 else Node48
      case Node256 => if |t.kids| == 38 then Node48 else Node256
  {
    assert (t.kids - {b}).Keys == t.kids.Keys - {b};
    assert |t.kids| == |t.kids.Keys| && |t.kids - {b}| == |(t.kids - {b}).Keys|;
  }

  /** The subtree after removing `key` below the inner node `t`; a missing key leaves it as it is. */
  function Remove(t: Tree, key: Key, past: nat -> Byte, depth: nat): Tree
    requires t.Inner?
  {
    if !PrefixMatches(t, key, depth) then t
    else
      var b := Peek(key, past, depth + t.plen);
      if b !in t.kids then t
      else if t.kids[b].Leaf? then
        if t.kids[b].key == key then RemoveChild(t, b) else t
      else
        WithKid(t, t.kind, t.partial, b, Remove(t.kids[b], key, past, depth + t.plen + 1))
  }

  /** The whole tree, a missing root standing for the empty tree. */
  function RemoveRoot(root: Option<Tree>, key: Key, past: nat -> Byte): Option<Tree> {
    match root
    case None => None
    case Some(Leaf(k, _)) => if k == key then None else root
    case Some(t) => Some(Remove(t, key, past, 0))
  }

  // ---------- the path merge keeps the path-compression invariant ----------

  lemma MergedSpells(partial: seq<Byte>, plen: nat, b: Byte, below: seq<Byte>, plenBelow: nat, m: Key, d: nat)
    requires |partial| == MAX_PREFIX_LEN && |below| == MAX_PREFIX_LEN
    requires SpelledAt(partial, Stored(plen), m, d)
    requires d + plen < |m| && m[d + plen] == b
    requires SpelledAt(below, Stored(plenBelow), m, d + plen + 1)
    ensures var r, n := MergedPartial(partial, plen, b, below, plenBelow), plen + 1 + plenBelow;
      |r| == MAX_PREFIX_LEN && SpelledAt(r, Stored(n), m, d)
  {
    hide Patch, SpelledAt;
    if plen < MAX_PREFIX_LEN {
      var sub := Min(plenBelow, MAX_PREFIX_LEN - (plen + 1));
      EdgeSpells(partial, plen, b, m, d);
      FewerSpelled(below, Stored(plenBelow), sub, m, d + plen + 1);
      JoinedSpells(Patch(partial, plen, [b], 1), plen + 1, below, sub, m, d);
    } else {
      FewerSpelled(below, Stored(plenBelow), 0, m, d + plen + 1);
      NoneSpelled(below, m, d);
      PatchOnto(below, 0, partial, MAX_PREFIX_LEN, m, d);
    }
  }

  lemma FewerSpelled(partial: seq<Byte>, n: nat, k: nat, key: Key, d: nat)
    requires SpelledAt(partial, n, key, d) && k <= n
    ensures SpelledAt(partial, k, key, d)
  {
  }

  lemma NoneSpelled(partial: seq<Byte>, key: Key, d: nat)
    requires d <= |key|
    ensures SpelledAt(partial, 0, key, d)
  {
  }

  /** The edge byte goes after the stored bytes of a path that leaves room for it. */
  lemma EdgeSpells(partial: seq<Byte>, plen: nat, b: Byte, m: Key, d: nat)
    requires |partial| == MAX_PREFIX_LEN && plen < MAX_PREFIX_LEN && SpelledAt(partial, plen, m, d)
    requires d + plen < |m| && m[d + plen] == b
    ensures var r := Patch(partial, plen, [b], 1);
      |r| == MAX_PREFIX_LEN && SpelledAt(r, plen + 1, m, d)
  {
    hide Patch;
    assert SpelledAt([b], 1, m, d + plen);
    PatchOnto(partial, plen, [b], 1, m, d);
  }

  /** The child's stored bytes go after the edge byte, and the whole field to the child. */
  lemma JoinedSpells(p1: seq<Byte>, n1: nat, below: seq<Byte>, sub: nat, m: Key, d: nat)
    requires |p1| == MAX_PREFIX_LEN && |below| == MAX_PREFIX_LEN && n1 + sub <= MAX_PREFIX_LEN && d <= |m|
    requires SpelledAt(p1, n1, m, d) && SpelledAt(below, sub, m, d + n1)
    ensures var r := Patch(below, 0, if n1 < MAX_PREFIX_LEN then Patch(p1, n1, below, sub) else p1, n1 + sub);
      |r| == MAX_PREFIX_LEN && SpelledAt(r, n1 + sub, m, d)
  {
    hide SpelledAt, Patch;
    NoneSpelled(below, m, d);
    if n1 < MAX_PREFIX_LEN {
      PatchOnto(p1, n1, below, sub, m, d);
      PatchOnto(below, 0, Patch(p1, n1, below, sub), n1 + sub, m, d);
    } else {
      PatchOnto(below, 0, p1, n1 + sub, m, d);
    }
  }

  /** Removal below depth `d`: well-formed, and exactly the pairs of other keys are left. */
  ghost predicate Removed(t: Tree, r: Tree, key: Key, d: nat) {
    && WF(r, d) && Same(MinKey(r), MinKey(t), d)
    && forall k, v :: Has(r, k, v) <==> Has(t, k, v) && k != key
  }

  lemma CollapsedOk(t: Tree, d: nat, b: Byte)
    requires WF(t, d) && t.Inner? && b in t.kids
    ensures var r := Collapsed(t, b, t.kids[b]);
      && WF(r, d) && Same(MinKey(r), MinKey(t), d)
      && forall k, v :: Has(r, k, v) <==> Has(t.kids[b], k, v)
  {
    hide WF, NodeOk, MinKey;
    var child := t.kids[b];
    Child(t, d, b);
    Header(t, d);
    if child.Leaf? {
      LeafFacts(child, d);
    } else {
      var m := MinKey(child);
      Header(child, d + t.plen + 1);
      hide WF, NodeOk, MinKey, Has;
      assert SpelledAt(t.partial, Stored(t.plen), m, d);
      MergedSpells(t.partial, t.plen, b, child.partial, child.plen, m, d);
      hide MergedPartial;
      Relabel(child, d + t.plen + 1, child.plen + t.plen + 1,
              MergedPartial(t.partial, t.plen, b, child.partial, child.plen), d);
    }
  }

  lemma HasWithout(t: Tree, r: Tree, b: Byte, k: Key, v: CellId)
    requires t.Inner? && r.Inner? && r.kids == t.kids - {b}
    ensures Has(r, k, v) <==> exists c :: c in t.kids && c != b && Has(t.kids[c], k, v)
  {
    hide WF, NodeOk, MinKey;
    assert forall c :: c in r.kids <==> c in t.kids && c != b;
    assert forall c :: c in r.kids ==> r.kids[c] == t.kids[c];
  }

  lemma WithoutChild(t: Tree, d: nat, r: Tree, b: Byte)
    requires WF(t, d) && t.Inner? && b in t.kids
    requires r.Inner? && r.kids == t.kids - {b} && r.plen == t.plen
    requires |r.partial| == MAX_PREFIX_LEN && SpelledAt(r.partial, Stored(t.plen), MinKey(t), d)
    requires Occupancy(r.kind, |r.kids|)
    ensures WF(r, d) && Same(MinKey(r), MinKey(t), d)
  {
    hide WF, NodeOk, MinKey;
    Header(t, d);
    NodeOkAt(t, d);
    assert forall c :: c in r.kids ==> c in t.kids && r.kids[c] == t.kids[c];
    StemKnown(r, d, MinKey(t));
  }

  lemma RemoveChildOk(t: Tree, d: nat, b: Byte)
    requires WF(t, d) && t.Inner? && b in t.kids && t.kids[b].Leaf?
    ensures Removed(t, RemoveChild(t, b), t.kids[b].key, d)
  {
    hide WF, NodeOk, MinKey;
    var kids, key := t.kids - {b}, t.kids[b].key;
    assert |kids| == |t.kids| - 1 by {
      assert kids.Keys == t.kids.Keys - {b};
    }
    OthersDiffer(t, d, b);
    if t.kind == Node4 && |kids| == 1 {
      CollapseToOther(t, d, b);
    } else {
      ShrinkAround(t, d, b);
    }
  }

  /** Node4 with two children, one of which goes. */
  lemma CollapseToOther(t: Tree, d: nat, b: Byte)
    requires WF(t, d) && t.Inner? && b in t.kids && t.kids[b].Leaf?
    requires t.kind == Node4 && |t.kids - {b}| == 1
    requires forall k, v :: Has(t.kids[b], k, v) ==> k == t.kids[b].key
    requires forall c, k, v :: c in t.kids && c != b && Has(t.kids[c], k, v) ==> k != t.kids[b].key
    ensures Removed(t, RemoveChild(t, b), t.kids[b].key, d)
  {
    hide WF, NodeOk, MinKey;
    var kids, key := t.kids - {b}, t.kids[b].key;
    var c := Least(kids);
    forall e | e in t.kids
      ensures e == b || e == c
    {
      if e != b {
        var both := {c, e};
        assert both <= kids.Keys;
        SubsetSize(both, kids.Keys);
      }
    }
    assert RemoveChild(t, b) == Collapsed(t, c, t.kids[c]);
    CollapsedOk(t, d, c);
    hide WF, MinKey, RemoveChild, Collapsed;
    assert forall k, v :: Has(t, k, v) <==> Has(t.kids[b], k, v) || Has(t.kids[c], k, v);
    hide Has;
  }

  /** Every other removal leaves the children around the gap, in the same or a smaller node. */
  lemma ShrinkAround(t: Tree, d: nat, b: Byte)
    requires WF(t, d) && t.Inner? && b in t.kids && t.kids[b].Leaf?
    requires !(t.kind == Node4 && |t.kids - {b}| == 1)
    requires |t.kids - {b}| == |t.kids| - 1
    requires forall k, v :: Has(t.kids[b], k, v) ==> k == t.kids[b].key
    requires forall c, k, v :: c in t.kids && c != b && Has(t.kids[c], k, v) ==> k != t.kids[b].key
    ensures Removed(t, RemoveChild(t, b), t.kids[b].key, d)
  {
    hide WF, NodeOk, MinKey;
    var key, kids, r := t.kids[b].key, t.kids - {b}, RemoveChild(t, b);
    Header(t, d);
    ShrunkHeader(t, d);
    assert Occupancy(r.kind, |r.kids|);
    assert r.partial == t.partial || r.partial == HeaderCopy(t.plen, t.partial);
    assert r.Inner? && r.kids == kids && r.plen == t.plen;
    hide RemoveChild, HeaderCopy, SpelledAt;
    WithoutChild(t, d, r, b);
    hide Occupancy;
    forall k, v: CellId
      ensures Has(r, k, v) <==> Has(t, k, v) && k != key
    {
      HasWithout(t, r, b, k, v);
    }
  }

  lemma ShrunkHeader(t: Tree, d: nat)
    requires WF(t, d) && t.Inner?
    ensures |t.partial| == MAX_PREFIX_LEN && SpelledAt(t.partial, Stored(t.plen), MinKey(t), d)
    ensures var copy := HeaderCopy(t.plen, t.partial);
      |copy| == MAX_PREFIX_LEN && SpelledAt(copy, Stored(t.plen), MinKey(t), d)
  {
    hide WF, NodeOk, MinKey;
    Header(t, d);
    PatchOnto(Zeroed(MAX_PREFIX_LEN), 0, t.partial, Stored(t.plen), MinKey(t), d);
  }

  /** Keys below different children differ. */
  lemma OthersDiffer(t: Tree, d: nat, b: Byte)
    requires WF(t, d) && t.Inner? && b in t.kids && t.kids[b].Leaf?
    ensures forall c, k, v :: c in t.kids && c != b && Has(t.kids[c], k, v) ==> k != t.kids[b].key
    ensures forall k, v :: Has(t.kids[b], k, v) ==> k == t.kids[b].key
  {
    hide WF, NodeOk, MinKey;
    var key := t.kids[b].key;
    Child(t, d, b);
    LeafFacts(t.kids[b], d);
    forall c, k, v: CellId | c in t.kids && c != b && Has(t.kids[c], k, v)
      ensures k != key
    {
      OnlyBelow(t, d, c, k, v);
    }
    hide Has, WF, MinKey;
  }

  /** A key below child `c` continues with `c` after the path of the node. */
  lemma OnlyBelow(t: Tree, d: nat, c: Byte, k: Key, v: CellId)
    requires WF(t, d) && t.Inner? && c in t.kids && Has(t.kids[c], k, v)
    ensures d + t.plen < |k| && k[d + t.plen] == c
  {
    hide WF, NodeOk, MinKey;
    Child(t, d, c);
    KeyThrough(t.kids[c], d + t.plen + 1, k, v);
  }

  /** Removal of any key, present or not, by the optimistic walk. */
  lemma {:induction false} RemoveOk(t: Tree, key: Key, past: nat -> Byte, d: nat)
    requires WF(t, d) && t.Inner?
    ensures Removed(t, Remove(t, key, past, d), key, d)
  {
    hide WF, NodeOk, MinKey;
    var b := Peek(key, past, d + t.plen);
    if !PrefixMatches(t, key, d) || b !in t.kids || (t.kids[b].Leaf? && t.kids[b].key != key) {
      MissOk(t, key, past, d);
    } else if t.kids[b].Leaf? {
      RemoveChildOk(t, d, b);
    } else {
      var x := Remove(t.kids[b], key, past, d + t.plen + 1);
      Child(t, d, b);
      RemoveOk(t.kids[b], key, past, d + t.plen + 1);
      RemoveBelowOk(t, d, key, past, x);
    }
    hide Removed;
  }

  /** The walk gives up at this node exactly as the search does, and the key is not there. */
  lemma MissOk(t: Tree, key: Key, past: nat -> Byte, d: nat)
    requires WF(t, d) && Search(t, key, past, d) == None
    ensures Removed(t, t, key, d)
  {
    hide WF, NodeOk, MinKey, Search;
    SearchMiss(t, key, past, d);
    MinKeyHeld(t, d);
  }

  lemma RemoveBelowOk(t: Tree, d: nat, key: Key, past: nat -> Byte, x: Tree)
    requires WF(t, d) && t.Inner?
    requires var b := Peek(key, past, d + t.plen);
      b in t.kids && Removed(t.kids[b], x, key, d + t.plen + 1)
    ensures Removed(t, WithKid(t, t.kind, t.partial, Peek(key, past, d + t.plen), x), key, d)
  {
    hide WF, NodeOk, MinKey;
    var b := Peek(key, past, d + t.plen);
    Child(t, d, b);
    Header(t, d);
    assert t.kids[b := x].Keys == t.kids.Keys;
    assert |t.kids[b := x]| == |t.kids[b := x].Keys| == |t.kids|;
    WithChild(t, d, t.kind, t.partial, b, x);
    hide NodeOk, WithKid;
    forall k, v: CellId
      ensures Has(WithKid(t, t.kind, t.partial, b, x), k, v) <==> Has(t, k, v) && k != key
    {
      HasWithChild(t, t.kind, t.partial, b, x, k, v);
      forall c | c in t.kids && Has(t.kids[c], k, v) && k == key
        ensures c == b
      {
        OnlyBelow(t, d, c, k, v);
      }
    }
    hide Has;
  }

  // ---------- one level of removal ----------

  lemma RemoveStep(t: Tree, key: Key, past: nat -> Byte, d: nat)
    requires t.Inner?
    ensures Remove(t, key, past, d) ==
      var b := Peek(key, past, d + t.plen);
      if !PrefixMatches(t, key, d) || b !in t.kids then t
      else if t.kids[b].Leaf? then
        if t.kids[b].key == key then RemoveChild(t, b) else t
      else WithKid(t, t.kind, t.partial, b, Remove(t.kids[b], key, past, d + t.plen + 1))
  {
  }
}
