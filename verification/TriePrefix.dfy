/** Iteration over the keys that start with a given prefix. */
module TriePrefix {
  import opened Bytes
  import opened Options
  import opened Trie
  import opened TrieInsert
  import opened TrieSearch
  import opened TrieOrder

  /** `mv_leaf_prefix_matches` */
  predicate StartsWith(key: Key, prefix: Key) {
    prefix <= key
  }

  lemma StartsSame(key: Key, prefix: Key)
    ensures StartsWith(key, prefix) <==> Same(prefix, key, |prefix|)
  {
  }

  /** The subtree that the walk down hands to the full iteration, if it reaches one. */
  function Target(t: Tree, prefix: Key, past: nat -> Byte, depth: nat): Option<Tree> {
    match t
    case Leaf(key, _) => if StartsWith(key, prefix) then Some(t) else None
    case Inner(_, plen, _, kids) =>
      if depth == |prefix| then
        if StartsWith(MinKey(t), prefix) then Some(t) else None
      else
        var p := Min(PrefixMismatch(t, prefix, depth), plen);
        if plen != 0 && p == 0 then None
        else if plen != 0 && depth + p == |prefix| then Some(t)
        else
          var b := Peek(prefix, past, depth + plen);
          if b in kids then Target(kids[b], prefix, past, depth + plen + 1) else None
  }

  /** The walk goes on below this inner node. */
  predicate GoesOn(t: Tree, prefix: Key, depth: nat)
    requires t.Inner?
  {
    var p := Min(PrefixMismatch(t, prefix, depth), t.plen);
    depth != |prefix| && (t.plen == 0 || (p != 0 && depth + p != |prefix|))
  }

  lemma TargetStep(t: Tree, prefix: Key, past: nat -> Byte, depth: nat)
    requires t.Inner? && GoesOn(t, prefix, depth)
    ensures Target(t, prefix, past, depth)
      == var b := Peek(prefix, past, depth + t.plen);
         if b in t.kids then Target(t.kids[b], prefix, past, depth + t.plen + 1) else None
  {
  }

  /** The leaves that a prefix iteration shows to the callback, as long as it answers zero. */
  function Visited(t: Tree, prefix: Key, past: nat -> Byte): seq<Entry> {
    match Target(t, prefix, past, 0)
    case None => []
    case Some(u) => Entries(u)
  }

  /** No stored key that starts with the prefix is missed, wherever in a compressed path the prefix ends. */
  lemma {:induction false} TargetComplete(t: Tree, prefix: Key, past: nat -> Byte, d: nat, k: Key, v: CellId)
    requires WF(t, d) && d <= |prefix| && StartsWith(k, prefix) && Has(t, k, v)
    ensures Target(t, prefix, past, d).Some? && Has(Target(t, prefix, past, d).value, k, v)
  {
    hide WF, NodeOk, MinKey, PrefixMismatch;
    KeyThrough(t, d, k, v);
    if t.Inner? {
      PrefixMismatchExact(t, d, prefix);
      hide Has;
      var n := d + t.plen;
      StartsSame(k, prefix);
      if |prefix| > n {
        Child(t, d, k[n]);
        TargetComplete(t.kids[k[n]], prefix, past, n + 1, k, v);
      }
    }
  }

  // ---------- when nothing else is visited ----------

  /**
   * The walk goes on below a node of whose compressed path the prefix matches only the first
   * bytes: the bytes that disagree are never looked at again.
   */
  predicate Strays(t: Tree, prefix: Key, past: nat -> Byte, depth: nat) {
    match t
    case Leaf(_, _) => false
    case Inner(_, plen, _, kids) =>
      var b := Peek(prefix, past, depth + plen);
      && GoesOn(t, prefix, depth)
      && (PrefixMismatch(t, prefix, depth) < plen || (b in kids && Strays(kids[b], prefix, past, depth + plen + 1)))
  }

  /** The walk only ever goes down. */
  lemma {:induction false} TargetWithin(t: Tree, prefix: Key, past: nat -> Byte, d: nat) returns (e: nat)
    requires WF(t, d) && Target(t, prefix, past, d).Some?
    ensures var u := Target(t, prefix, past, d).value;
      WF(u, e) && forall k, v :: Has(u, k, v) ==> Has(t, k, v)
  {
    hide WF, NodeOk, MinKey, PrefixMismatch;
    e := d;
    if Target(t, prefix, past, d).value != t {
      var b := Peek(prefix, past, d + t.plen);
      Child(t, d, b);
      e := TargetWithin(t.kids[b], prefix, past, d + t.plen + 1);
    }
  }

  /** Below a node whose path the prefix leaves before it ends, no key starts with the prefix. */
  lemma NoneBelow(t: Tree, prefix: Key, d: nat, k: Key, v: CellId)
    requires WF(t, d) && t.Inner? && Same(prefix, MinKey(t), d) && Has(t, k, v)
    requires PrefixMismatch(t, prefix, d) < t.plen && d + PrefixMismatch(t, prefix, d) != |prefix|
    ensures !StartsWith(k, prefix)
  {
    hide WF, NodeOk, MinKey, PrefixMismatch;
    PrefixMismatchExact(t, d, prefix);
    KeyThrough(t, d, k, v);
    StartsSame(k, prefix);
  }

  lemma AllBelow(t: Tree, prefix: Key, d: nat)
    requires WF(t, d) && Same(prefix, MinKey(t), |prefix|)
    requires |prefix| <= d + if t.Inner? then t.plen else 0
    ensures forall k, v :: Has(t, k, v) ==> StartsWith(k, prefix)
  {
    hide WF, NodeOk, MinKey;
    forall k, v: CellId | Has(t, k, v)
      ensures StartsWith(k, prefix)
    {
      KeyThrough(t, d, k, v);
    }
  }

  /**
   * A prefix iteration that visits anything visits only keys that start with the prefix if
   * and only if its walk did not stray; if it did, no visited key starts with the prefix.
   */
  lemma {:induction false} TargetExact(t: Tree, prefix: Key, past: nat -> Byte, d: nat)
    requires WF(t, d) && Same(prefix, MinKey(t), d) && Target(t, prefix, past, d).Some?
    ensures var u := Target(t, prefix, past, d).value;
      forall k, v :: Has(u, k, v) ==> (StartsWith(k, prefix) <==> !Strays(t, prefix, past, d))
  {
    hide WF, NodeOk, MinKey, PrefixMismatch;
    if t.Leaf? {
      LeafFacts(t, d);
    } else {
      var u, diff := Target(t, prefix, past, d).value, PrefixMismatch(t, prefix, d);
      PrefixMismatchExact(t, d, prefix);
      if d == |prefix| || (t.plen != 0 && d + Min(diff, t.plen) == |prefix|) {
        AllBelow(t, prefix, d);
      } else if diff < t.plen {
        var _ := TargetWithin(t, prefix, past, d);
        forall k, v: CellId | Has(u, k, v)
          ensures !StartsWith(k, prefix)
        {
          NoneBelow(t, prefix, d, k, v);
        }
      } else {
        var b := Peek(prefix, past, d + t.plen);
        Child(t, d, b);
        TargetExact(t.kids[b], prefix, past, d + t.plen + 1);
      }
    }
  }

  /**
   * What a prefix iteration over a whole tree shows to the callback: leaves in ascending order,
   * every stored key that starts with the prefix among them, and, unless the walk strayed, no other.
   */
  lemma PrefixIteration(t: Tree, prefix: Key, past: nat -> Byte)
    requires WF(t, 0)
    ensures Ascending(Visited(t, prefix, past))
    ensures forall k, v :: Has(t, k, v) && StartsWith(k, prefix) ==> Entry(k, v) in Visited(t, prefix, past)
    ensures forall e :: e in Visited(t, prefix, past) ==>
      Has(t, e.key, e.val) && (StartsWith(e.key, prefix) <==> !Strays(t, prefix, past, 0))
  {
    hide WF, NodeOk, MinKey, Target, Strays;
    var target := Target(t, prefix, past, 0);
    forall k, v: CellId | Has(t, k, v) && StartsWith(k, prefix)
      ensures Entry(k, v) in Visited(t, prefix, past)
    {
      TargetComplete(t, prefix, past, 0, k, v);
      EntriesHas(target.value, k, v);
    }
    if target.Some? {
      var e := TargetWithin(t, prefix, past, 0);
      IterationAscends(target.value, e);
      TargetExact(t, prefix, past, 0);
      forall x | x in Entries(target.value)
        ensures Has(target.value, x.key, x.val)
      {
        EntriesHas(target.value, x.key, x.val);
      }
    }
  }

  /** A walk that meets a stored key that starts with the prefix does not stray. */
  lemma StoredKeepsStraight(t: Tree, prefix: Key, past: nat -> Byte, k: Key, v: CellId)
    requires WF(t, 0) && Has(t, k, v) && StartsWith(k, prefix)
    ensures !Strays(t, prefix, past, 0)
  {
    hide WF, NodeOk, MinKey, Target, Strays;
    TargetComplete(t, prefix, past, 0, k, v);
    TargetExact(t, prefix, past, 0);
  }

  /** A walk that visits anything strays exactly if no stored key starts with the prefix. */
  lemma StraysExact(t: Tree, prefix: Key, past: nat -> Byte)
    requires WF(t, 0) && Visited(t, prefix, past) != []
    ensures Strays(t, prefix, past, 0) <==> forall k, v :: Has(t, k, v) ==> !StartsWith(k, prefix)
  {
    hide WF, NodeOk, MinKey, Target, Strays, Visited, StartsWith;
    PrefixIteration(t, prefix, past);
    var e := Visited(t, prefix, past)[0];
    assert e in Visited(t, prefix, past) && Has(t, e.key, e.val);
    assert !Strays(t, prefix, past, 0) ==> StartsWith(e.key, prefix);
    forall k, v: CellId | Has(t, k, v) && StartsWith(k, prefix)
      ensures !Strays(t, prefix, past, 0)
    {
      StoredKeepsStraight(t, prefix, past, k, v);
    }
  }

  /** A tree over the keys 1-2-3-4-6, 1-2-3-4-7 and 1-2-5-6, and the subtree over the first two. */
  const LOW := Pair(1, [4, 0, 0, 0, 0, 0, 0, 0, 0, 0], 6, Leaf([1, 2, 3, 4, 6], 0), 7, Leaf([1, 2, 3, 4, 7], 1))
  const TOP := Pair(2, [1, 2, 0, 0, 0, 0, 0, 0, 0, 0], 3, LOW, 5, Leaf([1, 2, 5, 6], 2))

  lemma LowOk()
    ensures WF(LOW, 3) && MinKey(LOW) == [1, 2, 3, 4, 6] && Has(LOW, [1, 2, 3, 4, 6], 0)
  {
    var a, b := Leaf([1, 2, 3, 4, 6], 0), Leaf([1, 2, 3, 4, 7], 1);
    PairOk(3, 1, LOW.partial, a.key, 6, a, 7, b);
    LeastIs(LOW.kids, 6);
    assert Has(a, a.key, 0);
  }

  lemma TopOk()
    ensures WF(TOP, 0)
  {
    hide WF, NodeOk, MinKey;
    LowOk();
    LeafFacts(Leaf([1, 2, 5, 6], 2), 3);
    PairOk(0, 2, TOP.partial, [1, 2, 3, 4, 6], 3, LOW, 5, Leaf([1, 2, 5, 6], 2));
  }

  /**
   * The prefix 1-9-3-4, with which none of the keys starts, gets past the root on its first byte and visits
   * two of them.
   */
  lemma StrayingWalk(past: nat -> Byte)
    ensures WF(TOP, 0) && Strays(TOP, [1, 9, 3, 4], past, 0)
    ensures Entry([1, 2, 3, 4, 6], 0) in Visited(TOP, [1, 9, 3, 4], past)
  {
    hide WF, NodeOk, MinKey;
    var prefix := [1, 9, 3, 4];
    TopOk();
    LowOk();
    assert Agree(TOP.partial, 0, prefix, 0, 2) == 1;
    assert PrefixMismatch(TOP, prefix, 0) == 1;
    assert Agree(LOW.partial, 0, prefix, 3, 1) == 1;
    assert PrefixMismatch(LOW, prefix, 3) == 1;
    hide PrefixMismatch, Agree;
    assert Target(LOW, prefix, past, 3) == Some(LOW);
    assert TOP.kids[3] == LOW;
    assert Target(TOP, prefix, past, 0) == Target(LOW, prefix, past, 3);
    EntriesHas(LOW, [1, 2, 3, 4, 6], 0);
  }
}
