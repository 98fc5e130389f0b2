/**
 * Insertion with what a leaf split writes into the leaf that gives way. The lock of the leaf falls into its key, so
 * a key of more than thirteen bytes is changed by it, and is lost.
 */
module TrieTouch {
  import opened Bytes
  import opened Options
  import opened LeafLock
  import opened Trie
  import opened TrieInsert
  import opened TrieSearch

  // ---------- which leaf gives way ----------

  /** The key of the leaf that an insertion splits, if it splits one. */
  function GivenWay(t: Tree, key: Key, d: nat): Option<Key> {
    match t
    case Leaf(k, _) => if k == key then None else Some(k)
    case Inner(_, plen, _, kids) =>
      var b := At(key, d + plen);
      if PrefixMismatch(t, key, d) < plen || b !in kids then None
      else GivenWay(kids[b], key, d + plen + 1)
  }

  /** `k` shares more bytes with the new key than with any other key. */
  ghost predicate GivesWay(keys: set<Key>, k: Key, key: Key) {
    k in keys && key !in keys && forall j :: j in keys && j != k ==> Common(k, j) < Common(k, key)
  }

  /** The same for the keys below a tree. */
  ghost predicate Nearest(t: Tree, k: Key, key: Key) {
    Holds(t, k) && k != key && forall j :: Holds(t, j) && j != k ==> Common(k, j) < Common(k, key)
  }

  /** The key that gives way depends on the stored keys only. */
  lemma {:induction false} GivenWayExact(t: Tree, key: Key, d: nat, k: Key)
    requires WF(t, d) && IsKey(key) && Same(key, MinKey(t), d) && PrefixFree(t, key)
    ensures GivenWay(t, key, d) == Some(k) <==> Nearest(t, k, key)
  {
    hide WF, NodeOk, MinKey, PrefixMismatch, PrefixFree, Common, Nearest;
    if t.Leaf? {
      NearestLeaf(t, k, key);
    } else {
      var n := d + t.plen;
      InsertReadsInside(t, d, key);
      if PrefixMismatch(t, key, d) < t.plen {
        LeftPath(t, d, d + PrefixMismatch(t, key, d), k, key);
      } else if key[n] in t.kids {
        var child := t.kids[key[n]];
        Child(t, d, key[n]);
        PrefixFreeBelow(t, key, key[n]);
        GivenWayExact(child, key, n + 1, k);
        NearestBelow(t, d, k, key);
      } else {
        LeftPath(t, d, n, k, key);
      }
    }
  }

  lemma NearestLeaf(t: Tree, k: Key, key: Key)
    requires t.Leaf?
    ensures Nearest(t, k, key) <==> k == t.key != key
  {
    LeafFacts(t, 0);
    assert Has(t, t.key, t.val);
  }

  /** A key that is stored below the child of `b`, if there is any child but that of `b`. */
  lemma Elsewhere(t: Tree, d: nat, b: Byte) returns (j: Key)
    requires WF(t, d) && t.Inner?
    ensures Holds(t, j) && Same(j, MinKey(t), d + t.plen) && d + t.plen < |j| && j[d + t.plen] != b
  {
    hide WF, NodeOk, MinKey;
    Header(t, d);
    assert |t.kids.Keys - {b}| >= |t.kids.Keys| - 1 && |t.kids.Keys| == |t.kids|;
    var c :| c in t.kids.Keys - {b};
    Child(t, d, c);
    MinKeyHeld(t.kids[c], d + t.plen + 1);
    j := MinKey(t.kids[c]);
    var v :| Has(t.kids[c], j, v);
    assert Has(t, j, v);
  }

  /** A key that leaves the path of a node, or has no child there, is no nearer to any key below than the others. */
  lemma LeftPath(t: Tree, d: nat, n: nat, k: Key, key: Key)
    requires WF(t, d) && t.Inner? && n <= d + t.plen && Same(key, MinKey(t), n) && n < |key|
    requires n < d + t.plen && n < |MinKey(t)| ==> key[n] != MinKey(t)[n]
    requires n == d + t.plen ==> key[n] !in t.kids
    ensures !Nearest(t, k, key)
  {
    hide WF, NodeOk, MinKey;
    Header(t, d);
    if v :| Has(t, k, v) {
      KeyThrough(t, d, k, v);
      CommonIs(k, key, n);
      var j := Elsewhere(t, d, k[d + t.plen]);
      CommonIs(k, j, d + t.plen);
    }
  }

  /** Below a node only the keys under the same edge byte as the new key count. */
  lemma NearestBelow(t: Tree, d: nat, k: Key, key: Key)
    requires WF(t, d) && t.Inner?
    requires var n := d + t.plen; Same(key, MinKey(t), n) && n < |key| && key[n] in t.kids
    ensures Nearest(t, k, key) <==> Nearest(t.kids[key[d + t.plen]], k, key)
  {
    hide WF, NodeOk, MinKey, Common;
    var n, b := d + t.plen, key[d + t.plen];
    var child := t.kids[b];
    forall j
      ensures Holds(t, j) ==> Same(j, key, n) && n < |j|
      ensures Holds(child, j) <==> Holds(t, j) && n < |j| && j[n] == b
    {
      HeldUnder(t, d, b, j);
    }
    if Holds(t, k) {
      if k[n] == b {
        CommonAtLeast(k, key, n + 1);
        forall j | Holds(t, j) && j[n] != b
          ensures Common(k, j) == n
        {
          CommonIs(k, j, n);
        }
      } else {
        Child(t, d, b);
        MinKeyHeld(child, n + 1);
        CommonIs(k, key, n);
        CommonIs(k, MinKey(child), n);
      }
    }
  }

  lemma HeldUnder(t: Tree, d: nat, b: Byte, j: Key)
    requires WF(t, d) && t.Inner? && b in t.kids
    ensures Holds(t, j) ==> Same(j, MinKey(t), d + t.plen) && d + t.plen < |j|
    ensures Holds(t.kids[b], j) <==> Holds(t, j) && d + t.plen < |j| && j[d + t.plen] == b
  {
    hide WF, NodeOk, MinKey;
    if v :| Has(t.kids[b], j, v) {
      assert Has(t, j, v);
      Child(t, d, b);
      KeyThrough(t.kids[b], d + t.plen + 1, j, v);
    }
    if v :| Has(t, j, v) {
      KeyThrough(t, d, j, v);
    }
  }

  lemma CommonAtLeast(a: Key, b: Key, n: nat)
    requires Same(a, b, n)
    ensures Common(a, b) >= n
  {
    AgreeStops(a, 0, b, 0, |a|);
  }

  // ---------- insertion with these writes ----------

  /** A byte of a leaf: of its key, or the one that the memory behind the key happens to hold. */
  function ByteAt(key: Key, behind: Byte, i: nat): Byte {
    if i < |key| then key[i] else behind
  }

  /**
   * A leaf split as it happens in memory: the old leaf is locked before the keys are compared and unlocked in
   * the end. `old` and `next` lie behind the two keys. If the two edge bytes are the same, the Node4 has that byte
   * twice, and searches find the old leaf.
   */
  function SplitTouched(t: Tree, key: Key, val: CellId, d: nat, last: Byte, next: Byte): Tree
    requires t.Leaf?
  {
    var k := Locked(t.key);
    var lcp := Agree(k, d, key, d, Min(|k|, |key|) - d);
    Pair(lcp, Patch(Zeroed(MAX_PREFIX_LEN), 0, Drop(key, d), Stored(lcp)),
         ByteAt(key, next, d + lcp), Leaf(key, val), ByteAt(k, last, d + lcp), Leaf(Touched(t.key), t.val))
  }

  function InsertTouched(t: Tree, key: Key, val: CellId, d: nat, last: Byte, next: Byte): Tree {
    match t
    case Leaf(k, _) =>
      if k == key then t else SplitTouched(t, key, val, d, last, next)
    case Inner(_, plen, _, kids) =>
      var diff := PrefixMismatch(t, key, d);
      if diff < plen then SplitPrefix(t, key, val, d, diff)
      else
        var b := At(key, d + plen);
        if b in kids then WithKid(t, t.kind, t.partial, b, InsertTouched(kids[b], key, val, d + plen + 1, last, next))
        else AddChild(t, b, Leaf(key, val))
  }

  /** The lock spares a key of at most thirteen bytes; any other key is not below the new node. */
  lemma SplitTouchedExact(t: Tree, key: Key, val: CellId, d: nat, last: Byte, next: Byte)
    requires WF(t, d) && t.Leaf? && Same(key, t.key, d) && !Nested(t.key, key)
    ensures |t.key| <= LOCK_AT ==> SplitTouched(t, key, val, d, last, next) == SplitLeaf(t, key, val, d)
    ensures |t.key| > LOCK_AT ==> !Holds(SplitTouched(t, key, val, d, last, next), t.key)
  {
    hide WF, NodeOk, MinKey, Pair, Agree, Patch, Drop, Nested, Holds, Locked;
    TouchedExact(t.key);
    if |t.key| <= LOCK_AT {
      PartingPoint(t.key, key, d);
      PairSwapped(t, key, val, d);
    } else {
      assert key != t.key by { NestedSelf(key); }
      SplitLoses(t, key, val, d, last, next);
    }
  }

  lemma NestedSelf(key: Key)
    ensures Nested(key, key)
  {
  }

  lemma PairSwapped(t: Tree, key: Key, val: CellId, d: nat)
    requires t.Leaf?
    requires var n := d + Agree(t.key, d, key, d, Min(|t.key|, |key|) - d); At(t.key, n) != At(key, n)
    ensures var lcp := Agree(t.key, d, key, d, Min(|t.key|, |key|) - d);
      SplitLeaf(t, key, val, d)
      == Pair(lcp, Patch(Zeroed(MAX_PREFIX_LEN), 0, Drop(key, d), Stored(lcp)),
              At(key, d + lcp), Leaf(key, val), At(t.key, d + lcp), t)
  {
    hide Agree, Patch, Drop;
  }

  lemma SplitLoses(t: Tree, key: Key, val: CellId, d: nat, last: Byte, next: Byte)
    requires t.Leaf? && t.key != key && Touched(t.key) != t.key
    ensures !Holds(SplitTouched(t, key, val, d, last, next), t.key)
  {
    hide Agree, Patch, Drop, Locked, Touched;
    var r := SplitTouched(t, key, val, d, last, next);
    forall b, v: CellId | b in r.kids
      ensures !Has(r.kids[b], t.key, v)
    {
      assert r.kids[b] == Leaf(key, val) || r.kids[b] == Leaf(Touched(t.key), t.val);
      LeafFacts(r.kids[b], 0);
    }
    assert r.Inner?;
    assert forall v :: !Has(r, t.key, v);
  }

  /**
   * Two keys that agree beyond the lock are split apart at the lock: the byte of the old key there has been changed
   * before the keys are compared, and is changed again before the split is done.
   */
  lemma SplitAtLock(t: Tree, key: Key, val: CellId, d: nat, last: Byte, next: Byte)
    requires t.Leaf? && IsKey(t.key) && Same(t.key, key, 14) && d <= 13
    ensures var r, b := SplitTouched(t, key, val, d, last, next), t.key[13];
      && r.plen == 13 - d
      && r.kids == map[b := Leaf(key, val)][b as int + 2 := Leaf(Touched(t.key), t.val)]
      && Touched(t.key)[13] == b as int + 4
  {
    hide Agree, Patch, Drop, Locked, Touched, Nested;
    var k := Locked(t.key);
    LockedByte(t.key);
    TouchedByte(t.key);
    forall j | 0 <= j < 13
      ensures k[j] == key[j]
    {
      LockedKeeps(t.key, j);
    }
    PartingPoint(k, key, d);
    assert !Nested(k, key) by {
      PartAt(k, key, 13);
    }
  }

  lemma PartAt(a: Key, b: Key, n: nat)
    requires n < |a| && n < |b| && a[n] != b[n]
    ensures !Nested(a, b)
  {
  }

  /**
   * Insertion as it happens in memory: as if nothing were written into a leaf, if no leaf gives way or the key of
   * that leaf has at most thirteen bytes; otherwise the key of that leaf is stored before and not afterwards.
   */
  lemma {:induction false} InsertTouchedExact(t: Tree, key: Key, val: CellId, d: nat, last: Byte, next: Byte)
    requires WF(t, d) && IsKey(key) && Same(key, MinKey(t), d) && PrefixFree(t, key)
    ensures match GivenWay(t, key, d)
      case None => InsertTouched(t, key, val, d, last, next) == Insert(t, key, val, d)
      case Some(k) =>
        && Holds(t, k)
        && (|k| <= LOCK_AT ==> InsertTouched(t, key, val, d, last, next) == Insert(t, key, val, d))
        && (|k| > LOCK_AT ==> !Holds(InsertTouched(t, key, val, d, last, next), k))
  {
    hide WF, NodeOk, MinKey, PrefixMismatch, PrefixFree, Nested, SplitTouched, SplitLeaf, SplitPrefix, WithKid,
      AddChild;
    if t.Leaf? {
      LeafFacts(t, d);
      if t.key != key {
        MinKeyHeld(t, d);
        MinKeyApart(t, key, d);
        SplitTouchedExact(t, key, val, d, last, next);
      }
    } else {
      var n := d + t.plen;
      InsertReadsInside(t, d, key);
      if t.plen <= PrefixMismatch(t, key, d) && key[n] in t.kids {
        var child := t.kids[key[n]];
        Child(t, d, key[n]);
        PrefixFreeBelow(t, key, key[n]);
        InsertTouchedExact(child, key, val, n + 1, last, next);
        if GivenWay(child, key, n + 1).Some? {
          LostBelow(t, d, key, InsertTouched(child, key, val, n + 1, last, next),
                    GivenWay(child, key, n + 1).value);
        }
      }
    }
  }

  /** A key is not stored below a node if it belongs below a child that is replaced by a tree without it. */
  lemma LostBelow(t: Tree, d: nat, key: Key, x: Tree, k: Key)
    requires WF(t, d) && t.Inner? && d + t.plen < |key| && key[d + t.plen] in t.kids
    requires Holds(t.kids[key[d + t.plen]], k)
    ensures Holds(t, k)
    ensures !Holds(x, k) ==> !Holds(WithKid(t, t.kind, t.partial, key[d + t.plen], x), k)
  {
    hide WF, NodeOk, MinKey;
    var b := key[d + t.plen];
    HeldUnder(t, d, b, k);
    forall v: CellId, c | c in t.kids && c != b && Has(t.kids[c], k, v)
      ensures false
    {
      HeldUnder(t, d, c, k);
    }
    forall v: CellId
      ensures Has(WithKid(t, t.kind, t.partial, b, x), k, v) ==> Has(x, k, v)
    {
      HasWithChild(t, t.kind, t.partial, b, x, k, v);
    }
  }

  /** What a search finds is stored, in any tree. */
  lemma {:induction false} SearchSound(t: Tree, key: Key, past: nat -> Byte, d: nat)
    ensures Search(t, key, past, d).Some? ==> Has(t, key, Search(t, key, past, d).value)
  {
    hide PrefixMatches;
    if t.Inner? {
      var b := Peek(key, past, d + t.plen);
      if b in t.kids {
        SearchSound(t.kids[b], key, past, d + t.plen + 1);
      }
    }
  }
}
