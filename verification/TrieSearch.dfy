/** Optimistic search: at most ten bytes of each compressed path are compared, then the whole leaf key. */
module TrieSearch {
  import opened Bytes
  import opened Options
  import opened Trie
  import opened TrieInsert

  /** The byte a search reads at position `i` of the query, whatever lies past its end. */
  function Peek(key: Key, past: nat -> Byte, i: nat): Byte {
    if i < |key| then key[i] else past(i)
  }

  /** `check_prefix` finds all the stored bytes of the path of `t` in the query. */
  predicate PrefixMatches(t: Tree, key: Key, depth: nat)
    requires t.Inner?
  {
    Agree(t.partial, 0, key, depth, Min(Stored(t.plen), |key| - depth)) == Stored(t.plen)
  }

  function Search(t: Tree, key: Key, past: nat -> Byte, depth: nat): Option<CellId> {
    match t
    case Leaf(k, val) => if k == key then Some(val) else None
    case Inner(_, plen, _, kids) =>
      if !PrefixMatches(t, key, depth) then None
      else
        var b := Peek(key, past, depth + plen);
        if b in kids then Search(kids[b], key, past, depth + plen + 1) else None
  }

  lemma KeyMatches(t: Tree, d: nat, key: Key)
    requires WF(t, d) && t.Inner? && Same(key, MinKey(t), d + t.plen)
    ensures PrefixMatches(t, key, d)
  {
    hide WF, NodeOk, MinKey;
    Header(t, d);
    hide WF, MinKey;
    AgreeStops(t.partial, 0, key, d, Min(Stored(t.plen), |key| - d));
  }

  /**
   * The search answers a payload exactly when the query is stored with it: for stored,
   * absent, shorter and longer queries, and for any bytes past the end of the query.
   */
  lemma {:induction false} SearchExact(t: Tree, key: Key, past: nat -> Byte, d: nat, val: CellId)
    requires WF(t, d)
    ensures Search(t, key, past, d) == Some(val) <==> Has(t, key, val)
  {
    hide WF, NodeOk, MinKey;
    if t.Inner? {
      var b := Peek(key, past, d + t.plen);
      if b in t.kids {
        Child(t, d, b);
        SearchExact(t.kids[b], key, past, d + t.plen + 1, val);
      }
      if Has(t, key, val) {
        KeyThrough(t, d, key, val);
        KeyMatches(t, d, key);
      }
      hide WF, MinKey, PrefixMatches;
    }
  }

  /** An answer of None is exact too. */
  lemma SearchMiss(t: Tree, key: Key, past: nat -> Byte, d: nat)
    requires WF(t, d)
    ensures Search(t, key, past, d) == None <==> !Holds(t, key)
  {
    hide WF, NodeOk, MinKey;
    forall v: CellId
      ensures Search(t, key, past, d) == Some(v) <==> Has(t, key, v)
    {
      SearchExact(t, key, past, d, v);
    }
    if Search(t, key, past, d).Some? {
      assert Has(t, key, Search(t, key, past, d).value);
    }
  }

  /** The lookup of a logical delete, which compares whole compressed paths as insertion does. */
  function Locate(t: Tree, key: Key, depth: nat): Option<CellId> {
    match t
    case Leaf(k, val) => if k == key then Some(val) else None
    case Inner(_, plen, _, kids) =>
      if PrefixMismatch(t, key, depth) < plen then None
      else
        var b := At(key, depth + plen);
        if b in kids then Locate(kids[b], key, depth + plen + 1) else None
  }

  /** It finds exactly the stored keys too; the terminator leads to no child, so it never reads past the end. */
  lemma {:induction false} LocateExact(t: Tree, key: Key, d: nat, val: CellId)
    requires WF(t, d) && Same(key, MinKey(t), d)
    ensures Locate(t, key, d) == Some(val) <==> Has(t, key, val)
  {
    hide WF, NodeOk, MinKey, PrefixMismatch;
    if t.Leaf? {
      LeafFacts(t, d);
    } else {
      var n := d + t.plen;
      PrefixMismatchExact(t, d, key);
      if Has(t, key, val) {
        KeyThrough(t, d, key, val);
      }
      if n < |key| && key[n] in t.kids && Same(key, MinKey(t), n) {
        Child(t, d, key[n]);
        LocateExact(t.kids[key[n]], key, n + 1, val);
      } else if n == |key| {
        EdgeBytes(t, d);
      }
    }
  }
}
