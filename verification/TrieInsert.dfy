/** Insertion: leaf split, prefix split and new child, as functions on tree values. */
module TrieInsert {
  import opened Bytes
  import opened Trie

  /** What `calloc` leaves in a buffer of `n` bytes. */
  function Zeroed(n: nat): (r: seq<Byte>)
    ensures |r| == n && forall i :: 0 <= i < n ==> r[i] == 0
  {
    if n == 0 then [] else [0] + Zeroed(n - 1)
  }

  /** The node kind after one more child joins `n` others. */
  function Grown(kind: Kind, n: nat): Kind {
    match kind
    case Node4 => if n < 4 then Node4 else Node16
    case Node16 => if n < 16 then Node16 else Node48
    case Node48 => if n < 48 then Node48 else Node256
    case Node256 => Node256
  }

  /** The node kind after a removal that leaves `n` children. */
  function Shrunk(kind: Kind, n: nat): Kind {
    match kind
    case Node4 => Node4
    case Node16 => if n == 3 then Node4 else Node16
    case Node48 => if n == 12 then Node16 else Node48
    case Node256 => if n == 37 then Node48 else Node256
  }

  /** `copy_header` into a freshly zeroed node. */
  function HeaderCopy(plen: nat, partial: seq<Byte>): seq<Byte> {
    Patch(Zeroed(MAX_PREFIX_LEN), 0, partial, Stored(plen))
  }

  /** `t` as a node of kind `kind` with child `x` under `b`. */
  function WithKid(t: Tree, kind: Kind, partial: seq<Byte>, b: Byte, x: Tree): Tree
    requires t.Inner?
  {
    Inner(kind, t.plen, partial, t.kids[b := x])
  }

  /** What adding a child does to the header: nothing, or a copy of it into the bigger node. */
  function Regrown(t: Tree): seq<Byte>
    requires t.Inner?
  {
    if Grown(t.kind, |t.kids|) == t.kind then t.partial else HeaderCopy(t.plen, t.partial)
  }

  function AddChild(t: Tree, c: Byte, child: Tree): Tree
    requires t.Inner?
  {
    WithKid(t, Grown(t.kind, |t.kids|), Regrown(t), c, child)
  }

  /** A node grows exactly when it is full, and then to the next size. */
  lemma GrowsWhenFull(t: Tree, c: Byte, child: Tree)
    requires t.Inner? && Occupancy(t.kind, |t.kids|)
    ensures AddChild(t, c, child).kind ==
      match t.kind
      case Node4 => if |t.kids| == 4 then Node16 else Node4
      case Node16 => if |t.kids| == 16 then Node48 else Node16
      case Node48 => if |t.kids| == 48 then Node256 else Node48
      case Node256 => Node256
  {
  }

  /**
   * Where `key` leaves the path of a node at depth `d`: the stored bytes first, then,
   * when the path is longer than ten, the bytes of the leaf key `m`.
   */
  function Mismatch(partial: seq<Byte>, plen: nat, m: Key, key: Key, d: nat): nat {
    var n := Agree(partial, 0, key, d, Min(Stored(plen), |key| - d));
    if n < Min(Stored(plen), |key| - d) || plen <= MAX_PREFIX_LEN then n
    else n + Agree(m, d + n, key, d + n, Min(|m|, |key|) - d - n)
  }

  function PrefixMismatch(t: Tree, key: Key, depth: nat): nat
    requires t.Inner?
  {
    Mismatch(t.partial, t.plen, MinKey(t), key, depth)
  }

  /** A new Node4 over two subtrees. */
  function Pair(plen: nat, partial: seq<Byte>, b: Byte, x: Tree, c: Byte, y: Tree): Tree {
    Inner(Node4, plen, partial, map[b := x][c := y])
  }

  /** A leaf gives way to a Node4 over the common bytes that holds the old and the new leaf. */
  function SplitLeaf(t: Tree, key: Key, val: CellId, depth: nat): Tree
    requires t.Leaf?
  {
    var lcp := Agree(t.key, depth, key, depth, Min(|t.key|, |key|) - depth);
    Pair(lcp, Patch(Zeroed(MAX_PREFIX_LEN), 0, Drop(key, depth), Stored(lcp)),
         At(t.key, depth + lcp), t, At(key, depth + lcp), Leaf(key, val))
  }

  /** Where a split at `diff` reads the compressed path of `t` from: its own bytes, or the least leaf. */
  function CutSource(t: Tree, depth: nat, diff: nat): seq<Byte>
    requires t.Inner?
  {
    if t.plen <= MAX_PREFIX_LEN then Drop(t.partial, diff) else Drop(MinKey(t), depth + diff)
  }

  /** `t` with only the part of its compressed path after the byte at `diff`. */
  function Lowered(t: Tree, depth: nat, diff: nat): Tree
    requires t.Inner? && diff < t.plen
  {
    var plen := t.plen - (diff + 1);
    t.(plen := plen, partial := Patch(t.partial, 0, Drop(CutSource(t, depth, diff), 1), Stored(plen)))
  }

  /** A compressed path that the key leaves at `diff` is cut there by a new Node4. */
  function SplitPrefix(t: Tree, key: Key, val: CellId, depth: nat, diff: nat): Tree
    requires t.Inner? && diff < t.plen
  {
    Pair(diff, Patch(Zeroed(MAX_PREFIX_LEN), 0, t.partial, Stored(diff)),
         At(CutSource(t, depth, diff), 0), Lowered(t, depth, diff), At(key, depth + diff), Leaf(key, val))
  }

  /** The tree after inserting `key` at `depth`; a stored key leaves it as it is. */
  function Insert(t: Tree, key: Key, val: CellId, depth: nat): Tree {
    match t
    case Leaf(k, _) =>
      if k == key then t else SplitLeaf(t, key, val, depth)
    case Inner(_, plen, _, kids) =>
      var diff := PrefixMismatch(t, key, depth);
      if diff < plen then SplitPrefix(t, key, val, depth, diff)
      else
        var b := At(key, depth + plen);
        if b in kids then WithKid(t, t.kind, t.partial, b, Insert(kids[b], key, val, depth + plen + 1))
        else AddChild(t, b, Leaf(key, val))
  }

  // ---------- prefix_mismatch is exact ----------

  /**
   * The result reaches the path length exactly when the key spells the whole compressed
   * path, hidden bytes included; otherwise it is the index of the first disagreement,
   * or of the end of the key.
   */
  lemma PrefixMismatchExact(t: Tree, d: nat, key: Key)
    requires WF(t, d) && t.Inner? && Same(key, MinKey(t), d)
    ensures var diff, m := PrefixMismatch(t, key, d), MinKey(t);
      && d + t.plen < |m|
      && (t.plen <= diff <==> Same(key, m, d + t.plen))
      && (diff < t.plen ==>
        && Same(key, m, d + diff)
        && (d + diff < |key| ==> key[d + diff] != m[d + diff]))
  {
    hide WF, NodeOk, MinKey;
    Header(t, d);
    MismatchExact(t.partial, t.plen, MinKey(t), key, d);
  }

  lemma MismatchExact(partial: seq<Byte>, plen: nat, m: Key, key: Key, d: nat)
    requires |partial| == MAX_PREFIX_LEN && d + plen < |m|
    requires SpelledAt(partial, Stored(plen), m, d) && Same(key, m, d)
    ensures var diff := Mismatch(partial, plen, m, key, d);
      && (plen <= diff <==> Same(key, m, d + plen))
      && (diff < plen ==>
        && Same(key, m, d + diff)
        && (d + diff < |key| ==> key[d + diff] != m[d + diff]))
  {
    var limit := Min(Stored(plen), |key| - d);
    var n := Agree(partial, 0, key, d, limit);
    StoredAgree(partial, plen, m, key, d);
    hide SpelledAt;
    if n == limit && plen > MAX_PREFIX_LEN {
      HiddenAgree(m, key, d + n);
    }
  }

  /** The second loop: how far the query agrees with the leaf key. */
  lemma HiddenAgree(m: Key, key: Key, e: nat)
    requires Same(key, m, e)
    ensures var n := e + Agree(m, e, key, e, Min(|m|, |key|) - e);
      && Same(key, m, n)
      && (n < |key| && n < |m| ==> key[n] != m[n])
  {
    AgreeStops(m, e, key, e, Min(|m|, |key|) - e);
  }

  /** The first loop: what the stored bytes say about the leaf key. */
  lemma StoredAgree(partial: seq<Byte>, plen: nat, m: Key, key: Key, d: nat)
    requires |partial| == MAX_PREFIX_LEN && d + plen < |m|
    requires SpelledAt(partial, Stored(plen), m, d) && Same(key, m, d)
    ensures var limit := Min(Stored(plen), |key| - d);
      var n := Agree(partial, 0, key, d, limit);
      && Same(key, m, d + n) && n <= limit
      && (n < limit ==> key[d + n] != m[d + n])
  {
    AgreeStops(partial, 0, key, d, Min(Stored(plen), |key| - d));
  }

  // ---------- insertion keeps the tree well-formed and adds exactly the key ----------

  /** What one insertion at depth `d` owes its caller. */
  ghost predicate Inserted(t: Tree, r: Tree, key: Key, val: CellId, d: nat) {
    && WF(r, d) && Same(MinKey(r), key, d)
    && forall k, v :: Has(r, k, v) <==> Has(t, k, v) || (k == key && v == val)
  }

  /** A new Node4 over two subtrees that part at the byte after the path `w` spells. */
  lemma PairOk(d: nat, plen: nat, partial: seq<Byte>, w: Key, b: Byte, x: Tree, c: Byte, y: Tree)
    requires |partial| == MAX_PREFIX_LEN && d + plen <= |w| && SpelledAt(partial, Stored(plen), w, d)
    requires WF(x, d + plen + 1) && Edge(MinKey(x), w, d + plen, b)
    requires WF(y, d + plen + 1) && Edge(MinKey(y), w, d + plen, c)
    requires b != c
    ensures var r := Pair(plen, partial, b, x, c, y);
      && WF(r, d) && Same(MinKey(r), w, d + plen)
      && forall k, v :: Has(r, k, v) <==> Has(x, k, v) || Has(y, k, v)
  {
    hide WF, NodeOk, MinKey;
    var r := Pair(plen, partial, b, x, c, y);
    assert r.kids.Keys == {b, c} && r.kids[b] == x && r.kids[c] == y;
    StemKnown(r, d, w);
  }

  lemma SplitLeafOk(t: Tree, key: Key, val: CellId, d: nat)
    requires WF(t, d) && t.Leaf? && IsKey(key) && Same(key, t.key, d)
    requires !Nested(t.key, key)
    ensures Inserted(t, SplitLeaf(t, key, val, d), key, val, d)
  {
    hide WF, NodeOk, MinKey, Has, Inserted, Pair, Agree, Patch, Drop, Nested;
    LeafFacts(t, d);
    var lcp := Agree(t.key, d, key, d, Min(|t.key|, |key|) - d);
    PartingPoint(t.key, key, d);
    PatchSpells(Zeroed(MAX_PREFIX_LEN), key, d, Stored(lcp));
    SplitLeafAt(t, key, val, d, lcp, Patch(Zeroed(MAX_PREFIX_LEN), 0, Drop(key, d), Stored(lcp)));
  }

  lemma SplitLeafAt(t: Tree, key: Key, val: CellId, d: nat, lcp: nat, partial: seq<Byte>)
    requires WF(t, d) && t.Leaf? && IsKey(key) && Same(key, t.key, d + lcp)
    requires d + lcp < |t.key| && d + lcp < |key| && t.key[d + lcp] != key[d + lcp]
    requires |partial| == MAX_PREFIX_LEN && SpelledAt(partial, Stored(lcp), key, d)
    ensures Inserted(t, Pair(lcp, partial, t.key[d + lcp], t, key[d + lcp], Leaf(key, val)), key, val, d)
  {
    hide WF, NodeOk, MinKey, Has, Pair;
    LeafFacts(t, d);
    LeafFacts(t, d + lcp + 1);
    LeafFacts(Leaf(key, val), d + lcp + 1);
    PairOk(d, lcp, partial, key, t.key[d + lcp], t, key[d + lcp], Leaf(key, val));
  }

  lemma CutSourceSpells(t: Tree, d: nat, diff: nat)
    requires WF(t, d) && t.Inner? && diff < t.plen
    ensures SpelledAt(CutSource(t, d, diff), 1 + Stored(t.plen - (diff + 1)), MinKey(t), d + diff)
  {
    hide WF, NodeOk, MinKey;
    Header(t, d);
    hide WF, MinKey;
  }

  /** The lower part of a split path is well-formed below the byte at `diff`. */
  lemma LoweredOk(t: Tree, d: nat, diff: nat)
    requires WF(t, d) && t.Inner? && diff < t.plen
    ensures var lower := Lowered(t, d, diff);
      && WF(lower, d + diff + 1) && MinKey(lower) == MinKey(t)
      && forall k, v :: Has(lower, k, v) <==> Has(t, k, v)
  {
    hide WF, NodeOk, MinKey;
    var plen, src := t.plen - (diff + 1), CutSource(t, d, diff);
    CutSourceSpells(t, d, diff);
    Header(t, d);
    var partial := Patch(t.partial, 0, Drop(src, 1), Stored(plen));
    PatchSpells(t.partial, src, 1, Stored(plen));
    assert SpelledAt(partial, Stored(plen), MinKey(t), d + diff + 1);
    hide CutSource, Patch, Drop;
    Relabel(t, d, plen, partial, d + diff + 1);
    hide *;
  }

  lemma SplitPrefixOk(t: Tree, key: Key, val: CellId, d: nat, diff: nat)
    requires WF(t, d) && t.Inner? && IsKey(key) && diff < t.plen
    requires Same(key, MinKey(t), d + diff)
    requires d + diff < |key| && d + diff < |MinKey(t)| && key[d + diff] != MinKey(t)[d + diff]
    ensures Inserted(t, SplitPrefix(t, key, val, d, diff), key, val, d)
  {
    hide WF, NodeOk, MinKey;
    CutSourceSpells(t, d, diff);
    assert At(CutSource(t, d, diff), 0) == MinKey(t)[d + diff] && At(key, d + diff) == key[d + diff];
    LoweredOk(t, d, diff);
    var partial := Patch(Zeroed(MAX_PREFIX_LEN), 0, t.partial, Stored(diff));
    UpperSpells(t, d, diff);
    hide CutSource, Patch, Lowered, Pair, WF, MinKey;
    SplitPrefixAt(t, key, val, d, diff, partial, Lowered(t, d, diff));
    hide Inserted;
  }

  lemma UpperSpells(t: Tree, d: nat, diff: nat)
    requires WF(t, d) && t.Inner? && diff < t.plen
    ensures |Patch(Zeroed(MAX_PREFIX_LEN), 0, t.partial, Stored(diff))| == MAX_PREFIX_LEN
    ensures SpelledAt(Patch(Zeroed(MAX_PREFIX_LEN), 0, t.partial, Stored(diff)), Stored(diff), MinKey(t), d)
  {
    hide WF, NodeOk, MinKey;
    Header(t, d);
    hide WF, MinKey;
  }

  lemma SplitPrefixAt(t: Tree, key: Key, val: CellId, d: nat, diff: nat, partial: seq<Byte>, lower: Tree)
    requires var m, n := MinKey(t), d + diff;
      && IsKey(key) && Same(key, m, n) && n < |key| && n < |m| && key[n] != m[n]
      && |partial| == MAX_PREFIX_LEN && SpelledAt(partial, Stored(diff), m, d)
    requires WF(lower, d + diff + 1) && MinKey(lower) == MinKey(t)
    requires forall k, v :: Has(lower, k, v) <==> Has(t, k, v)
    ensures Inserted(t, Pair(diff, partial, MinKey(t)[d + diff], lower, key[d + diff], Leaf(key, val)), key, val, d)
  {
    hide WF, NodeOk, MinKey;
    LeafFacts(Leaf(key, val), d + diff + 1);
    hide WF, NodeOk, MinKey, Has, Pair;
    PairOk(d, diff, partial, MinKey(t), MinKey(t)[d + diff], lower, key[d + diff], Leaf(key, val));
  }

  /** A node whose child `b` is replaced, or newly added, by a well-formed subtree that its path leads to. */
  lemma WithChild(t: Tree, d: nat, kind: Kind, partial: seq<Byte>, b: Byte, x: Tree)
    requires WF(t, d) && t.Inner?
    requires |partial| == MAX_PREFIX_LEN && SpelledAt(partial, Stored(t.plen), MinKey(t), d)
    requires WF(x, d + t.plen + 1) && Edge(MinKey(x), MinKey(t), d + t.plen, b)
    requires Occupancy(kind, |t.kids[b := x]|)
    ensures var r := WithKid(t, kind, partial, b, x);
      && WF(r, d) && Same(MinKey(r), MinKey(t), d + t.plen)
  {
    hide WF, NodeOk, MinKey;
    Header(t, d);
    NodeOkAt(t, d);
    hide WF, MinKey;
    var r := WithKid(t, kind, partial, b, x);
    StemKnown(r, d, MinKey(t));
  }

  /** The leaves below a node whose child `b` is replaced or added. */
  lemma HasWithChild(t: Tree, kind: Kind, partial: seq<Byte>, b: Byte, x: Tree, k: Key, v: CellId)
    requires t.Inner?
    ensures Has(WithKid(t, kind, partial, b, x), k, v)
      <==> Has(x, k, v) || exists c :: c in t.kids && c != b && Has(t.kids[c], k, v)
  {
    hide WF, NodeOk, MinKey;
    var kids := t.kids[b := x];
    assert kids[b] == x;
    assert forall c :: c in kids && c != b ==> c in t.kids && kids[c] == t.kids[c];
    assert forall c :: c in t.kids && c != b ==> c in kids && kids[c] == t.kids[c];
  }

  lemma RegrownOk(t: Tree, d: nat)
    requires WF(t, d) && t.Inner?
    ensures |Regrown(t)| == MAX_PREFIX_LEN && SpelledAt(Regrown(t), Stored(t.plen), MinKey(t), d)
    ensures Occupancy(Grown(t.kind, |t.kids|), |t.kids| + 1)
  {
    hide WF, NodeOk, MinKey;
    EdgeBytes(t, d);
    Header(t, d);
  }

  lemma AddChildOk(t: Tree, d: nat, key: Key, val: CellId)
    requires WF(t, d) && t.Inner? && IsKey(key)
    requires var n := d + t.plen; Same(key, MinKey(t), n) && n < |key| && key[n] !in t.kids
    ensures Inserted(t, AddChild(t, key[d + t.plen], Leaf(key, val)), key, val, d)
  {
    hide WF, NodeOk, MinKey;
    var b, leaf := key[d + t.plen], Leaf(key, val);
    LeafFacts(leaf, d + t.plen + 1);
    RegrownOk(t, d);
    assert |t.kids[b := leaf]| == |t.kids| + 1;
    hide NodeOk, Regrown;
    WithChild(t, d, Grown(t.kind, |t.kids|), Regrown(t), b, leaf);
    hide WF, MinKey, WithKid;
    forall k, v
      ensures Has(AddChild(t, b, leaf), k, v) <==> Has(t, k, v) || (k == key && v == val)
    {
      HasWithChild(t, Grown(t.kind, |t.kids|), Regrown(t), b, leaf, k, v);
    }
    hide Has;
  }

  lemma DescendOk(t: Tree, d: nat, key: Key, val: CellId, x: Tree)
    requires WF(t, d) && t.Inner?
    requires var n := d + t.plen;
      && Same(key, MinKey(t), n) && n < |key| && key[n] in t.kids
      && Inserted(t.kids[key[n]], x, key, val, n + 1)
    ensures Inserted(t, WithKid(t, t.kind, t.partial, key[d + t.plen], x), key, val, d)
  {
    hide WF, NodeOk, MinKey;
    var b := key[d + t.plen];
    Header(t, d);
    assert t.kids[b := x].Keys == t.kids.Keys;
    assert |t.kids[b := x]| == |t.kids[b := x].Keys| == |t.kids|;
    WithChild(t, d, t.kind, t.partial, b, x);
    hide NodeOk, WF, MinKey, WithKid;
    forall k, v
      ensures Has(WithKid(t, t.kind, t.partial, b, x), k, v) <==> Has(t, k, v) || (k == key && v == val)
    {
      HasWithChild(t, t.kind, t.partial, b, x, k, v);
    }
    hide Has;
  }

  /**
   * Insertion below a well-formed tree, for every key that keeps the key set prefix-free:
   * the result is well-formed and stores exactly the old pairs and the new one.
   */
  lemma {:induction false} InsertOk(t: Tree, key: Key, val: CellId, d: nat)
    requires WF(t, d) && IsKey(key) && Same(key, MinKey(t), d)
    requires PrefixFree(t, key) && !Holds(t, key)
    ensures Inserted(t, Insert(t, key, val, d), key, val, d)
  {
    hide WF, NodeOk, MinKey, PrefixMismatch, PrefixFree, Has, Inserted, SplitLeaf, SplitPrefix, WithKid, AddChild,
      Nested;
    if t.Leaf? {
      MinKeyApart(t, key, d);
      SplitLeafOk(t, key, val, d);
    } else {
      InsertReadsInside(t, d, key);
      var n := d + t.plen;
      if PrefixMismatch(t, key, d) < t.plen {
        SplitPrefixOk(t, key, val, d, PrefixMismatch(t, key, d));
      } else if key[n] in t.kids {
        var child := t.kids[key[n]];
        Child(t, d, key[n]);
        PrefixFreeBelow(t, key, key[n]);
        InsertOk(child, key, val, n + 1);
        DescendOk(t, d, key, val, Insert(child, key, val, n + 1));
      } else {
        AddChildOk(t, d, key, val);
      }
    }
    hide Inserted;
  }

  /** A key that keeps the key set prefix-free is not nested with the least key either. */
  lemma MinKeyApart(t: Tree, key: Key, d: nat)
    requires WF(t, d) && PrefixFree(t, key) && !Holds(t, key)
    ensures !Nested(MinKey(t), key)
    ensures t.Leaf? ==> MinKey(t) == t.key != key
  {
    MinKeyHeld(t, d);
  }

  lemma PrefixFreeBelow(t: Tree, key: Key, b: Byte)
    requires t.Inner? && b in t.kids && PrefixFree(t, key)
    ensures PrefixFree(t.kids[b], key)
    ensures Holds(t.kids[b], key) ==> Holds(t, key)
  {
    hide WF, NodeOk, MinKey;
    assert forall k, v :: Has(t.kids[b], k, v) ==> Has(t, k, v);
  }

  /** Inserting a stored key changes nothing in the tree. */
  lemma {:induction false} InsertHeld(t: Tree, key: Key, val: CellId, d: nat)
    requires WF(t, d) && Holds(t, key)
    ensures Insert(t, key, val, d) == t
  {
    hide WF, NodeOk, MinKey, PrefixMismatch;
    var v :| Has(t, key, v);
    KeyThrough(t, d, key, v);
    if t.Inner? {
      var n := d + t.plen;
      PrefixMismatchExact(t, d, key);
      Child(t, d, key[n]);
      InsertHeld(t.kids[key[n]], key, val, n + 1);
      assert t.kids[key[n] := t.kids[key[n]]] == t.kids;
    }
  }

  /** Every byte of the key that insertion reads is there, for a key that keeps the key set prefix-free. */
  lemma InsertReadsInside(t: Tree, d: nat, key: Key)
    requires WF(t, d) && t.Inner? && Same(key, MinKey(t), d) && PrefixFree(t, key)
    ensures var diff, m := PrefixMismatch(t, key, d), MinKey(t);
      && (t.plen <= diff ==> d + t.plen < |key| && Same(key, m, d + t.plen))
      && (diff < t.plen ==>
        && d + diff < |key| && d + diff < |m| && Same(key, m, d + diff) && key[d + diff] != m[d + diff]
        && !Holds(t, key))
  {
    MinKeyHeld(t, d);
    hide WF, NodeOk, PrefixMismatch;
    PrefixMismatchExact(t, d, key);
    assert MinKey(t) != key ==> !Nested(MinKey(t), key);
    if v :| Has(t, key, v) {
      KeyThrough(t, d, key, v);
    }
  }

  // ---------- one level of insertion ----------

  lemma InsertAtLeaf(t: Tree, key: Key, val: CellId, d: nat)
    requires t.Leaf? && PrefixFree(t, key)
    ensures if t.key == key then Has(t, key, t.val) && Insert(t, key, val, d) == t
      else !Holds(t, key) && !Nested(t.key, key) && Insert(t, key, val, d) == SplitLeaf(t, key, val, d)
  {
    LeafFacts(t, d);
    assert Has(t, t.key, t.val);
  }

  lemma InsertSplits(t: Tree, key: Key, val: CellId, d: nat)
    requires t.Inner? && PrefixMismatch(t, key, d) < t.plen
    ensures Insert(t, key, val, d) == SplitPrefix(t, key, val, d, PrefixMismatch(t, key, d))
  {
  }

  lemma InsertBelow(t: Tree, key: Key, val: CellId, d: nat)
    requires t.Inner? && t.plen <= PrefixMismatch(t, key, d)
    requires d + t.plen < |key| && key[d + t.plen] in t.kids
    ensures var n := d + t.plen;
      Insert(t, key, val, d) == WithKid(t, t.kind, t.partial, key[n], Insert(t.kids[key[n]], key, val, n + 1))
  {
    hide PrefixMismatch, WithKid;
  }

  lemma HeldBelow(t: Tree, d: nat, key: Key)
    requires WF(t, d) && t.Inner?
    requires var n := d + t.plen; n < |key| && key[n] in t.kids
    ensures forall v :: Has(t.kids[key[d + t.plen]], key, v) <==> Has(t, key, v)
  {
    hide WF, NodeOk, MinKey;
    forall v: CellId | Has(t, key, v)
      ensures Has(t.kids[key[d + t.plen]], key, v)
    {
      KeyThrough(t, d, key, v);
    }
  }

  lemma InsertDescends(t: Tree, key: Key, val: CellId, d: nat)
    requires WF(t, d) && t.Inner? && t.plen <= PrefixMismatch(t, key, d) && PrefixFree(t, key)
    requires var n := d + t.plen; n < |key| && Same(key, MinKey(t), n) && key[n] in t.kids
    ensures var n := d + t.plen;
      var child := t.kids[key[n]];
      && WF(child, n + 1) && Same(key, MinKey(child), n + 1) && PrefixFree(child, key)
      && Insert(t, key, val, d) == WithKid(t, t.kind, t.partial, key[n], Insert(child, key, val, n + 1))
      && (forall v :: Has(child, key, v) <==> Has(t, key, v))
  {
    hide WF, NodeOk, MinKey, PrefixFree, Has, Insert, WithKid, PrefixMismatch;
    var n := d + t.plen;
    Child(t, d, key[n]);
    PrefixFreeBelow(t, key, key[n]);
    HeldBelow(t, d, key);
    InsertBelow(t, key, val, d);
  }

  lemma InsertAdds(t: Tree, key: Key, val: CellId, d: nat)
    requires WF(t, d) && t.Inner? && t.plen <= PrefixMismatch(t, key, d)
    requires d + t.plen < |key| && key[d + t.plen] !in t.kids
    ensures !Holds(t, key) && Insert(t, key, val, d) == AddChild(t, key[d + t.plen], Leaf(key, val))
  {
    hide WF, NodeOk, MinKey, PrefixMismatch;
    if v :| Has(t, key, v) {
      KeyThrough(t, d, key, v);
    }
  }
}
