/** The tree in memory: nodes that own disjoint subtrees, and the operations that rewrite them in place. */
module ArtTree {
  import opened Bytes
  import opened Options
  import opened Trie
  import opened TrieInsert
  import opened TrieSearch
  import opened TrieDelete
  import opened NodeLayout
  import opened ArtNode
  import opened LeafLock
  import opened TrieTouch

  /** A tagged child pointer: a leaf, with what its key bytes are now, or an inner node. */
  datatype Ptr = LeafAt(key: Key, cell: CellId) | NodeAt(node: Node<Ptr>)

  ghost function Own(n: Node<Ptr>): set<object> {
    {n, n.partial, n.keys, n.children}
  }

  ghost function View(x: Ptr): Tree
    reads if x.NodeAt? then {x.node} else {}
  {
    match x
    case LeafAt(key, cell) => Leaf(key, cell)
    case NodeAt(node) => node.view
  }

  ghost function Foot(x: Ptr): set<object>
    reads if x.NodeAt? then {x.node} else {}
  {
    if x.NodeAt? then x.node.repr else {}
  }

  /** The subtree at `x` is well-formed in memory and made of objects of `region`. */
  ghost predicate Within(x: Ptr, region: set<object>)
    reads region
    decreases region, 1
  {
    x.NodeAt? ==> x.node in region && x.node.repr <= region && Valid(x.node)
  }

  /** The children in `slots` stand for `kids`, and own disjoint parts of `region`. */
  ghost predicate KidsOk(slots: map<Byte, Ptr>, kids: map<Byte, Tree>, region: set<object>)
    reads region
    decreases region, 2
  {
    && slots.Keys == kids.Keys
    && (forall b :: b in slots ==> Within(slots[b], region) && View(slots[b]) == kids[b])
    && (forall b, c :: b in slots && c in slots && b != c ==> Foot(slots[b]) !! Foot(slots[c]))
  }

  /** The node agrees with the tree value it stands for, all the way down. */
  ghost predicate Valid(n: Node<Ptr>)
    reads n, n.repr
    decreases n.repr, 0
  {
    && Own(n) <= n.repr
    && n.LayoutOk()
    && n.view.Inner? && n.view.kind == n.kind && n.view.plen == n.plen && n.view.partial == n.partial[..]
    && KidsOk(n.slots, n.view.kids, n.repr - Own(n))
  }

  ghost predicate Ok(x: Ptr)
    reads if x.NodeAt? then {x.node} + x.node.repr else {}
  {
    x.NodeAt? ==> Valid(x.node)
  }

  lemma NodeFacts(n: Node<Ptr>)
    requires Valid(n)
    ensures Own(n) <= n.repr && n.LayoutOk() && n.num == |n.slots|
    ensures n.view == Inner(n.kind, n.plen, n.partial[..], n.view.kids)
    ensures n.slots.Keys == n.view.kids.Keys && |n.slots| == |n.view.kids|
    ensures KidsOk(n.slots, n.view.kids, n.repr - Own(n))
  {
    assert |n.slots| == |n.slots.Keys| && |n.view.kids| == |n.view.kids.Keys|;
  }

  lemma KidFacts(n: Node<Ptr>, b: Byte)
    requires Valid(n) && b in n.slots
    ensures n.view.Inner? && b in n.view.kids
    ensures Ok(n.slots[b]) && View(n.slots[b]) == n.view.kids[b]
    ensures Foot(n.slots[b]) <= n.repr - Own(n) && Foot(n.slots[b]) < n.repr
  {
    assert KidsOk(n.slots, n.view.kids, n.repr - Own(n));
    assert Within(n.slots[b], n.repr - Own(n));
    assert n in n.repr;
  }

  /** `minimum` */
  method Minimum(x: Ptr, ghost d: nat) returns (key: Key)
    requires Ok(x) && WF(View(x), d)
    ensures key == MinKey(View(x))
    decreases Foot(x)
  {
    hide NodeOk, MinKey, WF, Layout, Valid;
    match x {
      case LeafAt(k, _) =>
        LeafFacts(View(x), d);
        key := k;
      case NodeAt(n) =>
        NodeFacts(n);
        Header(n.view, d);
        var c, child := n.FirstChild();
        MinKeyOf(n.view, c);
        Child(n.view, d, c);
        KidFacts(n, c);
        key := Minimum(child, d + n.plen + 1);
    }
  }

  // ---------- search ----------

  /** `check_prefix` */
  method CheckPrefix(n: Node<Ptr>, key: Key, depth: nat) returns (idx: nat)
    requires n.partial.Length == MAX_PREFIX_LEN
    ensures idx == Agree(n.partial[..], 0, key, depth, Min(Stored(n.plen), |key| - depth))
  {
    var limit := Min(Min(n.plen, MAX_PREFIX_LEN), |key| - depth);
    idx := 0;
    while idx < limit
      invariant idx == 0 || idx <= limit
      invariant Agree(n.partial[..], 0, key, depth, limit)
        == idx + Agree(n.partial[..], idx, key, depth + idx, limit - idx)
    {
      if n.partial[idx] != key[depth + idx] { return; }
      idx := idx + 1;
    }
  }

  /** One step of an optimistic walk: the stored bytes of the path, then `find_child`. */
  method FindBelow(n: Node<Ptr>, key: Key, past: nat -> Byte, depth: nat) returns (c: Byte, at: int)
    requires Valid(n)
    ensures n.view.Inner? && n.view.plen == n.plen && c == Peek(key, past, depth + n.plen)
    ensures 0 <= at <==> PrefixMatches(n.view, key, depth) && c in n.view.kids
    ensures 0 <= at ==>
      && c in n.slots && CellOf(n.kind, n.num, n.keys[..], n.children[..], c, at)
      && at < n.children.Length && n.children[at] == Some(n.slots[c])
  {
    hide Layout, Valid, KidsOk;
    NodeFacts(n);
    c, at := Peek(key, past, depth + n.plen), -1;
    if n.plen != 0 {
      var len := CheckPrefix(n, key, depth);
      if len != Min(MAX_PREFIX_LEN, n.plen) { return; }
    }
    at := n.FindChild(c);
  }

  /** The child that an optimistic walk goes to; None means that the walk ends without an answer. */
  method NextChild(n: Node<Ptr>, key: Key, past: nat -> Byte, depth: nat) returns (next: Option<Ptr>)
    requires Valid(n)
    ensures n.view.Inner? && n.view.plen == n.plen
    ensures next.None? ==> Search(n.view, key, past, depth) == None
    ensures next.Some? ==>
      && Ok(next.value) && Foot(next.value) < n.repr
      && Search(n.view, key, past, depth) == Search(View(next.value), key, past, depth + n.plen + 1)
  {
    hide Layout, Valid, KidsOk, Search, PrefixMatches;
    var c, at := FindBelow(n, key, past, depth);
    StepAnswer(n.view, key, past, depth);
    if at < 0 { return None; }
    KidFacts(n, c);
    next := n.children[at];
  }

  /** `art_search`: the cell of the leaf with the whole key, if there is one. */
  method ArtSearch(root: Option<Ptr>, key: Key, past: nat -> Byte) returns (r: Option<CellId>)
    requires root.Some? ==> Ok(root.value)
    ensures r == if root.None? then None else Search(View(root.value), key, past, 0)
  {
    hide Valid, KidsOk, Search;
    var n, depth := root, 0;
    while n.Some? && n.value.NodeAt?
      invariant 0 <= depth && (n.Some? ==> Ok(n.value))
      invariant (if root.None? then None else Search(View(root.value), key, past, 0))
        == if n.None? then None else Search(View(n.value), key, past, depth)
      decreases n.Some?, if n.Some? then Foot(n.value) else {}
    {
      var node := n.value.node;
      n := NextChild(node, key, past, depth);
      depth := depth + node.plen + 1;
    }
    if n.None? { return None; }
    LeafAnswer(View(n.value), key, past, depth);
    return if n.value.key == key then Some(n.value.cell) else None;
  }

  /** `art_search_OCC`, and the walk inside `UpdateIterative`: they start at an inner node. */
  method SearchOcc(root: Node<Ptr>, key: Key, past: nat -> Byte) returns (r: Option<CellId>)
    requires Valid(root)
    ensures r == Search(root.view, key, past, 0)
  {
    hide Valid, KidsOk, Search;
    var node, level := root, 0;
    while true
      invariant 0 <= level && Valid(node)
      invariant Search(root.view, key, past, 0) == Search(node.view, key, past, level)
      decreases node.repr
    {
      var next := NextChild(node, key, past, level);
      if next.None? { return None; }
      if next.value.LeafAt? {
        LeafAnswer(View(next.value), key, past, level + node.plen + 1);
        return if next.value.key == key then Some(next.value.cell) else None;
      }
      level := level + node.plen + 1;
      node := next.value.node;
    }
  }

  lemma StepAnswer(t: Tree, key: Key, past: nat -> Byte, d: nat)
    requires t.Inner?
    ensures Search(t, key, past, d) ==
      var b := Peek(key, past, d + t.plen);
      if !PrefixMatches(t, key, d) || b !in t.kids then None
      else Search(t.kids[b], key, past, d + t.plen + 1)
  {
  }

  lemma LeafAnswer(t: Tree, key: Key, past: nat -> Byte, d: nat)
    requires t.Leaf?
    ensures Search(t, key, past, d) == if t.key == key then Some(t.val) else None
  {
  }

  // ---------- rebuilding what a node owns ----------

  lemma KidsWithout(slots: map<Byte, Ptr>, kids: map<Byte, Tree>, region: set<object>, c: Byte)
    requires KidsOk(slots, kids, region) && c in slots
    ensures KidsOk(slots - {c}, kids - {c}, region - Foot(slots[c]))
    ensures Within(slots[c], region) && View(slots[c]) == kids[c]
  {
    hide Valid;
    forall b | b in slots && b != c
      ensures Within(slots[b], region - Foot(slots[c]))
    {
      assert Within(slots[b], region);
      NodeInFoot(slots[b]);
    }
    assert (slots - {c}).Keys == slots.Keys - {c};
    assert (kids - {c}).Keys == kids.Keys - {c};
  }

  lemma WithinWiden(x: Ptr, region: set<object>, more: set<object>)
    requires Within(x, region)
    ensures Within(x, region + more) && Foot(x) <= region
  {
  }

  lemma KidsWith(slots: map<Byte, Ptr>, kids: map<Byte, Tree>, region: set<object>, c: Byte, x: Ptr)
    requires KidsOk(slots, kids, region) && c !in slots && Ok(x) && Foot(x) !! region
    ensures KidsOk(slots[c := x], kids[c := View(x)], region + Foot(x))
  {
    hide Valid;
    forall b | b in slots
      ensures Within(slots[b], region + Foot(x)) && Foot(slots[b]) !! Foot(x)
    {
      WithinWiden(slots[b], region, Foot(x));
    }
    assert Within(x, region + Foot(x)) by {
      NodeInFoot(x);
    }
    hide Within, Ok;
  }

  lemma NodeInFoot(x: Ptr)
    requires Ok(x)
    ensures x.NodeAt? ==> x.node in Foot(x)
  {
  }

  /** Records, for a node whose children are in order, the value that it now stands for. */
  ghost method Seal(n: Node<Ptr>, kids: map<Byte, Tree>, region: set<object>)
    requires n.LayoutOk() && KidsOk(n.slots, kids, region) && Own(n) !! region
    modifies n`view, n`repr
    ensures Valid(n) && n.repr == Own(n) + region
    ensures n.view == Inner(n.kind, n.plen, n.partial[..], kids)
  {
    hide Layout, KidsOk;
    n.view := Inner(n.kind, n.plen, n.partial[..], kids);
    n.repr := Own(n) + region;
    assert n.repr - Own(n) == region;
  }

  // ---------- insertion ----------

  /** `memcpy(dst, src + from, n)` out of a key */
  method CopyKey(dst: array<Byte>, src: Key, from: nat, n: nat)
    requires n <= dst.Length && from + n <= |src|
    modifies dst
    ensures dst[..] == Patch(old(dst[..]), 0, Drop(src, from), n)
  {
    forall i | 0 <= i < n {
      dst[i] := src[from + i];
    }
    assert dst[..] == src[from..][..n] + old(dst[n..]);
  }

  /**
   * The loops that compare two keys from `from` on: `mv_longest_common_prefix`, and the second loop of
   * `prefix_mismatch`.
   */
  method CompareKeys(a: Key, b: Key, from: nat) returns (n: nat)
    ensures n == Agree(a, from, b, from, Min(|a|, |b|) - from)
  {
    var limit := Min(|a|, |b|) - from;
    n := 0;
    while n < limit
      invariant n == 0 || n <= limit
      invariant Agree(a, from, b, from, limit) == n + Agree(a, from + n, b, from + n, limit - n)
    {
      if a[from + n] != b[from + n] { return; }
      n := n + 1;
    }
  }

  /** `prefix_mismatch` */
  method PrefixMismatchAt(n: Node<Ptr>, key: Key, depth: nat) returns (idx: nat)
    requires Valid(n) && WF(n.view, depth)
    ensures n.view.Inner? && idx == PrefixMismatch(n.view, key, depth)
  {
    hide Valid, WF, NodeOk, MinKey, Layout, KidsOk, SpelledAt, Occupancy;
    NodeFacts(n);
    Header(n.view, depth);
    idx := CheckPrefix(n, key, depth);
    var limit := Min(Stored(n.plen), |key| - depth);
    if n.plen > MAX_PREFIX_LEN && idx == limit {
      var l := Minimum(NodeAt(n), depth);
      var rest := CompareKeys(l, key, depth + idx);
      idx := idx + rest;
    }
  }

  /** The two `add_child4` calls that fill the new Node4 of a split. */
  method FillPair(n: Node<Ptr>, b: Byte, x: Ptr, c: Byte, y: Ptr)
    requires n.LayoutOk() && n.kind == Node4 && n.num == 0 && n.slots == map[]
    requires b != c && Ok(x) && Ok(y)
    requires Own(n) !! Foot(x) && Own(n) !! Foot(y) && Foot(x) !! Foot(y)
    modifies n`num, n`slots, n`view, n`repr, n.keys, n.children
    ensures Valid(n) && n.repr == Own(n) + Foot(x) + Foot(y)
    ensures n.view == Pair(n.plen, n.partial[..], b, View(x), c, View(y))
  {
    hide Valid, Layout, KidsOk;
    ghost var slots, kids := map[b := x][c := y], map[b := View(x)][c := View(y)];
    PairKids(b, x, c, y);
    NodeInFoot(x);
    NodeInFoot(y);
    var n1 := n.AddChild4(b, x);
    var n2 := n.AddChild4(c, y);
    Seal(n, kids, Foot(x) + Foot(y));
  }

  lemma PairKids(b: Byte, x: Ptr, c: Byte, y: Ptr)
    requires b != c && Ok(x) && Ok(y) && Foot(x) !! Foot(y)
    ensures KidsOk(map[b := x][c := y], map[b := View(x)][c := View(y)], Foot(x) + Foot(y))
  {
    hide Valid;
    assert KidsOk(map[], map[], {});
    KidsWith(map[], map[], {}, b, x);
    assert {} + Foot(x) == Foot(x);
    KidsWith(map[b := x], map[b := View(x)], Foot(x), c, y);
  }

  /**
   * The old leaf is locked before the keys are compared, and unlocked in the end; its key must be short enough to
   * come through.
   */
  method SplitLeafAt(k: Key, c: CellId, key: Key, cell: CellId, depth: nat) returns (r: Ptr)
    requires WF(Leaf(k, c), depth) && IsKey(key) && Same(key, k, depth) && !Nested(k, key) && |k| <= LOCK_AT
    ensures Ok(r) && View(r) == SplitLeaf(Leaf(k, c), key, cell, depth)
    ensures fresh(Foot(r))
  {
    hide Valid, WF, NodeOk, MinKey, Layout, Pair, Nested, Patch, Drop, Locked, Agree;
    var l := Locked(k);
    SplitBytes(k, c, key, depth);
    var n := new Node<Ptr>(Node4);
    n.plen := CompareKeys(l, key, depth);
    CopyKey(n.partial, key, depth, Min(MAX_PREFIX_LEN, n.plen));
    FillPair(n, l[depth + n.plen], LeafAt(Locked(l), c), key[depth + n.plen], LeafAt(key, cell));
    r := NodeAt(n);
  }

  /** The bytes that a leaf split reads, and what the lock leaves of a short key. */
  lemma SplitBytes(k: Key, c: CellId, key: Key, depth: nat)
    requires WF(Leaf(k, c), depth) && Same(key, k, depth) && !Nested(k, key) && |k| <= LOCK_AT
    ensures Locked(k) == k == Locked(Locked(k)) && depth <= |k|
    ensures var n := depth + Agree(k, depth, key, depth, Min(|k|, |key|) - depth);
      n < |k| && n < |key| && k[n] != key[n]
  {
    hide NodeOk, MinKey, Nested;
    TouchedExact(k);
    PartingPoint(k, key, depth);
  }

  /** Cuts the path of `n` after its first `diff` bytes, in place, and puts a new Node4 above it. */
  method SplitPrefixAt(n: Node<Ptr>, key: Key, cell: CellId, depth: nat, diff: nat) returns (r: Ptr)
    requires Valid(n) && WF(n.view, depth) && diff < n.plen
    requires IsKey(key) && Same(key, MinKey(n.view), depth + diff)
    requires depth + diff < |key| && depth + diff < |MinKey(n.view)|
    requires key[depth + diff] != MinKey(n.view)[depth + diff]
    modifies n.repr
    ensures Ok(r) && old(n.view).Inner? && View(r) == SplitPrefix(old(n.view), key, cell, depth, diff)
    ensures fresh(Foot(r) - old(n.repr))
  {
    hide Valid, WF, NodeOk, MinKey, Layout, KidsOk, Pair, Lowered, CutSource, Patch;
    NodeFacts(n);
    EdgeByteIs(n.view, depth, diff);
    var top := new Node<Ptr>(Node4);
    ghost var own, was := Own(top), n.repr;
    assert fresh(own);
    top.plen := diff;
    CopyPath(top.partial, 0, n.partial, Min(MAX_PREFIX_LEN, diff));
    var byte := LowerPath(n, depth, diff);
    FillPair(top, byte, NodeAt(n), key[depth + diff], LeafAt(key, cell));
    r := NodeAt(top);
    assert Foot(r) == own + was + {};
    assert Foot(r) - was <= own;
  }

  /** `memcpy(dst + at, src, n)` between two path fields */
  method CopyPath(dst: array<Byte>, at: nat, src: array<Byte>, n: nat)
    requires at + n <= dst.Length && n <= src.Length && dst != src
    modifies dst
    ensures dst[..] == Patch(old(dst[..]), at, src[..], n)
  {
    CopyInto(dst, at, src, n);
  }

  lemma EdgeByteIs(t: Tree, d: nat, diff: nat)
    requires WF(t, d) && t.Inner? && diff < t.plen
    ensures d + diff < |MinKey(t)| && At(CutSource(t, d, diff), 0) == MinKey(t)[d + diff] < 128
  {
    hide WF, NodeOk, MinKey, CutSource;
    CutSourceSpells(t, d, diff);
    MinKeyHeld(t, d);
  }

  /** Leaves `n` only the part of its path after the byte at `diff`, which it returns. */
  method LowerPath(n: Node<Ptr>, depth: nat, diff: nat) returns (byte: Byte)
    requires Valid(n) && WF(n.view, depth) && diff < n.plen
    modifies n`plen, n`view, n`repr, n.partial
    ensures Valid(n) && n.repr == old(n.repr) && old(n.view).Inner? && old(n.view).plen == old(n.plen)
    ensures n.view == Lowered(old(n.view), depth, diff)
    ensures byte == At(CutSource(old(n.view), depth, diff), 0)
  {
    hide Valid, WF, NodeOk, MinKey, Layout, KidsOk;
    NodeFacts(n);
    CutSourceSpells(n.view, depth, diff);
    ghost var kids, region := n.view.kids, n.repr - Own(n);
    hide SpelledAt;
    byte := CutPath(n, depth, diff);
    n.plen := n.plen - (diff + 1);
    Seal(n, kids, region);
  }

  /** Moves the bytes of the path after `diff` to its front, from the node itself or from its least leaf. */
  method CutPath(n: Node<Ptr>, depth: nat, diff: nat) returns (byte: Byte)
    requires Valid(n) && WF(n.view, depth) && diff < n.plen && n.view.Inner? && n.view.plen == n.plen
    modifies n.partial
    ensures n.partial[..] == Lowered(n.view, depth, diff).partial
    ensures byte == At(CutSource(n.view, depth, diff), 0)
  {
    hide Valid, WF, NodeOk, MinKey, Layout, KidsOk;
    NodeFacts(n);
    CutSourceSpells(n.view, depth, diff);
    var plen := n.plen - (diff + 1);
    if n.plen <= MAX_PREFIX_LEN {
      byte := n.partial[diff];
      hide SpelledAt;
      ShiftPath(n.partial, diff + 1, Min(MAX_PREFIX_LEN, plen));
    } else {
      var l := Minimum(NodeAt(n), depth);
      byte := l[depth + diff];
      hide SpelledAt;
      CopyKey(n.partial, l, depth + diff + 1, Min(MAX_PREFIX_LEN, plen));
    }
  }

  /** `memmove(a, a + from, n)` */
  method ShiftPath(a: array<Byte>, from: nat, n: nat)
    requires from + n <= a.Length
    modifies a
    ensures a[..] == Patch(old(a[..]), 0, Drop(old(a[..]), from), n)
  {
    forall i | 0 <= i < n {
      a[i] := a[from + i];
    }
    assert a[..] == old(a[..])[from..][..n] + old(a[n..]);
  }

  /** `add_child` for a new leaf; a node that grows is left behind. */
  method AddLeaf(n: Node<Ptr>, c: Byte, key: Key, cell: CellId, ghost depth: nat) returns (r: Ptr)
    requires Valid(n) && WF(n.view, depth) && c !in n.slots && c < 128
    modifies n`num, n`slots, n`view, n`repr, n.keys, n.children
    ensures Ok(r) && old(n.view).Inner? && View(r) == AddChild(old(n.view), c, Leaf(key, cell))
    ensures fresh(Foot(r) - old(n.repr))
  {
    hide Valid, WF, NodeOk, MinKey, Layout, KidsOk;
    NodeFacts(n);
    EdgeBytes(n.view, depth);
    assert forall b :: b in n.slots ==> b in n.view.kids;
    ghost var kids, region, leaf := n.view.kids, n.repr - Own(n), LeafAt(key, cell);
    KidsWith(n.slots, kids, region, c, leaf);
    assert region + Foot(leaf) == region;
    n.LowBytesPlaceable(c);
    var m := n.AddChild(c, LeafAt(key, cell));
    Seal(m, kids[c := Leaf(key, cell)], region);
    r := NodeAt(m);
  }

  /** Stores what an operation on the child of `c` returned back through its cell. */
  method StoreChild(n: Node<Ptr>, c: Byte, cell: nat, x: Ptr, ghost kids: map<Byte, Tree>, ghost region: set<object>)
    requires n.LayoutOk() && c in n.slots && CellOf(n.kind, n.num, n.keys[..], n.children[..], c, cell)
    requires KidsOk(n.slots - {c}, kids - {c}, region) && Ok(x)
    requires Own(n) !! region && Own(n) !! Foot(x) && region !! Foot(x)
    modifies n`slots, n`view, n`repr, n.children
    ensures Valid(n) && n.repr == Own(n) + region + Foot(x)
    ensures n.view == Inner(n.kind, n.plen, n.partial[..], kids[c := View(x)])
  {
    hide Valid, Layout, KidsOk;
    KidsWith(n.slots - {c}, kids - {c}, region, c, x);
    PutBack(n.slots, c, x);
    PutBack(kids, c, View(x));
    NodeInFoot(x);
    n.SetChild(c, cell, x);
    Seal(n, kids[c := View(x)], region + Foot(x));
  }

  lemma PutBack<T>(m: map<Byte, T>, c: Byte, x: T)
    ensures (m - {c})[c := x] == m[c := x]
  {
  }

  /** The leaf that gives way, if any, has a key that the lock spares. */
  ghost predicate ShortWay(t: Tree, key: Key, d: nat) {
    GivenWay(t, key, d).Some? ==> |GivenWay(t, key, d).value| <= LOCK_AT
  }

  /** `split` is the cell of the leaf that gives way. */
  ghost predicate WayAt(t: Tree, key: Key, d: nat, split: Option<CellId>) {
    match GivenWay(t, key, d)
    case None => split == None
    case Some(k) => split.Some? && Has(t, k, split.value)
  }

  lemma WayAtLeaf(t: Tree, key: Key, d: nat)
    requires t.Leaf?
    ensures t.key == key ==> WayAt(t, key, d, None)
    ensures t.key != key ==> WayAt(t, key, d, Some(t.val)) && (ShortWay(t, key, d) <==> |t.key| <= LOCK_AT)
  {
  }

  lemma NoWay(t: Tree, key: Key, d: nat)
    requires t.Inner? && (PrefixMismatch(t, key, d) < t.plen || At(key, d + t.plen) !in t.kids)
    ensures WayAt(t, key, d, None)
  {
  }

  lemma WayBelow(t: Tree, key: Key, d: nat, split: Option<CellId>)
    requires t.Inner? && t.plen <= PrefixMismatch(t, key, d)
    requires d + t.plen < |key| && key[d + t.plen] in t.kids
    ensures ShortWay(t, key, d) <==> ShortWay(t.kids[key[d + t.plen]], key, d + t.plen + 1)
    ensures WayAt(t.kids[key[d + t.plen]], key, d + t.plen + 1, split) ==> WayAt(t, key, d, split)
  {
    var n := d + t.plen;
    assert GivenWay(t, key, d) == GivenWay(t.kids[key[n]], key, n + 1);
  }

  /**
   * `mv_recursive_insert` below the pointer `x`: what `*ref` points to afterwards, the cell of the leaf that holds
   * the key already, if one does, and the cell of the leaf that was split, if one was.
   */
  method Insert(x: Ptr, key: Key, cell: CellId, depth: nat)
    returns (r: Ptr, found: Option<CellId>, split: Option<CellId>)
    requires Ok(x) && WF(View(x), depth) && IsKey(key) && Same(key, MinKey(View(x)), depth)
    requires PrefixFree(View(x), key) && ShortWay(View(x), key, depth)
    modifies Foot(x)
    ensures Ok(r) && View(r) == TrieInsert.Insert(old(View(x)), key, cell, depth)
    ensures fresh(Foot(r) - old(Foot(x)))
    ensures found.Some? ==> Has(old(View(x)), key, found.value)
    ensures found.None? ==> !Holds(old(View(x)), key)
    ensures WayAt(old(View(x)), key, depth, split)
    decreases Foot(x), 2
  {
    hide Valid, WF, NodeOk, MinKey, Layout, KidsOk, PrefixFree, PrefixMismatch, SplitPrefix, SplitLeaf,
      TrieInsert.Insert, ShortWay, WayAt;
    match x {
      case LeafAt(k, c) =>
        LeafFacts(View(x), depth);
        InsertAtLeaf(View(x), key, cell, depth);
        WayAtLeaf(View(x), key, depth);
        if k == key {
          r, found, split := x, Some(c), None;
        } else {
          r := SplitLeafAt(k, c, key, cell, depth);
          found, split := None, Some(c);
        }
      case NodeAt(n) =>
        NodeFacts(n);
        InsertReadsInside(n.view, depth, key);
        if n.plen != 0 {
          var diff := PrefixMismatchAt(n, key, depth);
          if diff < n.plen {
            InsertSplits(n.view, key, cell, depth);
            NoWay(n.view, key, depth);
            r := SplitPrefixAt(n, key, cell, depth, diff);
            found, split := None, None;
            return;
          }
        }
        r, found, split := InsertBelow(n, key, cell, depth);
    }
  }

  /** The part of the insertion after the whole path of `n` has been found in the key. */
  method InsertBelow(n: Node<Ptr>, key: Key, cell: CellId, depth: nat)
    returns (r: Ptr, found: Option<CellId>, split: Option<CellId>)
    requires Valid(n) && WF(n.view, depth) && n.view.Inner? && n.plen == n.view.plen
    requires IsKey(key) && PrefixFree(n.view, key) && n.plen <= PrefixMismatch(n.view, key, depth)
    requires depth + n.plen < |key| && Same(key, MinKey(n.view), depth + n.plen) && ShortWay(n.view, key, depth)
    modifies n.repr
    ensures Ok(r) && View(r) == TrieInsert.Insert(old(n.view), key, cell, depth)
    ensures fresh(Foot(r) - old(n.repr))
    ensures found.Some? ==> Has(old(n.view), key, found.value)
    ensures found.None? ==> !Holds(old(n.view), key)
    ensures WayAt(old(n.view), key, depth, split)
    decreases n.repr, 1
  {
    hide Valid, WF, NodeOk, MinKey, Layout, KidsOk, PrefixFree, PrefixMismatch, Has, AddChild, TrieInsert.Insert,
      ShortWay, WayAt;
    NodeFacts(n);
    var c := key[depth + n.plen];
    var at := n.FindChild(c);
    if at < 0 {
      InsertAdds(n.view, key, cell, depth);
      NoWay(n.view, key, depth);
      r := AddLeaf(n, c, key, cell, depth);
      found, split := None, None;
    } else {
      InsertDescends(n.view, key, cell, depth);
      ghost var t := n.view;
      WayBelow(t, key, depth, None);
      found, split := InsertInto(n, c, at, key, cell, depth + n.plen + 1);
      WayBelow(t, key, depth, split);
      r := NodeAt(n);
    }
  }

  /** Inserts below the child of `c` and stores the result back. */
  method InsertInto(n: Node<Ptr>, c: Byte, at: nat, key: Key, cell: CellId, depth: nat)
    returns (found: Option<CellId>, split: Option<CellId>)
    requires Valid(n) && n.view.Inner? && c in n.slots && c in n.view.kids
    requires CellOf(n.kind, n.num, n.keys[..], n.children[..], c, at) && n.children[at] == Some(n.slots[c])
    requires IsKey(key) && WF(n.view.kids[c], depth) && Same(key, MinKey(n.view.kids[c]), depth)
    requires PrefixFree(n.view.kids[c], key) && ShortWay(n.view.kids[c], key, depth)
    modifies n.repr
    ensures Valid(n) && fresh(n.repr - old(n.repr))
    ensures n.view == WithKid(old(n.view), n.kind, old(n.view).partial, c,
                              TrieInsert.Insert(old(n.view).kids[c], key, cell, depth))
    ensures found.Some? ==> Has(old(n.view).kids[c], key, found.value)
    ensures found.None? ==> !Holds(old(n.view).kids[c], key)
    ensures WayAt(old(n.view).kids[c], key, depth, split)
    decreases n.repr, 0
  {
    hide Valid, WF, NodeOk, MinKey, Layout, KidsOk, PrefixFree, Has, TrieInsert.Insert, ShortWay, WayAt;
    NodeFacts(n);
    KidFacts(n, c);
    ghost var kids, region, child := n.view.kids, n.repr - Own(n), n.slots[c];
    KidsWithout(n.slots, kids, region, c);
    NodeInFoot(child);
    ghost var rest := region - Foot(child);
    var x;
    x, found, split := Insert(n.children[at].value, key, cell, depth);
    StoreChild(n, c, at, x, kids, rest);
  }

  // ---------- physical removal ----------

  /**
   * The path merge of `remove_child4`: the remaining child `m` of `n`, under edge byte `b`, takes over the
   * path of `n`.
   */
  method MergePath(n: Node<Ptr>, m: Node<Ptr>, ghost b: Byte)
    requires n.partial.Length == MAX_PREFIX_LEN && n.keys.Length > 0 && n.keys[0] == b && n.partial != n.keys
    requires Valid(m) && Own(n) !! m.repr
    modifies n.partial, m.partial, m`plen, m`view, m`repr
    ensures Valid(m) && m.repr == old(m.repr) && old(m.view).Inner?
    ensures var partial := MergedPartial(old(n.partial[..]), n.plen, b, old(m.partial[..]), old(m.plen));
      m.view == old(m.view).(plen := old(m.plen) + n.plen + 1, partial := partial)
  {
    hide Valid, Layout, KidsOk;
    NodeFacts(m);
    ghost var kids, region := m.view.kids, m.repr - Own(m);
    JoinPartials(n, m, b);
    m.plen := m.plen + n.plen + 1;
    Seal(m, kids, region);
  }

  method PutByte(dst: array<Byte>, at: nat, b: Byte)
    requires at < dst.Length
    modifies dst
    ensures dst[..] == Patch(old(dst[..]), at, [b], 1)
  {
    dst[at] := b;
  }

  method JoinPartials(n: Node<Ptr>, m: Node<Ptr>, ghost b: Byte)
    requires n.partial.Length == MAX_PREFIX_LEN == m.partial.Length && n.partial != m.partial
    requires n.keys.Length > 0 && n.keys[0] == b && n.partial != n.keys && m.partial != n.keys
    modifies n.partial, m.partial
    ensures m.partial[..] == MergedPartial(old(n.partial[..]), n.plen, b, old(m.partial[..]), m.plen)
  {
    hide Patch;
    var prefix := n.plen;
    if prefix < MAX_PREFIX_LEN {
      PutByte(n.partial, prefix, n.keys[0]);
      prefix := prefix + 1;
    }
    if prefix < MAX_PREFIX_LEN {
      var sub := Min(m.plen, MAX_PREFIX_LEN - prefix);
      CopyPath(n.partial, prefix, m.partial, sub);
      prefix := prefix + sub;
    }
    CopyPath(m.partial, 0, n.partial, Min(prefix, MAX_PREFIX_LEN));
  }

  lemma OneLess<T>(m: map<Byte, T>, c: Byte)
    requires c in m
    ensures |m - {c}| == |m| - 1
    ensures 2 <= |m| ==> m - {c} != map[]
  {
    assert (m - {c}).Keys == m.Keys - {c};
  }

  /** `remove_child` for the leaf under `c`, whose cell is `at`. */
  method RemoveLeaf(n: Node<Ptr>, c: Byte, at: nat) returns (r: Ptr)
    requires Valid(n) && n.view.Inner? && c in n.slots && n.slots[c].LeafAt? && 2 <= n.num
    requires CellOf(n.kind, n.num, n.keys[..], n.children[..], c, at)
    modifies n.repr
    ensures Ok(r) && View(r) == RemoveChild(old(n.view), c)
    ensures fresh(Foot(r) - old(n.repr))
  {
    hide Valid, Layout, KidsOk, MergedPartial, HeaderCopy;
    NodeFacts(n);
    OneLess(n.view.kids, c);
    var m := DropLeaf(n, c, at);
    if n.kind == Node4 && n.num == 1 {
      r := Collapse(n);
    } else {
      r := NodeAt(m);
    }
  }

  /** The same for the cells of the node alone; `region` is what hangs below it. */
  method DropChild(n: Node<Ptr>, c: Byte, at: nat, ghost region: set<object>) returns (m: Node<Ptr>)
    requires n.LayoutOk() && c in n.slots && Own(n) !! region
    requires n.kind == Node4 || n.kind == Node16 ==> at < n.num && n.keys[at] == c
    modifies n`num, n`slots, n.keys, n.children
    ensures m.LayoutOk() && m.slots == old(n.slots) - {c} && m.num + 1 == old(n.num)
    ensures m.kind == Shrunk(n.kind, old(n.num) - 1) && m.plen == n.plen
    ensures m.partial[..] == if m.kind == n.kind then n.partial[..] else HeaderCopy(n.plen, n.partial[..])
    ensures if m.kind == n.kind then m == n else fresh(Own(m))
    ensures Own(m) !! region
  {
    hide Layout, HeaderCopy, Shrunk;
    m := n.RemoveChild(c, at);
  }

  /** `remove_child`, short of the path merge: the node without the child of `c`, or a smaller copy of it. */
  method DropLeaf(n: Node<Ptr>, c: Byte, at: nat) returns (m: Node<Ptr>)
    requires Valid(n) && n.view.Inner? && c in n.slots && n.slots[c].LeafAt?
    requires CellOf(n.kind, n.num, n.keys[..], n.children[..], c, at)
    modifies n`num, n`slots, n`view, n`repr, n.keys, n.children
    ensures Valid(m) && fresh(m.repr - old(n.repr)) && (m.kind == n.kind ==> m == n && m.repr == old(n.repr))
    ensures var t := old(n.view);
      var kind := Shrunk(t.kind, |t.kids - {c}|);
      && m.kind == kind && m.num == |t.kids - {c}|
      && var partial := if kind == t.kind then t.partial else HeaderCopy(t.plen, t.partial);
      m.view == Inner(kind, t.plen, partial, t.kids - {c})
  {
    hide Valid, Layout, KidsOk, HeaderCopy, Shrunk, View, Foot;
    NodeFacts(n);
    ghost var kids, region := n.view.kids - {c}, n.repr - Own(n);
    OneLess(n.view.kids, c);
    LeafGone(n.slots, n.view.kids, region, c);
    assert Own(n) + region == n.repr;
    m := DropChild(n, c, at, region);
    assert KidsOk(m.slots, kids, region);
    Seal(m, kids, region);
  }

  lemma LeafGone(slots: map<Byte, Ptr>, kids: map<Byte, Tree>, region: set<object>, c: Byte)
    requires KidsOk(slots, kids, region) && c in slots && slots[c].LeafAt?
    ensures KidsOk(slots - {c}, kids - {c}, region)
  {
    KidsWithout(slots, kids, region, c);
    hide KidsOk;
    assert region - Foot(slots[c]) == region;
  }

  /** A Node4 with one child left gives way to it. */
  method Collapse(n: Node<Ptr>) returns (r: Ptr)
    requires Valid(n) && n.kind == Node4 && n.num == 1
    modifies n.repr
    ensures Ok(r) && Foot(r) <= old(n.repr)
    ensures var t := old(n.view);
      t.Inner? && t.kids != map[] && View(r) == Collapsed(t, Least(t.kids), t.kids[Least(t.kids)])
  {
    hide Valid, Layout, KidsOk, MergedPartial;
    NodeFacts(n);
    ghost var b, _ := n.OnlyChild();
    assert n.view.kids.Keys == {b};
    LeastIs(n.view.kids, b);
    KidFacts(n, b);
    match n.children[0].value {
      case LeafAt(_, _) => r := n.children[0].value;
      case NodeAt(child) =>
        NodeFacts(child);
        MergePath(n, child, b);
        r := NodeAt(child);
    }
  }

  /** `recursive_deleteGC` below an inner node: what `*ref` points to afterwards, and whether a leaf was taken out. */
  method Remove(n: Node<Ptr>, key: Key, past: nat -> Byte, depth: nat) returns (r: Ptr, removed: bool)
    requires Valid(n) && WF(n.view, depth)
    modifies n.repr
    ensures Ok(r) && old(n.view).Inner? && View(r) == TrieDelete.Remove(old(n.view), key, past, depth)
    ensures fresh(Foot(r) - old(n.repr))
    ensures removed <==> Search(old(n.view), key, past, depth) != None
    decreases n.repr, 1
  {
    hide Valid, WF, NodeOk, MinKey, Layout, KidsOk, Search, PrefixMatches, TrieDelete.Remove, RemoveChild, WithKid,
      CellOf;
    var c, at := FindBelow(n, key, past, depth);
    StepAnswer(n.view, key, past, depth);
    RemoveStep(n.view, key, past, depth);
    r, removed := NodeAt(n), false;
    if at < 0 { return; }
    KidFacts(n, c);
    NodeFacts(n);
    match n.children[at].value {
      case LeafAt(k, _) =>
        LeafAnswer(n.view.kids[c], key, past, depth + n.plen + 1);
        if k == key {
          Header(n.view, depth);
          r := RemoveLeaf(n, c, at);
          removed := true;
        }
      case NodeAt(child) =>
        Child(n.view, depth, c);
        removed := RemoveInto(n, c, at, child, key, past, depth + n.plen + 1);
    }
  }

  /** Removes below the child of `c` and stores the result back. */
  method RemoveInto(n: Node<Ptr>, c: Byte, at: nat, child: Node<Ptr>, key: Key, past: nat -> Byte, depth: nat)
    returns (removed: bool)
    requires Valid(n) && n.view.Inner? && c in n.slots && c in n.view.kids && n.slots[c] == NodeAt(child)
    requires CellOf(n.kind, n.num, n.keys[..], n.children[..], c, at)
    requires Valid(child) && child.view == n.view.kids[c] && child.repr < n.repr && WF(child.view, depth)
    modifies n.repr
    ensures Valid(n) && fresh(n.repr - old(n.repr)) && old(child.view).Inner?
    ensures n.view == WithKid(old(n.view), n.kind, old(n.view).partial, c,
                              TrieDelete.Remove(old(child.view), key, past, depth))
    ensures removed <==> Search(old(child.view), key, past, depth) != None
    decreases n.repr, 0
  {
    hide Valid, WF, NodeOk, MinKey, Layout, KidsOk, Search, TrieDelete.Remove;
    NodeFacts(n);
    KidFacts(n, c);
    ghost var kids, region := n.view.kids, n.repr - Own(n);
    KidsWithout(n.slots, kids, region, c);
    NodeInFoot(n.slots[c]);
    ghost var rest := region - child.repr;
    var x;
    x, removed := Remove(child, key, past, depth);
    StoreChild(n, c, at, x, kids, rest);
  }
}
