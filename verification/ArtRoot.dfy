/** The operations on a whole tree in memory, whose root may be missing, a leaf or an inner node. */
module ArtRoot {
  import opened Bytes
  import opened Options
  import opened Trie
  import opened TrieInsert
  import opened TrieSearch
  import opened TrieDelete
  import opened TrieMap
  import opened NodeLayout
  import opened ArtNode
  import opened ArtTree

  ghost function RootView(root: Option<Ptr>): Option<Tree>
    reads if root.Some? && root.value.NodeAt? then {root.value.node} else {}
  {
    if root.None? then None else Some(View(root.value))
  }

  ghost function RootFoot(root: Option<Ptr>): set<object>
    reads if root.Some? && root.value.NodeAt? then {root.value.node} else {}
  {
    if root.None? then {} else Foot(root.value)
  }

  ghost function RootReach(root: Option<Ptr>): set<object>
    reads if root.Some? && root.value.NodeAt? then {root.value.node} else {}
  {
    if root.Some? && root.value.NodeAt? then {root.value.node} + root.value.node.repr else {}
  }

  ghost predicate RootOk(root: Option<Ptr>)
    reads if root.Some? && root.value.NodeAt? then {root.value.node} + root.value.node.repr else {}
  {
    root.Some? ==> Ok(root.value)
  }

  lemma LocateStep(t: Tree, key: Key, depth: nat)
    ensures Locate(t, key, depth) ==
      match t
      case Leaf(k, val) => if k == key then Some(val) else None
      case Inner(_, plen, _, kids) =>
        if PrefixMismatch(t, key, depth) < plen || At(key, depth + plen) !in kids then None
        else Locate(kids[At(key, depth + plen)], key, depth + plen + 1)
  {
  }

  lemma RootInFoot(root: Option<Ptr>)
    requires RootOk(root)
    ensures RootReach(root) == RootFoot(root)
  {
    if root.Some? {
      NodeInFoot(root.value);
    }
  }

  /** The child that the walk of a logical delete goes on to, if any. */
  method LocateNext(n: Node<Ptr>, key: Key, depth: nat) returns (x: Option<Ptr>)
    requires Valid(n) && WF(n.view, depth)
    ensures n.view.Inner? && Locate(n.view, key, depth)
      == if x.None? then None else Locate(View(x.value), key, depth + n.plen + 1)
    ensures x.Some? ==> Ok(x.value) && WF(View(x.value), depth + n.plen + 1) && Foot(x.value) < n.repr
  {
    hide Valid, WF, NodeOk, MinKey, Layout, KidsOk, PrefixMismatch, Locate;
    LocateStep(n.view, key, depth);
    NodeFacts(n);
    if n.plen != 0 {
      var diff := PrefixMismatchAt(n, key, depth);
      if diff < n.plen { return None; }
    }
    var c := At(key, depth + n.plen);
    var at := n.FindChild(c);
    if at < 0 { return None; }
    KidFacts(n, c);
    Child(n.view, depth, c);
    x := n.children[at];
  }

  /** `mv_recursive_delete`, the walk to the leaf of a logical delete: the cell of the key, if it is stored. */
  method LocateBelow(x: Ptr, key: Key, depth: nat) returns (r: Option<CellId>)
    requires Ok(x) && WF(View(x), depth)
    ensures r == Locate(View(x), key, depth)
    decreases Foot(x)
  {
    hide Valid, WF, Locate;
    LocateStep(View(x), key, depth);
    match x {
      case LeafAt(k, cell) =>
        return if k == key then Some(cell) else None;
      case NodeAt(n) =>
        var y := LocateNext(n, key, depth);
        if y.None? { return None; }
        r := LocateBelow(y.value, key, depth + n.plen + 1);
    }
  }

  /** `mv_recursive_insert` from the root; a missing root becomes a leaf. */
  method InsertKey(root: Option<Ptr>, key: Key, cell: CellId)
    returns (r: Option<Ptr>, found: Option<CellId>, split: Option<CellId>)
    requires RootOk(root) && IsKey(key)
    requires root.Some? ==> WF(View(root.value), 0) && PrefixFree(View(root.value), key)
    requires root.Some? ==> ShortWay(View(root.value), key, 0)
    modifies RootFoot(root)
    ensures RootOk(r) && RootView(r) == InsertRoot(old(RootView(root)), key, cell)
    ensures fresh(RootFoot(r) - old(RootFoot(root)))
    ensures match old(RootView(root))
      case None => found == None && split == None
      case Some(t) =>
        (if found.Some? then Has(t, key, found.value) else !Holds(t, key)) && WayAt(t, key, 0, split)
  {
    hide Valid, WF, NodeOk, MinKey, PrefixFree, Has, TrieInsert.Insert, ShortWay, WayAt;
    if root.None? {
      return Some(LeafAt(key, cell)), None, None;
    }
    SameAtStart(key, View(root.value));
    var x;
    x, found, split := ArtTree.Insert(root.value, key, cell, 0);
    r := Some(x);
  }

  lemma SameAtStart(key: Key, t: Tree)
    ensures Same(key, MinKey(t), 0)
  {
  }

  /** `art_deleteGC` */
  method RemoveKey(root: Option<Ptr>, key: Key, past: nat -> Byte) returns (r: Option<Ptr>, removed: bool)
    requires RootOk(root) && (root.Some? ==> WF(View(root.value), 0))
    modifies RootFoot(root)
    ensures RootOk(r) && RootView(r) == RemoveRoot(old(RootView(root)), key, past)
    ensures fresh(RootFoot(r) - old(RootFoot(root)))
    ensures removed <==> SearchRoot(old(RootView(root)), key, past) != None
  {
    hide Valid, WF, NodeOk, MinKey, Search, TrieDelete.Remove;
    if root.None? {
      return None, false;
    }
    match root.value {
      case LeafAt(k, _) =>
        LeafAnswer(View(root.value), key, past, 0);
        if k == key {
          return None, true;
        }
        return root, false;
      case NodeAt(n) =>
        var x;
        x, removed := ArtTree.Remove(n, key, past, 0);
        r := Some(x);
    }
  }
}
