/** Iteration over the tree in memory, in full and by prefix. */
module ArtIterate {
  import opened Bytes
  import opened Options
  import opened Trie
  import opened TrieInsert
  import opened TrieSearch
  import opened TrieOrder
  import opened TriePrefix
  import opened NodeLayout
  import opened ArtNode
  import opened ArtTree

  /** `mv_recursive_iter`: the leaves shown to the callback so far, which are also the read set, and its answer. */
  method Iterate(x: Ptr, cb: seq<Entry> -> int, seen: seq<Entry>) returns (now: seq<Entry>, res: int)
    requires Ok(x)
    ensures (now, res) == Visit(Entries(View(x)), cb, seen)
    decreases Foot(x), 2
  {
    hide Valid, Layout, KidsOk, EntriesFrom, Entries;
    EntriesOf(View(x));
    match x {
      case LeafAt(key, cell) =>
        now := seen + [Entry(key, cell)];
        res := cb(now);
      case NodeAt(n) =>
        if n.kind == Node4 || n.kind == Node16 {
          now, res := IterateSorted(n, cb, seen);
        } else {
          now, res := IterateBytes(n, cb, seen);
        }
    }
  }

  /** The child under the next edge byte; what is left of the node follows unless the callback stops. */
  method IterateChild(n: Node<Ptr>, ghost lo: nat, c: Byte, x: Ptr, cb: seq<Entry> -> int, seen: seq<Entry>)
    returns (now: seq<Entry>, res: int)
    requires Valid(n) && c in n.slots && n.slots[c] == x && n.view.Inner? && NextEdge(n.view, lo, c)
    ensures Visit(EntriesFrom(n.view, lo), cb, seen)
      == if res != 0 then (now, res) else Visit(EntriesFrom(n.view, c + 1), cb, now)
    decreases n.repr, 0
  {
    hide Valid, KidsOk, EntriesFrom, Entries, Visit, Layout, NextEdge;
    VisitEdge(n.view, lo, c, cb, seen);
    KidFacts(n, c);
    now, res := Iterate(x, cb, seen);
  }

  /** The loop over the cells of a Node4 or Node16. */
  method IterateSorted(n: Node<Ptr>, cb: seq<Entry> -> int, seen: seq<Entry>) returns (now: seq<Entry>, res: int)
    requires Valid(n) && (n.kind == Node4 || n.kind == Node16)
    ensures n.view.Inner? && (now, res) == Visit(EntriesFrom(n.view, 0), cb, seen)
    decreases n.repr, 1
  {
    hide Valid, KidsOk, EntriesFrom, Entries, Visit, Sorted, Cursor, Layout;
    NodeFacts(n);
    ghost var keys, children, lo: nat := n.keys[..], n.children[..], 0;
    SortedCells(n.kind, n.num, keys, children, n.slots);
    CursorStart(n.num, keys, children, n.slots);
    var i := 0;
    now, res := seen, 0;
    while i < n.num
      invariant lo <= 256 && Cursor(n.num, keys, n.slots, i, lo)
      invariant Visit(EntriesFrom(n.view, 0), cb, seen) == Visit(EntriesFrom(n.view, lo), cb, now)
    {
      CellInUse(n.num, keys, children, n.slots, i);
      CursorNext(n.num, keys, children, n.slots, i, lo);
      now, res := IterateChild(n, lo, n.keys[i], n.children[i].value, cb, now);
      if res != 0 { return; }
      lo := keys[i] as int + 1;
      i := i + 1;
    }
    CursorEnd(n.num, keys, n.slots, i, lo);
    NoEdgeLeft(n.view, lo);
    VisitNone(cb, now);
  }

  /** The loop over all bytes of a Node48 or Node256. */
  method IterateBytes(n: Node<Ptr>, cb: seq<Entry> -> int, seen: seq<Entry>) returns (now: seq<Entry>, res: int)
    requires Valid(n) && (n.kind == Node48 || n.kind == Node256)
    ensures n.view.Inner? && (now, res) == Visit(EntriesFrom(n.view, 0), cb, seen)
    decreases n.repr, 1
  {
    hide Valid, KidsOk, EntriesFrom, Entries, Visit, Layout, ChildOfByte;
    NodeFacts(n);
    var i: int := 0;
    now, res := seen, 0;
    while i < 256
      invariant 0 <= i <= 256
      invariant Visit(EntriesFrom(n.view, 0), cb, seen) == Visit(EntriesFrom(n.view, i), cb, now)
    {
      ChildOfByteIs(n, i);
      var x := ChildOfByte(n, i);
      if x.Some? {
        now, res := IterateChild(n, i, i, x.value, cb, now);
        if res != 0 { return; }
      } else {
        NoEdgeAt(n.view, i);
      }
      i := i + 1;
    }
    NoEdgeLeft(n.view, 256);
    VisitNone(cb, now);
  }

  /** The cell of byte `b`, through the table of a Node48 or directly in a Node256. */
  function ChildOfByte(n: Node<Ptr>, b: Byte): Option<Ptr>
    requires n.keys.Length == KeyCells(n.kind) && n.children.Length == Capacity(n.kind)
    requires (n.kind == Node48 && n.keys[b] <= 48) || n.kind == Node256
    reads n, n.keys, n.children
  {
    if n.kind == Node256 then n.children[b]
    else if n.keys[b] == 0 then None
    else n.children[n.keys[b] - 1]
  }

  lemma ChildOfByteIs(n: Node<Ptr>, b: Byte)
    requires n.LayoutOk() && (n.kind == Node48 || n.kind == Node256)
    ensures n.keys.Length == KeyCells(n.kind) && n.children.Length == Capacity(n.kind)
    ensures n.kind == Node48 ==> n.keys[b] <= 48
    ensures ChildOfByte(n, b) == if b in n.slots then Some(n.slots[b]) else None
  {
    hide OneToOne, NoOrphan;
  }

  lemma VisitNone(cb: seq<Entry> -> int, seen: seq<Entry>)
    ensures Visit([], cb, seen) == (seen, 0)
  {
  }

  ghost function TargetAt(x: Option<Ptr>, prefix: Key, past: nat -> Byte, depth: nat): Option<Tree>
    reads if x.Some? && x.value.NodeAt? then {x.value.node} else {}
  {
    if x.None? then None else Target(View(x.value), prefix, past, depth)
  }

  /** `art_iter_prefix` */
  method IteratePrefix(root: Ptr, prefix: Key, past: nat -> Byte, cb: seq<Entry> -> int, seen: seq<Entry>)
    returns (now: seq<Entry>, res: int)
    requires Ok(root) && WF(View(root), 0)
    ensures (now, res) == Visit(Visited(View(root), prefix, past), cb, seen)
  {
    hide Valid, WF, NodeOk, MinKey, Layout, KidsOk, Target, GoesOn, Entries, Visit;
    VisitNone(cb, seen);
    now, res := seen, 0;
    var n, depth: nat := Some(root), 0;
    while n.Some?
      invariant (now, res) == (seen, 0)
      invariant n.Some? ==> Ok(n.value) && WF(View(n.value), depth)
      invariant Target(View(root), prefix, past, 0) == TargetAt(n, prefix, past, depth)
      decreases n.Some?, if n.Some? then Foot(n.value) else {}
    {
      var here, on := EndsAt(n.value, prefix, depth, past);
      if here {
        now, res := Iterate(n.value, cb, seen);
        return;
      }
      if !on { return; }
      n, depth := StepDown(n.value.node, prefix, past, depth);
    }
  }

  /** The child that the next byte of the prefix leads to. */
  method StepDown(n: Node<Ptr>, prefix: Key, past: nat -> Byte, depth: nat) returns (x: Option<Ptr>, d: nat)
    requires Valid(n) && n.view.Inner? && WF(n.view, depth) && GoesOn(n.view, prefix, depth)
    ensures Target(n.view, prefix, past, depth) == TargetAt(x, prefix, past, d)
    ensures x.Some? ==> Ok(x.value) && WF(View(x.value), d) && Foot(x.value) < n.repr
  {
    hide Valid, WF, NodeOk, MinKey, Layout, KidsOk, Target, GoesOn;
    TargetStep(n.view, prefix, past, depth);
    NodeFacts(n);
    var c := Peek(prefix, past, depth + n.plen);
    var at := n.FindChild(c);
    if at < 0 { return None, depth; }
    KidFacts(n, c);
    Child(n.view, depth, c);
    x, d := n.children[at], depth + n.plen + 1;
  }

  /** Whether the walk ends at `x` with everything below it, and if not, whether it goes on. */
  method EndsAt(x: Ptr, prefix: Key, depth: nat, ghost past: nat -> Byte) returns (here: bool, on: bool)
    requires Ok(x) && WF(View(x), depth)
    ensures here ==> Target(View(x), prefix, past, depth) == Some(View(x))
    ensures !here && !on ==> Target(View(x), prefix, past, depth) == None
    ensures !here && on ==> x.NodeAt? && View(x).Inner? && GoesOn(View(x), prefix, depth)
  {
    hide Valid, WF, NodeOk, MinKey, Layout, KidsOk, PrefixMismatch;
    match x {
      case LeafAt(key, _) =>
        here, on := StartsWith(key, prefix), false;
      case NodeAt(n) =>
        NodeFacts(n);
        if depth == |prefix| {
          var l := Minimum(x, depth);
          return StartsWith(l, prefix), false;
        }
        on := true;
        here := false;
        if n.plen != 0 {
          var p := PrefixMismatchAt(n, prefix, depth);
          if n.plen < p { p := n.plen; }
          here, on := p != 0 && depth + p == |prefix|, p != 0;
        }
    }
  }
}
