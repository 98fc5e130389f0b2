/** Inner nodes in memory, and the operations that rewrite their cells in place. */
module ArtNode {
  import opened Bytes
  import opened Options
  import opened Trie
  import opened TrieInsert
  import opened NodeLayout

  /** `memmove(a + idx + 1, a + idx, num - idx)`, then `a[idx] = x`. */
  method OpenCell<X>(a: array<X>, idx: nat, num: nat, x: X)
    requires idx <= num < a.Length
    modifies a
    ensures Opened(old(a[..]), a[..], idx, num, x)
  {
    forall i | idx < i <= num {
      a[i] := a[i - 1];
    }
    a[idx] := x;
  }

  /** `memmove(a + idx, a + idx + 1, num - 1 - idx)` */
  method CloseCell<X>(a: array<X>, idx: nat, num: nat)
    requires idx < num <= a.Length
    modifies a
    ensures Closed(old(a[..]), a[..], idx, num)
  {
    forall i | idx <= i < num - 1 {
      a[i] := a[i + 1];
    }
  }

  /** `memcpy(dst + at, src, n)` */
  method CopyInto<X>(dst: array<X>, at: nat, src: array<X>, n: nat)
    requires at + n <= dst.Length && n <= src.Length && dst != src
    modifies dst
    ensures dst[..] == old(dst[..at]) + src[..n] + old(dst[at + n..])
    ensures forall i :: 0 <= i < dst.Length ==> dst[i] == if at <= i < at + n then src[i - at] else old(dst[i])
  {
    forall i | 0 <= i < n {
      dst[at + i] := src[i];
    }
  }

  /** How the SSE compare of the Node16 insertion reads a byte. */
  function Signed(b: Byte): int {
    if b < 128 then b else b - 256
  }

  /**
   * The first of the cells from `i` on that the signed compare finds greater than `c`: where a Node16 puts a
   * new byte.
   */
  function SignedPlace(keys: seq<Byte>, num: nat, c: Byte, i: nat): (p: nat)
    requires i <= num <= |keys|
    ensures i <= p <= num && forall j :: i <= j < p ==> Signed(keys[j]) <= Signed(c)
    ensures p < num ==> Signed(c) < Signed(keys[p])
    decreases num - i
  {
    if i == num || Signed(c) < Signed(keys[i]) then i else SignedPlace(keys, num, c, i + 1)
  }

  /** The place depends on the cells in use only. */
  lemma {:induction false} SamePlace(keys: seq<Byte>, more: seq<Byte>, num: nat, c: Byte, i: nat)
    requires i <= num <= |keys| && num <= |more| && more[..num] == keys[..num]
    ensures SignedPlace(keys, num, c, i) == SignedPlace(more, num, c, i)
    decreases num - i
  {
    if i < num {
      assert keys[i] == keys[..num][i] == more[..num][i] == more[i];
      SamePlace(keys, more, num, c, i + 1);
    }
  }

  /** A new byte put at `p` keeps the cells in ascending order of unsigned bytes. */
  ghost predicate KeepsOrder(keys: seq<Byte>, num: nat, c: Byte, p: nat)
    requires p <= num <= |keys|
  {
    && (forall i :: 0 <= i < p ==> keys[i] < c)
    && (forall i :: p <= i < num ==> c < keys[i])
  }

  lemma PlaceCopied(keys: seq<Byte>, more: seq<Byte>, c: Byte)
    requires |keys| == 4 <= |more| && more[..4] == keys && KeepsOrder(keys, 4, c, SignedPlace(keys, 4, c, 0))
    ensures KeepsOrder(more, 4, c, SignedPlace(more, 4, c, 0))
  {
    hide SignedPlace;
    SamePlace(keys, more, 4, c, 0);
    assert forall i :: 0 <= i < 4 ==> more[i] == more[..4][i];
  }

  /** For a byte below 128 the place is right unless bytes of 128 and more come directly after it. */
  lemma LowPlaceExact(keys: seq<Byte>, num: nat, c: Byte)
    requires Rising(num, keys) && c < 128 && forall i :: 0 <= i < num ==> keys[i] != c
    ensures KeepsOrder(keys, num, c, SignedPlace(keys, num, c, 0)) <==>
      num == 0 || keys[num - 1] < 128 || exists i :: 0 <= i < num && c < keys[i] < 128
  {
    var p := SignedPlace(keys, num, c, 0);
    if p < num {
      assert c < keys[p] < 128;
      assert forall i :: 0 <= i < p ==> keys[i] < keys[p];
    }
  }

  /** For a byte of 128 or more it is right only if there are no smaller ones than 128. */
  lemma HighPlaceExact(keys: seq<Byte>, num: nat, c: Byte)
    requires Rising(num, keys) && 128 <= c && forall i :: 0 <= i < num ==> keys[i] != c
    ensures KeepsOrder(keys, num, c, SignedPlace(keys, num, c, 0)) <==> num == 0 || 128 <= keys[0]
  {
    var p := SignedPlace(keys, num, c, 0);
    if num > 0 && keys[0] < 128 {
      assert p == 0;
    } else {
      assert forall i :: 0 <= i < num ==> 128 <= keys[0] <= keys[i];
    }
  }

  ghost predicate SevenBit<T>(slots: map<Byte, T>) {
    forall b :: b in slots ==> b < 128
  }

  class Node<T> {
    const kind: Kind
    var num: nat
    var plen: nat
    const partial: array<Byte>
    const keys: array<Byte>
    const children: array<Option<T>>
    ghost var slots: map<Byte, T>
    // For the tree above this node: the value it stands for, and the objects it is made of.
    ghost var view: Tree
    ghost var repr: set<object>

    ghost predicate LayoutOk()
      reads this, partial, keys, children
    {
      && partial.Length == MAX_PREFIX_LEN
      && partial != keys
      && Layout(kind, num, keys[..], children[..], slots)
    }

    /** `alloc_node` */
    constructor (kind: Kind)
      ensures this.kind == kind && num == 0 && plen == 0 && slots == map[]
      ensures LayoutOk() && fresh(partial) && fresh(keys) && fresh(children)
      ensures partial[..] == Zeroed(MAX_PREFIX_LEN)
      ensures forall i :: 0 <= i < keys.Length ==> keys[i] == 0
      ensures forall i :: 0 <= i < children.Length ==> children[i] == None
    {
      this.kind := kind;
      num, plen := 0, 0;
      partial := new Byte[MAX_PREFIX_LEN](_ => 0);
      keys := new Byte[KeyCells(kind)](_ => 0);
      children := new Option<T>[Capacity(kind)](_ => None);
      slots := map[];
    }

    /** `copy_header` */
    method CopyHeader(src: Node<T>)
      requires partial.Length == MAX_PREFIX_LEN == src.partial.Length && partial != src.partial
      modifies `num, `plen, partial
      ensures num == src.num && plen == src.plen
      ensures old(partial[..]) == Zeroed(MAX_PREFIX_LEN) ==> partial[..] == HeaderCopy(src.plen, src.partial[..])
    {
      num, plen := src.num, src.plen;
      CopyInto(partial, 0, src.partial, Stored(src.plen));
    }

    /** `find_child`: the cell that holds the child of `c`, or -1. */
    method FindChild(c: Byte) returns (cell: int)
      requires LayoutOk()
      ensures c in slots <==> 0 <= cell
      ensures 0 <= cell ==> CellOf(kind, num, keys[..], children[..], c, cell) && children[cell] == Some(slots[c])
    {
      match kind {
        case Node4 => cell := ScanCells(c, num);
        case Node16 => cell := ScanCells(c, 16);
        case Node48 =>
          var i: int := keys[c];
          cell := i - 1;
        case Node256 =>
          cell := if children[c].Some? then c else -1;
      }
    }

    /** The lowest of the first `limit` cells that is in use and holds the byte `c`. */
    method ScanCells(c: Byte, limit: nat) returns (cell: int)
      requires Sorted(num, keys[..], children[..], slots) && num <= limit <= keys.Length
      ensures c in slots <==> 0 <= cell
      ensures 0 <= cell ==> cell < num && keys[cell] == c && children[cell] == Some(slots[c])
    {
      cell := 0;
      while cell < limit
        invariant 0 <= cell <= limit
        invariant c !in keys[..Min(cell, num)]
      {
        if cell < num && keys[cell] == c { return; }
        cell := cell + 1;
      }
      cell := -1;
    }

    /** The child of the least byte, as `minimum` finds it in each layout. */
    method FirstChild() returns (c: Byte, child: T)
      requires LayoutOk() && num > 0
      ensures c in slots && child == slots[c] && forall d :: d in slots ==> c <= d
    {
      hide Sorted, Indexed, Direct;
      match kind {
        case Node4 => FirstSorted(); c, child := keys[0], children[0].value;
        case Node16 => FirstSorted(); c, child := keys[0], children[0].value;
        case Node48 => c, child := FirstIndexed();
        case Node256 => c, child := FirstDirect();
      }
    }

    method FirstIndexed() returns (c: Byte, child: T)
      requires LayoutOk() && kind == Node48 && num > 0
      ensures c in slots && child == slots[c] && forall d :: d in slots ==> c <= d
    {
      hide OneToOne, NoOrphan;
      assert slots.Keys != {};
      ghost var some :| some in slots.Keys;
      var idx: int := 0;
      while keys[idx] == 0
        invariant 0 <= idx <= some
        invariant forall d :: d in slots ==> idx <= d
        decreases some - idx
      {
        idx := idx + 1;
      }
      c := idx;
      child := children[keys[idx] - 1].value;
    }

    method FirstDirect() returns (c: Byte, child: T)
      requires LayoutOk() && kind == Node256 && num > 0
      ensures c in slots && child == slots[c] && forall d :: d in slots ==> c <= d
    {
      assert slots.Keys != {};
      ghost var some :| some in slots.Keys;
      var idx: int := 0;
      while children[idx] == None
        invariant 0 <= idx <= some
        invariant forall d :: d in slots ==> idx <= d
        decreases some - idx
      {
        idx := idx + 1;
      }
      c := idx;
      child := children[idx].value;
    }

    lemma OnlyChild() returns (c: Byte, child: T)
      requires LayoutOk() && kind == Node4 && num == 1
      ensures keys.Length == 4 == children.Length
      ensures keys[0] == c && slots.Keys == {c} && child == slots[c] && children[0] == Some(child)
    {
      c, child := keys[0], children[0].value;
      assert keys[..][..1] == [c];
    }

    lemma FirstSorted()
      requires Sorted(num, keys[..], children[..], slots) && num > 0
      ensures num <= keys.Length && num <= children.Length
      ensures keys[0] in slots && children[0] == Some(slots[keys[0]]) && forall d :: d in slots ==> keys[0] <= d
    {
      var c := keys[0];
      forall d | d in slots
        ensures c <= d
      {
        assert d in keys[..][..num];
      }
    }

    /** Stores `x` through the reference that `FindChild` returned for `c`. */
    method SetChild(c: Byte, cell: nat, x: T)
      requires LayoutOk() && c in slots && CellOf(kind, num, keys[..], children[..], c, cell)
      modifies `slots, children
      ensures LayoutOk() && slots == old(slots)[c := x]
    {
      LayoutUpdate(kind, num, keys[..], children[..], slots, c, cell, x);
      children[cell] := Some(x);
      slots := slots[c := x];
      assert children[..] == old(children[..])[cell := Some(x)];
      hide Layout;
    }

    // ---------- adding a child ----------

    /** What `add_child*` leaves: this node with one more child, or a bigger copy of it. */
    twostate predicate ChildAdded(new r: Node<T>, c: Byte, child: T)
      reads this, r, r.partial, r.keys, r.children, partial
    {
      && r.LayoutOk() && r.slots == old(slots)[c := child] && r.num == old(num) + 1
      && r.kind == Grown(kind, old(num)) && r.plen == old(plen)
      && r.partial[..] == (if r.kind == kind then old(partial[..]) else HeaderCopy(old(plen), old(partial[..])))
    }

    /** Opens a gap at `idx` for the child of `c` in sorted cells. */
    method InsertAt(idx: nat, c: Byte, child: T)
      requires LayoutOk() && (kind == Node4 || kind == Node16) && num < Capacity(kind)
      requires idx <= num && c !in slots
      requires forall i :: 0 <= i < idx ==> keys[i] < c
      requires forall i :: idx <= i < num ==> c < keys[i]
      modifies `num, `slots, keys, children
      ensures LayoutOk() && slots == old(slots)[c := child]
    {
      hide Sorted, Opened;
      OpenCell(keys, idx, num, c);
      OpenCell(children, idx, num, Some(child));
      SortedInsert(num, old(keys[..]), old(children[..]), slots, idx, c, child, keys[..], children[..]);
      num := num + 1;
      slots := slots[c := child];
    }

    /** A Node16 with room, or the copy that a full Node4 grows to, gets the byte in the right place. */
    ghost predicate Placeable(c: Byte)
      requires LayoutOk()
      reads this, partial, keys, children
    {
      (kind == Node16 && num < 16) || (kind == Node4 && num == 4) ==>
        KeepsOrder(keys[..], num, c, SignedPlace(keys[..], num, c, 0))
    }

    /** So it is with bytes below 128, as those of all keys are. */
    lemma LowBytesPlaceable(c: Byte)
      requires LayoutOk() && c !in slots && c < 128 && SevenBit(slots)
      ensures Placeable(c)
    {
      if kind == Node16 || kind == Node4 {
        assert forall i :: 0 <= i < num ==> keys[..][i] in slots by {
          assert forall i :: 0 <= i < num ==> keys[..][i] in keys[..][..num];
        }
        LowPlaceExact(keys[..], num, c);
      }
    }

    lemma PlaceableCopy(big: Node<T>, c: Byte)
      requires LayoutOk() && kind == Node4 && num == 4 && Placeable(c)
      requires big.LayoutOk() && big.kind == Node16 && big.num == 4
      requires 4 <= |big.keys[..]| && big.keys[..][..4] == keys[..]
      ensures big.Placeable(c)
    {
      hide Layout, SignedPlace, KeepsOrder;
      PlaceCopied(keys[..], big.keys[..], c);
    }

    method AddChild256(c: Byte, child: T)
      requires LayoutOk() && kind == Node256 && c !in slots
      modifies `num, `slots, children
      ensures ChildAdded(this, c, child)
    {
      hide Direct;
      DirectInsert(children[..], slots, c, child);
      num := num + 1;
      children[c] := Some(child);
      slots := slots[c := child];
      assert children[..] == old(children[..])[c := Some(child)];
    }

    method AddChild48(c: Byte, child: T) returns (r: Node<T>)
      requires LayoutOk() && kind == Node48 && c !in slots
      modifies `num, `slots, keys, children
      ensures ChildAdded(r, c, child)
      ensures if r.kind == kind then r == this else fresh({r, r.partial, r.keys, r.children})
    {
      hide Indexed, Direct;
      if num < 48 {
        var pos := FreePosition();
        TakePosition(pos, c, child);
        r := this;
      } else {
        var big := Widened();
        big.AddChild256(c, child);
        r := big;
      }
    }

    /** The first of the 48 cells without a child. */
    method FreePosition() returns (pos: nat)
      requires LayoutOk() && kind == Node48 && num < 48
      ensures pos < 48 && children[pos] == None
    {
      hide Indexed;
      FreeCell(keys[..], children[..], slots);
      ghost var free :| 0 <= free < 48 && children[..][free] == None;
      pos := 0;
      while children[pos].Some?
        invariant pos <= free
        decreases free - pos
      {
        pos := pos + 1;
      }
    }

    method TakePosition(pos: nat, c: Byte, child: T)
      requires LayoutOk() && kind == Node48 && num < 48 && c !in slots
      requires pos < 48 && children[pos] == None
      modifies `num, `slots, keys, children
      ensures LayoutOk() && slots == old(slots)[c := child]
    {
      hide Indexed;
      IndexedInsert(keys[..], children[..], slots, pos, c, child);
      children[pos] := Some(child);
      keys[c] := pos + 1;
      num := num + 1;
      slots := slots[c := child];
      assert keys[..] == old(keys[..])[c := pos + 1];
      assert children[..] == old(children[..])[pos := Some(child)];
    }

    /** The Node256 with the children of this Node48. */
    method Widened() returns (r: Node<T>)
      requires LayoutOk() && kind == Node48
      ensures r.LayoutOk() && r.kind == Node256 && r.slots == slots && r.num == num && r.plen == plen
      ensures r.partial[..] == HeaderCopy(plen, partial[..])
      ensures fresh({r, r.partial, r.keys, r.children})
    {
      hide Indexed, Direct;
      r := new Node(Node256);
      SpreadCells(r.children);
      r.CopyHeader(this);
      r.slots := slots;
    }

    /** Puts the child of every byte into its own cell. */
    method SpreadCells(cells: array<Option<T>>)
      requires Indexed(keys[..], children[..], slots)
      requires cells.Length == 256 && cells != children && forall i :: 0 <= i < 256 ==> cells[i] == None
      modifies cells
      ensures Direct(cells[..], slots)
    {
      hide OneToOne, NoOrphan;
      var i: int := 0;
      while i < 256
        invariant 0 <= i <= 256
        invariant forall b: Byte :: cells[b] == if b < i && b in slots then Some(slots[b]) else None
      {
        if keys[i] != 0 {
          cells[i] := children[keys[i] - 1];
        }
        i := i + 1;
      }
    }

    method AddChild16(c: Byte, child: T) returns (r: Node<T>)
      requires LayoutOk() && kind == Node16 && c !in slots && Placeable(c)
      modifies `num, `slots, keys, children
      ensures ChildAdded(r, c, child)
      ensures if r.kind == kind then r == this else fresh({r, r.partial, r.keys, r.children})
    {
      hide Covered, Indexed;
      if num < 16 {
        var idx := 0;
        while idx < num && !(Signed(c) < Signed(keys[idx]))
          invariant 0 <= idx <= num
          invariant SignedPlace(keys[..], num, c, idx) == SignedPlace(keys[..], num, c, 0)
        {
          idx := idx + 1;
        }
        InsertAt(idx, c, child);
        r := this;
      } else {
        var big := Tabled();
        r := big.AddChild48(c, child);
      }
    }

    /** The Node48 with the children of this full Node16. */
    method Tabled() returns (r: Node<T>)
      requires LayoutOk() && kind == Node16 && num == 16
      ensures r.LayoutOk() && r.kind == Node48 && r.slots == slots && r.num == num && r.plen == plen
      ensures r.partial[..] == HeaderCopy(plen, partial[..])
      ensures fresh({r, r.partial, r.keys, r.children})
    {
      hide Sorted, Indexed;
      r := new Node(Node48);
      CopyInto(r.children, 0, children, num);
      PointCells(r.keys);
      r.CopyHeader(this);
      r.slots := slots;
      SortedToIndexed(num, keys[..], children[..], slots, r.keys[..], r.children[..]);
    }

    /** Makes a zeroed table point to the position of every byte in use. */
    method PointCells(table: array<Byte>)
      requires Sorted(num, keys[..], children[..], slots) && num <= 48
      requires table.Length == 256 && table != keys && forall i :: 0 <= i < 256 ==> table[i] == 0
      modifies table
      ensures forall i :: 0 <= i < num ==> table[keys[i]] == i + 1
      ensures forall b: Byte :: b !in keys[..num] ==> table[b] == 0
    {
      hide CellsHold, Covered;
      var i := 0;
      while i < num
        invariant i <= num
        invariant forall j :: 0 <= j < i ==> table[keys[j]] == j + 1
        invariant forall b: Byte :: b !in keys[..num] ==> table[b] == 0
      {
        table[keys[i]] := i + 1;
        assert keys[i] in keys[..num];
        i := i + 1;
      }
    }

    method AddChild4(c: Byte, child: T) returns (r: Node<T>)
      requires LayoutOk() && kind == Node4 && c !in slots && Placeable(c)
      modifies `num, `slots, keys, children
      ensures ChildAdded(r, c, child)
      ensures if r.kind == kind then r == this else fresh({r, r.partial, r.keys, r.children})
    {
      hide Covered, Placeable;
      if num < 4 {
        var idx := 0;
        while idx < num && !(c < keys[idx])
          invariant 0 <= idx <= num
          invariant forall i :: 0 <= i < idx ==> keys[i] < c
        {
          idx := idx + 1;
        }
        InsertAt(idx, c, child);
        r := this;
      } else {
        var big := Lengthened();
        PlaceableCopy(big, c);
        r := big.AddChild16(c, child);
      }
    }

    /** The Node16 with the children of this full Node4. */
    method Lengthened() returns (r: Node<T>)
      requires LayoutOk() && kind == Node4 && num == 4
      ensures r.LayoutOk() && r.kind == Node16 && r.slots == slots && r.num == num && r.plen == plen
      ensures r.partial[..] == HeaderCopy(plen, partial[..])
      ensures 4 <= |r.keys[..]| && r.keys[..][..4] == keys[..]
      ensures fresh({r, r.partial, r.keys, r.children})
    {
      hide Sorted;
      r := new Node(Node16);
      CopyInto(r.children, 0, children, num);
      CopyInto(r.keys, 0, keys, num);
      r.CopyHeader(this);
      r.slots := slots;
      SortedCopy(num, keys[..], children[..], slots, r.keys[..], r.children[..]);
    }

    /** `add_child` */
    method AddChild(c: Byte, child: T) returns (r: Node<T>)
      requires LayoutOk() && c !in slots && Placeable(c)
      modifies `num, `slots, keys, children
      ensures ChildAdded(r, c, child)
      ensures if r.kind == kind then r == this else fresh({r, r.partial, r.keys, r.children})
    {
      match kind {
        case Node4 => r := AddChild4(c, child);
        case Node16 => r := AddChild16(c, child);
        case Node48 => r := AddChild48(c, child);
        case Node256 => AddChild256(c, child); r := this;
      }
    }

    // ---------- removing a child ----------

    /** What `remove_child*` leaves before a path merge: this node without the child, or a smaller copy. */
    twostate predicate ChildRemoved(new r: Node<T>, c: Byte)
      reads this, r, r.partial, r.keys, r.children, partial
    {
      && r.LayoutOk() && r.slots == old(slots) - {c} && r.num + 1 == old(num)
      && r.kind == Shrunk(kind, old(num) - 1) && r.plen == old(plen)
      && r.partial[..] == (if r.kind == kind then old(partial[..]) else HeaderCopy(old(plen), old(partial[..])))
    }

    /** Closes the gap of the cell at `cell`, which holds the child of `c`, in sorted cells. */
    method RemoveAt(c: Byte, cell: nat)
      requires LayoutOk() && (kind == Node4 || kind == Node16) && cell < num && keys[cell] == c
      modifies `num, `slots, keys, children
      ensures LayoutOk() && c in old(slots) && slots == old(slots) - {c} && num == old(num) - 1
    {
      hide Covered, Rising, Closed;
      CloseCell(keys, cell, num);
      CloseCell(children, cell, num);
      SortedRemove(num, old(keys[..]), old(children[..]), slots, cell, keys[..], children[..]);
      num := num - 1;
      slots := slots - {c};
      assert slots.Keys == old(slots).Keys - {c};
    }

    method RemoveChild4(c: Byte, cell: nat)
      requires LayoutOk() && kind == Node4 && cell < num && keys[cell] == c
      modifies `num, `slots, keys, children
      ensures ChildRemoved(this, c) && num == old(num) - 1
    {
      hide Sorted;
      RemoveAt(c, cell);
    }

    method RemoveChild16(c: Byte, cell: nat) returns (r: Node<T>)
      requires LayoutOk() && kind == Node16 && cell < num && keys[cell] == c
      modifies `num, `slots, keys, children
      ensures ChildRemoved(r, c)
      ensures if r.kind == kind then r == this else fresh({r, r.partial, r.keys, r.children})
    {
      hide Sorted;
      RemoveAt(c, cell);
      r := this;
      if num == 3 {
        r := Shortened();
      }
    }

    /** The Node4 with the children of this Node16 of three. */
    method Shortened() returns (r: Node<T>)
      requires LayoutOk() && kind == Node16 && num == 3
      ensures r.LayoutOk() && r.kind == Node4 && r.slots == slots && r.num == num && r.plen == plen
      ensures r.partial[..] == HeaderCopy(plen, partial[..])
      ensures fresh({r, r.partial, r.keys, r.children})
    {
      hide Sorted;
      r := new Node(Node4);
      r.CopyHeader(this);
      CopyInto(r.keys, 0, keys, 4);
      CopyInto(r.children, 0, children, 4);
      r.slots := slots;
      SortedCopy(num, keys[..], children[..], slots, r.keys[..], r.children[..]);
    }

    method RemoveChild48(c: Byte) returns (r: Node<T>)
      requires LayoutOk() && kind == Node48 && c in slots
      modifies `num, `slots, keys, children
      ensures ChildRemoved(r, c)
      ensures if r.kind == kind then r == this else fresh({r, r.partial, r.keys, r.children})
    {
      hide Indexed, Sorted;
      DropPosition(c);
      r := this;
      if num == 12 {
        r := Untabled();
      }
    }

    method DropPosition(c: Byte)
      requires LayoutOk() && kind == Node48 && c in slots
      modifies `num, `slots, keys, children
      ensures LayoutOk() && slots == old(slots) - {c} && num == old(num) - 1
    {
      hide OneToOne, NoOrphan;
      IndexedRemove(keys[..], children[..], slots, c);
      var pos := keys[c];
      keys[c] := 0;
      children[pos - 1] := None;
      num := num - 1;
      slots := slots - {c};
      assert keys[..] == old(keys[..])[c := 0];
      assert children[..] == old(children[..])[pos - 1 := None];
      assert slots.Keys == old(slots).Keys - {c};
      hide Points;
    }

    /** The Node16 with the children of this Node48 of twelve. */
    method Untabled() returns (r: Node<T>)
      requires LayoutOk() && kind == Node48 && num == 12
      ensures r.LayoutOk() && r.kind == Node16 && r.slots == slots && r.num == num && r.plen == plen
      ensures r.partial[..] == HeaderCopy(plen, partial[..])
      ensures fresh({r, r.partial, r.keys, r.children})
    {
      hide Indexed, Sorted;
      r := new Node(Node16);
      r.CopyHeader(this);
      GatherSorted(r.keys, r.children);
      r.slots := slots;
    }

    /** Lists the children in the order of their bytes. */
    method GatherSorted(bytes: array<Byte>, cells: array<Option<T>>)
      requires Indexed(keys[..], children[..], slots) && |slots| <= bytes.Length == cells.Length
      requires bytes != keys && cells != children
      modifies bytes, cells
      ensures Sorted(|slots|, bytes[..], cells[..], slots)
    {
      hide Sorted, OneToOne, NoOrphan;
      UnderAll(slots);
      NoneSorted<T>(bytes[..], cells[..]);
      var child, i := 0, 0;
      while i < 256
        invariant 0 <= i <= 256 && child == |Under(slots, i)|
        invariant Sorted(child, bytes[..], cells[..], Under(slots, i))
      {
        UnderNext(slots, i);
        if keys[i] != 0 {
          ghost var bs, cs := bytes[..], cells[..];
          bytes[child] := i;
          cells[child] := children[keys[i] - 1];
          SortedAppend(child, bs, cs, Under(slots, i), i, slots[i]);
          assert bytes[..] == bs[child := i as Byte] && cells[..] == cs[child := Some(slots[i])];
          child := child + 1;
        }
        i := i + 1;
      }
    }

    method RemoveChild256(c: Byte) returns (r: Node<T>)
      requires LayoutOk() && kind == Node256 && c in slots
      modifies `num, `slots, children
      ensures ChildRemoved(r, c)
      ensures if r.kind == kind then r == this else fresh({r, r.partial, r.keys, r.children})
    {
      hide Direct, Indexed;
      DirectRemove(children[..], slots, c);
      children[c] := None;
      num := num - 1;
      slots := slots - {c};
      assert children[..] == old(children[..])[c := None];
      assert slots.Keys == old(slots).Keys - {c};
      r := this;
      if num == 37 {
        r := Narrowed();
      }
    }

    /** The Node48 with the children of this Node256 of thirty-seven. */
    method Narrowed() returns (r: Node<T>)
      requires LayoutOk() && kind == Node256 && num == 37
      ensures r.LayoutOk() && r.kind == Node48 && r.slots == slots && r.num == num && r.plen == plen
      ensures r.partial[..] == HeaderCopy(plen, partial[..])
      ensures fresh({r, r.partial, r.keys, r.children})
    {
      hide Direct, Indexed;
      r := new Node(Node48);
      r.CopyHeader(this);
      GatherIndexed(r.keys, r.children);
      r.slots := slots;
    }

    /** Packs the children into the first cells, in the order of their bytes, and points the table to them. */
    method GatherIndexed(table: array<Byte>, cells: array<Option<T>>)
      requires Direct(children[..], slots) && |slots| <= 48
      requires table.Length == 256 && cells.Length == 48 && cells != children
      requires forall i :: 0 <= i < 256 ==> table[i] == 0
      requires forall i :: 0 <= i < 48 ==> cells[i] == None
      modifies table, cells
      ensures Indexed(table[..], cells[..], slots)
    {
      hide Indexed;
      UnderAll(slots);
      NoneIndexed<T>(table[..], cells[..]);
      var pos, i := 0, 0;
      while i < 256
        invariant 0 <= i <= 256 && pos == |Under(slots, i)|
        invariant Indexed(table[..], cells[..], Under(slots, i))
        invariant forall p :: pos <= p < 48 ==> cells[p] == None
      {
        UnderNext(slots, i);
        if children[i].Some? {
          IndexedInsert(table[..], cells[..], Under(slots, i), pos, i, slots[i]);
          ghost var ts, cs := table[..], cells[..];
          cells[pos] := children[i];
          table[i] := pos + 1;
          assert table[..] == ts[i := (pos + 1) as Byte] && cells[..] == cs[pos := Some(slots[i])];
          pos := pos + 1;
        }
        i := i + 1;
      }
    }

    /** `remove_child`, short of the path merge: `cell` is where `FindChild` found the child of `c`. */
    method RemoveChild(c: Byte, cell: nat) returns (r: Node<T>)
      requires LayoutOk() && c in slots
      requires kind == Node4 || kind == Node16 ==> cell < num && keys[cell] == c
      modifies `num, `slots, keys, children
      ensures ChildRemoved(r, c)
      ensures if r.kind == kind then r == this else fresh({r, r.partial, r.keys, r.children})
    {
      hide Sorted, Indexed, Direct;
      match kind {
        case Node4 => RemoveChild4(c, cell); r := this;
        case Node16 => r := RemoveChild16(c, cell);
        case Node48 => r := RemoveChild48(c);
        case Node256 => r := RemoveChild256(c);
      }
    }
  }
}
