/**
 * The four ways an inner node stores its children, each against the map from edge
 * bytes to children that it stands for.
 */
module NodeLayout {
  import opened Bytes
  import opened Options
  import opened Trie

  function KeyCells(kind: Kind): nat {
    match kind
    case Node4 => 4
    case Node16 => 16
    case Node48 => 256
    case Node256 => 0
  }

  ghost predicate Rising(num: nat, keys: seq<Byte>) {
    num <= |keys| && forall i, j :: 0 <= i < j < num ==> keys[i] < keys[j]
  }

  /** Every cell in use holds the child of its edge byte. */
  ghost predicate CellsHold<T>(num: nat, keys: seq<Byte>, kids: seq<Option<T>>, slots: map<Byte, T>) {
    && num <= |keys| && num <= |kids|
    && forall i :: 0 <= i < num ==> keys[i] in slots && kids[i] == Some(slots[keys[i]])
  }

  /** Every edge byte has a cell. */
  ghost predicate Covered<T>(num: nat, keys: seq<Byte>, slots: map<Byte, T>) {
    num <= |keys| && forall b :: b in slots ==> b in keys[..num]
  }

  /** Node4 and Node16: the first `num` cells, edge bytes ascending. */
  ghost predicate Sorted<T>(num: nat, keys: seq<Byte>, kids: seq<Option<T>>, slots: map<Byte, T>) {
    Rising(num, keys) && CellsHold(num, keys, kids, slots) && Covered(num, keys, slots)
  }

  /** Node48: a table from bytes to one-based positions among 48 cells, zero meaning none. */
  ghost predicate Points<T>(keys: seq<Byte>, kids: seq<Option<T>>, slots: map<Byte, T>) {
    && |keys| == 256 && |kids| == 48
    && (forall b: Byte :: b in slots <==> keys[b] != 0)
    && (forall b: Byte :: b in slots ==> keys[b] <= 48 && kids[keys[b] - 1] == Some(slots[b]))
  }

  ghost predicate OneToOne(keys: seq<Byte>) {
    |keys| == 256 && forall b: Byte, c: Byte :: keys[b] == keys[c] != 0 ==> b == c
  }

  ghost predicate NoOrphan<T>(keys: seq<Byte>, kids: seq<Option<T>>) {
    && |keys| == 256
    && forall p :: 0 <= p < |kids| && kids[p].Some? ==> exists b: Byte :: keys[b] == p + 1
  }

  ghost predicate Indexed<T>(keys: seq<Byte>, kids: seq<Option<T>>, slots: map<Byte, T>) {
    Points(keys, kids, slots) && OneToOne(keys) && NoOrphan(keys, kids)
  }

  /** Node256: one cell for every byte. */
  ghost predicate Direct<T>(kids: seq<Option<T>>, slots: map<Byte, T>) {
    && |kids| == 256
    && (forall b: Byte :: b in slots <==> kids[b].Some?)
    && (forall b: Byte :: b in slots ==> kids[b] == Some(slots[b]))
  }

  ghost predicate Layout<T>(kind: Kind, num: nat, keys: seq<Byte>, kids: seq<Option<T>>, slots: map<Byte, T>) {
    && |keys| == KeyCells(kind) && |kids| == Capacity(kind) && num == |slots|
    && match kind
       case Node4 => Sorted(num, keys, kids, slots)
       case Node16 => Sorted(num, keys, kids, slots)
       case Node48 => Indexed(keys, kids, slots)
       case Node256 => Direct(kids, slots)
  }

  /** `cell` is the cell of `c`: what a pointer into the children of a node amounts to. */
  ghost predicate CellOf<T>(kind: Kind, num: nat, keys: seq<Byte>, kids: seq<Option<T>>, c: Byte, cell: int) {
    && 0 <= cell < |kids|
    && match kind
       case Node4 => cell < num <= |keys| && keys[cell] == c
       case Node16 => cell < num <= |keys| && keys[cell] == c
       case Node48 => |keys| == 256 && cell + 1 == keys[c]
       case Node256 => cell == c
  }

  lemma LayoutUpdate<T>(kind: Kind, num: nat, keys: seq<Byte>, kids: seq<Option<T>>, slots: map<Byte, T>,
                        c: Byte, cell: nat, x: T)
    requires Layout(kind, num, keys, kids, slots) && c in slots && CellOf(kind, num, keys, kids, c, cell)
    ensures Layout(kind, num, keys, kids[cell := Some(x)], slots[c := x])
  {
    assert slots[c := x].Keys == slots.Keys;
    assert |slots[c := x]| == |slots[c := x].Keys| == |slots|;
    match kind {
      case Node4 => SortedUpdate(num, keys, kids, slots, cell, x);
      case Node16 => SortedUpdate(num, keys, kids, slots, cell, x);
      case Node48 => IndexedUpdate(keys, kids, slots, c, x);
      case Node256 =>
    }
    hide Sorted, Indexed;
  }

  lemma SortedUpdate<T>(num: nat, keys: seq<Byte>, kids: seq<Option<T>>, slots: map<Byte, T>, cell: nat, x: T)
    requires Sorted(num, keys, kids, slots) && cell < num
    ensures Sorted(num, keys, kids[cell := Some(x)], slots[keys[cell] := x])
  {
  }

  lemma IndexedUpdate<T>(keys: seq<Byte>, kids: seq<Option<T>>, slots: map<Byte, T>, c: Byte, x: T)
    requires Indexed(keys, kids, slots) && c in slots
    ensures Indexed(keys, kids[keys[c] - 1 := Some(x)], slots[c := x])
  {
    hide OneToOne, Points, NoOrphan;
    PositionOf(keys, kids, slots, c);
    PointsUpdate(keys, kids, slots, c, x);
    NoOrphanUpdate(keys, kids, c, x);
  }

  lemma PositionOf<T>(keys: seq<Byte>, kids: seq<Option<T>>, slots: map<Byte, T>, c: Byte)
    requires Points(keys, kids, slots) && c in slots
    ensures |keys| == 256 && 1 <= keys[c] <= |kids|
  {
  }

  lemma PointsUpdate<T>(keys: seq<Byte>, kids: seq<Option<T>>, slots: map<Byte, T>, c: Byte, x: T)
    requires Points(keys, kids, slots) && OneToOne(keys) && c in slots
    ensures 1 <= keys[c] <= |kids| && Points(keys, kids[keys[c] - 1 := Some(x)], slots[c := x])
  {
    hide OneToOne;
    OneToOneRemove(keys, c);
  }

  lemma NoOrphanUpdate<T>(keys: seq<Byte>, kids: seq<Option<T>>, c: Byte, x: T)
    requires NoOrphan(keys, kids) && 1 <= keys[c] <= |kids|
    ensures NoOrphan(keys, kids[keys[c] - 1 := Some(x)])
  {
    forall p | 0 <= p < |kids|
      ensures p == keys[c] - 1 || kids[keys[c] - 1 := Some(x)][p] == kids[p]
    {
    }
  }

  // ---------- sorted cells ----------

  /** `after` is `before` with the cells from `idx` to `num` moved one up and `x` put at `idx`. */
  ghost predicate Opened<X>(before: seq<X>, after: seq<X>, idx: nat, num: nat, x: X) {
    && idx <= num < |before| == |after|
    && (forall i :: 0 <= i < idx ==> after[i] == before[i])
    && after[idx] == x
    && (forall i :: idx < i <= num ==> after[i] == before[i - 1])
  }

  lemma RisingInsert(num: nat, keys: seq<Byte>, idx: nat, c: Byte, keys': seq<Byte>)
    requires Rising(num, keys) && Opened(keys, keys', idx, num, c)
    requires forall i :: 0 <= i < idx ==> keys[i] < c
    requires forall i :: idx <= i < num ==> c < keys[i]
    ensures Rising(num + 1, keys')
  {
  }

  lemma CellsHoldInsert<T>(num: nat, keys: seq<Byte>, kids: seq<Option<T>>, slots: map<Byte, T>,
                           idx: nat, c: Byte, x: T, keys': seq<Byte>, kids': seq<Option<T>>)
    requires CellsHold(num, keys, kids, slots) && c !in slots
    requires Opened(keys, keys', idx, num, c) && Opened(kids, kids', idx, num, Some(x))
    ensures CellsHold(num + 1, keys', kids', slots[c := x])
  {
  }

  lemma CoveredInsert<T>(num: nat, keys: seq<Byte>, slots: map<Byte, T>,
                         idx: nat, c: Byte, x: T, keys': seq<Byte>)
    requires Covered(num, keys, slots) && Opened(keys, keys', idx, num, c)
    ensures Covered(num + 1, keys', slots[c := x])
  {
    forall b | b in slots || b == c
      ensures b in keys'[..num + 1]
    {
      if b == c {
        assert keys'[..num + 1][idx] == b;
      } else {
        var i :| 0 <= i < num && keys[..num][i] == b;
        assert keys'[..num + 1][if i < idx then i else i + 1] == b;
      }
    }
  }

  lemma SortedInsert<T>(num: nat, keys: seq<Byte>, kids: seq<Option<T>>, slots: map<Byte, T>,
                        idx: nat, c: Byte, x: T, keys': seq<Byte>, kids': seq<Option<T>>)
    requires Sorted(num, keys, kids, slots) && c !in slots
    requires Opened(keys, keys', idx, num, c) && Opened(kids, kids', idx, num, Some(x))
    requires forall i :: 0 <= i < idx ==> keys[i] < c
    requires forall i :: idx <= i < num ==> c < keys[i]
    ensures Sorted(num + 1, keys', kids', slots[c := x])
  {
    RisingInsert(num, keys, idx, c, keys');
    CellsHoldInsert(num, keys, kids, slots, idx, c, x, keys', kids');
    CoveredInsert(num, keys, slots, idx, c, x, keys');
    hide Rising, CellsHold, Covered, Opened;
  }

  /** `after` is `before` with the cells after `idx` moved one down. */
  ghost predicate Closed<X>(before: seq<X>, after: seq<X>, idx: nat, num: nat) {
    && idx < num <= |before| == |after|
    && (forall i :: 0 <= i < idx ==> after[i] == before[i])
    && (forall i :: idx <= i < num - 1 ==> after[i] == before[i + 1])
  }

  lemma CoveredRemove<T>(num: nat, keys: seq<Byte>, slots: map<Byte, T>, idx: nat, keys': seq<Byte>)
    requires Covered(num, keys, slots) && Closed(keys, keys', idx, num)
    ensures Covered(num - 1, keys', slots - {keys[idx]})
  {
    forall b | b in slots && b != keys[idx]
      ensures b in keys'[..num - 1]
    {
      var i :| 0 <= i < num && keys[..num][i] == b;
      assert keys'[..num - 1][if i < idx then i else i - 1] == b;
    }
  }

  lemma SortedRemove<T>(num: nat, keys: seq<Byte>, kids: seq<Option<T>>, slots: map<Byte, T>,
                        idx: nat, keys': seq<Byte>, kids': seq<Option<T>>)
    requires Sorted(num, keys, kids, slots)
    requires Closed(keys, keys', idx, num) && Closed(kids, kids', idx, num)
    ensures Sorted(num - 1, keys', kids', slots - {keys[idx]})
  {
    CoveredRemove(num, keys, slots, idx, keys');
    hide Covered;
  }

  lemma CoveredCopy<T>(num: nat, keys: seq<Byte>, slots: map<Byte, T>, keys': seq<Byte>)
    requires Covered(num, keys, slots) && num <= |keys'| && keys'[..num] == keys[..num]
    ensures Covered(num, keys', slots)
  {
  }

  /** Sorted cells read in a bigger or smaller buffer. */
  lemma SortedCopy<T>(num: nat, keys: seq<Byte>, kids: seq<Option<T>>, slots: map<Byte, T>,
                      keys': seq<Byte>, kids': seq<Option<T>>)
    requires Sorted(num, keys, kids, slots) && num <= |keys'| && num <= |kids'|
    requires keys'[..num] == keys[..num] && kids'[..num] == kids[..num]
    ensures Sorted(num, keys', kids', slots)
  {
    hide Covered;
    assert forall i :: 0 <= i < num ==> keys'[..num][i] == keys[..num][i];
    assert forall i :: 0 <= i < num ==> kids'[..num][i] == kids[..num][i];
    assert Covered(num, keys', slots) by {
      CoveredCopy(num, keys, slots, keys');
    }
  }

  // ---------- Node48 and Node256 ----------

  /** No byte points to a cell without a child. */
  lemma FreeUnused<T>(keys: seq<Byte>, kids: seq<Option<T>>, slots: map<Byte, T>, pos: nat)
    requires Points(keys, kids, slots) && pos < 48 && kids[pos] == None
    ensures forall b: Byte :: keys[b] != pos + 1
  {
    forall b: Byte
      ensures keys[b] != pos + 1
    {
      assert keys[b] != 0 ==> b in slots && kids[keys[b] - 1].Some?;
    }
  }

  lemma NoOrphanInsert<T>(keys: seq<Byte>, kids: seq<Option<T>>, pos: nat, c: Byte, x: T)
    requires NoOrphan(keys, kids) && pos < |kids| && pos < 255 && keys[c] == 0
    ensures NoOrphan(keys[c := pos + 1], kids[pos := Some(x)])
  {
    var keys', kids' := keys[c := pos + 1], kids[pos := Some(x)];
    forall p | 0 <= p < |kids'| && kids'[p].Some?
      ensures exists b: Byte :: keys'[b] == p + 1
    {
      if p == pos {
        assert keys'[c] == p + 1;
      } else {
        assert kids[p].Some?;
        var b: Byte :| keys[b] == p + 1;
        assert keys'[b] == p + 1;
      }
    }
  }

  lemma IndexedInsert<T>(keys: seq<Byte>, kids: seq<Option<T>>, slots: map<Byte, T>, pos: nat, c: Byte, x: T)
    requires Indexed(keys, kids, slots) && c !in slots
    requires pos < 48 && kids[pos] == None
    ensures Indexed(keys[c := pos + 1], kids[pos := Some(x)], slots[c := x])
  {
    hide NoOrphan;
    FreeUnused(keys, kids, slots, pos);
    NoOrphanInsert(keys, kids, pos, c, x);
    assert OneToOne(keys[c := pos + 1]);
    assert Points(keys[c := pos + 1], kids[pos := Some(x)], slots[c := x]) by {
      hide OneToOne;
    }
    hide OneToOne, Points;
  }

  lemma NoOrphanRemove<T>(keys: seq<Byte>, kids: seq<Option<T>>, c: Byte)
    requires NoOrphan(keys, kids) && 1 <= keys[c] <= |kids|
    ensures NoOrphan(keys[c := 0], kids[keys[c] - 1 := None])
  {
    var keys', kids' := keys[c := 0], kids[keys[c] - 1 := None];
    forall p | 0 <= p < |kids'| && kids'[p].Some?
      ensures exists b: Byte :: keys'[b] == p + 1
    {
      assert kids[p].Some?;
      var b: Byte :| keys[b] == p + 1;
      assert keys'[b] == p + 1;
    }
  }

  lemma OneToOneRemove(keys: seq<Byte>, c: Byte)
    requires OneToOne(keys) && keys[c] != 0
    ensures OneToOne(keys[c := 0]) && forall b: Byte :: b != c ==> keys[b] != keys[c]
  {
  }

  lemma IndexedRemove<T>(keys: seq<Byte>, kids: seq<Option<T>>, slots: map<Byte, T>, c: Byte)
    requires Indexed(keys, kids, slots) && c in slots
    ensures Indexed(keys[c := 0], kids[keys[c] - 1 := None], slots - {c})
  {
    hide OneToOne, NoOrphan;
    OneToOneRemove(keys, c);
    NoOrphanRemove(keys, kids, c);
  }

  /** A Node48 with fewer than 48 children has a cell without a child. */
  lemma FreeCell<T>(keys: seq<Byte>, kids: seq<Option<T>>, slots: map<Byte, T>)
    requires Indexed(keys, kids, slots) && |slots| < 48
    ensures exists p :: 0 <= p < 48 && kids[p] == None
  {
    if forall p :: 0 <= p < 48 ==> kids[p].Some? {
      var s := FullCells(keys, kids, 48);
      assert forall b :: b in s ==> b in slots;
      SubsetSize(s, slots.Keys);
    }
  }

  lemma {:induction false} FullCells<T>(keys: seq<Byte>, kids: seq<Option<T>>, n: nat) returns (s: set<Byte>)
    requires NoOrphan(keys, kids) && n <= |kids|
    requires forall p :: 0 <= p < n ==> kids[p].Some?
    ensures |s| == n && forall b :: b in s ==> 0 < keys[b] <= n
  {
    s := {};
    if n > 0 {
      var r := FullCells(keys, kids, n - 1);
      assert kids[n - 1].Some?;
      var b: Byte :| keys[b] == n - 1 + 1;
      s := r + {b};
    }
  }

  lemma DirectInsert<T>(kids: seq<Option<T>>, slots: map<Byte, T>, c: Byte, x: T)
    requires Direct(kids, slots)
    ensures Direct(kids[c := Some(x)], slots[c := x])
  {
  }

  lemma DirectRemove<T>(kids: seq<Option<T>>, slots: map<Byte, T>, c: Byte)
    requires Direct(kids, slots)
    ensures Direct(kids[c := None], slots - {c})
  {
  }

  // ---------- copies from one layout to another ----------

  /** Node16 to Node48: the cells stay where they are and the table points to them. */
  lemma SortedToIndexed<T>(num: nat, keys: seq<Byte>, kids: seq<Option<T>>, slots: map<Byte, T>,
                           table: seq<Byte>, cells: seq<Option<T>>)
    requires Sorted(num, keys, kids, slots) && num <= 48 == |cells| && |table| == 256
    requires forall i :: 0 <= i < num ==> cells[i] == kids[i]
    requires forall p :: num <= p < 48 ==> cells[p] == None
    requires forall i :: 0 <= i < num ==> table[keys[i]] == i + 1
    requires forall b: Byte :: b !in keys[..num] ==> table[b] == 0
    ensures Indexed(table, cells, slots)
  {
    forall b: Byte
      ensures b in slots <==> table[b] != 0
      ensures b in slots ==> table[b] <= 48 && cells[table[b] - 1] == Some(slots[b]) && keys[table[b] - 1] == b
    {
      if b in keys[..num] {
        var i :| 0 <= i < num && keys[..num][i] == b;
        assert keys[i] == b && table[keys[i]] == i + 1;
      }
    }
    forall p | 0 <= p < 48 && cells[p].Some?
      ensures exists b: Byte :: table[b] == p + 1
    {
      assert table[keys[p]] == p + 1;
    }
  }

  /** The children of the bytes below `i`: what a copying loop over all bytes has moved. */
  ghost function Under<T>(slots: map<Byte, T>, i: nat): map<Byte, T> {
    map b | b in slots && b < i :: slots[b]
  }

  lemma UnderNext<T>(slots: map<Byte, T>, i: Byte)
    ensures i in slots ==> i !in Under(slots, i) && Under(slots, i + 1) == Under(slots, i)[i := slots[i]]
    ensures i in slots ==> |Under(slots, i)| < |slots|
    ensures i !in slots ==> Under(slots, i + 1) == Under(slots, i)
  {
    if i in slots {
      SubsetSize(Under(slots, i).Keys, slots.Keys - {i});
    }
  }

  lemma UnderAll<T>(slots: map<Byte, T>)
    ensures Under(slots, 0) == map[] && Under(slots, 256) == slots
  {
  }

  lemma NoneSorted<T>(keys: seq<Byte>, kids: seq<Option<T>>)
    ensures Sorted(0, keys, kids, map[])
  {
  }

  /** Putting a child of a higher byte after the sorted cells. */
  lemma SortedAppend<T>(num: nat, keys: seq<Byte>, kids: seq<Option<T>>, slots: map<Byte, T>, c: Byte, x: T)
    requires Sorted(num, keys, kids, slots) && num < |keys| && num < |kids|
    requires forall b :: b in slots ==> b < c
    ensures Sorted(num + 1, keys[num := c], kids[num := Some(x)], slots[c := x])
  {
    SortedInsert(num, keys, kids, slots, num, c, x, keys[num := c], kids[num := Some(x)]);
  }

  lemma NoneIndexed<T>(keys: seq<Byte>, kids: seq<Option<T>>)
    requires |keys| == 256 && |kids| == 48
    requires forall i :: 0 <= i < 256 ==> keys[i] == 0
    requires forall i :: 0 <= i < 48 ==> kids[i] == None
    ensures Indexed(keys, kids, map[])
  {
  }

  /** A walk over sorted cells stands at cell `i`, and the bytes below `lo` lie behind it. */
  ghost predicate Cursor<T>(num: nat, keys: seq<Byte>, slots: map<Byte, T>, i: nat, lo: nat) {
    && i <= num <= |keys|
    && (i < num ==> lo <= keys[i])
    && forall d :: d in slots && lo <= d ==> i < num && keys[i] <= d
  }

  lemma SortedCells<T>(kind: Kind, num: nat, keys: seq<Byte>, kids: seq<Option<T>>, slots: map<Byte, T>)
    requires Layout(kind, num, keys, kids, slots) && (kind == Node4 || kind == Node16)
    ensures Sorted(num, keys, kids, slots) && num <= |keys| && num <= |kids|
  {
  }

  lemma CursorStart<T>(num: nat, keys: seq<Byte>, kids: seq<Option<T>>, slots: map<Byte, T>)
    requires Sorted(num, keys, kids, slots)
    ensures Cursor(num, keys, slots, 0, 0)
  {
    forall d | d in slots
      ensures 0 < num && keys[0] <= d
    {
      assert d in keys[..num];
    }
  }

  lemma CursorEnd<T>(num: nat, keys: seq<Byte>, slots: map<Byte, T>, i: nat, lo: nat)
    requires Cursor(num, keys, slots, i, lo) && num <= i
    ensures forall d :: d in slots ==> d < lo
  {
  }

  lemma CellInUse<T>(num: nat, keys: seq<Byte>, kids: seq<Option<T>>, slots: map<Byte, T>, i: nat)
    requires Sorted(num, keys, kids, slots) && i < num
    ensures num <= |keys| && num <= |kids| && keys[i] in slots && kids[i] == Some(slots[keys[i]])
  {
  }

  lemma CursorNext<T>(num: nat, keys: seq<Byte>, kids: seq<Option<T>>, slots: map<Byte, T>, i: nat, lo: nat)
    requires Sorted(num, keys, kids, slots) && Cursor(num, keys, slots, i, lo) && i < num
    ensures lo <= keys[i] && forall d :: d in slots && lo <= d ==> keys[i] <= d
    ensures Cursor(num, keys, slots, i + 1, keys[i] as int + 1)
  {
    hide CellsHold;
    forall d | d in slots && keys[i] < d
      ensures i + 1 < num && keys[i + 1] <= d
    {
      var j :| 0 <= j < num && keys[..num][j] == d;
    }
  }
}
