/** The parts that a table keeps its contents in, and what each operation on them makes of the contents. */
module TableBooks {
  import opened Bytes
  import opened Options
  import opened Trie
  import opened VersionChain
  import opened LeafLock
  import opened LeafCopy
  import opened TrieTouch
  import opened TrieMap
  import opened TableSpec

  /** A copy of a leaf, as the write sets keep it. */
  datatype Written = Written(cell: CellId, keyLen: nat, field: Field)

  type WriteSets = Sets<Written>

  /** The leaf that carries `cell`; every cell in use has one. */
  function LeafOf(leaves: seq<LeafBytes>, cell: CellId): LeafBytes {
    if cell < |leaves| then leaves[cell] else LeafBytes([], seq(FIELD, _ => 0))
  }

  function WrittenOf(leaves: seq<LeafBytes>, cell: CellId): Written {
    var leaf := LeafOf(leaves, cell);
    Written(cell, |leaf.key|, FieldOf(leaf.key, leaf.rest))
  }

  /** The leaves once the one of the cell `split`, if any, has been split. */
  function LeavesAfter(leaves: seq<LeafBytes>, split: Option<CellId>): seq<LeafBytes> {
    if split.Some? && split.value < |leaves| then leaves[split.value := Split(leaves[split.value])] else leaves
  }

  /** Different keys have different cells, all of which exist. */
  ghost predicate Cells<V>(index: map<Key, CellId>, chains: seq<Chain<V>>) {
    && (forall k :: k in index ==> index[k] < |chains| && chains[index[k]] != [])
    && (forall j, k :: j in index && k in index && j != k ==> index[j] != index[k])
  }

  ghost predicate LeavesOk(index: map<Key, CellId>, leaves: seq<LeafBytes>) {
    forall k :: k in index ==> index[k] < |leaves| && leaves[index[k]].key == k
  }

  /** The write sets hold copies of leaves of stored keys only. */
  ghost predicate Tracked(index: map<Key, CellId>, leaves: seq<LeafBytes>, ws: WriteSets) {
    forall w :: InSets(ws, w) ==> IsTracked(index, leaves, w)
  }

  /** The copy was taken when its leaf had the same key, and perhaps other bytes behind it. */
  ghost predicate IsTracked(index: map<Key, CellId>, leaves: seq<LeafBytes>, w: Written) {
    && w.cell < |leaves|
    && var key := leaves[w.cell].key;
    key in index && index[key] == w.cell && w.keyLen == |key| && Starts(w.field, key)
  }

  ghost predicate BooksOk<V>(index: map<Key, CellId>, leaves: seq<LeafBytes>, chains: seq<Chain<V>>, ws: WriteSets) {
    Cells(index, chains) && |leaves| == |chains| && LeavesOk(index, leaves) && Tracked(index, leaves, ws)
  }

  ghost function Contents<V>(index: map<Key, CellId>, chains: seq<Chain<V>>): map<Key, Chain<V>>
    requires Cells(index, chains)
  {
    map k | k in index :: chains[index[k]]
  }

  ghost function RestsOf(index: map<Key, CellId>, leaves: seq<LeafBytes>): map<Key, Field>
    requires LeavesOk(index, leaves)
  {
    map k | k in index :: leaves[index[k]].rest
  }

  /** What a copy in the write sets is a copy of. */
  function Named(leaves: seq<LeafBytes>, w: Written): Copy {
    Copy(LeafOf(leaves, w.cell).key, w.field)
  }

  function NamedAll(leaves: seq<LeafBytes>, ws: seq<Written>): (r: seq<Copy>)
    ensures |r| == |ws| && forall j :: 0 <= j < |r| ==> r[j] == Named(leaves, ws[j])
  {
    if ws == [] then [] else [Named(leaves, ws[0])] + NamedAll(leaves, ws[1..])
  }

  function SetsOf(leaves: seq<LeafBytes>, ws: WriteSets): (r: Sets<Copy>)
    ensures r.Keys == ws.Keys
  {
    map txn | txn in ws :: NamedAll(leaves, ws[txn])
  }

  ghost function ShelfOf<V>(index: map<Key, CellId>, leaves: seq<LeafBytes>, chains: seq<Chain<V>>, ws: WriteSets)
    : (s: Shelf<V>)
    requires BooksOk(index, leaves, chains, ws)
    ensures Shaped(s) && s.chains.Keys == index.Keys
  {
    NamedOk(index, leaves, ws);
    Shelf(Contents(index, chains), RestsOf(index, leaves), SetsOf(leaves, ws))
  }

  lemma NamedIn(leaves: seq<LeafBytes>, ws: WriteSets, c: Copy)
    ensures InSets(SetsOf(leaves, ws), c) <==> exists w :: InSets(ws, w) && Named(leaves, w) == c
  {
    hide Named;
    if InSets(SetsOf(leaves, ws), c) {
      var txn :| txn in ws && c in NamedAll(leaves, ws[txn]);
      var j :| 0 <= j < |ws[txn]| && NamedAll(leaves, ws[txn])[j] == c;
      assert ws[txn][j] in ws[txn];
    }
    if w :| InSets(ws, w) && Named(leaves, w) == c {
      var txn :| txn in ws && w in ws[txn];
      var j :| 0 <= j < |ws[txn]| && ws[txn][j] == w;
      assert NamedAll(leaves, ws[txn])[j] == c;
    }
  }

  lemma NamedOk(index: map<Key, CellId>, leaves: seq<LeafBytes>, ws: WriteSets)
    requires Tracked(index, leaves, ws)
    ensures CopiesOk(index.Keys, SetsOf(leaves, ws))
  {
    hide InSets, Starts, SetsOf;
    forall c | InSets(SetsOf(leaves, ws), c)
      ensures c.key in index.Keys && Starts(c.field, c.key)
    {
      NamedIn(leaves, ws, c);
      var w :| InSets(ws, w) && Named(leaves, w) == c;
    }
  }

  /** Only the keys of the leaves matter to the names. */
  lemma {:induction false} NamedSame(leaves: seq<LeafBytes>, more: seq<LeafBytes>, ws: seq<Written>)
    requires forall w :: w in ws ==> LeafOf(leaves, w.cell).key == LeafOf(more, w.cell).key
    ensures NamedAll(leaves, ws) == NamedAll(more, ws)
  {
    hide LeafOf;
    if ws != [] {
      NamedSame(leaves, more, ws[1..]);
    }
  }

  lemma SetsSame(leaves: seq<LeafBytes>, more: seq<LeafBytes>, ws: WriteSets)
    requires forall w :: InSets(ws, w) ==> LeafOf(leaves, w.cell).key == LeafOf(more, w.cell).key
    ensures SetsOf(leaves, ws) == SetsOf(more, ws)
  {
    hide LeafOf, NamedAll;
    forall txn | txn in ws
      ensures NamedAll(leaves, ws[txn]) == NamedAll(more, ws[txn])
    {
      assert forall w :: w in ws[txn] ==> InSets(ws, w);
      NamedSame(leaves, more, ws[txn]);
    }
  }

  // ---------- a new key ----------

  /** `split` is the cell of the stored key that gives way to a new one, if any, and that key is short enough. */
  ghost predicate SplitCell(index: map<Key, CellId>, key: Key, split: Option<CellId>) {
    && ShortSplit(index.Keys, key)
    && (forall k :: GivesWay(index.Keys, k, key) ==> split == Some(index[k]))
    && (split.Some? ==> exists k :: GivesWay(index.Keys, k, key) && index[k] == split.value)
  }

  lemma PutChain<V>(index: map<Key, CellId>, chains: seq<Chain<V>>, key: Key, txn: TxnId, value: V)
    requires Cells(index, chains) && key !in index
    ensures var i, c := index[key := |chains|], chains + [Fresh(txn, value)];
      Cells(i, c) && Contents(i, c) == Contents(index, chains)[key := Fresh(txn, value)]
  {
  }

  /** Different keys have different leaves, so no other key has the cell of the one that gives way. */
  lemma WayCell(index: map<Key, CellId>, leaves: seq<LeafBytes>, key: Key, split: Option<CellId>, k: Key)
    requires LeavesOk(index, leaves) && SplitCell(index, key, split) && k in index
    ensures split == Some(index[k]) <==> GivesWay(index.Keys, k, key)
    ensures GivesWay(index.Keys, k, key) ==> |k| <= LOCK_AT
  {
    hide Common;
    if split == Some(index[k]) {
      var j :| GivesWay(index.Keys, j, key) && index[j] == split.value;
      assert leaves[index[j]].key == j && leaves[index[k]].key == k;
    }
  }

  /** The leaf of a stored key after a split: the bytes behind the key may have changed. */
  lemma LeafSplits(index: map<Key, CellId>, leaves: seq<LeafBytes>, key: Key, split: Option<CellId>, k: Key)
    requires LeavesOk(index, leaves) && SplitCell(index, key, split) && k in index
    ensures var l := LeavesAfter(leaves, split);
      && |l| == |leaves| && l[index[k]].key == k
      && l[index[k]].rest
         == if GivesWay(index.Keys, k, key) then RestAfter(k, leaves[index[k]].rest) else leaves[index[k]].rest
  {
    hide Split, RestAfter, GivesWay, SplitCell;
    WayCell(index, leaves, key, split, k);
    SplitKeeps(k, leaves[index[k]].rest);
  }

  /** All leaves of stored keys after a split. */
  lemma SplitLeaves(index: map<Key, CellId>, leaves: seq<LeafBytes>, key: Key, split: Option<CellId>)
    requires LeavesOk(index, leaves) && SplitCell(index, key, split)
    ensures var l := LeavesAfter(leaves, split);
      && |l| == |leaves| && LeavesOk(index, l)
      && RestsOf(index, l) == RestsAfter(RestsOf(index, leaves), key)
  {
    hide SplitCell, GivesWay, RestAfter, LeavesAfter;
    SameSize(leaves, split);
    assert RestsOf(index, leaves).Keys == index.Keys;
    forall k | k in index
      ensures LeavesAfter(leaves, split)[index[k]].key == k
      ensures LeavesAfter(leaves, split)[index[k]].rest
        == if GivesWay(index.Keys, k, key) then RestAfter(k, leaves[index[k]].rest) else leaves[index[k]].rest
    {
      LeafSplits(index, leaves, key, split, k);
    }
  }

  lemma AddedLeaf(index: map<Key, CellId>, leaves: seq<LeafBytes>, key: Key, rest: Field)
    requires LeavesOk(index, leaves) && key !in index
    ensures var i, l := index[key := |leaves|], leaves + [LeafBytes(key, rest)];
      LeavesOk(i, l) && RestsOf(i, l) == RestsOf(index, leaves)[key := rest]
  {
  }

  lemma SameSize(leaves: seq<LeafBytes>, split: Option<CellId>)
    ensures |LeavesAfter(leaves, split)| == |leaves|
  {
  }

  /** A new leaf is in no write set, and copies of a leaf that was split stay as they are. */
  lemma PutTracked(index: map<Key, CellId>, leaves: seq<LeafBytes>, ws: WriteSets, key: Key, split: Option<CellId>,
                   rest: Field)
    requires LeavesOk(index, leaves) && Tracked(index, leaves, ws) && SplitCell(index, key, split) && key !in index
    ensures var i, l := index[key := |leaves|], LeavesAfter(leaves, split) + [LeafBytes(key, rest)];
      Tracked(i, l, ws) && SetsOf(l, ws) == SetsOf(leaves, ws)
  {
    hide InSets, FieldOf, SplitCell, GivesWay, LeavesAfter, RestAfter, Starts, SetsOf;
    var i, l := index[key := |leaves|], LeavesAfter(leaves, split) + [LeafBytes(key, rest)];
    SameSize(leaves, split);
    forall w | InSets(ws, w)
      ensures IsTracked(i, l, w) && LeafOf(l, w.cell).key == LeafOf(leaves, w.cell).key
    {
      assert IsTracked(index, leaves, w);
      LeafSplits(index, leaves, key, split, leaves[w.cell].key);
    }
    SetsSame(leaves, l, ws);
  }

  /** A new key, with its leaf and the first snapshot of its cell, and what it does to the leaf that gives way. */
  lemma PutKeeps<V>(index: map<Key, CellId>, leaves: seq<LeafBytes>, chains: seq<Chain<V>>, ws: WriteSets,
                    key: Key, split: Option<CellId>, rest: Field, txn: TxnId, value: V)
    requires BooksOk(index, leaves, chains, ws) && SplitCell(index, key, split) && key !in index
    ensures var i, l := index[key := |chains|], LeavesAfter(leaves, split) + [LeafBytes(key, rest)];
      var c := chains + [Fresh(txn, value)];
      && BooksOk(i, l, c, ws)
      && ShelfOf(i, l, c, ws) == AddedShelf(ShelfOf(index, leaves, chains, ws), key, txn, value, rest)
  {
    assert |leaves| == |chains|;
    hide Cells, LeavesOk, Tracked, Contents, RestsOf, SetsOf, Fresh, SplitCell, RestsAfter, LeavesAfter;
    SameSize(leaves, split);
    PutChain(index, chains, key, txn, value);
    SplitLeaves(index, leaves, key, split);
    AddedLeaf(index, LeavesAfter(leaves, split), key, rest);
    PutTracked(index, leaves, ws, key, split, rest);
  }

  // ---------- a call on the cell of one key ----------

  lemma {:induction false} NamedMore(leaves: seq<LeafBytes>, ws: seq<Written>, w: Written)
    ensures NamedAll(leaves, ws + [w]) == NamedAll(leaves, ws) + [Named(leaves, w)]
  {
    hide Named;
    if ws != [] {
      assert (ws + [w])[1..] == ws[1..] + [w];
      NamedMore(leaves, ws[1..], w);
    }
  }

  /** Pushing a copy of the leaf of a stored key. */
  lemma PushKeeps(index: map<Key, CellId>, leaves: seq<LeafBytes>, ws: WriteSets, key: Key, txn: TxnId)
    requires LeavesOk(index, leaves) && Tracked(index, leaves, ws) && key in index
    ensures var r := Push(ws, txn, WrittenOf(leaves, index[key]));
      && Tracked(index, leaves, r)
      && SetsOf(leaves, r) == Push(SetsOf(leaves, ws), txn, CopyOf(RestsOf(index, leaves), key))
  {
    hide InSets, FieldOf, Starts, NamedAll;
    var w := WrittenOf(leaves, index[key]);
    FieldStarts(key, leaves[index[key]].rest);
    forall x | InSets(Push(ws, txn, w), x)
      ensures IsTracked(index, leaves, x)
    {
      PushedIn(ws, txn, w, x);
    }
    assert Named(leaves, w) == CopyOf(RestsOf(index, leaves), key);
    NamedMore(leaves, if txn in ws then ws[txn] else [], w);
    assert NamedAll(leaves, []) == [];
  }

  lemma ChangeChain<V>(index: map<Key, CellId>, chains: seq<Chain<V>>, key: Key, c: Chain<V>)
    requires Cells(index, chains) && key in index && c != []
    ensures index[key] < |chains|
    ensures var d := chains[index[key] := c];
      Cells(index, d) && Contents(index, d) == Contents(index, chains)[key := c]
  {
  }

  /** A call on the cell of one key changes its chain only, and pushes a copy of its leaf. */
  lemma ChangeKeeps<V>(index: map<Key, CellId>, leaves: seq<LeafBytes>, chains: seq<Chain<V>>, ws: WriteSets,
                       key: Key, txn: TxnId, c: Chain<V>)
    requires BooksOk(index, leaves, chains, ws) && key in index && c != []
    ensures index[key] < |chains|
    ensures var d, r := chains[index[key] := c], Push(ws, txn, WrittenOf(leaves, index[key]));
      && BooksOk(index, leaves, d, r)
      && ShelfOf(index, leaves, d, r) == Changed(ShelfOf(index, leaves, chains, ws), key, txn, c)
  {
    hide Cells, LeavesOk, Tracked, Contents, RestsOf, SetsOf, Push, WrittenOf, CopyOf;
    PushKeeps(index, leaves, ws, key, txn);
    ChangeChain(index, chains, key, c);
  }

  // ---------- the deletion list ----------

  /** The keys to delete, as the entries of the deletion list spell them. */
  ghost function Strings(list: seq<Field>, tail: seq<Byte>): seq<Key> {
    seq(|list|, j requires 0 <= j < |list| => ReadFrom(list[j..], tail))
  }

  ghost function Remaining(index: map<Key, CellId>, keys: seq<Key>): map<Key, CellId> {
    map k | k in index && k !in keys :: index[k]
  }

  lemma RemainingStep(index: map<Key, CellId>, keys: seq<Key>, j: nat)
    requires j < |keys|
    ensures Remaining(index, keys[..j + 1]) == Remaining(index, keys[..j]) - {keys[j]}
  {
    assert keys[..j + 1] == keys[..j] + [keys[j]];
  }

  /** The strings in the deletion list are the keys that collection drops. */
  lemma ListedGone<V>(s: Shelf<V>, list: seq<Field>, tail: seq<Byte>)
    requires list == CopiedAll(Fields(Listing(s)))
    ensures forall k :: k in Strings(list, tail) <==> k in Gone(s, tail)
  {
    hide CString, Listing, ReadFrom, Copied, CopiedAll, Fields;
    var cs := Listing(s);
    forall j | 0 <= j < |cs|
      ensures Strings(list, tail)[j] == Reading(cs, j, tail)
    {
      assert list[j..] == CopiedAll(Fields(cs[j..]));
      ListReads(Fields(cs[j..]), tail);
    }
    forall k | k in Gone(s, tail)
      ensures k in Strings(list, tail)
    {
      var j :| 0 <= j < |cs| && Reading(cs, j, tail) == k;
      assert Strings(list, tail)[j] == k;
    }
  }

  lemma DropChains<V>(index: map<Key, CellId>, chains: seq<Chain<V>>, keys: seq<Key>, gone: set<Key>)
    requires Cells(index, chains) && forall k :: k in keys <==> k in gone
    ensures var i := Remaining(index, keys); Cells(i, chains) && Contents(i, chains) == Contents(index, chains) - gone
  {
  }

  lemma DropLeaves(index: map<Key, CellId>, leaves: seq<LeafBytes>, keys: seq<Key>, gone: set<Key>)
    requires LeavesOk(index, leaves) && forall k :: k in keys <==> k in gone
    ensures var i := Remaining(index, keys);
      && LeavesOk(i, leaves) && RestsOf(i, leaves) == RestsOf(index, leaves) - gone
      && Tracked(i, leaves, map[]) && SetsOf(leaves, map[]) == map[]
  {
    assert forall w: Written :: !InSets(map[], w);
  }

  /** What is left when they are gone is exactly what collection is to leave. */
  lemma Sweep<V>(index: map<Key, CellId>, leaves: seq<LeafBytes>, chains: seq<Chain<V>>, ws: WriteSets,
                 list: seq<Field>, tail: seq<Byte>)
    requires BooksOk(index, leaves, chains, ws)
    requires list == CopiedAll(Fields(Listing(ShelfOf(index, leaves, chains, ws))))
    ensures var i := Remaining(index, Strings(list, tail));
      && BooksOk(i, leaves, chains, map[])
      && ShelfOf(i, leaves, chains, map[]) == Collected(ShelfOf(index, leaves, chains, ws), tail)
  {
    hide Cells, LeavesOk, Tracked, Contents, RestsOf, SetsOf, Remaining, Gone, Strings, Listing, Fields;
    var s := ShelfOf(index, leaves, chains, ws);
    ListedGone(s, list, tail);
    DropChains(index, chains, Strings(list, tail), Gone(s, tail));
    DropLeaves(index, leaves, Strings(list, tail), Gone(s, tail));
  }
}
