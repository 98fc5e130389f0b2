/** A table: the tree, the version cells of its leaves, and the write sets of its transactions, in sequential use. */
module ArtTable {
  import opened Bytes
  import opened Options
  import opened Trie
  import opened TrieDelete
  import opened TrieSearch
  import opened TrieMap
  import opened TrieOrder
  import opened VersionChain
  import opened CellStore
  import opened LeafCopy
  import opened TrieTouch
  import opened TableSpec
  import opened TableBooks
  import opened ArtTree
  import opened ArtRoot

  /** The tree stores the index. */
  ghost predicate TreeOk(root: Option<Ptr>, index: map<Key, CellId>)
    reads RootReach(root)
  {
    RootOk(root) && Represents(RootView(root), index) && RootReach(root) == RootFoot(root)
  }

  /** The cells and leaves of all stored keys, and the write sets. */
  ghost predicate CellsOk<V>(store: Store<V>, index: map<Key, CellId>, leaves: seq<LeafBytes>, ws: WriteSets)
    reads store, store.repr
  {
    store.Valid() && BooksOk(index, leaves, store.Chains(), ws)
  }

  ghost function Shelved<V>(store: Store<V>, index: map<Key, CellId>, leaves: seq<LeafBytes>, ws: WriteSets)
    : (s: Shelf<V>)
    requires CellsOk(store, index, leaves, ws)
    reads store, store.repr
    ensures Shaped(s)
  {
    ShelfOf(index, leaves, store.Chains(), ws)
  }

  class Table<!V> {
    var root: Option<Ptr>
    var size: nat
    const store: Store<V>
    // The key bytes of the leaf that carries each cell.
    var leaves: seq<LeafBytes>
    var writeSet: WriteSets
    var deletionList: seq<Field>
    // The cell of every stored key, and how many logical deletes found no key.
    ghost var index: map<Key, CellId>
    ghost var misses: nat

    ghost predicate Valid()
      reads this, store, store.repr, RootReach(root)
    {
      && TreeOk(root, index) && CellsOk(store, index, leaves, writeSet)
      && this !in store.repr && this !in RootReach(root) && RootReach(root) !! store.repr
      && size == |index| + misses
      && deletionList == []
    }

    /** Chain and leaf of every stored key, and whether a copy of its leaf is in the write sets. */
    ghost function Shelf(): (s: Shelf<V>)
      requires Valid()
      reads this, store, store.repr, RootReach(root)
      ensures Shaped(s)
    {
      Shelved(store, index, leaves, writeSet)
    }

    /** The chain of every stored key. */
    ghost function Stored(): (m: map<Key, Chain<V>>)
      requires Valid()
      reads this, store, store.repr, RootReach(root)
      ensures forall k :: k in m ==> m[k] != []
    {
      Shelf().chains
    }

    constructor ()
      ensures Valid() && Shelf() == TableSpec.Shelf(map[], map[], map[]) && misses == 0
      ensures fresh(store.repr) && RootFoot(root) == {}
    {
      root, size, leaves, writeSet, deletionList := None, 0, [], map[], [];
      index, misses := map[], 0;
      store := new Store();
      new;
      EmptyBooks(store.Chains());
    }

    /**
     * The tree part of an insertion: a new leaf for `cell`, perhaps with the split of another, or the cell of the
     * leaf that holds the key already.
     */
    method InsertLeaf(key: Key, cell: CellId) returns (found: Option<CellId>, split: Option<CellId>)
      requires TreeOk(root, index) && Fits(index, key) && ShortSplit(index.Keys, key) && this !in RootReach(root)
      modifies `root, `index, RootFoot(root)
      ensures TreeOk(root, index) && fresh(RootFoot(root) - old(RootFoot(root))) && RootReach(root) <= RootFoot(root)
      ensures if key in old(index) then index == old(index) && found == Some(index[key])
        else found == None && index == old(index)[key := cell]
      ensures SplitCell(old(index), key, split)
    {
      hide TreeOk, Fits, ShortSplit, SplitCell;
      root, found, split := PlantLeaf(root, index, key, cell);
      if found.None? {
        index := index[key := cell];
      }
    }

    /** `overwriteMV` on the cell of a stored key, whose leaf the write set then remembers. */
    method OverwriteCell(key: Key, cell: CellId, value: V, txn: TxnId, active: Status)
      requires CellsOk(store, index, leaves, writeSet) && this !in store.repr && key in index && index[key] == cell
      modifies `writeSet, store.repr
      ensures CellsOk(store, index, leaves, writeSet) && fresh(store.repr - old(store.repr))
      ensures writeSet == Push(old(writeSet), txn, WrittenOf(leaves, cell))
      ensures Shelved(store, index, leaves, writeSet)
        == OverwrittenShelf(old(Shelved(store, index, leaves, writeSet)), key, txn, value, active)
    {
      hide *;
      CellParts(store, index, leaves, writeSet);
      ghost var chains, ws := store.Chains(), writeSet;
      ChainAt(index, leaves, chains, ws, key);
      ghost var c := Overwritten(chains[cell], txn, value, active);
      OverwrittenIs(chains, cell, txn, value, active);
      OverwrittenParts(ShelfOf(index, leaves, chains, ws), key, txn, value, active);
      store.Overwrite(cell, txn, value, active);
      writeSet := Push(writeSet, txn, WrittenOf(leaves, cell));
      CellChanged(store, index, leaves, chains, ws, key, txn, c);
    }

    /** `update` on the cell of a stored key. */
    method UpdateCell(key: Key, cell: CellId, updater: V -> V, txn: TxnId, active: nat -> Status, ghost calm: nat)
      requires CellsOk(store, index, leaves, writeSet) && this !in store.repr && key in index && index[key] == cell
      requires !Conflict(Shelved(store, index, leaves, writeSet).chains[key], txn, active(calm))
      modifies `writeSet, store.repr
      ensures CellsOk(store, index, leaves, writeSet) && fresh(store.repr - old(store.repr))
      ensures writeSet == Push(old(writeSet), txn, WrittenOf(leaves, cell))
      ensures Shelved(store, index, leaves, writeSet)
        == CalledShelf(old(Shelved(store, index, leaves, writeSet)), key, VersionChain.Update(txn, updater))
    {
      hide *;
      CellParts(store, index, leaves, writeSet);
      ghost var chains, ws := store.Chains(), writeSet;
      ChainAt(index, leaves, chains, ws, key);
      ghost var c := After(chains[cell], VersionChain.Update(txn, updater));
      CalledParts(ShelfOf(index, leaves, chains, ws), key, VersionChain.Update(txn, updater));
      store.Update(cell, txn, updater, active, calm);
      writeSet := Push(writeSet, txn, WrittenOf(leaves, cell));
      CellChanged(store, index, leaves, chains, ws, key, txn, c);
    }

    /** `deleteMV` on the cell of a stored key. */
    method EndCell(key: Key, cell: CellId, txn: TxnId, active: nat -> Status, ghost calm: nat)
      requires CellsOk(store, index, leaves, writeSet) && this !in store.repr && key in index && index[key] == cell
      requires !Conflict(Shelved(store, index, leaves, writeSet).chains[key], txn, active(calm))
      modifies `writeSet, store.repr
      ensures CellsOk(store, index, leaves, writeSet) && fresh(store.repr - old(store.repr))
      ensures writeSet == Push(old(writeSet), txn, WrittenOf(leaves, cell))
      ensures Shelved(store, index, leaves, writeSet)
        == CalledShelf(old(Shelved(store, index, leaves, writeSet)), key, VersionChain.Delete(txn))
    {
      hide *;
      CellParts(store, index, leaves, writeSet);
      ghost var chains, ws := store.Chains(), writeSet;
      ChainAt(index, leaves, chains, ws, key);
      ghost var c := After(chains[cell], VersionChain.Delete(txn));
      CalledParts(ShelfOf(index, leaves, chains, ws), key, VersionChain.Delete(txn));
      store.Delete(cell, txn, active, calm);
      writeSet := Push(writeSet, txn, WrittenOf(leaves, cell));
      CellChanged(store, index, leaves, chains, ws, key, txn, c);
    }

    /**
     * The first cell of a new key, once its leaf is in the tree; `rest` is what the memory behind the key holds. The
     * leaf that was split for it has been locked and unlocked.
     */
    method AddCell(key: Key, value: V, txn: TxnId, split: Option<CellId>, rest: Field, ghost before: map<Key, CellId>)
      requires CellsOk(store, before, leaves, writeSet) && this !in store.repr && SplitCell(before, key, split)
      requires key !in before && index == before[key := |store.cells|]
      modifies `leaves, store.repr
      ensures CellsOk(store, index, leaves, writeSet) && fresh(store.repr - old(store.repr))
      ensures Shelved(store, index, leaves, writeSet)
        == AddedShelf(old(Shelved(store, before, leaves, writeSet)), key, txn, value, rest)
    {
      hide *;
      CellParts(store, before, leaves, writeSet);
      ghost var chains, was := store.Chains(), leaves;
      var _ := store.Allocate(txn, value);
      leaves := LeavesAfter(leaves, split) + [LeafBytes(key, rest)];
      CellAdded(store, before, was, chains, writeSet, key, split, rest, txn, value);
    }

    /** What `Valid` says, part by part. */
    lemma Parts()
      requires Valid()
      ensures TreeOk(root, index) && CellsOk(store, index, leaves, writeSet)
      ensures this !in store.repr && store.Valid() && store in store.repr && |leaves| == |store.cells|
      ensures this !in RootReach(root) && RootReach(root) !! store.repr
      ensures RootReach(root) <= RootFoot(root) && RootFoot(root) !! store.repr
      ensures size == |index| + misses && deletionList == []
      ensures Shelf() == Shelved(store, index, leaves, writeSet) && Stored() == Shelf().chains
    {
    }

    lemma Whole()
      requires TreeOk(root, index) && CellsOk(store, index, leaves, writeSet)
      requires this !in store.repr && this !in RootReach(root) && RootReach(root) !! store.repr
      requires size == |index| + misses && deletionList == []
      ensures Valid() && store.Valid()
      ensures Shelf() == Shelved(store, index, leaves, writeSet) && Stored() == Shelf().chains
    {
    }

    /** The keys of the table are those of the index. */
    lemma KeyKnown(key: Key)
      requires Valid()
      ensures key in index <==> key in Shelf().chains
      ensures key in index <==> key in Stored()
    {
    }

    lemma KeysKnown()
      requires Valid()
      ensures Stored() == Shelf().chains && Shelf().chains.Keys == index.Keys && |Shelf().chains| == |index|
    {
      var m := Shelf().chains;
      assert m.Keys == index.Keys;
      assert |m| == |m.Keys| && |index| == |index.Keys|;
    }

    /** No stored key is a prefix of another. */
    lemma KeysApart()
      requires Valid()
      ensures Apart(Shelf().chains.Keys)
    {
      hide CellsOk;
      KeysPart(RootView(root), index);
    }

    /** The leaf of a new key is in the tree, and its cell is still missing. */
    ghost predicate Adding(before: map<Key, CellId>, key: Key, split: Option<CellId>)
      reads this, store, store.repr, RootReach(root)
    {
      && TreeOk(root, index) && CellsOk(store, before, leaves, writeSet)
      && key !in before && index == before[key := |store.cells|] && SplitCell(before, key, split)
      && this !in store.repr && this !in RootReach(root) && RootReach(root) !! store.repr
      && size == |before| + misses && deletionList == []
    }

    lemma AddingParts(before: map<Key, CellId>, key: Key, split: Option<CellId>)
      requires Adding(before, key, split)
      ensures TreeOk(root, index) && CellsOk(store, before, leaves, writeSet) && store in store.repr
      ensures key !in before && index == before[key := |store.cells|] && |index| == |before| + 1
      ensures SplitCell(before, key, split)
      ensures this !in store.repr && this !in RootReach(root) && RootReach(root) !! store.repr
      ensures size == |before| + misses && deletionList == []
    {
      assert index.Keys == before.Keys + {key};
      assert |index| == |index.Keys| && |before| == |before.Keys|;
    }

    /** The tree part of `insertOrUpdateByKey`. */
    method PlaceLeaf(key: Key, cell: CellId) returns (found: Option<CellId>, split: Option<CellId>)
      requires Valid() && Fits(index, key) && ShortSplit(index.Keys, key) && cell == |store.cells|
      modifies `root, `index, RootFoot(root)
      ensures found.Some? <==> key in old(index)
      ensures fresh(RootFoot(root) - old(RootFoot(root)))
      ensures found.Some? ==>
        Valid() && Shelf() == old(Shelf()) && index == old(index) && index[key] == found.value
      ensures found.None? ==>
        Adding(old(index), key, split) && CellsOk(store, old(index), leaves, writeSet)
        && Shelved(store, old(index), leaves, writeSet) == old(Shelf())
    {
      hide Valid, Shelf, Stored, Shelved, TreeOk, CellsOk, Fits, ShortSplit, SplitCell, store.Valid, store.Chains;
      Parts();
      ghost var before, s := index, Shelf();
      found, split := InsertLeaf(key, cell);
      assert RootReach(root) !! store.repr && this !in RootReach(root);
      assert CellsOk(store, before, leaves, writeSet) && Shelved(store, before, leaves, writeSet) == s;
      if found.Some? {
        Whole();
      }
    }

    /** The first snapshot of a new key. */
    method AddNew(key: Key, value: V, txn: TxnId, split: Option<CellId>, rest: Field, ghost before: map<Key, CellId>)
      requires Adding(before, key, split) && CellsOk(store, before, leaves, writeSet)
      modifies `size, `leaves, store.repr
      ensures fresh(store.repr - old(store.repr)) && RootFoot(root) == old(RootFoot(root))
      ensures Valid() && Shelf() == AddedShelf(old(Shelved(store, before, leaves, writeSet)), key, txn, value, rest)
    {
      hide Valid, Shelf, Stored, Shelved, AddedShelf, TreeOk, CellsOk, Adding, SplitCell, store.Valid, store.Chains;
      AddingParts(before, key, split);
      AddCell(key, value, txn, split, rest, before);
      assert RootReach(root) == old(RootReach(root)) && RootFoot(root) == old(RootFoot(root));
      assert TreeOk(root, index);
      size := size + 1;
      Whole();
    }

    ghost function LeafEntries(): seq<Entry>
      reads this, RootReach(root)
    {
      if root.None? then [] else Entries(View(root.value))
    }

    /** The size is the number of leaves exactly as long as no logical delete has missed its key. */
    lemma SizeCountsLeaves()
      requires Valid()
      ensures |LeafEntries()| == |Stored()|
      ensures size == |LeafEntries()| <==> misses == 0
    {
      assert Stored().Keys == index.Keys;
      assert |Stored()| == |Stored().Keys| == |index.Keys| == |index|;
      hide WF, Entries, CellsOk;
      if root.Some? {
        LeafCount(View(root.value), 0, index);
      }
    }

    /** `insertOrUpdateByKey` with a value; `rest` is what the memory of a new leaf holds behind its key. */
    method InsertOrUpdateByKey(key: Key, value: V, txn: TxnId, active: Status, rest: Field)
      requires Valid() && Fits(index, key) && ShortSplit(index.Keys, key)
      modifies this, store.repr, RootFoot(root)
      ensures Valid() && misses == old(misses)
      ensures fresh(store.repr - old(store.repr)) && fresh(RootFoot(root) - old(RootFoot(root)))
      ensures Shelf() == UpsertedShelf(old(Shelf()), key, txn, value, active, rest)
      ensures OthersKept(old(Stored()), Stored(), key)
      ensures key !in old(Stored()) ==> Stored()[key] == [Version(txn, INF, value)]
      ensures key in old(Stored()) ==>
        var h := old(Stored())[key];
        Stored()[key] ==
          if h[0].end == INF || h[0].version == txn || !active(h[0].version)
          then [Version(txn, INF, value), Version(h[0].version, txn, h[0].value)] + h[1..]
          else h
      ensures writeSet == if key in old(index)
        then Push(old(writeSet), txn, WrittenOf(leaves, old(index)[key])) else old(writeSet)
    {
      hide Valid, Shelf, Stored, Shelved, OverwrittenShelf, AddedShelf, TreeOk, CellsOk, Fits, ShortSplit, store.Valid,
        store.Chains, Adding, WrittenOf, Push, UpsertedShelf, OthersKept;
      Parts();
      KeyKnown(key);
      UpsertIs(Shelf(), key, txn, value, active, rest);
      UpsertCase(Shelf(), key, txn, value, active, rest);
      ghost var before := index;
      var found, split := PlaceLeaf(key, |store.cells|);
      match found {
        case Some(cell) =>
          Overwrite(key, cell, value, txn, active);
        case None =>
          AddNew(key, value, txn, split, rest, before);
      }
      Parts();
    }

    method Overwrite(key: Key, cell: CellId, value: V, txn: TxnId, active: Status)
      requires Valid() && key in index && index[key] == cell
      modifies `writeSet, store.repr
      ensures fresh(store.repr - old(store.repr)) && RootFoot(root) == old(RootFoot(root))
      ensures Valid() && Shelf() == OverwrittenShelf(old(Shelf()), key, txn, value, active)
      ensures writeSet == Push(old(writeSet), txn, WrittenOf(leaves, cell))
    {
      hide Valid, Shelf, Stored, Shelved, OverwrittenShelf, TreeOk, CellsOk, store.Valid, store.Chains, WrittenOf, Push;
      Parts();
      OverwriteCell(key, cell, value, txn, active);
      Whole();
    }

    /** The lookup of `findValueByKey` and of `UpdateIterative`. */
    method CellFor(key: Key, past: nat -> Byte) returns (cell: Option<CellId>)
      requires Valid() && root.Some? && root.value.NodeAt?
      ensures cell == if key in index then Some(index[key]) else None
      ensures Valid() && Shelf() == old(Shelf()) && Stored() == old(Stored())
    {
      hide Valid, Shelf, Stored, Shelved, TreeOk, CellsOk, Search, store.Valid, store.Chains;
      Parts();
      SearchAnswer(key, past);
      cell := SearchOcc(root.value.node, key, past);
      Whole();
    }

    lemma SearchAnswer(key: Key, past: nat -> Byte)
      requires Valid() && root.Some? && root.value.NodeAt?
      ensures ArtTree.Valid(root.value.node)
      ensures Search(root.value.node.view, key, past, 0) == if key in index then Some(index[key]) else None
    {
      SearchRepresents(RootView(root), index, key, past);
    }

    /** `findValueByKey`: the current value of the key, if it is stored, whether deleted or not. */
    method FindValueByKey(key: Key, past: nat -> Byte) returns (value: Option<V>)
      requires Valid() && root.Some? && root.value.NodeAt?
      ensures value == if key in Stored() then Some(Stored()[key][0].value) else None
    {
      hide Valid, Shelf, Stored, CellsOk;
      Parts();
      KeyKnown(key);
      var cell := CellFor(key, past);
      if cell.None? { return None; }
      var v := Current(key, cell.value);
      value := Some(v);
    }

    /** The value of the newest snapshot of a stored key. */
    method Current(key: Key, cell: CellId) returns (value: V)
      requires Valid() && key in index && index[key] == cell
      ensures key in Stored() && value == Stored()[key][0].value
      ensures Valid() && Shelf() == old(Shelf()) && Stored() == old(Stored())
    {
      hide Valid, Shelf, Stored, Shelved, TreeOk, CellsOk, store.Chains;
      Parts();
      StoredIs(key, cell);
      var v, _ := store.Head(cell);
      value := v;
      Whole();
    }

    lemma StoredIs(key: Key, cell: CellId)
      requires Valid() && key in index && index[key] == cell
      ensures store.Valid() && cell < |store.cells| && |store.Chains()| == |store.cells|
      ensures store.Chains()[cell] != [] && key in Stored() && Stored()[key] == store.Chains()[cell]
    {
      hide TreeOk;
      ChainAt(index, leaves, store.Chains(), writeSet, key);
    }

    /** `insertOrUpdateByKey` with an updater: a missing key is left missing. */
    method UpdateByKey(key: Key, updater: V -> V, txn: TxnId, past: nat -> Byte, active: nat -> Status, ghost calm: nat)
      returns (found: bool)
      requires Valid() && root.Some? && root.value.NodeAt?
      requires key in Stored() ==> !Conflict(Stored()[key], txn, active(calm))
      modifies `writeSet, store.repr
      ensures fresh(store.repr - old(store.repr)) && RootFoot(root) == old(RootFoot(root))
      ensures Valid() && (found <==> key in old(Stored()))
      ensures found ==>
        Shelf() == CalledShelf(old(Shelf()), key, VersionChain.Update(txn, updater))
        && writeSet == Push(old(writeSet), txn, WrittenOf(leaves, index[key]))
      ensures found ==>
        var h := old(Stored())[key];
        && OthersKept(old(Stored()), Stored(), key)
        && Stored()[key] == [Version(txn, INF, updater(h[0].value)), Version(h[0].version, txn, h[0].value)] + h[1..]
      ensures !found ==> Shelf() == old(Shelf()) && writeSet == old(writeSet)
    {
      hide Valid, Shelf, Stored, Shelved, CalledShelf, TreeOk, CellsOk, Conflict, WrittenOf, Push, OthersKept;
      var cell := CellFor(key, past);
      Parts();
      KeyKnown(key);
      found := cell.Some?;
      if found {
        CalledIs(Shelf(), key, txn, updater);
        UpdateLeaf(key, cell.value, updater, txn, active, calm);
        Parts();
      }
    }

    method UpdateLeaf(key: Key, cell: CellId, updater: V -> V, txn: TxnId, active: nat -> Status, ghost calm: nat)
      requires Valid() && key in index && index[key] == cell
      requires !Conflict(Stored()[key], txn, active(calm))
      modifies `writeSet, store.repr
      ensures Valid() && Shelf() == CalledShelf(old(Shelf()), key, VersionChain.Update(txn, updater))
      ensures fresh(store.repr - old(store.repr)) && RootFoot(root) == old(RootFoot(root))
      ensures index == old(index) && leaves == old(leaves)
      ensures writeSet == Push(old(writeSet), txn, WrittenOf(leaves, cell))
    {
      hide Valid, Shelf, Stored, Shelved, CalledShelf, TreeOk, CellsOk, Conflict, store.Valid, store.Chains, WrittenOf,
        Push;
      Parts();
      UpdateCell(key, cell, updater, txn, active, calm);
      Whole();
    }

    method EndLeaf(key: Key, cell: CellId, txn: TxnId, active: nat -> Status, ghost calm: nat)
      requires Valid() && key in index && index[key] == cell
      requires !Conflict(Stored()[key], txn, active(calm))
      modifies `writeSet, store.repr
      ensures fresh(store.repr - old(store.repr)) && RootFoot(root) == old(RootFoot(root))
      ensures Valid() && Shelf() == CalledShelf(old(Shelf()), key, VersionChain.Delete(txn))
      ensures writeSet == Push(old(writeSet), txn, WrittenOf(leaves, cell))
    {
      hide Valid, Shelf, Stored, Shelved, CalledShelf, TreeOk, CellsOk, Conflict, store.Valid, store.Chains, WrittenOf,
        Push;
      Parts();
      EndCell(key, cell, txn, active, calm);
      Whole();
    }

    /** `deleteByKey`: ends the newest snapshot of the key; a key that is not there adds one to the size. */
    method DeleteByKey(key: Key, txn: TxnId, active: nat -> Status, ghost calm: nat) returns (found: bool)
      requires Valid()
      requires key in Stored() ==> !Conflict(Stored()[key], txn, active(calm))
      modifies `writeSet, `size, `misses, store.repr
      ensures fresh(store.repr - old(store.repr)) && RootFoot(root) == old(RootFoot(root))
      ensures Valid() && (found <==> key in old(Stored()))
      ensures found ==>
        Shelf() == CalledShelf(old(Shelf()), key, VersionChain.Delete(txn))
        && writeSet == Push(old(writeSet), txn, WrittenOf(leaves, index[key])) && misses == old(misses)
      ensures found ==>
        var h := old(Stored())[key];
        && OthersKept(old(Stored()), Stored(), key)
        && Stored()[key] == [Version(h[0].version, txn, h[0].value)] + h[1..]
      ensures !found ==> Shelf() == old(Shelf()) && writeSet == old(writeSet) && misses == old(misses) + 1
    {
      hide Valid, Shelf, Stored, Shelved, CalledShelf, TreeOk, CellsOk, Conflict, WrittenOf, Push, OthersKept;
      var cell := Locate(key);
      Parts();
      KeyKnown(key);
      found := cell.Some?;
      if found {
        CalledIs(Shelf(), key, txn, v => v);
        EndLeaf(key, cell.value, txn, active, calm);
        Parts();
      } else {
        CountMiss();
      }
    }

    method CountMiss()
      requires Valid()
      modifies `size, `misses
      ensures Valid() && Shelf() == old(Shelf()) && misses == old(misses) + 1
    {
      hide TreeOk, CellsOk, Shelved, store.Valid, store.Chains;
      size, misses := size + 1, misses + 1;
    }

    method Locate(key: Key) returns (cell: Option<CellId>)
      requires Valid()
      ensures cell == if key in index then Some(index[key]) else None
      ensures Valid() && Shelf() == old(Shelf()) && Stored() == old(Stored())
    {
      hide CellsOk;
      if root.None? { return None; }
      LocateRepresents(View(root.value), index, key);
      cell := LocateBelow(root.value, key, 0);
    }

    // ---------- garbage collection ----------

    /** The first half of `GC`: an entry for every copy of a leaf whose newest snapshot has ended, by ascending id. */
    method ListEnded()
      requires CellsOk(store, index, leaves, writeSet) && this !in store.repr && deletionList == []
      modifies `deletionList
      ensures CellsOk(store, index, leaves, writeSet)
      ensures Shelved(store, index, leaves, writeSet) == old(Shelved(store, index, leaves, writeSet))
      ensures deletionList == CopiedAll(Fields(Listing(Shelved(store, index, leaves, writeSet))))
    {
      hide store.Valid, store.Chains, BooksOk, ShelfOf, Listing, ListedOf, Fields, CopiedAll;
      CellParts(store, index, leaves, writeSet);
      ghost var s := Shelved(store, index, leaves, writeSet);
      ListingIs(s);
      var left := writeSet.Keys;
      assert left == s.sets.Keys by {
        ShelfSets(index, leaves, store.Chains(), writeSet);
      }
      while left != {}
        invariant left <= writeSet.Keys
        invariant deletionList + CopiedAll(Fields(ListedOf(s, left))) == CopiedAll(Fields(Listing(s)))
        decreases |left|
      {
        var txn := NextTxn(left);
        ListEndedBy(txn, left, s);
        left := left - {txn};
      }
      NothingListed(s);
    }

    /** The write set of the next transaction. */
    method ListEndedBy(txn: TxnId, ghost left: set<TxnId>, ghost s: Shelf<V>)
      requires CellsOk(store, index, leaves, writeSet) && this !in store.repr
      requires s == Shelved(store, index, leaves, writeSet)
      requires left <= writeSet.Keys && txn in left && txn == LeastTxn(left)
      modifies `deletionList
      ensures deletionList + CopiedAll(Fields(ListedOf(s, left - {txn})))
        == old(deletionList) + CopiedAll(Fields(ListedOf(s, left)))
    {
      hide store.Valid, store.Chains, BooksOk, ShelfOf, Listing, ListedOf, Fields, CopiedAll, EndedOf, NamedAll,
        HeadsOf;
      CellParts(store, index, leaves, writeSet);
      SetStored(index, leaves, store.Chains(), writeSet, txn);
      NextListed(s, left, txn);
      ListEndedOf(writeSet[txn], s, store.Chains());
    }

    /** One write set. */
    method ListEndedOf(ws: seq<Written>, ghost s: Shelf<V>, ghost chains: seq<Chain<V>>)
      requires store.Valid() && store.Chains() == chains && this !in store.repr
      requires HeadsOf(ws, leaves, s.chains, chains)
      modifies `deletionList
      ensures deletionList == old(deletionList) + CopiedAll(Fields(EndedOf(s.chains, NamedAll(leaves, ws))))
    {
      hide store.Valid, Copied, FieldOf, EndedOf, NamedAll, Fields, CopiedAll;
      var i := 0;
      ghost var before := deletionList;
      assert ws[0..] == ws;
      while i < |ws|
        invariant i <= |ws|
        invariant deletionList + CopiedAll(Fields(EndedOf(s.chains, NamedAll(leaves, ws[i..]))))
          == before + CopiedAll(Fields(EndedOf(s.chains, NamedAll(leaves, ws))))
      {
        var _, end := store.Head(ws[i].cell);
        EntryOf(ws, i, leaves, s.chains, chains);
        if end != INF {
          deletionList := deletionList + [Copied(ws[i].field)];
        }
        i := i + 1;
      }
      NoEntries(leaves, s.chains, ws[i..]);
    }

    method TakeKey(key: Key, past: nat -> Byte) returns (removed: bool)
      requires TreeOk(root, index) && this !in RootReach(root)
      modifies `root, `index, RootFoot(root)
      ensures TreeOk(root, index) && RootReach(root) <= RootFoot(root) && fresh(RootFoot(root) - old(RootFoot(root)))
      ensures this !in RootReach(root) && index == old(index) - {key} && (removed <==> key in old(index))
    {
      hide TreeOk;
      root, removed := TakeLeaf(root, index, key, past);
      index := index - {key};
    }

    /** `art_deleteGC`: takes the leaf of the key out of the tree, and counts it, if it is there. */
    method CollectKey(key: Key, past: nat -> Byte)
      requires TreeOk(root, index) && this !in RootReach(root) && |index| <= size
      modifies `root, `index, `size, RootFoot(root)
      ensures TreeOk(root, index) && RootReach(root) <= RootFoot(root) && fresh(RootFoot(root) - old(RootFoot(root)))
      ensures this !in RootReach(root)
      ensures index == old(index) - {key} && size - |index| == old(size) - |old(index)|
    {
      hide TreeOk;
      OneKeyLess(index, key);
      var removed := TakeKey(key, past);
      if removed {
        size := size - 1;
      }
    }

    /** The second half of `GC`: each entry is read as a C string, past its end if nothing terminates it. */
    method CollectListed(past: nat -> Byte, tail: seq<Byte>)
      requires TreeOk(root, index) && RootReach(root) <= RootFoot(root) && this !in RootReach(root) && |index| <= size
      modifies `root, `index, `size, RootFoot(root)
      ensures TreeOk(root, index) && RootReach(root) <= RootFoot(root) && fresh(RootFoot(root) - old(RootFoot(root)))
      ensures index == Remaining(old(index), Strings(deletionList, tail))
      ensures size - |index| == old(size) - |old(index)|
    {
      hide TreeOk, Remaining, CString, Flat;
      RemainingAll(index);
      ghost var strings := Strings(deletionList, tail);
      var j := 0;
      while j < |deletionList|
        invariant j <= |deletionList|
        invariant TreeOk(root, index) && this !in RootReach(root) && |index| <= size
        invariant fresh(RootFoot(root) - old(RootFoot(root))) && RootReach(root) <= RootFoot(root)
        invariant index == Remaining(old(index), strings[..j]) && size - |index| == old(size) - |old(index)|
      {
        RemainingStep(old(index), strings, j);
        CollectKey(ReadFrom(deletionList[j..], tail), past);
        j := j + 1;
      }
      assert strings[..j] == strings;
    }

    /** The leaves that are due are listed. */
    ghost predicate Marked()
      reads this, store, store.repr, RootReach(root)
    {
      && TreeOk(root, index) && RootReach(root) <= RootFoot(root) && CellsOk(store, index, leaves, writeSet)
      && deletionList == CopiedAll(Fields(Listing(Shelved(store, index, leaves, writeSet))))
      && this !in store.repr && this !in RootReach(root) && RootReach(root) !! store.repr
      && size == |index| + misses
    }

    lemma MarkedWhole()
      requires TreeOk(root, index) && RootReach(root) <= RootFoot(root) && CellsOk(store, index, leaves, writeSet)
      requires deletionList == CopiedAll(Fields(Listing(Shelved(store, index, leaves, writeSet))))
      requires this !in store.repr && this !in RootReach(root) && RootReach(root) !! store.repr
      requires size == |index| + misses
      ensures Marked()
    {
    }

    lemma MarkedParts(tail: seq<Byte>)
      requires Marked()
      ensures TreeOk(root, index) && RootReach(root) <= RootFoot(root)
      ensures this !in store.repr && this !in RootReach(root) && RootReach(root) !! store.repr
      ensures |index| <= size && size - |index| == misses
      ensures CellsOk(store, index, leaves, writeSet) && store in store.repr
      ensures var i := Remaining(index, Strings(deletionList, tail));
        && CellsOk(store, i, leaves, map[])
        && Shelved(store, i, leaves, map[]) == Collected(Shelved(store, index, leaves, writeSet), tail)
    {
      hide TreeOk, Listing, Fields, CopiedAll, BooksOk, ShelfOf, Remaining, Strings, Collected;
      Sweep(index, leaves, store.Chains(), writeSet, deletionList, tail);
    }

    method Mark()
      requires Valid()
      modifies `deletionList
      ensures Marked() && CellsOk(store, index, leaves, writeSet)
      ensures Shelved(store, index, leaves, writeSet) == old(Shelf())
    {
      hide Valid, Shelf, Stored, Shelved, TreeOk, CellsOk, Listing, Fields, CopiedAll, Marked, store.Valid,
        store.Chains;
      Parts();
      ListEnded();
      MarkedWhole();
    }

    /** Deletes what is listed and empties the write sets. */
    method CollectMarked(past: nat -> Byte, tail: seq<Byte>)
      requires Marked() && CellsOk(store, index, leaves, writeSet)
      modifies this, RootFoot(root)
      ensures fresh(RootFoot(root) - old(RootFoot(root)))
      ensures Valid() && Shelf() == Collected(old(Shelved(store, index, leaves, writeSet)), tail)
      ensures misses == old(misses) && writeSet == map[]
    {
      hide Marked, Valid, Shelf, Shelved, TreeOk, CellsOk, Collected, Remaining, Strings, store.Valid, store.Chains;
      MarkedParts(tail);
      ghost var i := Remaining(index, Strings(deletionList, tail));
      CollectListed(past, tail);
      assert CellsOk(store, i, leaves, map[]);
      writeSet, deletionList := map[], [];
      Whole();
    }

    /** Which keys collection is to remove from the table. */
    lemma CollectedKeys(tail: seq<Byte>)
      requires Valid()
      ensures var s := Shelf();
        forall k :: k in s.chains ==>
          (k !in Collected(s, tail).chains <==> (IsEnded(s.chains[k]) && Caught(s, k)) || Overrun(s, tail, k))
    {
      hide Valid, Shelf, Shaped, Apart, Collected, IsEnded, Caught, Overrun;
      KeysApart();
      forall k | k in Shelf().chains {
        CollectExact(Shelf(), tail, k);
      }
    }

    /** Lists and deletes, unless there is nothing to go through. */
    method CollectWritten(past: nat -> Byte, tail: seq<Byte>)
      requires Valid()
      modifies this, RootFoot(root)
      ensures fresh(RootFoot(root) - old(RootFoot(root)))
      ensures Valid() && Shelf() == Collected(old(Shelf()), tail)
      ensures misses == old(misses) && writeSet == map[]
    {
      hide Valid, Shelf, Stored, Shelved, TreeOk, CellsOk, Collected, Marked, store.Valid, store.Chains;
      Parts();
      if writeSet == map[] {
        NothingDue(store, index, leaves, writeSet, tail);
      } else {
        Mark();
        CollectMarked(past, tail);
      }
    }

    /** `GC`; `tail` is what a read past the end of the deletion list meets. */
    method GC(past: nat -> Byte, tail: seq<Byte>)
      requires Valid()
      modifies this, RootFoot(root)
      ensures fresh(RootFoot(root) - old(RootFoot(root)))
      ensures Valid() && Shelf() == Collected(old(Shelf()), tail)
      ensures var s := old(Shelf());
        forall k :: k in s.chains ==>
          (k !in Shelf().chains <==> (IsEnded(s.chains[k]) && Caught(s, k)) || Overrun(s, tail, k))
      ensures misses == old(misses) && writeSet == map[]
    {
      hide Valid, Shelf, Stored, Collected, IsEnded, Caught, Overrun;
      CollectedKeys(tail);
      CollectWritten(past, tail);
    }
  }

  // ---------- listing ----------

  /** The leaf of every copy leads to the chain of its key. */
  ghost predicate HeadsOf<V>(ws: seq<Written>, leaves: seq<LeafBytes>, m: map<Key, Chain<V>>, chains: seq<Chain<V>>) {
    forall i :: 0 <= i < |ws| ==>
      && ws[i].cell < |chains| && chains[ws[i].cell] != []
      && var key := LeafOf(leaves, ws[i].cell).key;
      key in m && m[key] == chains[ws[i].cell]
  }

  lemma SetStored<V>(index: map<Key, CellId>, leaves: seq<LeafBytes>, chains: seq<Chain<V>>, ws: WriteSets, txn: TxnId)
    requires BooksOk(index, leaves, chains, ws) && txn in ws
    ensures HeadsOf(ws[txn], leaves, ShelfOf(index, leaves, chains, ws).chains, chains)
    ensures var s := ShelfOf(index, leaves, chains, ws);
      txn in s.sets && s.sets[txn] == NamedAll(leaves, ws[txn])
  {
    hide FieldOf, Starts, NamedAll;
    forall i | 0 <= i < |ws[txn]|
      ensures IsTracked(index, leaves, ws[txn][i])
    {
      assert ws[txn][i] in ws[txn];
      assert InSets(ws, ws[txn][i]);
    }
  }

  lemma ShelfSets<V>(index: map<Key, CellId>, leaves: seq<LeafBytes>, chains: seq<Chain<V>>, ws: WriteSets)
    requires BooksOk(index, leaves, chains, ws)
    ensures ShelfOf(index, leaves, chains, ws).sets.Keys == ws.Keys
  {
    hide SetsOf, Tracked, LeavesOk, Cells;
  }

  method NextTxn(left: set<TxnId>) returns (txn: TxnId)
    requires left != {}
    ensures txn in left && txn == LeastTxn(left)
  {
    assert exists t :: t in left && forall u :: u in left ==> t <= u by {
      var _ := LeastTxn(left);
    }
    txn :| txn in left && forall u :: u in left ==> txn <= u;
  }

  lemma ListingIs<V>(s: Shelf<V>)
    ensures [] + CopiedAll(Fields(ListedOf(s, s.sets.Keys))) == CopiedAll(Fields(Listing(s)))
  {
  }

  lemma NothingListed<V>(s: Shelf<V>)
    ensures CopiedAll(Fields(ListedOf(s, {}))) == []
  {
  }

  lemma FieldsConcat(cs: seq<Copy>, ds: seq<Copy>)
    ensures CopiedAll(Fields(cs + ds)) == CopiedAll(Fields(cs)) + CopiedAll(Fields(ds))
  {
    hide Copied, Fields, CopiedAll;
  }

  lemma NextListed<V>(s: Shelf<V>, ts: set<TxnId>, t: TxnId)
    requires t in ts && t == LeastTxn(ts) && t in s.sets
    ensures CopiedAll(Fields(ListedOf(s, ts)))
      == CopiedAll(Fields(EndedOf(s.chains, s.sets[t]))) + CopiedAll(Fields(ListedOf(s, ts - {t})))
  {
    hide Copied, Fields, CopiedAll, EndedOf;
    FieldsConcat(EndedOf(s.chains, s.sets[t]), ListedOf(s, ts - {t}));
  }

  /** The entry, if any, for one copy. */
  lemma EntryOf<V>(ws: seq<Written>, i: nat, leaves: seq<LeafBytes>, m: map<Key, Chain<V>>, chains: seq<Chain<V>>)
    requires i < |ws| && HeadsOf(ws, leaves, m, chains)
    ensures CopiedAll(Fields(EndedOf(m, NamedAll(leaves, ws[i..]))))
      == (if chains[ws[i].cell][0].end != INF then [Copied(ws[i].field)] else [])
         + CopiedAll(Fields(EndedOf(m, NamedAll(leaves, ws[i + 1..]))))
  {
    hide Copied, LeafOf;
    assert ws[i..][1..] == ws[i + 1..] && ws[i..][0] == ws[i];
    var c, cs := Named(leaves, ws[i]), NamedAll(leaves, ws[i + 1..]);
    assert NamedAll(leaves, ws[i..]) == [c] + cs;
    assert ([c] + cs)[1..] == cs;
    FieldsConcat(if c.key in m && IsEnded(m[c.key]) then [c] else [], EndedOf(m, cs));
  }

  lemma NoEntries<V>(leaves: seq<LeafBytes>, m: map<Key, Chain<V>>, ws: seq<Written>)
    requires ws == []
    ensures CopiedAll(Fields(EndedOf(m, NamedAll(leaves, ws)))) == []
  {
  }

  /** With empty write sets there is nothing to collect. */
  lemma NothingDue<V>(store: Store<V>, index: map<Key, CellId>, leaves: seq<LeafBytes>, ws: WriteSets, tail: seq<Byte>)
    requires CellsOk(store, index, leaves, ws) && ws == map[]
    ensures var s := Shelved(store, index, leaves, ws); Collected(s, tail) == s
  {
    hide CellsOk, Collected, Shelved;
    NonePending(store, index, leaves, ws);
    NoneGone(Shelved(store, index, leaves, ws), tail);
  }

  lemma NonePending<V>(store: Store<V>, index: map<Key, CellId>, leaves: seq<LeafBytes>, ws: WriteSets)
    requires CellsOk(store, index, leaves, ws) && ws == map[]
    ensures Shelved(store, index, leaves, ws).sets == map[]
  {
    hide store.Valid, store.Chains, Cells, LeavesOk, Tracked, Contents, RestsOf;
  }

  /** The cell that `InsertKey` says was split is that of the key that gives way. */
  lemma SplitCellIs(root: Option<Tree>, index: map<Key, CellId>, key: Key, split: Option<CellId>)
    requires Represents(root, index) && Fits(index, key) && ShortSplit(index.Keys, key)
    requires if root.None? then split == None else WayAt(root.value, key, 0, split)
    ensures SplitCell(index, key, split)
  {
    hide WF, Fits, ShortSplit, Common, GivenWay;
    if root.Some? {
      forall k
        ensures GivenWay(root.value, key, 0) == Some(k) <==> GivesWay(index.Keys, k, key)
      {
        GivenWayIs(root.value, index, key, k);
      }
    }
  }

  lemma ShortWayIs(root: Option<Tree>, index: map<Key, CellId>, key: Key)
    requires Represents(root, index) && Fits(index, key) && ShortSplit(index.Keys, key)
    ensures root.Some? ==> ShortWay(root.value, key, 0)
  {
    hide WF, Denotes, Fits, GivesWay, GivenWay;
    if root.Some? && GivenWay(root.value, key, 0).Some? {
      GivenWayIs(root.value, index, key, GivenWay(root.value, key, 0).value);
    }
  }

  method PlantLeaf(root: Option<Ptr>, ghost index: map<Key, CellId>, key: Key, cell: CellId)
    returns (r: Option<Ptr>, found: Option<CellId>, split: Option<CellId>)
    requires TreeOk(root, index) && Fits(index, key) && ShortSplit(index.Keys, key)
    modifies RootFoot(root)
    ensures TreeOk(r, if key in index then index else index[key := cell])
    ensures RootReach(r) <= RootFoot(r) && fresh(RootFoot(r) - old(RootFoot(root)))
    ensures found == if key in index then Some(index[key]) else None
    ensures SplitCell(index, key, split)
  {
    hide Represents, Fits, RootOk, InsertRoot, ShortSplit, ShortWay, WayAt, SplitCell;
    ghost var t := RootView(root);
    FitsRoot(t, index, key);
    ShortWayIs(t, index, key);
    InsertRepresents(t, index, key, cell);
    r, found, split := InsertKey(root, key, cell);
    SplitCellIs(t, index, key, split);
    RootInFoot(r);
    assert found.Some? ==> Has(t.value, key, found.value);
  }

  method TakeLeaf(root: Option<Ptr>, ghost index: map<Key, CellId>, key: Key, past: nat -> Byte)
    returns (r: Option<Ptr>, removed: bool)
    requires TreeOk(root, index)
    modifies RootFoot(root)
    ensures TreeOk(r, index - {key}) && RootReach(r) <= RootFoot(r) && fresh(RootFoot(r) - old(RootFoot(root)))
    ensures removed <==> key in index
  {
    hide Represents, RootOk, RemoveRoot, SearchRoot;
    CollectOk(RootView(root), index, key, past);
    r, removed := RemoveKey(root, key, past);
    RootInFoot(r);
  }

  lemma CollectOk(root: Option<Tree>, index: map<Key, CellId>, key: Key, past: nat -> Byte)
    requires Represents(root, index)
    ensures root.Some? ==> WF(root.value, 0)
    ensures Represents(RemoveRoot(root, key, past), index - {key})
    ensures SearchRoot(root, key, past) != None <==> key in index
  {
    RemoveRepresents(root, index, key, past);
    SearchRepresents(root, index, key, past);
  }

  lemma OneKeyLess(index: map<Key, CellId>, key: Key)
    ensures |index - {key}| == if key in index then |index| - 1 else |index|
  {
    assert (index - {key}).Keys == index.Keys - {key};
    if key !in index {
      assert index - {key} == index;
    }
  }

  lemma RemainingAll(index: map<Key, CellId>)
    ensures Remaining(index, []) == index
  {
  }

  lemma EmptyBooks<V>(chains: seq<Chain<V>>)
    requires chains == []
    ensures BooksOk(map[], [], chains, map[])
    ensures ShelfOf(map[], [], chains, map[]) == TableSpec.Shelf(map[], map[], map[])
  {
    assert forall w: Written :: !InSets(map[], w);
  }

  lemma CellParts<V>(store: Store<V>, index: map<Key, CellId>, leaves: seq<LeafBytes>, ws: WriteSets)
    requires CellsOk(store, index, leaves, ws)
    ensures store.Valid() && |store.Chains()| == |store.cells|
    ensures BooksOk(index, leaves, store.Chains(), ws)
    ensures Shelved(store, index, leaves, ws) == ShelfOf(index, leaves, store.Chains(), ws)
  {
  }

  lemma ChainAt<V>(index: map<Key, CellId>, leaves: seq<LeafBytes>, chains: seq<Chain<V>>, ws: WriteSets, key: Key)
    requires BooksOk(index, leaves, chains, ws) && key in index
    ensures index[key] < |chains| && chains[index[key]] != []
    ensures key in ShelfOf(index, leaves, chains, ws).chains
    ensures ShelfOf(index, leaves, chains, ws).chains[key] == chains[index[key]]
  {
    hide Tracked, SetsOf;
  }

  lemma OverwrittenIs<V>(chains: seq<Chain<V>>, cell: CellId, txn: TxnId, value: V, active: Status)
    requires cell < |chains| && chains[cell] != []
    ensures chains[cell := Overwritten(chains[cell], txn, value, active)]
      == if Conflict(chains[cell], txn, active) then chains
         else chains[cell := After(chains[cell], VersionChain.Overwrite(txn, value))]
  {
  }

  lemma UpsertCase<V>(s: Shelf<V>, key: Key, txn: TxnId, value: V, active: Status, rest: Field)
    requires Shaped(s)
    ensures UpsertedShelf(s, key, txn, value, active, rest)
      == if key in s.chains then OverwrittenShelf(s, key, txn, value, active)
         else AddedShelf(s, key, txn, value, rest)
  {
  }

  lemma OverwrittenParts<V>(s: Shelf<V>, key: Key, txn: TxnId, value: V, active: Status)
    requires key in s.chains && s.chains[key] != []
    ensures OverwrittenShelf(s, key, txn, value, active)
      == Changed(s, key, txn, Overwritten(s.chains[key], txn, value, active))
  {
  }

  lemma CalledParts<V>(s: Shelf<V>, key: Key, call: Call<V>)
    requires key in s.chains && s.chains[key] != []
    ensures CalledShelf(s, key, call)
      == Changed(s, key, call.txn, After(s.chains[key], call))
  {
  }

  lemma CellChanged<V>(store: Store<V>, index: map<Key, CellId>, leaves: seq<LeafBytes>, chains: seq<Chain<V>>,
                       ws: WriteSets, key: Key, txn: TxnId, c: Chain<V>)
    requires BooksOk(index, leaves, chains, ws) && key in index && c != [] && index[key] < |chains|
    requires store.Valid() && store.Chains() == chains[index[key] := c]
    ensures CellsOk(store, index, leaves, Push(ws, txn, WrittenOf(leaves, index[key])))
    ensures var s := ShelfOf(index, leaves, chains, ws);
      Shelved(store, index, leaves, Push(ws, txn, WrittenOf(leaves, index[key])))
      == Changed(s, key, txn, c)
  {
    hide BooksOk, ShelfOf, Push, WrittenOf, store.Valid, store.Chains;
    ChangeKeeps(index, leaves, chains, ws, key, txn, c);
  }

  lemma CellAdded<V>(store: Store<V>, index: map<Key, CellId>, leaves: seq<LeafBytes>, chains: seq<Chain<V>>,
                     ws: WriteSets, key: Key, split: Option<CellId>, rest: Field, txn: TxnId, value: V)
    requires BooksOk(index, leaves, chains, ws) && SplitCell(index, key, split) && key !in index
    requires store.Valid() && store.Chains() == chains + [Fresh(txn, value)]
    ensures var i, l := index[key := |chains|], LeavesAfter(leaves, split) + [LeafBytes(key, rest)];
      && CellsOk(store, i, l, ws)
      && Shelved(store, i, l, ws) == AddedShelf(ShelfOf(index, leaves, chains, ws), key, txn, value, rest)
  {
    hide BooksOk, ShelfOf, AddedShelf, SplitCell, LeavesAfter, store.Valid, store.Chains;
    PutKeeps(index, leaves, chains, ws, key, split, rest, txn, value);
  }

  /** What `InsertKey` needs and answers, in terms of the map. */
  lemma FitsRoot(root: Option<Tree>, m: map<Key, CellId>, key: Key)
    requires Represents(root, m) && Fits(m, key)
    ensures IsKey(key)
    ensures root.Some? ==> WF(root.value, 0) && PrefixFree(root.value, key)
    ensures root.None? ==> key !in m
    ensures root.Some? ==> forall v :: Has(root.value, key, v) <==> key in m && m[key] == v
    ensures root.Some? ==> (Holds(root.value, key) <==> key in m)
  {
    if root.Some? {
      DenotesFits(root.value, m, key);
    }
  }
}
