/** One new version for every key whose current value satisfies a predicate. */
module ArtUpdateAll {
  import opened Bytes
  import opened Trie
  import opened TrieOrder
  import opened TrieMap
  import opened NodeLayout
  import opened ArtNode
  import opened ArtTree
  import opened ArtIterate
  import opened ArtRoot
  import opened VersionChain
  import opened CellStore
  import opened LeafCopy
  import opened TableSpec
  import opened TableBooks
  import opened ArtTable

  // ---------- leaf by leaf ----------

  /** The chains of a table, its leaves and its write sets. */
  datatype Books<!V> = Books(chains: map<Key, Chain<V>>, leaves: seq<LeafBytes>, sets: WriteSets)

  /** What the visit of one leaf does. */
  function UpdatedOne<V>(b: Books<V>, e: Entry, filter: V -> bool, call: Call<V>): Books<V> {
    if Selected(b.chains, e.key, filter) then
      Books(CalledMap(b.chains, e.key, call), b.leaves, Push(b.sets, call.txn, WrittenOf(b.leaves, e.val)))
    else b
  }

  /** What the visit of several leaves does, one after the other. */
  function UpdatedAll<V>(b: Books<V>, es: seq<Entry>, filter: V -> bool, call: Call<V>): Books<V>
    decreases |es|
  {
    if es == [] then b else UpdatedAll(UpdatedOne(b, es[0], filter, call), es[1..], filter, call)
  }

  lemma {:induction false} UpdatedConcat<V>(b: Books<V>, es: seq<Entry>, fs: seq<Entry>,
                                            filter: V -> bool, call: Call<V>)
    ensures UpdatedAll(b, es + fs, filter, call) == UpdatedAll(UpdatedAll(b, es, filter, call), fs, filter, call)
    decreases |es|
  {
    if es == [] {
      assert es + fs == fs;
    } else {
      assert (es + fs)[1..] == es[1..] + fs;
      UpdatedConcat(UpdatedOne(b, es[0], filter, call), es[1..], fs, filter, call);
    }
  }

  /** In a strictly ascending list the first key does not come again. */
  lemma FirstOnce(es: seq<Entry>, e: Entry)
    requires Ascending(es) && es != [] && e in es[1..]
    ensures e.key != es[0].key
  {
    var i :| 0 <= i < |es[1..]| && es[1..][i] == e;
    LessTotal(es[0].key, es[i + 1].key);
  }

  lemma AscendingRest(es: seq<Entry>)
    requires Ascending(es) && es != []
    ensures Ascending(es[1..])
  {
    hide Less;
  }

  lemma OneChain<V>(b: Books<V>, e: Entry, filter: V -> bool, call: Call<V>, key: Key)
    requires key in b.chains && b.chains[key] != []
    ensures var m, r := b.chains, UpdatedOne(b, e, filter, call).chains;
      && r.Keys == m.Keys && r[key] != []
      && r[key] == if key == e.key && filter(m[key][0].value) then After(m[key], call) else m[key]
  {
  }

  /** If the leaves have different keys, each chain changes at most once, by what held before. */
  lemma {:induction false} UpdatedEach<V>(b: Books<V>, es: seq<Entry>, filter: V -> bool, call: Call<V>, key: Key)
    requires Ascending(es) && key in b.chains && b.chains[key] != []
    ensures var m, r := b.chains, UpdatedAll(b, es, filter, call).chains;
      && r.Keys == m.Keys
      && r[key] == if filter(m[key][0].value) && (exists v :: Entry(key, v) in es) then After(m[key], call) else m[key]
    decreases |es|
  {
    hide Ascending, UpdatedOne, After;
    if es != [] {
      var n := UpdatedOne(b, es[0], filter, call);
      AscendingRest(es);
      OneChain(b, es[0], filter, call, key);
      UpdatedEach(n, es[1..], filter, call, key);
      forall v | Entry(key, v) in es[1..]
        ensures key != es[0].key
      {
        FirstOnce(es, Entry(key, v));
      }
      assert es == [es[0]] + es[1..];
    }
  }

  /** The leaves whose current value is selected. */
  function SelectedOf<V>(m: map<Key, Chain<V>>, es: seq<Entry>, filter: V -> bool): seq<Entry> {
    if es == [] then []
    else (if Selected(m, es[0].key, filter) then [es[0]] else []) + SelectedOf(m, es[1..], filter)
  }

  function WrittenAll(ws: WriteSets, leaves: seq<LeafBytes>, es: seq<Entry>, txn: TxnId): WriteSets
    decreases |es|
  {
    if es == [] then ws else WrittenAll(Push(ws, txn, WrittenOf(leaves, es[0].val)), leaves, es[1..], txn)
  }

  lemma {:induction false} SelectedSame<V>(m: map<Key, Chain<V>>, n: map<Key, Chain<V>>, es: seq<Entry>,
                                           filter: V -> bool)
    requires forall e :: e in es ==> (Selected(m, e.key, filter) <==> Selected(n, e.key, filter))
    ensures SelectedOf(m, es, filter) == SelectedOf(n, es, filter)
  {
    if es != [] {
      SelectedSame(m, n, es[1..], filter);
    }
  }

  /** Then the write set gets each leaf that was selected beforehand, once and in order. */
  lemma {:induction false} SetsEach<V>(b: Books<V>, es: seq<Entry>, filter: V -> bool, call: Call<V>)
    requires Ascending(es)
    ensures var r := UpdatedAll(b, es, filter, call);
      && r.leaves == b.leaves
      && r.sets == WrittenAll(b.sets, b.leaves, SelectedOf(b.chains, es, filter), call.txn)
    decreases |es|
  {
    if es != [] {
      var n := UpdatedOne(b, es[0], filter, call);
      SetsEach(n, es[1..], filter, call);
      forall e | e in es[1..]
        ensures Selected(b.chains, e.key, filter) <==> Selected(n.chains, e.key, filter)
      {
        FirstOnce(es, e);
      }
      SelectedSame(b.chains, n.chains, es[1..], filter);
      var rest := SelectedOf(b.chains, es[1..], filter);
      assert ([es[0]] + rest)[1..] == rest && [] + rest == rest;
    }
  }

  lemma UpdateEdge<V>(t: Tree, lo: nat, c: Byte, b: Books<V>, filter: V -> bool, call: Call<V>)
    requires t.Inner? && NextEdge(t, lo, c)
    ensures UpdatedAll(b, EntriesFrom(t, lo), filter, call)
      == UpdatedAll(UpdatedAll(b, Entries(t.kids[c]), filter, call), EntriesFrom(t, c + 1), filter, call)
  {
    SkipToEdge(t, lo, c);
    UpdatedConcat(b, Entries(t.kids[c]), EntriesFrom(t, c + 1), filter, call);
  }

  // ---------- the walk over the tree ----------

  /** All the leaves listed are those of stored keys. */
  ghost predicate Leaves(index: map<Key, CellId>, es: seq<Entry>) {
    forall e :: e in es ==> e.key in index && index[e.key] == e.val
  }

  lemma LeavesSplit(index: map<Key, CellId>, t: Tree, lo: nat, c: Byte)
    requires t.Inner? && NextEdge(t, lo, c) && Leaves(index, EntriesFrom(t, lo))
    ensures Leaves(index, Entries(t.kids[c])) && Leaves(index, EntriesFrom(t, c + 1))
  {
    SkipToEdge(t, lo, c);
  }

  ghost function BooksOf<V>(t: Table<V>): Books<V>
    requires t.Valid()
    reads t, t.store, t.store.repr, RootReach(t.root)
  {
    Books(t.Stored(), t.leaves, t.writeSet)
  }

  /** The chain of a key that the transaction has written is not in conflict with it. */
  lemma CalmAfter<V>(m: map<Key, Chain<V>>, key: Key, updater: V -> V, txn: TxnId, filter: V -> bool, active: Status)
    requires Calm(m, txn, filter, active)
    ensures Selected(m, key, filter) ==>
      !Conflict(m[key], txn, active) && Calm(CalledMap(m, key, VersionChain.Update(txn, updater)), txn, filter, active)
  {
  }

  lemma CalledChains<V>(s: Shelf<V>, key: Key, call: Call<V>)
    ensures key in s.chains && s.chains[key] != [] ==>
      CalledShelf(s, key, call).chains == CalledMap(s.chains, key, call)
  {
  }

  /** The visit of one leaf. */
  method UpdateLeafWhere<V>(t: Table<V>, key: Key, cell: CellId, updater: V -> V, txn: TxnId, filter: V -> bool,
                            active: nat -> Status, ghost calm: nat)
    requires t.Valid() && key in t.index && t.index[key] == cell && Calm(t.Stored(), txn, filter, active(calm))
    modifies t`writeSet, t.store.repr
    ensures t.Valid() && fresh(t.store.repr - old(t.store.repr)) && Calm(t.Stored(), txn, filter, active(calm))
    ensures t.index == old(t.index) && t.leaves == old(t.leaves)
    ensures BooksOf(t) == UpdatedOne(old(BooksOf(t)), Entry(key, cell), filter, VersionChain.Update(txn, updater))
  {
    hide t.Valid, t.Stored, t.Shelf, Calm, CalledMap, CalledShelf, Conflict, WrittenOf, Push, TreeOk, CellsOk, Shelved;
    t.Parts();
    CalledChains(t.Shelf(), key, VersionChain.Update(txn, updater));
    CalmAfter(t.Stored(), key, updater, txn, filter, active(calm));
    var value := t.Current(key, cell);
    if filter(value) {
      t.UpdateLeaf(key, cell, updater, txn, active, calm);
      t.Parts();
    }
  }

  /** `recursive_UpdateByPredicate` */
  method UpdateBelow<V>(t: Table<V>, x: Ptr, updater: V -> V, txn: TxnId, filter: V -> bool,
                        active: nat -> Status, ghost calm: nat)
    requires t.Valid() && Ok(x) && Foot(x) !! t.store.repr && t !in Foot(x)
    requires Leaves(t.index, Entries(View(x))) && Calm(t.Stored(), txn, filter, active(calm))
    modifies t`writeSet, t.store.repr
    ensures t.Valid() && fresh(t.store.repr - old(t.store.repr)) && Calm(t.Stored(), txn, filter, active(calm))
    ensures t.index == old(t.index) && t.leaves == old(t.leaves)
    ensures BooksOf(t) == UpdatedAll(old(BooksOf(t)), old(Entries(View(x))), filter, VersionChain.Update(txn, updater))
    decreases Foot(x), 2
  {
    hide t.Valid, t.Stored, ArtTree.Valid, Layout, KidsOk, Entries, EntriesFrom, Calm, Selected;
    EntriesOf(View(x));
    match x {
      case LeafAt(key, cell) =>
        assert Entry(key, cell) in Entries(View(x));
        UpdateLeafWhere(t, key, cell, updater, txn, filter, active, calm);
      case NodeAt(n) =>
        NodeFacts(n);
        if n.kind == Node4 || n.kind == Node16 {
          UpdateSorted(t, n, updater, txn, filter, active, calm);
        } else {
          UpdateBytes(t, n, updater, txn, filter, active, calm);
        }
    }
  }

  /** The child under the next edge byte. */
  method UpdateChild<V>(t: Table<V>, n: Node<Ptr>, ghost lo: nat, c: Byte, x: Ptr, updater: V -> V, txn: TxnId,
                        filter: V -> bool, active: nat -> Status, ghost calm: nat)
    requires t.Valid() && ArtTree.Valid(n) && n.repr !! t.store.repr && t !in n.repr
    requires c in n.slots && n.slots[c] == x && n.view.Inner? && NextEdge(n.view, lo, c)
    requires Leaves(t.index, EntriesFrom(n.view, lo)) && Calm(t.Stored(), txn, filter, active(calm))
    modifies t`writeSet, t.store.repr
    ensures t.Valid() && fresh(t.store.repr - old(t.store.repr)) && Calm(t.Stored(), txn, filter, active(calm))
    ensures t.index == old(t.index) && t.leaves == old(t.leaves) && Leaves(t.index, EntriesFrom(n.view, c + 1))
    ensures var call := VersionChain.Update(txn, updater);
      UpdatedAll(old(BooksOf(t)), EntriesFrom(n.view, lo), filter, call)
      == UpdatedAll(BooksOf(t), EntriesFrom(n.view, c + 1), filter, call)
    decreases n.repr, 0
  {
    hide t.Valid, t.Stored, ArtTree.Valid, KidsOk, Entries, EntriesFrom, Calm, Leaves, UpdatedAll, Layout, NextEdge;
    NodeFacts(n);
    UpdateEdge(n.view, lo, c, BooksOf(t), filter, VersionChain.Update(txn, updater));
    LeavesSplit(t.index, n.view, lo, c);
    KidFacts(n, c);
    UpdateBelow(t, x, updater, txn, filter, active, calm);
  }

  method UpdateSorted<V>(t: Table<V>, n: Node<Ptr>, updater: V -> V, txn: TxnId, filter: V -> bool,
                         active: nat -> Status, ghost calm: nat)
    requires t.Valid() && ArtTree.Valid(n) && n.repr !! t.store.repr && t !in n.repr
    requires n.kind == Node4 || n.kind == Node16
    requires n.view.Inner? && Leaves(t.index, EntriesFrom(n.view, 0)) && Calm(t.Stored(), txn, filter, active(calm))
    modifies t`writeSet, t.store.repr
    ensures t.Valid() && fresh(t.store.repr - old(t.store.repr)) && Calm(t.Stored(), txn, filter, active(calm))
    ensures t.index == old(t.index) && t.leaves == old(t.leaves)
    ensures BooksOf(t)
      == UpdatedAll(old(BooksOf(t)), old(EntriesFrom(n.view, 0)), filter, VersionChain.Update(txn, updater))
    decreases n.repr, 1
  {
    hide t.Valid, t.Stored, ArtTree.Valid, KidsOk, Entries, EntriesFrom, Calm, Leaves, UpdatedAll, Sorted, Cursor,
      Layout;
    NodeFacts(n);
    ghost var keys, children, lo: nat := n.keys[..], n.children[..], 0;
    ghost var v, call := n.view, VersionChain.Update(txn, updater);
    SortedCells(n.kind, n.num, keys, children, n.slots);
    CursorStart(n.num, keys, children, n.slots);
    var i := 0;
    while i < n.num
      invariant lo <= 256 && Cursor(n.num, keys, n.slots, i, lo) && Leaves(t.index, EntriesFrom(v, lo))
      invariant t.Valid() && fresh(t.store.repr - old(t.store.repr)) && Calm(t.Stored(), txn, filter, active(calm))
      invariant t.index == old(t.index) && t.leaves == old(t.leaves)
      invariant UpdatedAll(BooksOf(t), EntriesFrom(v, lo), filter, call)
        == UpdatedAll(old(BooksOf(t)), EntriesFrom(v, 0), filter, call)
    {
      CellInUse(n.num, keys, children, n.slots, i);
      CursorNext(n.num, keys, children, n.slots, i, lo);
      UpdateChild(t, n, lo, n.keys[i], n.children[i].value, updater, txn, filter, active, calm);
      lo := keys[i] as int + 1;
      i := i + 1;
    }
    CursorEnd(n.num, keys, n.slots, i, lo);
    NoEdgeLeft(v, lo);
    UpdatedNone(BooksOf(t), filter, call);
  }

  lemma UpdatedNone<V>(b: Books<V>, filter: V -> bool, call: Call<V>)
    ensures UpdatedAll(b, [], filter, call) == b
  {
  }

  method UpdateBytes<V>(t: Table<V>, n: Node<Ptr>, updater: V -> V, txn: TxnId, filter: V -> bool,
                        active: nat -> Status, ghost calm: nat)
    requires t.Valid() && ArtTree.Valid(n) && n.repr !! t.store.repr && t !in n.repr
    requires n.kind == Node48 || n.kind == Node256
    requires n.view.Inner? && Leaves(t.index, EntriesFrom(n.view, 0)) && Calm(t.Stored(), txn, filter, active(calm))
    modifies t`writeSet, t.store.repr
    ensures t.Valid() && fresh(t.store.repr - old(t.store.repr)) && Calm(t.Stored(), txn, filter, active(calm))
    ensures t.index == old(t.index) && t.leaves == old(t.leaves)
    ensures BooksOf(t)
      == UpdatedAll(old(BooksOf(t)), old(EntriesFrom(n.view, 0)), filter, VersionChain.Update(txn, updater))
    decreases n.repr, 1
  {
    hide t.Valid, t.Stored, ArtTree.Valid, KidsOk, Entries, EntriesFrom, Calm, Leaves, UpdatedAll, Layout, ChildOfByte;
    NodeFacts(n);
    ghost var v, call := n.view, VersionChain.Update(txn, updater);
    var i: int := 0;
    while i < 256
      invariant 0 <= i <= 256 && Leaves(t.index, EntriesFrom(v, i))
      invariant t.Valid() && fresh(t.store.repr - old(t.store.repr)) && Calm(t.Stored(), txn, filter, active(calm))
      invariant t.index == old(t.index) && t.leaves == old(t.leaves)
      invariant UpdatedAll(BooksOf(t), EntriesFrom(v, i), filter, call)
        == UpdatedAll(old(BooksOf(t)), EntriesFrom(v, 0), filter, call)
    {
      ChildOfByteIs(n, i);
      var x := ChildOfByte(n, i);
      if x.Some? {
        UpdateChild(t, n, i, i, x.value, updater, txn, filter, active, calm);
      } else {
        NoEdgeAt(v, i);
      }
      i := i + 1;
    }
    NoEdgeLeft(v, 256);
    UpdatedNone(BooksOf(t), filter, call);
  }

  // ---------- the whole table ----------

  lemma LeavesAll(t: Tree, index: map<Key, CellId>)
    requires Denotes(t, index)
    ensures Leaves(index, Entries(t))
  {
    hide Entries;
    forall e | e in Entries(t)
      ensures e.key in index && index[e.key] == e.val
    {
      EntriesHas(t, e.key, e.val);
    }
  }

  lemma AllVisited<V>(b: Books<V>, t: Tree, index: map<Key, CellId>, filter: V -> bool, call: Call<V>)
    requires WF(t, 0) && Denotes(t, index) && b.chains.Keys == index.Keys
    requires forall k :: k in b.chains ==> b.chains[k] != []
    ensures Leaves(index, Entries(t))
    ensures var sets := WrittenAll(b.sets, b.leaves, SelectedOf(b.chains, Entries(t), filter), call.txn);
      UpdatedAll(b, Entries(t), filter, call) == Books(UpdatedWhere(b.chains, filter, call), b.leaves, sets)
  {
    hide WF, NodeOk, MinKey, Entries, SelectedOf, WrittenAll, UpdatedAll, After;
    IterationAscends(t, 0);
    LeavesAll(t, index);
    var m, r := b.chains, UpdatedAll(b, Entries(t), filter, call);
    SetsEach(b, Entries(t), filter, call);
    hide Ascending, Less;
    forall k | k in m
      ensures k in r.chains && r.chains.Keys == m.Keys && r.chains[k] == UpdatedWhere(m, filter, call)[k]
    {
      assert Has(t, k, index[k]);
      EntriesHas(t, k, index[k]);
      UpdatedEach(b, Entries(t), filter, call, k);
    }
    if m == map[] {
      NotEmpty(t, index);
    }
  }

  ghost function KeysOf(es: seq<Entry>): (r: seq<Key>)
    ensures |r| == |es| && forall j :: 0 <= j < |r| ==> r[j] == es[j].key
  {
    if es == [] then [] else [es[0].key] + KeysOf(es[1..])
  }

  /** Pushing leaves of stored keys, as the contents of the write sets see it. */
  lemma {:induction false} WrittenKeeps(index: map<Key, CellId>, leaves: seq<LeafBytes>, ws: WriteSets,
                                        es: seq<Entry>, txn: TxnId)
    requires LeavesOk(index, leaves) && Tracked(index, leaves, ws) && Leaves(index, es)
    ensures SetsOf(leaves, WrittenAll(ws, leaves, es, txn))
      == PushedAll(SetsOf(leaves, ws), RestsOf(index, leaves), KeysOf(es), txn)
    decreases |es|
  {
    hide LeavesOk, Tracked, RestsOf, SetsOf, WrittenOf, CopyOf, Push;
    if es != [] {
      assert es[0] in es;
      PushKeeps(index, leaves, ws, es[0].key, txn);
      WrittenKeeps(index, leaves, Push(ws, txn, WrittenOf(leaves, es[0].val)), es[1..], txn);
      assert KeysOf(es)[1..] == KeysOf(es[1..]);
    }
  }

  lemma {:induction false} SelectedIn<V>(m: map<Key, Chain<V>>, es: seq<Entry>, filter: V -> bool, e: Entry)
    ensures e in SelectedOf(m, es, filter) <==> e in es && Selected(m, e.key, filter)
  {
    hide Selected;
    if es != [] {
      SelectedIn(m, es[1..], filter, e);
    }
  }

  lemma {:induction false} SelectedAscends<V>(m: map<Key, Chain<V>>, es: seq<Entry>, filter: V -> bool)
    requires Ascending(es)
    ensures Ascending(SelectedOf(m, es, filter))
  {
    hide Selected, Less;
    if es != [] {
      SelectedAscends(m, es[1..], filter);
      var rest := SelectedOf(m, es[1..], filter);
      forall j | 0 <= j < |rest|
        ensures Less(es[0].key, rest[j].key)
      {
        assert rest[j] in rest;
        SelectedIn(m, es[1..], filter, rest[j]);
        var i :| 0 <= i < |es[1..]| && es[1..][i] == rest[j];
        assert Less(es[0].key, es[i + 1].key);
      }
    }
  }

  /** The keys of the selected leaves are the selected keys in ascending order. */
  lemma SelectedLeaves<V>(t: Tree, index: map<Key, CellId>, m: map<Key, Chain<V>>, filter: V -> bool)
    requires WF(t, 0) && Denotes(t, index) && m.Keys == index.Keys
    ensures var es := SelectedOf(m, Entries(t), filter);
      Leaves(index, es) && KeysOf(es) == Ascend(SelectedKeys(m, filter))
  {
    hide WF, Entries, Selected, SelectedOf, Ascend, Less;
    var es := SelectedOf(m, Entries(t), filter);
    LeavesAll(t, index);
    IterationAscends(t, 0);
    SelectedAscends(m, Entries(t), filter);
    forall e: Entry
      ensures e in es <==> e in Entries(t) && Selected(m, e.key, filter)
    {
      SelectedIn(m, Entries(t), filter, e);
    }
    forall k
      ensures k in KeysOf(es) <==> k in SelectedKeys(m, filter)
    {
      KeyListed(t, index, m, filter, es, k);
    }
    AscendIs(SelectedKeys(m, filter), KeysOf(es));
  }

  lemma KeyListed<V>(t: Tree, index: map<Key, CellId>, m: map<Key, Chain<V>>, filter: V -> bool, es: seq<Entry>, k: Key)
    requires Denotes(t, index) && m.Keys == index.Keys && Leaves(index, Entries(t))
    requires forall e :: e in es <==> e in Entries(t) && Selected(m, e.key, filter)
    ensures k in KeysOf(es) <==> k in SelectedKeys(m, filter)
  {
    hide Entries, Selected;
    if k in KeysOf(es) {
      var j :| 0 <= j < |es| && KeysOf(es)[j] == k;
      assert es[j] in es;
    }
    if k in SelectedKeys(m, filter) {
      EntriesHas(t, k, index[k]);
      var j :| 0 <= j < |es| && es[j] == Entry(k, index[k]);
      assert KeysOf(es)[j] == k;
    }
  }

  lemma NothingSelected<V>(s: Shelf<V>, ws: WriteSets, leaves: seq<LeafBytes>, filter: V -> bool, call: Call<V>)
    requires s.chains == map[]
    ensures UpdatedShelf(s, filter, call) == s
    ensures WrittenAll(ws, leaves, SelectedOf(s.chains, [], filter), call.txn) == ws
  {
    assert SelectedKeys(s.chains, filter) == {};
  }

  /** What the write sets say after the walk. */
  lemma WrittenAfter<V>(store: Store<V>, index: map<Key, CellId>, leaves: seq<LeafBytes>, ws: WriteSets,
                        t: Tree, filter: V -> bool, txn: TxnId)
    requires CellsOk(store, index, leaves, ws) && WF(t, 0) && Denotes(t, index)
    ensures var s := Shelved(store, index, leaves, ws);
      && LeavesOk(index, leaves) && s.rests == RestsOf(index, leaves)
      && SetsOf(leaves, WrittenAll(ws, leaves, SelectedOf(s.chains, Entries(t), filter), txn))
        == PushedAll(s.sets, s.rests, Ascend(SelectedKeys(s.chains, filter)), txn)
  {
    hide WF, Entries, Selected, SelectedOf, WrittenAll, PushedAll, LeavesOk, Tracked, Contents, RestsOf, SetsOf, Cells,
      store.Valid, store.Chains;
    var s := Shelved(store, index, leaves, ws);
    SelectedLeaves(t, index, s.chains, filter);
    WrittenKeeps(index, leaves, ws, SelectedOf(s.chains, Entries(t), filter), txn);
  }

  lemma WrittenNow<V>(store: Store<V>, index: map<Key, CellId>, leaves: seq<LeafBytes>, ws: WriteSets)
    requires CellsOk(store, index, leaves, ws)
    ensures var s := Shelved(store, index, leaves, ws);
      && LeavesOk(index, leaves) && s.rests == RestsOf(index, leaves)
      && s.sets == SetsOf(leaves, ws)
  {
    hide LeavesOk, Tracked, Contents, RestsOf, SetsOf, Cells, store.Valid, store.Chains;
  }

  lemma UpdatedChains<V>(s: Shelf<V>, filter: V -> bool, call: Call<V>)
    ensures UpdatedShelf(s, filter, call).chains == UpdatedWhere(s.chains, filter, call)
  {
  }

  /** `updateAllByPredicate`; the write set gets the selected leaves in ascending order of their keys. */
  method UpdateAllByPredicate<V>(t: Table<V>, updater: V -> V, txn: TxnId, filter: V -> bool,
                                 active: nat -> Status, ghost calm: nat)
    requires t.Valid() && Calm(t.Stored(), txn, filter, active(calm))
    modifies t`writeSet, t.store.repr
    ensures t.Valid() && t.index == old(t.index) && t.leaves == old(t.leaves)
    ensures fresh(t.store.repr - old(t.store.repr)) && RootFoot(t.root) == old(RootFoot(t.root))
    ensures t.Shelf() == UpdatedShelf(old(t.Shelf()), filter, VersionChain.Update(txn, updater))
    ensures t.Stored().Keys == old(t.Stored()).Keys
    ensures forall k :: k in old(t.Stored()) ==>
      var h := old(t.Stored())[k];
      t.Stored()[k] ==
        if filter(h[0].value)
        then [Version(txn, INF, updater(h[0].value)), Version(h[0].version, txn, h[0].value)] + h[1..]
        else h
    ensures t.writeSet
      == WrittenAll(old(t.writeSet), t.leaves, old(SelectedOf(t.Stored(), t.LeafEntries(), filter)), txn)
  {
    hide t.Valid, t.Stored, t.Shelf, UpdatedAll, Calm, Entries, CellsOk, Shelved, Selected, WrittenAll, SelectedOf,
      UpdatedWhere, LeavesOk, RestsOf, SetsOf, PushedAll, Ascend, WF, NodeOk, MinKey, Has;
    t.Parts();
    t.KeysKnown();
    ghost var call := VersionChain.Update(txn, updater);
    UpdatedIs(t.Stored(), filter, updater, txn);
    UpdatedChains(t.Shelf(), filter, call);
    if t.root.None? {
      NothingSelected(t.Shelf(), t.writeSet, t.leaves, filter, call);
      return;
    }
    AllVisited(BooksOf(t), View(t.root.value), t.index, filter, call);
    WrittenAfter(t.store, t.index, t.leaves, t.writeSet, View(t.root.value), filter, txn);
    UpdateBelow(t, t.root.value, updater, txn, filter, active, calm);
    t.Parts();
    WrittenNow(t.store, t.index, t.leaves, t.writeSet);
  }
}
