/** The tree against the map that it speeds up, over single operations and whole runs. */
module TrieMap {
  import opened Bytes
  import opened Options
  import opened Trie
  import opened TrieInsert
  import opened TrieSearch
  import opened TrieDelete
  import opened TrieShape
  import opened LeafLock
  import opened TrieTouch

  /** The tree below `root`, a missing root standing for the empty tree, stores exactly `m`. */
  ghost predicate Represents(root: Option<Tree>, m: map<Key, CellId>) {
    match root
    case None => m == map[]
    case Some(t) => WF(t, 0) && Denotes(t, m)
  }

  /** No key of `m` other than `key` itself is a prefix of `key` or the other way round. */
  ghost predicate Fits(m: map<Key, CellId>, key: Key) {
    IsKey(key) && forall k :: k in m && k != key ==> !Nested(k, key)
  }

  function InsertRoot(root: Option<Tree>, key: Key, val: CellId): Option<Tree> {
    match root
    case None => Some(Leaf(key, val))
    case Some(t) => Some(Insert(t, key, val, 0))
  }

  /** The same with what it writes into a leaf that gives way; `last` and `next` lie behind the two keys of a split. */
  function PutRoot(root: Option<Tree>, key: Key, val: CellId, last: Byte, next: Byte): Option<Tree> {
    match root
    case None => Some(Leaf(key, val))
    case Some(t) => Some(InsertTouched(t, key, val, 0, last, next))
  }

  /** The leaf that is to give way, if any, has a key that the lock spares. */
  ghost predicate ShortSplit(keys: set<Key>, key: Key) {
    forall k :: GivesWay(keys, k, key) ==> |k| <= LOCK_AT
  }

  function SearchRoot(root: Option<Tree>, key: Key, past: nat -> Byte): Option<CellId> {
    match root
    case None => None
    case Some(t) => Search(t, key, past, 0)
  }

  lemma DenotesFits(t: Tree, m: map<Key, CellId>, key: Key)
    requires Denotes(t, m) && Fits(m, key)
    ensures IsKey(key) && PrefixFree(t, key)
    ensures Holds(t, key) <==> key in m
  {
    if key in m {
      assert Has(t, key, m[key]);
    }
  }

  /** Insertion into tree values: a stored key changes nothing, any other key that fits is added, and nothing else. */
  lemma InsertRepresents(root: Option<Tree>, m: map<Key, CellId>, key: Key, val: CellId)
    requires Represents(root, m) && Fits(m, key)
    ensures if key in m then InsertRoot(root, key, val) == root
      else Represents(InsertRoot(root, key, val), m[key := val])
  {
    hide WF, NodeOk, MinKey;
    match root {
      case None =>
        LeafFacts(Leaf(key, val), 0);
      case Some(t) =>
        DenotesFits(t, m, key);
        if key in m {
          InsertHeld(t, key, val, 0);
        } else {
          MinKeyHeld(t, 0);
          InsertOk(t, key, val, 0);
        }
    }
  }

  /** The leaf that gives way is the one whose key shares more bytes with the new key than with any other stored key. */
  lemma GivenWayIs(t: Tree, m: map<Key, CellId>, key: Key, k: Key)
    requires WF(t, 0) && Denotes(t, m) && Fits(m, key)
    ensures GivenWay(t, key, 0) == Some(k) <==> GivesWay(m.Keys, k, key)
  {
    hide WF, NodeOk, MinKey, GivenWay, Common;
    DenotesFits(t, m, key);
    GivenWayExact(t, key, 0, k);
    forall j
      ensures Holds(t, j) <==> j in m
    {
      HeldInMap(t, m, j);
    }
  }

  lemma HeldInMap(t: Tree, m: map<Key, CellId>, key: Key)
    requires Denotes(t, m)
    ensures Holds(t, key) <==> key in m
  {
    if key in m {
      assert Has(t, key, m[key]);
    }
  }

  /** What is written spares the tree, or a stored key is gone. */
  lemma PutBelow(t: Tree, m: map<Key, CellId>, key: Key, val: CellId, last: Byte, next: Byte)
    requires WF(t, 0) && Denotes(t, m) && Fits(m, key)
    ensures ShortSplit(m.Keys, key) ==> InsertTouched(t, key, val, 0, last, next) == Insert(t, key, val, 0)
    ensures forall k :: GivesWay(m.Keys, k, key) && |k| > LOCK_AT ==>
      !Holds(InsertTouched(t, key, val, 0, last, next), k)
  {
    hide WF, NodeOk, MinKey, Denotes, GivesWay, GivenWay, InsertTouched, Insert, Holds, Fits, Has;
    DenotesFits(t, m, key);
    InsertTouchedExact(t, key, val, 0, last, next);
    forall k
      ensures GivenWay(t, key, 0) == Some(k) <==> GivesWay(m.Keys, k, key)
    {
      GivenWayIs(t, m, key, k);
    }
  }

  lemma NotStored(t: Tree, m: map<Key, CellId>, k: Key)
    requires k in m && !Holds(t, k)
    ensures !Denotes(t, m)
    ensures forall past: nat -> Byte :: SearchRoot(Some(t), k, past) == None
  {
    assert !Has(t, k, m[k]);
    forall past: nat -> Byte
      ensures Search(t, k, past, 0) == None
    {
      SearchSound(t, k, past, 0);
    }
  }

  /**
   * Insertion with what it writes: a stored key changes nothing; any other key that fits is added, and nothing else
   * changes, if and only if the key that gives way has at most thirteen bytes. A longer one is not found any more.
   */
  lemma PutExact(root: Option<Tree>, m: map<Key, CellId>, key: Key, val: CellId, last: Byte, next: Byte)
    requires Represents(root, m) && Fits(m, key)
    ensures var r := PutRoot(root, key, val, last, next);
      && (key in m ==> r == root)
      && (ShortSplit(m.Keys, key) ==> r == InsertRoot(root, key, val))
      && (key !in m ==> (Represents(r, m[key := val]) <==> ShortSplit(m.Keys, key)))
      && (forall k, past: nat -> Byte :: GivesWay(m.Keys, k, key) && |k| > 13 ==> SearchRoot(r, k, past) == None)
  {
    hide WF, NodeOk, MinKey, Denotes, Fits, Has, Holds, Common;
    InsertRepresents(root, m, key, val);
    var r := PutRoot(root, key, val, last, next);
    if root.Some? {
      PutBelow(root.value, m, key, val, last, next);
      forall k | GivesWay(m.Keys, k, key) && |k| > LOCK_AT
        ensures !Represents(r, m[key := val])
        ensures forall past: nat -> Byte :: SearchRoot(r, k, past) == None
      {
        NotStored(r.value, m[key := val], k);
      }
    }
  }

  /** Removal takes out the key, if it is there, and nothing else. */
  lemma RemoveRepresents(root: Option<Tree>, m: map<Key, CellId>, key: Key, past: nat -> Byte)
    requires Represents(root, m)
    ensures Represents(RemoveRoot(root, key, past), m - {key})
  {
    hide WF, NodeOk, MinKey;
    match root {
      case None =>
        assert m - {key} == map[];
      case Some(Leaf(k, v)) =>
        LeafFacts(root.value, 0);
        assert Has(root.value, k, v);
        assert forall j :: j in m ==> Has(root.value, j, m[j]);
        if k == key {
          assert m - {key} == map[];
        }
      case Some(t) =>
        RemoveOk(t, key, past, 0);
    }
  }

  lemma SearchRepresents(root: Option<Tree>, m: map<Key, CellId>, key: Key, past: nat -> Byte)
    requires Represents(root, m)
    ensures SearchRoot(root, key, past) == if key in m then Some(m[key]) else None
  {
    hide WF, NodeOk, MinKey, Search;
    if root.Some? {
      SearchMiss(root.value, key, past, 0);
      if key in m {
        assert Has(root.value, key, m[key]);
        SearchExact(root.value, key, past, 0, m[key]);
      }
    }
  }

  /** The walk of a logical delete answers the same. */
  lemma LocateRepresents(t: Tree, m: map<Key, CellId>, key: Key)
    requires WF(t, 0) && Denotes(t, m)
    ensures Locate(t, key, 0) == if key in m then Some(m[key]) else None
  {
    hide WF, NodeOk, Locate;
    forall v: CellId
      ensures Locate(t, key, 0) == Some(v) <==> Has(t, key, v)
    {
      LocateExact(t, key, 0, v);
    }
    if Locate(t, key, 0).Some? {
      assert Has(t, key, Locate(t, key, 0).value);
    }
    if key in m {
      assert Has(t, key, m[key]);
    }
  }

  /** Two different stored keys part before either one ends. */
  lemma {:induction false} LeavesPart(t: Tree, d: nat, j: Key, v: CellId, k: Key, w: CellId)
    requires WF(t, d) && Has(t, j, v) && Has(t, k, w) && j != k
    ensures !Nested(j, k)
  {
    hide MinKey, WF;
    if t.Leaf? {
      LeafFacts(t, d);
    } else {
      KeyThrough(t, d, j, v);
      KeyThrough(t, d, k, w);
      var n := d + t.plen;
      if j[n] == k[n] {
        Child(t, d, j[n]);
        LeavesPart(t.kids[j[n]], n + 1, j, v, k, w);
      }
    }
  }

  lemma KeysPart(root: Option<Tree>, m: map<Key, CellId>)
    requires Represents(root, m)
    ensures forall k :: k in m ==> Fits(m, k)
  {
    hide WF, Has, Nested;
    forall k | k in m
      ensures Fits(m, k)
    {
      KeyThrough(root.value, 0, k, m[k]);
      forall j | j in m && j != k
        ensures !Nested(j, k)
      {
        LeavesPart(root.value, 0, j, m[j], k, m[k]);
      }
    }
  }

  // ---------- runs ----------

  /** `last` and `next` are bytes of memory that nobody set, behind the two keys of a leaf split. */
  datatype Op = Put(key: Key, val: CellId, last: Byte, next: Byte) | Drop(key: Key)

  /** The map after some operations; `Put` never replaces a value, as the tree itself does not. */
  function MapAfter(ops: seq<Op>): map<Key, CellId> {
    if ops == [] then map[]
    else
      var m := MapAfter(ops[..|ops| - 1]);
      match ops[|ops| - 1]
      case Put(key, val, _, _) => if key in m then m else m[key := val]
      case Drop(key) => m - {key}
  }

  function TreeAfter(ops: seq<Op>, past: nat -> Byte): Option<Tree> {
    if ops == [] then None
    else
      var root := TreeAfter(ops[..|ops| - 1], past);
      match ops[|ops| - 1]
      case Put(key, val, last, next) => PutRoot(root, key, val, last, next)
      case Drop(key) => RemoveRoot(root, key, past)
  }

  /** Every `Put` of the run keeps the key set prefix-free, and no leaf that gives way has a long key. */
  ghost predicate Legal(ops: seq<Op>) {
    forall i :: 0 <= i < |ops| && ops[i].Put? ==>
      Fits(MapAfter(ops[..i]), ops[i].key) && ShortSplit(MapAfter(ops[..i]).Keys, ops[i].key)
  }

  /** Every reachable tree is well-formed and stores exactly the map. */
  lemma {:induction false} RunRepresents(ops: seq<Op>, past: nat -> Byte)
    requires Legal(ops)
    ensures Represents(TreeAfter(ops, past), MapAfter(ops))
  {
    hide Represents, Fits, ShortSplit;
    if ops == [] {
      assert Represents(None, map[]) by {
        EmptyRepresents();
      }
    } else {
      var init := ops[..|ops| - 1];
      assert forall i :: 0 <= i <= |init| ==> init[..i] == ops[..i];
      RunRepresents(init, past);
      match ops[|ops| - 1] {
        case Put(key, val, last, next) => PutExact(TreeAfter(init, past), MapAfter(init), key, val, last, next);
        case Drop(key) => RemoveRepresents(TreeAfter(init, past), MapAfter(init), key, past);
      }
    }
  }

  lemma EmptyRepresents()
    ensures Represents(None, map[])
  {
  }

  /** After any legal run one more insertion of a new key does what it should exactly if it splits no long leaf. */
  lemma NextPutExact(ops: seq<Op>, op: Op, past: nat -> Byte)
    requires Legal(ops) && op.Put? && Fits(MapAfter(ops), op.key) && op.key !in MapAfter(ops)
    ensures Represents(TreeAfter(ops + [op], past), MapAfter(ops + [op])) <==> ShortSplit(MapAfter(ops).Keys, op.key)
  {
    hide Represents, Fits, ShortSplit, Legal;
    assert (ops + [op])[..|ops|] == ops;
    RunRepresents(ops, past);
    PutExact(TreeAfter(ops, past), MapAfter(ops), op.key, op.val, op.last, op.next);
  }

  /** The fourteen bytes `bxxxxxxxxxxxxx`. */
  function LongKey(): Key {
    [98] + seq(13, _ => 120)
  }

  lemma FirstPut(op: Op, past: nat -> Byte)
    requires op.Put?
    ensures MapAfter([op]) == map[op.key := op.val] && TreeAfter([op], past) == Some(Leaf(op.key, op.val))
    ensures IsKey(op.key) ==> Represents(TreeAfter([op], past), MapAfter([op]))
  {
    assert [op][..0] == [] && |[op]| == 1;
    assert TreeAfter([], past) == None && MapAfter([]) == map[];
    LeafFacts(Leaf(op.key, op.val), 0);
  }

  /** After these two insertions the first key is not found, whatever lies behind the keys. */
  lemma LongKeyLost(val: CellId, other: CellId, last: Byte, next: Byte, past: nat -> Byte)
    ensures var ops := [Put(LongKey(), val, last, next), Put([99], other, last, next)];
      && LongKey() in MapAfter(ops) && SearchRoot(TreeAfter(ops, past), LongKey(), past) == None
  {
    hide GivesWay, InsertTouched, Search, Represents, Nested, LongKey;
    var put, more := Put(LongKey(), val, last, next), Put([99], other, last, next);
    FirstBytesDiffer();
    FirstPut(put, past);
    assert map[LongKey() := val].Keys == {LongKey()};
    PutExact(TreeAfter([put], past), MapAfter([put]), [99], other, last, next);
    assert [put, more][..1] == [put] && |[put, more]| == 2;
  }

  lemma FirstBytesDiffer()
    ensures GivesWay({LongKey()}, LongKey(), [99])
    ensures !Nested(LongKey(), [99]) && IsKey(LongKey()) && |LongKey()| == 14
  {
    assert LongKey()[0] == 98;
  }

  /** Two runs that store the same map build trees of the same shape, whatever they did on the way. */
  lemma ShapeForgetsHistory(ops: seq<Op>, others: seq<Op>, past: nat -> Byte)
    requires Legal(ops) && Legal(others) && MapAfter(ops) == MapAfter(others)
    ensures match (TreeAfter(ops, past), TreeAfter(others, past))
      case (None, None) => true
      case (Some(t), Some(u)) => SameShape(t, u)
      case _ => false
  {
    hide WF, NodeOk, MinKey, SameShape, Legal;
    RunRepresents(ops, past);
    RunRepresents(others, past);
    match (TreeAfter(ops, past), TreeAfter(others, past)) {
      case (Some(t), Some(u)) =>
        ShapeByContents(t, u, 0);
      case (Some(t), None) =>
        NotEmpty(t, MapAfter(ops));
      case (None, Some(u)) =>
        NotEmpty(u, MapAfter(others));
      case (None, None) =>
    }
  }

  lemma NotEmpty(t: Tree, m: map<Key, CellId>)
    requires WF(t, 0) && Denotes(t, m)
    ensures m != map[]
  {
    hide WF, NodeOk;
    MinKeyHeld(t, 0);
  }

  /** Removing a key that was just inserted restores the shape of the tree. */
  lemma RemoveUndoesInsert(t: Tree, m: map<Key, CellId>, key: Key, val: CellId, last: Byte, next: Byte,
                           past: nat -> Byte)
    requires WF(t, 0) && Denotes(t, m) && Fits(m, key) && key !in m && ShortSplit(m.Keys, key)
    ensures var u := RemoveRoot(PutRoot(Some(t), key, val, last, next), key, past);
      u.Some? && SameShape(u.value, t)
  {
    hide WF, NodeOk, MinKey, SameShape, ShortSplit;
    var grown := PutRoot(Some(t), key, val, last, next);
    PutExact(Some(t), m, key, val, last, next);
    RemoveRepresents(grown, m[key := val], key, past);
    assert m[key := val] - {key} == m;
    NotEmpty(t, m);
    var u := RemoveRoot(grown, key, past);
    ShapeByContents(u.value, t, 0);
  }
}
