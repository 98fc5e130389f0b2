/** Whole runs of a table: what any sequence of operations makes of a key, and tables that perform one. */
module TableRuns {
  import opened Bytes
  import opened Options
  import opened Trie
  import opened TrieMap
  import opened VersionChain
  import opened LeafLock
  import opened LeafCopy
  import opened TrieTouch
  import opened TableSpec
  import opened ArtTree
  import opened ArtRoot
  import opened ArtTable
  import opened ArtUpdateAll

  /**
   * One operation of a table, with what it finds in its surroundings: statuses, and bytes of memory that
   * nobody set.
   */
  datatype Act<!V> =
    | Upsert(key: Key, value: V, txn: TxnId, active: Status, rest: Field)
    | Change(key: Key, updater: V -> V, txn: TxnId, attempts: nat -> Status)
    | ChangeWhere(filter: V -> bool, updater: V -> V, txn: TxnId, attempts: nat -> Status)
    | Erase(key: Key, txn: TxnId, attempts: nat -> Status)
    | Collect(tail: seq<Byte>)

  /** The guard lets the transaction pass at some attempt. */
  ghost predicate Passes<V>(c: Chain<V>, txn: TxnId, active: nat -> Status)
    requires c != []
  {
    exists i: nat :: !Conflict(c, txn, active(i))
  }

  /**
   * The key set stays prefix-free, no leaf of a long key gives way, an update finds an inner root, and calls that
   * wait do not wait forever.
   */
  ghost predicate Possible<V>(s: Shelf<V>, act: Act<V>)
    requires Shaped(s)
  {
    match act
    case Upsert(key, _, _, _, _) =>
      IsKey(key) && (forall k :: k in s.chains && k != key ==> !Nested(k, key)) && ShortSplit(s.chains.Keys, key)
    case Change(key, _, txn, active) => |s.chains| >= 2 && (key in s.chains ==> Passes(s.chains[key], txn, active))
    case ChangeWhere(filter, _, txn, active) => exists i: nat :: Calm(s.chains, txn, filter, active(i))
    case Erase(key, txn, active) => key in s.chains ==> Passes(s.chains[key], txn, active)
    case Collect(_) => true
  }

  ghost function ActAfter<V>(s: Shelf<V>, act: Act<V>): (r: Shelf<V>)
    requires Shaped(s)
    ensures Shaped(r)
  {
    NextShaped(s, act);
    ShelfNext(s, act)
  }

  ghost function ShelfNext<V>(s: Shelf<V>, act: Act<V>): Shelf<V>
    requires Shaped(s)
  {
    match act
    case Upsert(key, value, txn, active, rest) => UpsertedShelf(s, key, txn, value, active, rest)
    case Change(key, updater, txn, _) => if key in s.chains then CalledShelf(s, key, Update(txn, updater)) else s
    case ChangeWhere(filter, updater, txn, _) => UpdatedShelf(s, filter, Update(txn, updater))
    case Erase(key, txn, _) => if key in s.chains then CalledShelf(s, key, Delete(txn)) else s
    case Collect(tail) => Collected(s, tail)
  }

  lemma CalledShaped<V>(s: Shelf<V>, key: Key, call: Call<V>)
    requires Shaped(s) && key in s.chains
    ensures Shaped(CalledShelf(s, key, call))
  {
    hide CopiesOk, Changed;
    ChangedShaped(s, key, call.txn, After(s.chains[key], call));
  }

  lemma UpsertedShaped<V>(s: Shelf<V>, key: Key, txn: TxnId, value: V, active: Status, rest: Field)
    requires Shaped(s)
    ensures Shaped(UpsertedShelf(s, key, txn, value, active, rest))
  {
    hide CopiesOk, Changed, AddedShelf;
    if key in s.chains {
      ChangedShaped(s, key, txn, Overwritten(s.chains[key], txn, value, active));
    } else {
      AddedShaped(s, key, txn, value, rest);
    }
  }

  lemma NextShaped<V>(s: Shelf<V>, act: Act<V>)
    requires Shaped(s)
    ensures Shaped(ShelfNext(s, act))
  {
    hide Shaped, UpsertedShelf, CalledShelf, UpdatedShelf, Collected;
    match act {
      case Upsert(key, value, txn, active, rest) => UpsertedShaped(s, key, txn, value, active, rest);
      case Change(key, updater, txn, _) => if key in s.chains { CalledShaped(s, key, Update(txn, updater)); }
      case ChangeWhere(filter, updater, txn, _) => UpdatedShaped(s, filter, Update(txn, updater));
      case Erase(key, txn, _) => if key in s.chains { CalledShaped(s, key, Delete(txn)); }
      case Collect(tail) => CollectedShaped(s, tail);
    }
  }

  ghost function NoShelf<V>(): (s: Shelf<V>)
    ensures Shaped(s)
  {
    Shelf(map[], map[], map[])
  }

  /** A run that starts with the empty table. */
  ghost function RunActs<V>(acts: seq<Act<V>>): (s: Shelf<V>)
    ensures Shaped(s)
  {
    if acts == [] then NoShelf() else ActAfter(RunActs(acts[..|acts| - 1]), acts[|acts| - 1])
  }

  /** No transaction has the id that marks an open end. */
  predicate RealId<V>(act: Act<V>) {
    act.Erase? ==> act.txn != INF
  }

  ghost predicate Legal<V>(acts: seq<Act<V>>) {
    forall i :: 0 <= i < |acts| ==> Possible(RunActs(acts[..i]), acts[i]) && RealId(acts[i])
  }

  lemma LegalFront<V>(acts: seq<Act<V>>, n: nat)
    requires Legal(acts) && n <= |acts|
    ensures Legal(acts[..n])
    ensures n < |acts| ==> Possible(RunActs(acts[..n]), acts[n]) && RealId(acts[n])
  {
    hide Possible, RunActs;
    forall i | 0 <= i < n
      ensures acts[..n][..i] == acts[..i] && acts[..n][i] == acts[i]
    {
    }
  }

  lemma {:induction false} RunApart<V>(acts: seq<Act<V>>)
    requires Legal(acts)
    ensures Apart(RunActs(acts).chains.Keys)
  {
    hide Apart, ActAfter, Legal;
    if acts != [] {
      LegalFront(acts, |acts| - 1);
      RunApart(acts[..|acts| - 1]);
      ActApart(RunActs(acts[..|acts| - 1]), acts[|acts| - 1]);
    } else {
      NoneApart<V>();
    }
  }

  lemma NoneApart<V>()
    ensures Apart(NoShelf<V>().chains.Keys)
  {
  }

  /** Which keys an operation leaves. */
  lemma ActKeys<V>(s: Shelf<V>, act: Act<V>, key: Key)
    requires Shaped(s)
    ensures key in ShelfNext(s, act).chains ==> key in s.chains || (act.Upsert? && act.key == key)
    ensures key in s.chains ==> key in ShelfNext(s, act).chains || act.Collect?
  {
    hide Gone, Push, Ascend, PushedAll, Overwritten, After, RestsAfter;
  }

  lemma ActApart<V>(s: Shelf<V>, act: Act<V>)
    requires Shaped(s) && Apart(s.chains.Keys) && Possible(s, act)
    ensures Apart(ActAfter(s, act).chains.Keys)
  {
    hide IsKey, Passes, Calm, ShelfNext, ShortSplit;
    forall k
      ensures k in ActAfter(s, act).chains ==> k in s.chains || (act.Upsert? && act.key == k)
    {
      ActKeys(s, act, k);
    }
    NestedTurns();
  }

  lemma NestedTurns()
    ensures forall j, k :: Nested(j, k) ==> Nested(k, j)
  {
  }

  // ---------- one key ----------

  /**
   * A stored key: the byte behind it in its leaf, whether its newest snapshot has ended, and whether the write sets
   * have a copy of its leaf that ends it with a 0.
   */
  datatype KeyState = Absent | Held(behind: Byte, ended: bool, caught: bool)

  /** A call on the cell of the key, which may end its newest snapshot; a copy of the leaf goes to the write sets. */
  function Noted(key: Key, k: KeyState, ended: bool): KeyState {
    match k
    case Absent => Absent
    case Held(behind, _, caught) => Held(behind, ended, caught || (|key| < FIELD && behind == 0))
  }

  /** The leaf gives way to another key; its lock lies right behind a key of thirteen bytes. */
  function GaveWay(key: Key, k: KeyState): KeyState {
    if k.Absent? || |key| != LOCK_AT then k else k.(behind := (k.behind as int + 4) % 256)
  }

  /** What one operation makes of one key, whatever it does to other keys; `s` is the table before. */
  ghost function StateNext<V>(s: Shelf<V>, act: Act<V>, key: Key, k: KeyState): KeyState {
    match act
    case Upsert(j, _, txn, active, rest) =>
      if j != key then (if GivesWay(s.chains.Keys, key, j) then GaveWay(key, k) else k)
      else if k.Absent? then Held(rest[0], false, false)
      else if key in s.chains && s.chains[key] != [] && Conflict(s.chains[key], txn, active) then Noted(key, k, k.ended)
      else Noted(key, k, false)
    case Change(j, _, _, _) => if j != key then k else Noted(key, k, false)
    case ChangeWhere(filter, _, _, _) => if Selected(s.chains, key, filter) then Noted(key, k, false) else k
    case Erase(j, _, _) => if j != key then k else Noted(key, k, true)
    case Collect(tail) =>
      if k.Absent? || (k.ended && k.caught) || Overrun(s, tail, key) then Absent else k.(caught := false)
  }

  ghost function StateAfter<V>(acts: seq<Act<V>>, key: Key): KeyState {
    if acts == [] then Absent
    else
      var front := acts[..|acts| - 1];
      StateNext(RunActs(front), acts[|acts| - 1], key, StateAfter(front, key))
  }

  /** The state of the key in a table. */
  ghost predicate InState<V>(s: Shelf<V>, key: Key, k: KeyState)
    requires Shaped(s)
  {
    if key !in s.chains then k == Absent
    else k == Held(s.rests[key][0], IsEnded(s.chains[key]), Caught(s, key))
  }

  /** Which keys the write sets catch after one more copy. */
  lemma CaughtPush<V>(s: Shelf<V>, r: Shelf<V>, txn: TxnId, j: Key, key: Key)
    requires j in s.rests && r.sets == Push(s.sets, txn, CopyOf(s.rests, j))
    ensures Caught(r, key) <==> Caught(s, key) || (j == key && |key| < FIELD && s.rests[key][0] == 0)
  {
    hide InSets, Push, FieldOf;
    FieldStarts(j, s.rests[j]);
    var w := CopyOf(s.rests, j);
    forall c
      ensures InSets(r.sets, c) <==> InSets(s.sets, c) || c == w
    {
      PushedIn(s.sets, txn, w, c);
    }
    assert InSets(r.sets, w);
  }

  lemma CollectStates<V>(s: Shelf<V>, tail: seq<Byte>, key: Key, k: KeyState)
    requires Shaped(s) && Apart(s.chains.Keys) && InState(s, key, k)
    ensures Shaped(Collected(s, tail))
    ensures InState(Collected(s, tail), key, StateNext(s, Collect(tail), key, k))
  {
    hide Apart, Gone, Overrun, Clean, CopiesOk;
    CollectedShaped(s, tail);
    NoneCaught(Collected(s, tail), key);
    if key in s.chains {
      CollectExact(s, tail, key);
    }
  }

  lemma NoneCaught<V>(s: Shelf<V>, key: Key)
    requires s.sets == map[]
    ensures !Caught(s, key)
  {
  }

  lemma ChangedStates<V>(s: Shelf<V>, j: Key, txn: TxnId, c: Chain<V>, key: Key, k: KeyState)
    requires Shaped(s) && InState(s, key, k) && j in s.chains && c != []
    ensures Shaped(Changed(s, j, txn, c))
    ensures InState(Changed(s, j, txn, c), key, if j != key then k else Noted(key, k, IsEnded(c)))
  {
    hide Caught, CopyOf, Push, CopiesOk, IsEnded;
    ChangedShaped(s, j, txn, c);
    CaughtPush(s, Changed(s, j, txn, c), txn, j, key);
  }

  /** What a new key leaves of an old one. */
  lemma AddedOther<V>(s: Shelf<V>, j: Key, txn: TxnId, value: V, rest: Field, key: Key)
    requires Shaped(s) && key in s.chains && key != j && IsKey(key)
    ensures var r := AddedShelf(s, j, txn, value, rest);
      && r.sets == s.sets && key in r.chains && r.chains[key] == s.chains[key] && key in r.rests
      && var behind := s.rests[key][0];
      r.rests[key][0] == if GivesWay(s.chains.Keys, key, j) && |key| == LOCK_AT then (behind as int + 4) % 256
                         else behind
  {
    hide GivesWay, RestAfter, CopiesOk;
    BehindAfter(key, s.rests[key]);
  }

  lemma AddedNew<V>(s: Shelf<V>, j: Key, txn: TxnId, value: V, rest: Field, key: Key)
    ensures var r := AddedShelf(s, j, txn, value, rest);
      && (key in r.chains <==> key in s.chains || key == j)
      && r.sets == s.sets && r.chains[j] == Fresh(txn, value) && j in r.rests && r.rests[j] == rest
  {
    hide RestsAfter;
  }

  lemma SameCaught<V>(s: Shelf<V>, r: Shelf<V>, key: Key)
    requires r.sets == s.sets
    ensures Caught(r, key) <==> Caught(s, key)
  {
  }

  lemma AddedStates<V>(s: Shelf<V>, act: Act<V>, key: Key, k: KeyState)
    requires Shaped(s) && InState(s, key, k) && act.Upsert? && act.key !in s.chains && Apart(s.chains.Keys)
    ensures var r := AddedShelf(s, act.key, act.txn, act.value, act.rest);
      Shaped(r) && InState(r, key, StateNext(s, act, key, k))
  {
    hide CopiesOk, GivesWay, AddedShelf, Caught, Conflict;
    var r := AddedShelf(s, act.key, act.txn, act.value, act.rest);
    AddedShaped(s, act.key, act.txn, act.value, act.rest);
    AddedNew(s, act.key, act.txn, act.value, act.rest, key);
    SameCaught(s, r, key);
    if key in s.chains {
      AddedOther(s, act.key, act.txn, act.value, act.rest, key);
    } else {
      NewUncaught(s, key);
    }
  }

  /** The write sets have copies of leaves of stored keys only. */
  lemma NewUncaught<V>(s: Shelf<V>, key: Key)
    requires Shaped(s) && key !in s.chains
    ensures !Caught(s, key)
  {
    hide InSets;
  }

  lemma UpsertStates<V>(s: Shelf<V>, act: Act<V>, key: Key, k: KeyState)
    requires Shaped(s) && InState(s, key, k) && act.Upsert? && Apart(s.chains.Keys)
    ensures var r := UpsertedShelf(s, act.key, act.txn, act.value, act.active, act.rest);
      Shaped(r) && InState(r, key, StateNext(s, act, key, k))
  {
    hide Caught, Changed, Conflict, AddedShelf, CopiesOk, Apart;
    if act.key in s.chains {
      ChangedStates(s, act.key, act.txn, Overwritten(s.chains[act.key], act.txn, act.value, act.active), key, k);
    } else {
      AddedStates(s, act, key, k);
    }
  }

  lemma CalledStates<V>(s: Shelf<V>, j: Key, call: Call<V>, key: Key, k: KeyState)
    requires Shaped(s) && InState(s, key, k) && j in s.chains && !call.Overwrite? && (call.Delete? ==> call.txn != INF)
    ensures Shaped(CalledShelf(s, j, call))
    ensures InState(CalledShelf(s, j, call), key,
                    if j != key then k else Noted(key, k, call.Delete?))
  {
    hide Caught, Changed, CopiesOk;
    ChangedStates(s, j, call.txn, After(s.chains[j], call), key, k);
  }

  /** Which keys the write sets catch after an update by predicate. */
  lemma CaughtUpdated<V>(s: Shelf<V>, filter: V -> bool, call: Call<V>, key: Key)
    requires Shaped(s) && key in s.chains
    ensures Caught(UpdatedShelf(s, filter, call), key)
      <==> Caught(s, key) || (Selected(s.chains, key, filter) && |key| < FIELD && s.rests[key][0] == 0)
  {
    hide InSets, FieldOf, Selected, PushedAll, Ascend, UpdatedWhere, CopiesOk;
    var keys, r := Ascend(SelectedKeys(s.chains, filter)), UpdatedShelf(s, filter, call);
    AscendHas(SelectedKeys(s.chains, filter));
    FieldStarts(key, s.rests[key]);
    var w := CopyOf(s.rests, key);
    forall c: Copy | c.key == key
      ensures InSets(r.sets, c) <==> InSets(s.sets, c) || (Selected(s.chains, key, filter) && c == w)
    {
      PushedAllIn(s.sets, s.rests, keys, call.txn, c);
      if Selected(s.chains, key, filter) {
        assert key in keys;
        var j :| 0 <= j < |keys| && keys[j] == key;
        assert CopyOf(s.rests, keys[j]) == w;
      }
      assert forall j :: 0 <= j < |keys| ==> keys[j] in keys;
    }
    assert w.key == key;
  }

  lemma UpdatedStates<V>(s: Shelf<V>, filter: V -> bool, updater: V -> V, txn: TxnId, key: Key, k: KeyState)
    requires Shaped(s) && InState(s, key, k)
    ensures Shaped(UpdatedShelf(s, filter, Update(txn, updater)))
    ensures InState(UpdatedShelf(s, filter, Update(txn, updater)), key,
                    if Selected(s.chains, key, filter) then Noted(key, k, false) else k)
  {
    hide Caught, PushedAll, Ascend, CopiesOk;
    UpdatedShaped(s, filter, Update(txn, updater));
    if key in s.chains {
      CaughtUpdated(s, filter, Update(txn, updater), key);
    }
  }

  lemma ActStates<V>(s: Shelf<V>, act: Act<V>, key: Key, k: KeyState)
    requires Shaped(s) && Apart(s.chains.Keys) && Possible(s, act) && RealId(act) && InState(s, key, k)
    ensures InState(ActAfter(s, act), key, StateNext(s, act, key, k))
  {
    hide Shaped, Apart, UpsertedShelf, CalledShelf, UpdatedShelf, Collected, Overrun, Conflict, Possible, Caught;
    match act {
      case Upsert(_, _, _, _, _) => UpsertStates(s, act, key, k);
      case Change(j, updater, txn, _) => if j in s.chains { CalledStates(s, j, Update(txn, updater), key, k); }
      case ChangeWhere(filter, updater, txn, _) => UpdatedStates(s, filter, updater, txn, key, k);
      case Erase(j, txn, _) => if j in s.chains { CalledStates(s, j, Delete(txn), key, k); }
      case Collect(tail) => CollectStates(s, tail, key, k);
    }
  }

  lemma NoState<V>(key: Key)
    ensures InState<V>(NoShelf(), key, Absent)
  {
  }

  /**
   * After every run, a key is stored, ended and known to the write sets exactly as the operations on it say,
   * one after the other; other keys have a part in it only by collection and by splitting its leaf.
   */
  lemma {:induction false} RunStates<V>(acts: seq<Act<V>>, key: Key)
    requires Legal(acts)
    ensures InState(RunActs(acts), key, StateAfter(acts, key))
  {
    hide Legal, Apart, InState, StateNext, ActAfter, Possible;
    if acts == [] {
      NoState<V>(key);
    } else {
      var front := acts[..|acts| - 1];
      LegalFront(acts, |front|);
      RunApart(front);
      RunStates(front, key);
      ActStates(RunActs(front), acts[|acts| - 1], key, StateAfter(front, key));
    }
  }

  /** An ended key with a 0 behind it is caught, and nothing else is. */
  predicate CaughtIfDue(key: Key, k: KeyState) {
    k.Held? && |key| < FIELD && |key| != LOCK_AT ==>
      (k.caught ==> k.behind == 0) && (k.behind == 0 && k.ended ==> k.caught)
  }

  lemma NextCaught<V>(s: Shelf<V>, act: Act<V>, key: Key, k: KeyState)
    requires CaughtIfDue(key, k)
    ensures CaughtIfDue(key, StateNext(s, act, key, k))
  {
    hide Overrun, Selected, Conflict, GivesWay;
  }

  /**
   * The leaf of an ended key of other than thirteen bytes, with a 0 behind it, is always in the write sets, although
   * collection empties them.
   */
  lemma {:induction false} CleanTracked<V>(acts: seq<Act<V>>, key: Key)
    ensures CaughtIfDue(key, StateAfter(acts, key))
  {
    hide CaughtIfDue, StateNext, RunActs;
    assert CaughtIfDue(key, Absent) by {
      AbsentKnown(key);
    }
    if acts != [] {
      var front := acts[..|acts| - 1];
      CleanTracked(front, key);
      NextCaught(RunActs(front), acts[|acts| - 1], key, StateAfter(front, key));
    }
  }

  lemma AbsentKnown(key: Key)
    ensures CaughtIfDue(key, Absent)
  {
  }

  /**
   * Collection after any run. A key shorter than the field is removed exactly if its newest snapshot has ended and
   * its leaf happens to have a 0 behind it, no matter what was collected before; with thirteen bytes it depends on
   * what was behind it when a copy was taken.
   */
  lemma CollectAfterRun<V>(acts: seq<Act<V>>, tail: seq<Byte>, key: Key)
    requires Legal(acts) && key in RunActs(acts).chains
    ensures var s := RunActs(acts);
      && (|key| < 20 && |key| != 13 ==>
            (key !in Collected(s, tail).chains <==> IsEnded(s.chains[key]) && s.rests[key][0] == 0))
      && (|key| == 13 ==> (key !in Collected(s, tail).chains <==> IsEnded(s.chains[key]) && Caught(s, key)))
      && (|key| >= 20 ==> (key !in Collected(s, tail).chains <==> Overrun(s, tail, key)))
  {
    RunApart(acts);
    RunStates(acts, key);
    CleanTracked(acts, key);
    hide Legal, RunActs, StateAfter, Apart, Collected, InSets, Listing;
    CollectExact(RunActs(acts), tail, key);
  }

  lemma UncleanStep<V>(s: Shelf<V>, act: Act<V>, key: Key)
    requires Shaped(s) && Apart(s.chains.Keys) && key in s.chains && |key| < FIELD && s.rests[key][0] != 0
    requires |key| != LOCK_AT && Possible(s, act) && RealId(act)
    requires !Caught(s, key)
    ensures key in ActAfter(s, act).chains && ActAfter(s, act).rests[key][0] == s.rests[key][0]
    ensures !Caught(ActAfter(s, act), key)
  {
    hide Apart, ActAfter, Possible, Caught, Listing;
    ActStates(s, act, key, Held(s.rests[key][0], IsEnded(s.chains[key]), false));
  }

  /** A short key of other than thirteen bytes whose leaf has no 0 behind it stays for good, deleted or not. */
  lemma {:induction false} UncleanStays<V>(acts: seq<Act<V>>, n: nat, key: Key)
    requires Legal(acts) && n <= |acts| && key in RunActs(acts[..n]).chains
    requires |key| < FIELD && |key| != LOCK_AT && RunActs(acts[..n]).rests[key][0] != 0
    ensures key in RunActs(acts).chains && RunActs(acts).rests[key][0] == RunActs(acts[..n]).rests[key][0]
    decreases |acts|
  {
    hide Apart, ActAfter, Caught, Possible;
    if n == |acts| {
      assert acts[..n] == acts;
    } else {
      var front := acts[..|acts| - 1];
      assert front[..n] == acts[..n];
      LegalFront(acts, |front|);
      UncleanStays(front, n, key);
      RunApart(front);
      RunStates(front, key);
      CleanTracked(front, key);
      UncleanStep(RunActs(front), acts[|front|], key);
    }
  }

  // ---------- the current value ----------

  /** What one operation makes of the newest snapshot of one key; `s` is the table before. */
  ghost function NewestNext<V>(s: Shelf<V>, act: Act<V>, key: Key, v: Option<Version<V>>): Option<Version<V>>
    requires Shaped(s)
  {
    match act
    case Upsert(j, value, txn, active, _) =>
      if j != key then v
      else if v.Some? && v.value.end != INF && v.value.version != txn && active(v.value.version) then v
      else Some(Version(txn, INF, value))
    case Change(j, updater, txn, _) =>
      if j == key && v.Some? then Some(Version(txn, INF, updater(v.value.value))) else v
    case ChangeWhere(filter, updater, txn, _) =>
      if v.Some? && filter(v.value.value) then Some(Version(txn, INF, updater(v.value.value))) else v
    case Erase(j, txn, _) =>
      if j == key && v.Some? then Some(v.value.(end := txn)) else v
    case Collect(tail) =>
      if v.Some? && ((v.value.end != INF && Caught(s, key)) || Overrun(s, tail, key)) then None else v
  }

  ghost function NewestAfter<V>(acts: seq<Act<V>>, key: Key): Option<Version<V>> {
    if acts == [] then None
    else
      var front := acts[..|acts| - 1];
      NewestNext(RunActs(front), acts[|acts| - 1], key, NewestAfter(front, key))
  }

  /** `v` is the newest snapshot of the key, if the key is stored. */
  ghost predicate IsNewest<V>(s: Shelf<V>, key: Key, v: Option<Version<V>>)
    requires Shaped(s)
  {
    if key in s.chains then v == Some(s.chains[key][0]) else v == None
  }

  lemma UpsertNewest<V>(s: Shelf<V>, act: Act<V>, key: Key, v: Option<Version<V>>)
    requires Shaped(s) && act.Upsert? && IsNewest(s, key, v)
    ensures Shaped(ShelfNext(s, act)) && IsNewest(ShelfNext(s, act), key, NewestNext(s, act, key, v))
  {
    hide UpsertedShelf, CopiesOk;
    UpsertedShaped(s, act.key, act.txn, act.value, act.active, act.rest);
    UpsertIs(s, act.key, act.txn, act.value, act.active, act.rest);
  }

  lemma CalledNewest<V>(s: Shelf<V>, act: Act<V>, key: Key, v: Option<Version<V>>)
    requires Shaped(s) && (act.Change? || act.Erase?) && act.key in s.chains && IsNewest(s, key, v)
    ensures Shaped(ShelfNext(s, act)) && IsNewest(ShelfNext(s, act), key, NewestNext(s, act, key, v))
  {
    hide CalledShelf, CopiesOk;
    NextShaped(s, act);
    CalledIs(s, act.key, act.txn, if act.Change? then act.updater else v => v);
  }

  lemma UpdatedNewest<V>(s: Shelf<V>, act: Act<V>, key: Key, v: Option<Version<V>>)
    requires Shaped(s) && act.ChangeWhere? && IsNewest(s, key, v)
    ensures Shaped(ShelfNext(s, act)) && IsNewest(ShelfNext(s, act), key, NewestNext(s, act, key, v))
  {
    hide UpdatedWhere, CopiesOk, PushedAll, Ascend;
    NextShaped(s, act);
    UpdatedIs(s.chains, act.filter, act.updater, act.txn);
  }

  lemma CollectedNewest<V>(s: Shelf<V>, tail: seq<Byte>, key: Key, v: Option<Version<V>>)
    requires Shaped(s) && Apart(s.chains.Keys) && IsNewest(s, key, v)
    ensures Shaped(Collected(s, tail)) && IsNewest(Collected(s, tail), key, NewestNext(s, Collect(tail), key, v))
  {
    hide Apart, Gone, Overrun, CopiesOk, Caught;
    CollectedShaped(s, tail);
    if key in s.chains {
      CollectExact(s, tail, key);
    }
  }

  lemma ActNewest<V>(s: Shelf<V>, act: Act<V>, key: Key, v: Option<Version<V>>)
    requires Shaped(s) && Apart(s.chains.Keys) && IsNewest(s, key, v)
    ensures IsNewest(ActAfter(s, act), key, NewestNext(s, act, key, v))
  {
    hide Shaped, Apart, IsNewest, UpsertedShelf, CalledShelf, UpdatedShelf, Collected, Overrun, Caught;
    match act {
      case Upsert(_, _, _, _, _) => UpsertNewest(s, act, key, v);
      case Change(j, _, _, _) =>
        if j in s.chains { CalledNewest(s, act, key, v); } else { NothingNewest(s, act, key, v); }
      case ChangeWhere(_, _, _, _) => UpdatedNewest(s, act, key, v);
      case Erase(j, _, _) =>
        if j in s.chains { CalledNewest(s, act, key, v); } else { NothingNewest(s, act, key, v); }
      case Collect(tail) => CollectedNewest(s, tail, key, v);
    }
  }

  lemma NothingNewest<V>(s: Shelf<V>, act: Act<V>, key: Key, v: Option<Version<V>>)
    requires Shaped(s) && (act.Change? || act.Erase?) && act.key !in s.chains && IsNewest(s, key, v)
    ensures NewestNext(s, act, key, v) == v
  {
    hide CopiesOk, Overrun, Caught;
  }

  lemma NoNewest<V>(key: Key)
    ensures IsNewest<V>(NoShelf(), key, None)
  {
  }

  /**
   * After every run the newest snapshot of each key, with its value, is what the operations make of it, one after
   * the other: an upsert stores its value unless the guard turns it away, an update what it makes of the value before.
   */
  lemma {:induction false} RunNewest<V>(acts: seq<Act<V>>, key: Key)
    requires Legal(acts)
    ensures IsNewest(RunActs(acts), key, NewestAfter(acts, key))
  {
    hide Legal, Apart, IsNewest, NewestNext, ActAfter, Possible;
    if acts == [] {
      NoNewest<V>(key);
    } else {
      var front := acts[..|acts| - 1];
      LegalFront(acts, |front|);
      RunApart(front);
      RunNewest(front, key);
      ActNewest(RunActs(front), acts[|acts| - 1], key, NewestAfter(front, key));
    }
  }

  /** A transaction may write again what it has deleted itself, whatever its status. */
  lemma RewriteOwn<V>(acts: seq<Act<V>>, key: Key, txn: TxnId, v: V, w: V, active: Status, attempts: nat -> Status,
                      again: Status, rest: Field, other: Field)
    requires var all := acts + [Upsert(key, v, txn, active, rest), Erase(key, txn, attempts),
                                Upsert(key, w, txn, again, other)];
      Legal(all)
    requires NewestAfter(acts + [Upsert(key, v, txn, active, rest)], key) == Some(Version(txn, INF, v))
    ensures var s := RunActs(acts + [Upsert(key, v, txn, active, rest), Erase(key, txn, attempts),
                                     Upsert(key, w, txn, again, other)]);
      key in s.chains && s.chains[key][0] == Version(txn, INF, w)
  {
    var write, erase := Upsert(key, v, txn, active, rest), Erase(key, txn, attempts);
    var more := Upsert(key, w, txn, again, other);
    hide Legal, RunActs, IsKey;
    RunNewest(acts + [write, erase, more], key);
    NewestLast(acts + [write], erase, key);
    NewestLast(acts + [write, erase], more, key);
    assert acts + [write] + [erase] == acts + [write, erase];
    assert acts + [write, erase] + [more] == acts + [write, erase, more];
  }

  lemma NewestLast<V>(acts: seq<Act<V>>, act: Act<V>, key: Key)
    ensures NewestAfter(acts + [act], key) == NewestNext(RunActs(acts), act, key, NewestAfter(acts, key))
  {
    hide NewestNext, RunActs;
    assert (acts + [act])[..|acts|] == acts;
  }

  /** A new key that is written once and deleted. */
  function OneDeleted<V>(key: Key, value: V, rest: Field, sets: Sets<Copy>): Shelf<V> {
    Shelf(map[key := Ended(Fresh(1, value), 2)], map[key := rest], sets)
  }

  lemma RunLast<V>(acts: seq<Act<V>>, act: Act<V>)
    ensures RunActs(acts + [act]) == ActAfter(RunActs(acts), act)
  {
    hide ActAfter;
    assert (acts + [act])[..|acts|] == acts;
  }

  lemma OneMore<V>(acts: seq<Act<V>>, act: Act<V>)
    requires Legal(acts) && Possible(RunActs(acts), act) && RealId(act)
    ensures Legal(acts + [act]) && RunActs(acts + [act]) == ShelfNext(RunActs(acts), act)
  {
    hide Possible, ShelfNext, RunActs;
    RunLast(acts, act);
    var all := acts + [act];
    assert all[..|acts|] == acts;
    forall i | 0 <= i < |acts|
      ensures all[..i] == acts[..i] && all[i] == acts[i]
    {
    }
  }

  lemma Written<V>(key: Key, value: V, active: Status, rest: Field)
    requires IsKey(key)
    ensures var acts := [Upsert(key, value, 1, active, rest)];
      Legal(acts) && RunActs(acts) == Shelf(map[key := Fresh(1, value)], map[key := rest], map[])
  {
    var acts: seq<Act<V>> := [];
    assert forall k :: !GivesWay({}, k, key);
    OneMore(acts, Upsert(key, value, 1, active, rest));
    assert acts + [Upsert(key, value, 1, active, rest)] == [Upsert(key, value, 1, active, rest)];
  }

  /** The write sets once the second transaction has deleted the key. */
  function DeletedIn(key: Key, rest: Field): Sets<Copy> {
    map[2 := [Copy(key, FieldOf(key, rest))]]
  }

  lemma WrittenAndDeleted<V>(key: Key, value: V, active: Status, attempts: nat -> Status, rest: Field)
    requires IsKey(key)
    ensures var acts := [Upsert(key, value, 1, active, rest), Erase(key, 2, attempts)];
      Legal(acts) && RunActs(acts) == OneDeleted(key, value, rest, DeletedIn(key, rest))
  {
    Written(key, value, active, rest);
    EraseFirst(key, value, attempts, rest);
    hide Legal, RunActs, FieldOf, Possible, ShelfNext, OneDeleted;
    var write, erase := Upsert(key, value, 1, active, rest), Erase(key, 2, attempts);
    OneMore([write], erase);
    assert [write] + [erase] == [write, erase];
  }

  lemma EraseFirst<V>(key: Key, value: V, attempts: nat -> Status, rest: Field)
    ensures var s, erase := Shelf(map[key := Fresh(1, value)], map[key := rest], map[]), Erase(key, 2, attempts);
      Shaped(s) && Possible(s, erase) && ShelfNext(s, erase) == OneDeleted(key, value, rest, DeletedIn(key, rest))
  {
    hide FieldOf;
    assert !Conflict(Fresh(1, value), 2, attempts(0));
    var s, erase := Shelf(map[key := Fresh(1, value)], map[key := rest], map[]), Erase(key, 2, attempts);
    assert [] + [Copy(key, FieldOf(key, rest))] == [Copy(key, FieldOf(key, rest))];
    assert ShelfNext(s, erase).sets == DeletedIn(key, rest);
  }

  lemma ThenCollected<V>(key: Key, value: V, active: Status, attempts: nat -> Status, rest: Field, tail: seq<Byte>)
    requires IsKey(key)
    ensures var acts := [Upsert(key, value, 1, active, rest), Erase(key, 2, attempts), Collect(tail)];
      Legal(acts) && RunActs(acts) == Collected(OneDeleted(key, value, rest, DeletedIn(key, rest)), tail)
  {
    WrittenAndDeleted(key, value, active, attempts, rest);
    hide Legal, RunActs, OneDeleted, Collected, DeletedIn;
    var write, erase, collect := Upsert(key, value, 1, active, rest), Erase(key, 2, attempts), Collect(tail);
    OneMore([write, erase], collect);
    assert [write, erase] + [collect] == [write, erase, collect];
  }

  lemma OnlyListed<V>(key: Key, value: V, rest: Field)
    ensures Listing(OneDeleted(key, value, rest, DeletedIn(key, rest))) == [Copy(key, FieldOf(key, rest))]
  {
    hide FieldOf;
    var s := OneDeleted(key, value, rest, DeletedIn(key, rest));
    assert s.sets.Keys == {2};
    assert LeastTxn({2}) == 2;
    assert ListedOf(s, {2}) == EndedOf(s.chains, s.sets[2]) + ListedOf(s, {2} - {2});
    assert EndedOf(s.chains, s.sets[2]) == [Copy(key, FieldOf(key, rest))] + EndedOf(s.chains, s.sets[2][1..]);
  }

  lemma KeyStays<V>(key: Key, value: V, rest: Field, tail: seq<Byte>)
    requires (key == [65] && rest[0] == 66) || (key == seq(21, _ => 65) && CString(tail) != [65])
    ensures Collected(OneDeleted(key, value, rest, DeletedIn(key, rest)), tail) == OneDeleted(key, value, rest, map[])
    ensures Collected(OneDeleted(key, value, rest, map[]), tail) == OneDeleted(key, value, rest, map[])
  {
    hide CString, FieldOf;
    NoneGone(OneDeleted(key, value, rest, map[]), tail);
    var s := OneDeleted(key, value, rest, DeletedIn(key, rest));
    var c := Copy(key, FieldOf(key, rest));
    FieldStarts(key, rest);
    OnlyListed(key, value, rest);
    assert Reading([c], 1, tail) == CString(tail) by {
      ReadingSplits([c], 0, tail);
      assert Flat(Fields([])) + tail == tail;
      assert [c][1..] == [];
    }
    ReadsAs({key}, [c], 0, tail, key);
    assert |key| >= FIELD ==> key[FIELD..] == [65];
    assert Gone(s, tail) == {Reading([c], 0, tail)};
    assert s.chains - Gone(s, tail) == s.chains && s.rests - Gone(s, tail) == s.rests;
  }

  /**
   * Two keys that are written, deleted and collected, and are still there afterwards: one whose leaf has no 0
   * behind it, and one that is longer than the field. Collecting again does not help, as they are not tracked any more.
   */
  lemma EndedKeyStays<V>(key: Key, value: V, active: Status, attempts: nat -> Status, rest: Field, tail: seq<Byte>)
    requires (key == [65] && rest[0] == 66) || (key == seq(21, _ => 65) && CString(tail) != [65])
    ensures var acts := [Upsert(key, value, 1, active, rest), Erase(key, 2, attempts), Collect(tail)];
      Legal(acts) && RunActs(acts) == OneDeleted(key, value, rest, map[])
    ensures Collected(OneDeleted(key, value, rest, map[]), tail) == OneDeleted(key, value, rest, map[])
  {
    hide Legal, RunActs, OneDeleted, Collected, CString, DeletedIn;
    ThenCollected(key, value, active, attempts, rest, tail);
    KeyStays(key, value, rest, tail);
  }

  /** The only copy in the write sets. */
  lemma OnlyCopy<V>(s: Shelf<V>, key: Key, rest: Field)
    requires s.sets == DeletedIn(key, rest) && |key| < FIELD
    ensures Caught(s, key) <==> rest[0] == 0
  {
    hide FieldOf;
    FieldStarts(key, rest);
    var c := Copy(key, FieldOf(key, rest));
    assert c in s.sets[2];
    assert forall d :: InSets(s.sets, d) ==> d == c;
  }

  /** Thirteen times `A`. */
  function Thirteen(): Key {
    seq(LOCK_AT, _ => 65)
  }

  lemma ThirteenSplit()
    ensures |Thirteen()| == LOCK_AT && IsKey(Thirteen()) && !Nested(Thirteen(), [66])
    ensures GivesWay({Thirteen()}, Thirteen(), [66]) && ShortSplit({Thirteen()}, [66])
  {
    assert Thirteen()[0] == 65;
  }

  /** The run of the next lemma. */
  function SplitLate<V>(value: V, active: Status, attempts: nat -> Status, rest: Field, other: Field): seq<Act<V>> {
    [Upsert(Thirteen(), value, 1, active, rest), Erase(Thirteen(), 2, attempts), Upsert([66], value, 3, active, other)]
  }

  lemma SplitLateIs<V>(value: V, active: Status, attempts: nat -> Status, rest: Field, other: Field)
    ensures var key := Thirteen();
      var before := OneDeleted(key, value, rest, DeletedIn(key, rest));
      && Legal(SplitLate(value, active, attempts, rest, other))
      && RunActs(SplitLate(value, active, attempts, rest, other)) == AddedShelf(before, [66], 3, value, other)
      && Shaped(before) && key in before.chains && IsEnded(before.chains[key]) && before.chains.Keys == {key}
  {
    hide Legal, RunActs, DeletedIn, GivesWay, Thirteen, Nested, AddedShelf, OverwrittenShelf;
    var key := Thirteen();
    var write, erase := Upsert(key, value, 1, active, rest), Erase(key, 2, attempts);
    var more := Upsert([66], value, 3, active, other);
    ThirteenSplit();
    WrittenAndDeleted(key, value, active, attempts, rest);
    assert OneDeleted(key, value, rest, DeletedIn(key, rest)).chains.Keys == {key};
    OneMore([write, erase], more);
    assert [write, erase] + [more] == [write, erase, more];
  }

  /**
   * Why thirteen bytes are different: after the deletion another key splits the leaf, and whether collection removes
   * the key depends on the byte that was behind it before. With 252 it has a 0 behind it now and stays, and with 0
   * it has none and goes.
   */
  lemma ThirteenDiffers<V>(value: V, active: Status, attempts: nat -> Status, rest: Field, other: Field,
                           tail: seq<Byte>)
    ensures var acts, key := SplitLate(value, active, attempts, rest, other), Thirteen();
      var s := RunActs(acts);
      && Legal(acts) && key in s.chains && IsEnded(s.chains[key]) && s.rests[key][0] == (rest[0] as int + 4) % 256
      && (key !in Collected(s, tail).chains <==> rest[0] == 0)
  {
    hide Legal, RunActs, Collected, OneDeleted, DeletedIn, GivesWay, Thirteen, Nested, Caught, AddedShelf, SplitLate,
      IsEnded, Shaped, Apart;
    var key := Thirteen();
    var before := OneDeleted(key, value, rest, DeletedIn(key, rest));
    ThirteenSplit();
    SplitLateIs(value, active, attempts, rest, other);
    var acts := SplitLate(value, active, attempts, rest, other);
    var s := RunActs(acts);
    DeletedParts(key, value, rest);
    AddedOther(before, [66], 3, value, other, key);
    RunApart(acts);
    CollectExact(s, tail, key);
    OnlyCopy(s, key, rest);
  }

  lemma DeletedParts<V>(key: Key, value: V, rest: Field)
    ensures var s := OneDeleted(key, value, rest, DeletedIn(key, rest));
      s.sets == DeletedIn(key, rest) && key in s.rests && s.rests[key] == rest
  {
  }

  // ---------- tables ----------

  /** A table with two keys has an inner node for a root. */
  lemma InnerRoot(root: Option<Ptr>, index: map<Key, CellId>)
    requires TreeOk(root, index)
    ensures root.None? || root.value.LeafAt? ==> |index| <= 1
  {
    hide WF, NodeOk;
    if root.Some? && root.value.LeafAt? {
      var key := root.value.key;
      assert forall k :: k in index ==> Has(View(root.value), k, index[k]);
      assert index.Keys == {} || index.Keys == {key};
      assert |index| == |index.Keys|;
    }
  }

  /** One operation on a table, whatever it is. */
  method Perform<V>(t: Table<V>, act: Act<V>, past: nat -> Byte)
    requires t.Valid() && Possible(t.Shelf(), act)
    modifies t, t.store.repr, RootFoot(t.root)
    ensures t.Valid() && t.Shelf() == ActAfter(old(t.Shelf()), act)
    ensures fresh(t.store.repr - old(t.store.repr)) && fresh(RootFoot(t.root) - old(RootFoot(t.root)))
  {
    hide t.Valid, t.Shelf, t.Stored, TreeOk, CellsOk, Shelved, UpsertedShelf, CalledShelf, UpdatedShelf, Collected,
      Conflict,
      Calm, Passes;
    t.Parts();
    t.KeysKnown();
    match act {
      case Upsert(key, value, txn, active, rest) =>
        t.InsertOrUpdateByKey(key, value, txn, active, rest);
      case Change(key, updater, txn, attempts) =>
        InnerRoot(t.root, t.index);
        ghost var calm := PassesAt(t.Shelf(), key, txn, attempts);
        var _ := t.UpdateByKey(key, updater, txn, past, attempts, calm);
      case ChangeWhere(filter, updater, txn, attempts) =>
        ghost var calm: nat :| Calm(t.Shelf().chains, txn, filter, attempts(calm));
        UpdateAllByPredicate(t, updater, txn, filter, attempts, calm);
      case Erase(key, txn, attempts) =>
        ghost var calm := PassesAt(t.Shelf(), key, txn, attempts);
        var _ := t.DeleteByKey(key, txn, attempts, calm);
      case Collect(tail) =>
        t.GC(past, tail);
    }
  }

  lemma PassesAt<V>(s: Shelf<V>, key: Key, txn: TxnId, attempts: nat -> Status) returns (calm: nat)
    requires Shaped(s) && (key in s.chains ==> Passes(s.chains[key], txn, attempts))
    ensures key in s.chains ==> !Conflict(s.chains[key], txn, attempts(calm))
  {
    calm := 0;
    if key in s.chains {
      calm :| !Conflict(s.chains[key], txn, attempts(calm));
    }
  }

  /** A new table that performs a whole run. */
  method Run<V>(acts: seq<Act<V>>, past: nat -> Byte) returns (t: Table<V>)
    requires Legal(acts)
    ensures fresh(t) && t.Valid() && t.Shelf() == RunActs(acts)
  {
    hide t.Valid, t.Shelf, t.Stored, TreeOk, CellsOk, Shelved, Possible, ActAfter, Legal;
    t := new Table();
    var i := 0;
    while i < |acts|
      invariant i <= |acts| && t.Valid() && t.Shelf() == RunActs(acts[..i])
      invariant fresh(t) && fresh(t.store.repr) && fresh(RootFoot(t.root))
    {
      LegalFront(acts, i);
      assert acts[..i + 1][..i] == acts[..i];
      Perform(t, acts[i], past);
      i := i + 1;
    }
    assert acts[..i] == acts;
  }
}
