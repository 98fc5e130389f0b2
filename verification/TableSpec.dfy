/**
 * What a table stores: a version chain and a leaf for every key, and the copies of leaves in the write sets that
 * garbage collection goes through.
 */
module TableSpec {
  import opened Bytes
  import opened VersionChain
  import opened LeafCopy
  import opened TrieTouch

  // ---------- the table as a value ----------

  /** A copy of the leaf of `key`, with what its key field was at that time. */
  datatype Copy = Copy(key: Key, field: Field)

  /** What each transaction has pushed, in this order. */
  type Sets<T> = map<TxnId, seq<T>>

  function Push<T>(sets: Sets<T>, txn: TxnId, x: T): Sets<T> {
    sets[txn := (if txn in sets then sets[txn] else []) + [x]]
  }

  /** A push goes to the end of what the transaction has pushed before, and to no other set. */
  lemma PushIs<T>(sets: Sets<T>, txn: TxnId, x: T, t: TxnId)
    ensures var r := Push(sets, txn, x);
      && (t in r <==> t in sets || t == txn)
      && (t in r ==> r[t] == (if t in sets then sets[t] else []) + (if t == txn then [x] else []))
  {
  }

  ghost predicate InSets<T>(sets: Sets<T>, x: T) {
    exists txn :: txn in sets && x in sets[txn]
  }

  lemma PushedIn<T>(sets: Sets<T>, txn: TxnId, w: T, x: T)
    ensures InSets(Push(sets, txn, w), x) <==> InSets(sets, x) || x == w
  {
    var r := Push(sets, txn, w);
    if x == w {
      assert w in r[txn];
    }
    if t :| t in sets && x in sets[t] {
      assert x in r[t];
    }
  }

  /** The chain of every stored key, the bytes behind the key in its leaf, and the write sets. */
  datatype Shelf<V> = Shelf(chains: map<Key, Chain<V>>, rests: map<Key, Field>, sets: Sets<Copy>)

  ghost predicate Shaped<V>(s: Shelf<V>) {
    && s.rests.Keys == s.chains.Keys
    && (forall k :: k in s.chains ==> s.chains[k] != [])
    && CopiesOk(s.chains.Keys, s.sets)
  }

  /** The write sets hold copies of leaves of stored keys only. */
  ghost predicate CopiesOk(keys: set<Key>, sets: Sets<Copy>) {
    forall c :: InSets(sets, c) ==> c.key in keys && Starts(c.field, c.key)
  }

  /** No key is a prefix of another, and all are C strings. */
  ghost predicate Apart(keys: set<Key>) {
    && (forall k :: k in keys ==> IsKey(k))
    && (forall j, k :: j in keys && k in keys && j != k ==> !Nested(j, k))
  }

  predicate IsEnded<V>(c: Chain<V>) {
    c != [] && c[0].end != INF
  }

  /** A copy of the leaf as it is now. */
  function CopyOf(rests: map<Key, Field>, key: Key): Copy {
    Copy(key, if key in rests then FieldOf(key, rests[key]) else seq(FIELD, _ => 0))
  }

  lemma PushOk(keys: set<Key>, rests: map<Key, Field>, sets: Sets<Copy>, txn: TxnId, key: Key)
    requires CopiesOk(keys, sets) && key in keys && key in rests
    ensures CopiesOk(keys, Push(sets, txn, CopyOf(rests, key)))
  {
    hide FieldOf, Starts, InSets, Push;
    FieldStarts(key, rests[key]);
    forall c | InSets(Push(sets, txn, CopyOf(rests, key)), c)
      ensures c.key in keys && Starts(c.field, c.key)
    {
      PushedIn(sets, txn, CopyOf(rests, key), c);
    }
  }

  /** The chain of a stored key after `overwriteMV`. */
  function Overwritten<V>(c: Chain<V>, txn: TxnId, value: V, active: Status): (r: Chain<V>)
    requires c != []
    ensures r != []
  {
    if Conflict(c, txn, active) then c else After(c, Overwrite(txn, value))
  }

  /** Another chain for one key, whose leaf the write set of the transaction then remembers. */
  function Changed<V>(s: Shelf<V>, key: Key, txn: TxnId, c: Chain<V>): Shelf<V> {
    Shelf(s.chains[key := c], s.rests, Push(s.sets, txn, CopyOf(s.rests, key)))
  }

  lemma ChangedShaped<V>(s: Shelf<V>, key: Key, txn: TxnId, c: Chain<V>)
    requires Shaped(s) && key in s.chains && c != []
    ensures Shaped(Changed(s, key, txn, c))
  {
    hide CopiesOk, CopyOf, Push;
    assert s.chains[key := c].Keys == s.chains.Keys;
    PushOk(s.chains.Keys, s.rests, s.sets, txn, key);
  }

  /** The write set remembers the leaf even if the guard turns the write away. */
  function OverwrittenShelf<V>(s: Shelf<V>, key: Key, txn: TxnId, value: V, active: Status): Shelf<V>
    requires key in s.chains && s.chains[key] != []
  {
    Changed(s, key, txn, Overwritten(s.chains[key], txn, value, active))
  }

  /** What an insertion leaves of the bytes behind the keys: those of the leaf that gives way are written into. */
  ghost function RestsAfter(rests: map<Key, Field>, key: Key): map<Key, Field> {
    map k | k in rests :: if GivesWay(rests.Keys, k, key) then RestAfter(k, rests[k]) else rests[k]
  }

  /** A new leaf is not in any write set. */
  ghost function AddedShelf<V>(s: Shelf<V>, key: Key, txn: TxnId, value: V, rest: Field): Shelf<V> {
    Shelf(s.chains[key := Fresh(txn, value)], RestsAfter(s.rests, key)[key := rest], s.sets)
  }

  ghost function UpsertedShelf<V>(s: Shelf<V>, key: Key, txn: TxnId, value: V, active: Status, rest: Field): Shelf<V>
    requires Shaped(s)
  {
    if key in s.chains then OverwrittenShelf(s, key, txn, value, active) else AddedShelf(s, key, txn, value, rest)
  }

  lemma AddedShaped<V>(s: Shelf<V>, key: Key, txn: TxnId, value: V, rest: Field)
    requires Shaped(s)
    ensures Shaped(AddedShelf(s, key, txn, value, rest))
  {
    hide InSets, Starts, GivesWay, RestAfter;
    assert RestsAfter(s.rests, key).Keys == s.rests.Keys;
  }

  /** At most the chain of `key` is new or has changed. */
  ghost predicate OthersKept<V>(m: map<Key, Chain<V>>, n: map<Key, Chain<V>>, key: Key) {
    n.Keys == m.Keys + {key} && forall k :: k in m && k != key ==> n[k] == m[k]
  }

  /** What an upsert makes of the chains: a first version, one more version, or nothing if the guard turns it away. */
  lemma UpsertIs<V>(s: Shelf<V>, key: Key, txn: TxnId, value: V, active: Status, rest: Field)
    requires Shaped(s)
    ensures var m, n := s.chains, UpsertedShelf(s, key, txn, value, active, rest).chains;
      && OthersKept(m, n, key)
      && n[key] ==
        if key !in m then [Version(txn, INF, value)]
        else
          var h := m[key];
          if h[0].end == INF || h[0].version == txn || !active(h[0].version)
          then [Version(txn, INF, value), Version(h[0].version, txn, h[0].value)] + h[1..]
          else h
  {
    hide RestsAfter, CopyOf, Push;
    if key in s.chains {
      CallsAre(s.chains[key], txn, value, v => v);
    }
  }

  /** What an update or a logical delete makes of the chains. */
  lemma CalledIs<V>(s: Shelf<V>, key: Key, txn: TxnId, updater: V -> V)
    requires key in s.chains && s.chains[key] != []
    ensures var m, h := s.chains, s.chains[key];
      var updated := CalledShelf(s, key, Update(txn, updater)).chains;
      var deleted := CalledShelf(s, key, Delete(txn)).chains;
      && OthersKept(m, updated, key) && OthersKept(m, deleted, key)
      && updated[key] == [Version(txn, INF, updater(h[0].value)), Version(h[0].version, txn, h[0].value)] + h[1..]
      && deleted[key] == [Version(h[0].version, txn, h[0].value)] + h[1..]
  {
    hide CopyOf, Push;
    CallsAre(s.chains[key], txn, s.chains[key][0].value, updater);
  }

  /** The map after a call that meets no conflict on the chain of `key`. */
  function CalledMap<V>(m: map<Key, Chain<V>>, key: Key, call: Call<V>): map<Key, Chain<V>>
    requires key in m && m[key] != []
  {
    m[key := After(m[key], call)]
  }

  function CalledShelf<V>(s: Shelf<V>, key: Key, call: Call<V>): Shelf<V>
    requires key in s.chains && s.chains[key] != []
  {
    Changed(s, key, call.txn, After(s.chains[key], call))
  }

  /** The current value of the key is selected. */
  predicate Selected<V>(m: map<Key, Chain<V>>, key: Key, filter: V -> bool) {
    key in m && m[key] != [] && filter(m[key][0].value)
  }

  /** No selected chain is in conflict with the transaction. */
  ghost predicate Calm<V>(m: map<Key, Chain<V>>, txn: TxnId, filter: V -> bool, active: Status) {
    forall k :: Selected(m, k, filter) ==> !Conflict(m[k], txn, active)
  }

  /** One more version for every key whose current value is selected, and nothing else. */
  function UpdatedWhere<V>(m: map<Key, Chain<V>>, filter: V -> bool, call: Call<V>): map<Key, Chain<V>> {
    map k | k in m :: if Selected(m, k, filter) then After(m[k], call) else m[k]
  }

  /** What an update by predicate makes of the chains. */
  lemma UpdatedIs<V>(m: map<Key, Chain<V>>, filter: V -> bool, updater: V -> V, txn: TxnId)
    requires forall k :: k in m ==> m[k] != []
    ensures var n := UpdatedWhere(m, filter, Update(txn, updater));
      && n.Keys == m.Keys
      && forall k :: k in m ==>
        var h := m[k];
        n[k] == if filter(h[0].value)
                then [Version(txn, INF, updater(h[0].value)), Version(h[0].version, txn, h[0].value)] + h[1..]
                else h
  {
    hide After;
    forall k | k in m {
      CallsAre(m[k], txn, m[k][0].value, updater);
    }
  }

  function PushedAll(sets: Sets<Copy>, rests: map<Key, Field>, keys: seq<Key>, txn: TxnId): Sets<Copy>
    decreases |keys|
  {
    if keys == [] then sets else PushedAll(Push(sets, txn, CopyOf(rests, keys[0])), rests, keys[1..], txn)
  }

  ghost function SelectedKeys<V>(m: map<Key, Chain<V>>, filter: V -> bool): set<Key> {
    set k | k in m && Selected(m, k, filter)
  }

  /** The leaves of the selected keys go to the write set in ascending order of the keys. */
  ghost function UpdatedShelf<V>(s: Shelf<V>, filter: V -> bool, call: Call<V>): Shelf<V> {
    Shelf(UpdatedWhere(s.chains, filter, call), s.rests,
          PushedAll(s.sets, s.rests, Ascend(SelectedKeys(s.chains, filter)), call.txn))
  }

  lemma {:induction false} PushedAllIn(sets: Sets<Copy>, rests: map<Key, Field>, keys: seq<Key>, txn: TxnId, c: Copy)
    ensures InSets(PushedAll(sets, rests, keys, txn), c)
      <==> InSets(sets, c) || exists j :: 0 <= j < |keys| && c == CopyOf(rests, keys[j])
    decreases |keys|
  {
    hide InSets, Push, CopyOf;
    if keys != [] {
      PushedIn(sets, txn, CopyOf(rests, keys[0]), c);
      PushedAllIn(Push(sets, txn, CopyOf(rests, keys[0])), rests, keys[1..], txn, c);
      assert forall j :: 1 <= j < |keys| ==> keys[j] == keys[1..][j - 1];
    }
  }

  lemma UpdatedShaped<V>(s: Shelf<V>, filter: V -> bool, call: Call<V>)
    requires Shaped(s)
    ensures Shaped(UpdatedShelf(s, filter, call))
  {
    hide InSets, Starts, FieldOf, Selected, After, PushedAll, Ascend;
    var keys := Ascend(SelectedKeys(s.chains, filter));
    AscendHas(SelectedKeys(s.chains, filter));
    forall c | InSets(PushedAll(s.sets, s.rests, keys, call.txn), c)
      ensures c.key in s.chains && Starts(c.field, c.key)
    {
      PushedAllIn(s.sets, s.rests, keys, call.txn, c);
      if j :| 0 <= j < |keys| && c == CopyOf(s.rests, keys[j]) {
        assert keys[j] in keys;
        FieldStarts(keys[j], s.rests[keys[j]]);
      }
    }
    assert UpdatedWhere(s.chains, filter, call).Keys == s.chains.Keys;
  }

  // ---------- sets in order ----------

  lemma {:induction false} LeastKeyExists(keys: set<Key>)
    requires keys != {}
    ensures exists k :: k in keys && forall j :: j in keys && j != k ==> Less(k, j)
  {
    hide Less;
    var k :| k in keys;
    if keys - {k} != {} {
      LeastKeyExists(keys - {k});
      var l :| l in keys - {k} && forall j :: j in keys - {k} && j != l ==> Less(l, j);
      LessTotal(k, l);
      var first := if Less(k, l) then k else l;
      forall j | j in keys && j != first
        ensures Less(first, j)
      {
        if first == k && j != l {
          LessTransitive(k, l, j);
        }
      }
      assert first in keys;
    } else {
      assert keys == {k};
    }
  }

  ghost function LeastKey(keys: set<Key>): (k: Key)
    requires keys != {}
    ensures k in keys && forall j :: j in keys && j != k ==> Less(k, j)
  {
    LeastKeyExists(keys);
    var k :| k in keys && forall j :: j in keys && j != k ==> Less(k, j);
    k
  }

  /** The keys in ascending order. */
  ghost function Ascend(keys: set<Key>): seq<Key> {
    if keys == {} then [] else [LeastKey(keys)] + Ascend(keys - {LeastKey(keys)})
  }

  lemma {:induction false} AscendHas(keys: set<Key>)
    ensures forall k :: k in Ascend(keys) <==> k in keys
  {
    hide Less;
    if keys != {} {
      var k := LeastKey(keys);
      AscendHas(keys - {k});
      assert Ascend(keys) == [k] + Ascend(keys - {k});
    }
  }

  /** There is only one way to list keys in ascending order. */
  lemma {:induction false} AscendIs(keys: set<Key>, ks: seq<Key>)
    requires forall i, j :: 0 <= i < j < |ks| ==> Less(ks[i], ks[j])
    requires forall k :: k in ks <==> k in keys
    ensures Ascend(keys) == ks
    decreases |ks|
  {
    hide Less;
    if ks != [] {
      assert ks[0] in ks;
      assert LeastKey(keys) == ks[0] by {
        LeastIsFirst(keys, ks);
      }
      assert ks == [ks[0]] + ks[1..];
      forall k
        ensures k in ks[1..] <==> k in keys - {ks[0]}
      {
        if k in ks[1..] {
          var j :| 1 <= j < |ks| && ks[j] == k;
          LessTotal(ks[0], k);
        }
      }
      AscendIs(keys - {ks[0]}, ks[1..]);
    } else {
      assert forall k :: k !in keys;
    }
  }

  lemma LeastIsFirst(keys: set<Key>, ks: seq<Key>)
    requires ks != [] && forall i, j :: 0 <= i < j < |ks| ==> Less(ks[i], ks[j])
    requires forall k :: k in ks <==> k in keys
    ensures ks[0] in keys && LeastKey(keys) == ks[0]
  {
    hide Less;
    assert ks[0] in ks;
    var k := LeastKey(keys);
    var j :| 0 <= j < |ks| && ks[j] == k;
    if j > 0 {
      LessTotal(ks[0], k);
    }
  }

  lemma {:induction false} LeastTxnExists(ts: set<TxnId>, t: TxnId)
    requires t in ts
    ensures exists l :: l in ts && forall u :: u in ts ==> l <= u
    decreases t
  {
    if u :| u in ts && u < t {
      LeastTxnExists(ts, u);
    }
  }

  ghost function LeastTxn(ts: set<TxnId>): (t: TxnId)
    requires ts != {}
    ensures t in ts && forall u :: u in ts ==> t <= u
  {
    var some :| some in ts;
    LeastTxnExists(ts, some);
    var t :| t in ts && forall u :: u in ts ==> t <= u;
    t
  }

  // ---------- garbage collection ----------

  /** The copies of leaves whose newest snapshot has ended. */
  function EndedOf<V>(m: map<Key, Chain<V>>, cs: seq<Copy>): seq<Copy> {
    if cs == [] then []
    else (if cs[0].key in m && IsEnded(m[cs[0].key]) then [cs[0]] else []) + EndedOf(m, cs[1..])
  }

  lemma {:induction false} EndedIn<V>(m: map<Key, Chain<V>>, cs: seq<Copy>, c: Copy)
    ensures c in EndedOf(m, cs) <==> c in cs && c.key in m && IsEnded(m[c.key])
  {
    hide IsEnded;
    if cs != [] {
      EndedIn(m, cs[1..], c);
    }
  }

  /** Those among what the transactions `ts` have pushed, in ascending order of the transactions. */
  ghost function ListedOf<V>(s: Shelf<V>, ts: set<TxnId>): seq<Copy> {
    if ts == {} then []
    else
      var t := LeastTxn(ts);
      EndedOf(s.chains, if t in s.sets then s.sets[t] else []) + ListedOf(s, ts - {t})
  }

  ghost function Listing<V>(s: Shelf<V>): seq<Copy> {
    ListedOf(s, s.sets.Keys)
  }

  lemma {:induction false} ListedIn<V>(s: Shelf<V>, ts: set<TxnId>, c: Copy)
    ensures c in ListedOf(s, ts)
      <==> (exists t :: t in ts && t in s.sets && c in s.sets[t]) && c.key in s.chains && IsEnded(s.chains[c.key])
  {
    hide IsEnded, EndedOf;
    if ts != {} {
      var t := LeastTxn(ts);
      var here := if t in s.sets then s.sets[t] else [];
      ListedIn(s, ts - {t}, c);
      EndedIn(s.chains, here, c);
      assert ListedOf(s, ts) == EndedOf(s.chains, here) + ListedOf(s, ts - {t});
    }
  }

  ghost function Before(ts: set<TxnId>, t: TxnId): set<TxnId> {
    set u | u in ts && u < t
  }

  ghost function Behind(ts: set<TxnId>, t: TxnId): set<TxnId> {
    set u | u in ts && u > t
  }

  /** Earlier transactions are listed first, and what one has pushed stays in order. */
  lemma {:induction false} ListedAscends<V>(s: Shelf<V>, ts: set<TxnId>, t: TxnId)
    requires t in ts && t in s.sets
    ensures ListedOf(s, ts) == ListedOf(s, Before(ts, t)) + EndedOf(s.chains, s.sets[t]) + ListedOf(s, Behind(ts, t))
  {
    hide EndedOf, ListedOf;
    var l := LeastTxn(ts);
    NextTxnListed(s, ts);
    if l == t {
      assert Before(ts, t) == {} && Behind(ts, t) == ts - {t};
      NoTxnListed(s);
    } else {
      ListedAscends(s, ts - {l}, t);
      assert Before(ts - {l}, t) == Before(ts, t) - {l} && Behind(ts - {l}, t) == Behind(ts, t);
      assert l in Before(ts, t) && LeastTxn(Before(ts, t)) in ts;
      NextTxnListed(s, Before(ts, t));
    }
  }

  lemma NextTxnListed<V>(s: Shelf<V>, ts: set<TxnId>)
    requires ts != {}
    ensures var t := LeastTxn(ts);
      ListedOf(s, ts) == EndedOf(s.chains, if t in s.sets then s.sets[t] else []) + ListedOf(s, ts - {t})
  {
  }

  lemma NoTxnListed<V>(s: Shelf<V>)
    ensures ListedOf(s, {}) == []
  {
  }

  function Fields(cs: seq<Copy>): (r: seq<Field>)
    ensures |r| == |cs| && forall j :: 0 <= j < |r| ==> r[j] == cs[j].field
  {
    if cs == [] then [] else [cs[0].field] + Fields(cs[1..])
  }

  /**
   * The string that collection reads at entry `j` of the deletion list: without a 0 in the entry the read runs on
   * into the next ones, and in the end into `tail`.
   */
  function Reading(cs: seq<Copy>, j: nat, tail: seq<Byte>): Key
    requires j <= |cs|
  {
    ReadFrom(Fields(cs[j..]), tail)
  }

  ghost function Gone<V>(s: Shelf<V>, tail: seq<Byte>): set<Key> {
    set j | 0 <= j < |Listing(s)| :: Reading(Listing(s), j, tail)
  }

  /** Collection drops the keys that it reads out of the leaves that are due, and forgets the write sets. */
  ghost function Collected<V>(s: Shelf<V>, tail: seq<Byte>): Shelf<V> {
    var gone := Gone(s, tail);
    Shelf(s.chains - gone, s.rests - gone, map[])
  }

  lemma CollectedShaped<V>(s: Shelf<V>, tail: seq<Byte>)
    requires Shaped(s)
    ensures Shaped(Collected(s, tail))
  {
    hide Gone;
    var r := Collected(s, tail);
    assert r.rests.Keys == r.chains.Keys;
  }

  lemma NoneGone<V>(s: Shelf<V>, tail: seq<Byte>)
    requires s.sets == map[]
    ensures Collected(s, tail) == s
  {
    assert Gone(s, tail) == {};
  }

  /** Some copy of the leaf in the write sets has a 0 behind the key. */
  ghost predicate Caught<V>(s: Shelf<V>, key: Key) {
    exists c :: InSets(s.sets, c) && c.key == key && Clean(key, c.field)
  }

  /** A read past the field of another ended leaf with the same first bytes happens to spell the key. */
  ghost predicate Overrun<V>(s: Shelf<V>, tail: seq<Byte>, key: Key) {
    |key| >= FIELD
    && exists j :: 0 <= j < |Listing(s)| && Spells(Listing(s)[j], Reading(Listing(s), j + 1, tail), key)
  }

  /** The field of the copy and what is read behind it spell a key that is longer than the field. */
  predicate Spells(c: Copy, behind: Key, key: Key) {
    |c.key| >= FIELD && |key| >= FIELD && c.key[..FIELD] == key[..FIELD] && behind == key[FIELD..]
  }

  /**
   * Which keys collection removes. A key shorter than the field goes exactly if its newest snapshot has ended and
   * some copy of its leaf happens to have a 0 behind the key; other keys go only if a read past the end of a field
   * spells them.
   */
  lemma CollectExact<V>(s: Shelf<V>, tail: seq<Byte>, key: Key)
    requires Shaped(s) && Apart(s.chains.Keys) && key in s.chains
    ensures key !in Collected(s, tail).chains <==> (IsEnded(s.chains[key]) && Caught(s, key)) || Overrun(s, tail, key)
  {
    hide IsEnded, Apart, Listing, Reading, Clean, InSets, Spells;
    var cs := Listing(s);
    if j :| 0 <= j < |cs| && Reading(cs, j, tail) == key {
      EntryReads(s, j, tail, key);
    }
    if c :| InSets(s.sets, c) && c.key == key && Clean(key, c.field) && IsEnded(s.chains[key]) {
      ListingIn(s, c);
      var j :| 0 <= j < |cs| && cs[j] == c;
      EntryReads(s, j, tail, key);
      assert Reading(cs, j, tail) == key;
    }
    if j :| 0 <= j < |cs| && Spells(cs[j], Reading(cs, j + 1, tail), key) {
      EntryReads(s, j, tail, key);
      assert Reading(cs, j, tail) == key;
    }
    assert key in Gone(s, tail) <==> exists j :: 0 <= j < |cs| && Reading(cs, j, tail) == key;
    CleanShort(key);
  }

  lemma EntryReads<V>(s: Shelf<V>, j: nat, tail: seq<Byte>, key: Key)
    requires Shaped(s) && Apart(s.chains.Keys) && key in s.chains && j < |Listing(s)|
    ensures var cs := Listing(s);
      && cs[j] in cs && InSets(s.sets, cs[j]) && cs[j].key in s.chains && IsEnded(s.chains[cs[j].key])
      && (Reading(cs, j, tail) == key
          <==> (cs[j].key == key && Clean(key, cs[j].field)) || Spells(cs[j], Reading(cs, j + 1, tail), key))
  {
    hide IsEnded, Apart, Listing, Reading, Clean, InSets, Spells, Starts;
    ListingIn(s, Listing(s)[j]);
    ReadsAs(s.chains.Keys, Listing(s), j, tail, key);
  }

  lemma CleanShort(key: Key)
    ensures forall f :: Clean(key, f) ==> |key| < FIELD
    ensures forall c, behind :: Spells(c, behind, key) ==> |key| >= FIELD
  {
  }

  lemma ListingIn<V>(s: Shelf<V>, c: Copy)
    requires Shaped(s)
    ensures c in Listing(s) <==> InSets(s.sets, c) && IsEnded(s.chains[c.key])
  {
    hide IsEnded, ListedOf, Starts;
    ListedIn(s, s.sets.Keys, c);
  }

  /** Prefix-freeness: the field of a short key, ended by a 0 or not, never reads as another stored key. */
  lemma ReadsAs(keys: set<Key>, cs: seq<Copy>, j: nat, tail: seq<Byte>, key: Key)
    requires Apart(keys) && key in keys && j < |cs| && cs[j].key in keys && Starts(cs[j].field, cs[j].key)
    ensures Reading(cs, j, tail) == key
      <==> (cs[j].key == key && Clean(key, cs[j].field)) || Spells(cs[j], Reading(cs, j + 1, tail), key)
  {
    hide CString, IsKey, Flat, Starts, Nested;
    var c, behind := cs[j], Flat(Fields(cs[j + 1..])) + tail;
    ReadingSplits(cs, j, tail);
    if |c.key| < FIELD {
      ShortReads(c.key, c.field, behind);
      assert Same(c.key, CString(c.field + behind), |c.key|);
      NestedIs(c.key, key);
    } else {
      LongReads(c.key, c.field, behind);
      assert |key| >= FIELD ==> key == key[..FIELD] + key[FIELD..];
    }
  }

  lemma NestedIs(a: Key, b: Key)
    ensures Same(a, b, |a|) ==> Nested(a, b)
  {
  }

  lemma ReadingSplits(cs: seq<Copy>, j: nat, tail: seq<Byte>)
    requires j < |cs|
    ensures Reading(cs, j, tail) == CString(cs[j].field + (Flat(Fields(cs[j + 1..])) + tail))
    ensures Reading(cs, j + 1, tail) == CString(Flat(Fields(cs[j + 1..])) + tail)
  {
    hide CString;
    assert cs[j..][1..] == cs[j + 1..];
    assert Fields(cs[j..])[1..] == Fields(cs[j + 1..]);
    var rest := Flat(Fields(cs[j + 1..]));
    assert (cs[j].field + rest) + tail == cs[j].field + (rest + tail);
  }
}
