/** The version cell in memory: a chain of snapshots behind one mutable pointer, used by one thread at a time. */
module VersionCell {
  import opened VersionChain

  class Snapshot<V> {
    const version: TxnId
    const value: V
    var end: nat
    var older: Snapshot?<V>

    /** `snapshot(ver, arg)`: every new snapshot is open-ended. */
    constructor (version: TxnId, value: V)
      ensures this.version == version && this.value == value && end == INF && older == null
    {
      this.version, this.value := version, value;
      end, older := INF, null;
    }
  }

  class Cell<!V> {
    var current: Snapshot<V>
    // The snapshots from the newest to the oldest, as the links list them.
    ghost var chain: seq<Snapshot<V>>
    ghost var repr: set<object>

    ghost predicate Valid()
      reads this, repr
    {
      && this in repr && (forall s :: s in chain ==> s in repr)
      && chain != [] && chain[0] == current
      && (forall i :: 0 <= i < |chain| - 1 ==> chain[i].older == chain[i + 1])
      && chain[|chain| - 1].older == null
      && (forall i, j :: 0 <= i < j < |chain| ==> chain[i] != chain[j])
    }

    ghost function History(): (h: Chain<V>)
      requires Valid()
      reads this, repr
      ensures |h| == |chain| && h != []
    {
      seq(|chain|, i requires 0 <= i < |chain| && Valid() reads this, repr =>
        Version(chain[i].version, chain[i].end, chain[i].value))
    }

    /** `mvcc(txn_id, value)` */
    constructor (txn: TxnId, value: V)
      ensures Valid() && History() == Fresh(txn, value) && History() == [Version(txn, 99999, value)]
      ensures fresh(repr)
    {
      current := new Snapshot(txn, value);
      chain := [current];
      repr := {this, current};
    }

    /** The conflict guard of `overwrite_implMV`, `delete_implMV` and `try_update_impl`. */
    method Conflicting(txn: TxnId, active: Status) returns (b: bool)
      requires Valid()
      ensures b == Conflict(History(), txn, active)
    {
      b := current.end != INF && current.version != txn && active(current.version);
    }

    /** Ends the newest snapshot, puts `desired` in its place and links it. */
    method Install(txn: TxnId, desired: Snapshot<V>)
      requires Valid() && desired !in repr
      requires desired.version == txn && desired.end == INF && desired.older == null
      modifies this, current, desired
      ensures Valid() && chain == [desired] + old(chain) && repr == old(repr) + {desired}
      ensures History() == Pushed(old(History()), txn, desired.value)
    {
      current.end := txn;
      desired.older := current;
      current := desired;
      chain := [desired] + chain;
      repr := repr + {desired};
    }

    /** `overwriteMV`: null when the guard turns the call away. */
    method OverwriteMV(txn: TxnId, value: V, active: Status) returns (r: Snapshot?<V>)
      requires Valid()
      modifies this, current
      ensures Valid() && fresh(repr - old(repr))
      ensures if Conflict(old(History()), txn, active)
        then r == null && repr == old(repr) && current == old(current) && History() == old(History())
        else r == current && History() == After(old(History()), Overwrite(txn, value))
      ensures var h := old(History());
        if h[0].end == INF || h[0].version == txn || !active(h[0].version) then
          r != null && History() == [Version(txn, INF, value), Version(h[0].version, txn, h[0].value)] + h[1..]
        else r == null && History() == h
    {
      ghost var h := History();
      CallsAre(h, txn, value, v => v);
      PassesExact(h, txn, active);
      hide After, Conflict;
      var desired := new Snapshot(txn, value);
      var conflict := Conflicting(txn, active);
      if conflict { return null; }
      Install(txn, desired);
      r := desired;
    }

    /** `try_update`: like an overwrite, with a value computed from the newest one before the guard is asked. */
    method TryUpdate(txn: TxnId, updater: V -> V, active: Status) returns (r: Snapshot?<V>)
      requires Valid()
      modifies this, current
      ensures Valid() && fresh(repr - old(repr))
      ensures if Conflict(old(History()), txn, active)
        then r == null && repr == old(repr) && current == old(current) && History() == old(History())
        else r == current && History() == After(old(History()), VersionChain.Update(txn, updater))
      ensures var h := old(History());
        if h[0].end == INF || h[0].version == txn || !active(h[0].version) then
          && r != null
          && History() == [Version(txn, INF, updater(h[0].value)), Version(h[0].version, txn, h[0].value)] + h[1..]
        else r == null && History() == h
    {
      ghost var h := History();
      CallsAre(h, txn, h[0].value, updater);
      PassesExact(h, txn, active);
      hide After, Conflict;
      var desired := new Snapshot(txn, updater(current.value));
      var conflict := Conflicting(txn, active);
      if conflict { return null; }
      Install(txn, desired);
      r := desired;
    }

    /**
     * `update`: tries again until the guard lets it pass, which it does at the latest when
     * the statuses are those of attempt number `calm`.
     */
    method Update(txn: TxnId, updater: V -> V, active: nat -> Status, ghost calm: nat) returns (r: Snapshot<V>)
      requires Valid() && !Conflict(History(), txn, active(calm))
      modifies this, current
      ensures Valid() && fresh(repr - old(repr))
      ensures r == current && History() == After(old(History()), VersionChain.Update(txn, updater))
      ensures var h := old(History());
        History() == [Version(txn, INF, updater(h[0].value)), Version(h[0].version, txn, h[0].value)] + h[1..]
    {
      var attempt := 0;
      while true
        invariant attempt <= calm && Valid() && repr == old(repr) && current == old(current)
        invariant History() == old(History())
        decreases calm - attempt
      {
        var updated := TryUpdate(txn, updater, active(attempt));
        if updated != null { return updated; }
        attempt := attempt + 1;
      }
    }

    /** `deleteMV`: ends the newest snapshot in place; it waits in the same way. */
    method DeleteMV(txn: TxnId, active: nat -> Status, ghost calm: nat) returns (r: Snapshot<V>)
      requires Valid() && !Conflict(History(), txn, active(calm))
      modifies current
      ensures Valid() && repr == old(repr) && r == current
      ensures History() == After(old(History()), Delete(txn))
      ensures var h := old(History()); History() == [Version(h[0].version, txn, h[0].value)] + h[1..]
    {
      var attempt := 0;
      while true
        invariant attempt <= calm && Valid() && History() == old(History())
        decreases calm - attempt
      {
        var conflict := Conflicting(txn, active(attempt));
        if !conflict {
          current.end := txn;
          return current;
        }
        attempt := attempt + 1;
      }
    }
  }
}
