/** The history of one version cell as a value, and how single-threaded calls change it. */
module VersionChain {

  /** The `end_version` of a snapshot that has not been replaced or deleted. */
  const INF: nat := 99999

  type TxnId = nat

  /** A snapshot without its link: alive from `version` on and before `end`. */
  datatype Version<V> = Version(version: TxnId, end: nat, value: V)

  /** All snapshots of a cell, the newest first. */
  type Chain<V> = seq<Version<V>>

  /** Which transactions have the status "Active". */
  type Status = TxnId -> bool

  function Fresh<V>(txn: TxnId, value: V): Chain<V> {
    [Version(txn, INF, value)]
  }

  /** The conflict guard: the newest snapshot has ended, and belongs to another transaction that is active. */
  predicate Conflict<V>(c: Chain<V>, txn: TxnId, active: Status)
    requires c != []
  {
    c[0].end != INF && c[0].version != txn && active(c[0].version)
  }

  /** The newest snapshot ends at `txn`. */
  function Ended<V>(c: Chain<V>, txn: TxnId): Chain<V>
    requires c != []
  {
    c[0 := c[0].(end := txn)]
  }

  /** A new snapshot replaces the newest one, which ends at `txn`. */
  function Pushed<V>(c: Chain<V>, txn: TxnId, value: V): Chain<V>
    requires c != []
  {
    [Version(txn, INF, value)] + Ended(c, txn)
  }

  /** One call on a cell, as a transaction makes it. */
  datatype Call<!V> =
    | Overwrite(txn: TxnId, value: V)
    | Update(txn: TxnId, updater: V -> V)
    | Delete(txn: TxnId)

  /** What a call that meets no conflict leaves. */
  function After<V>(c: Chain<V>, call: Call<V>): (r: Chain<V>)
    requires c != []
    ensures r != []
  {
    match call
    case Overwrite(txn, value) => Pushed(c, txn, value)
    case Update(txn, updater) => Pushed(c, txn, updater(c[0].value))
    case Delete(txn) => Ended(c, txn)
  }

  /** A run of calls; those that the guard turns away change nothing. */
  function RunCalls<V>(c: Chain<V>, calls: seq<Call<V>>, active: seq<Status>): (r: Chain<V>)
    requires c != [] && |active| == |calls|
    ensures r != []
    decreases |calls|
  {
    if calls == [] then c
    else
      var d := RunCalls(c, calls[..|calls| - 1], active[..|calls| - 1]);
      var call, now := calls[|calls| - 1], active[|calls| - 1];
      if Conflict(d, call.txn, now) then d else After(d, call)
  }

  /**
   * What each call makes of the newest snapshot: it ends, and a write puts one with its value in front. Older snapshots
   * stay as they are.
   */
  lemma CallsAre<V>(c: Chain<V>, txn: TxnId, value: V, updater: V -> V)
    requires c != []
    ensures var ended := Version(c[0].version, txn, c[0].value);
      && After(c, Overwrite(txn, value)) == [Version(txn, INF, value), ended] + c[1..]
      && After(c, Update(txn, updater)) == [Version(txn, INF, updater(c[0].value)), ended] + c[1..]
      && After(c, Delete(txn)) == [ended] + c[1..]
  {
  }

  /** A write is turned away only by a snapshot that has ended and belongs to another transaction that is active. */
  lemma PassesExact<V>(c: Chain<V>, txn: TxnId, active: Status)
    requires c != []
    ensures !Conflict(c, txn, active) <==> c[0].end == INF || c[0].version == txn || !active(c[0].version)
  {
  }

  /** What a run of calls stores: the values of those that pass, each made from the one before it. */
  lemma {:induction false} RunValues<V>(c: Chain<V>, calls: seq<Call<V>>, active: seq<Status>, i: nat)
    requires c != [] && |active| == |calls| && i < |calls|
    ensures var d, r := RunCalls(c, calls[..i], active[..i]), RunCalls(c, calls[..i + 1], active[..i + 1]);
      if d[0].end == INF || d[0].version == calls[i].txn || !active[i](d[0].version) then
        match calls[i]
        case Overwrite(_, value) => |r| == |d| + 1 && r[0].value == value
        case Update(_, updater) => |r| == |d| + 1 && r[0].value == updater(d[0].value)
        case Delete(_) => |r| == |d| && r[0].value == d[0].value
      else r == d
  {
    assert calls[..i + 1][..i] == calls[..i] && active[..i + 1][..i] == active[..i];
  }

  // ---------- lifetimes ----------

  /** Each older snapshot ends where the next one begins. */
  ghost predicate Tiled<V>(c: Chain<V>) {
    forall i :: 0 < i < |c| ==> c[i].end == c[i - 1].version
  }

  /** Versions grow along the chain, and the newest snapshot does not end before it begins. */
  ghost predicate Ordered<V>(c: Chain<V>) {
    && (forall i :: 0 < i < |c| ==> c[i].version <= c[i - 1].version)
    && (c != [] ==> c[0].end == INF || c[0].version <= c[0].end)
  }

  predicate Alive<V>(v: Version<V>, t: nat) {
    v.version <= t < v.end
  }

  /** No call that passes the guard has a smaller id than the snapshot that it ends. */
  ghost predicate Rising<V>(c: Chain<V>, calls: seq<Call<V>>, active: seq<Status>)
    requires c != [] && |active| == |calls|
    decreases |calls|
  {
    calls == [] ||
    (var front, statuses, call := calls[..|calls| - 1], active[..|calls| - 1], calls[|calls| - 1];
     var d := RunCalls(c, front, statuses);
     Rising(c, front, statuses) && (Conflict(d, call.txn, active[|calls| - 1]) || d[0].version <= call.txn))
  }

  /** In every run that starts with a new cell, the lifetimes tile the time line. */
  lemma {:induction false} RunTiles<V>(txn: TxnId, value: V, calls: seq<Call<V>>, active: seq<Status>)
    requires |active| == |calls|
    ensures Tiled(RunCalls(Fresh(txn, value), calls, active))
    decreases |calls|
  {
    if calls != [] {
      RunTiles(txn, value, calls[..|calls| - 1], active[..|calls| - 1]);
    }
  }

  /** If the ids of the calls that pass never decrease, versions and lifetimes are in order too. */
  lemma {:induction false} RunOrders<V>(txn: TxnId, value: V, calls: seq<Call<V>>, active: seq<Status>)
    requires |active| == |calls| && Rising(Fresh(txn, value), calls, active)
    ensures Ordered(RunCalls(Fresh(txn, value), calls, active))
    decreases |calls|
  {
    hide Conflict;
    if calls != [] {
      var front, statuses, call := calls[..|calls| - 1], active[..|calls| - 1], calls[|calls| - 1];
      RunOrders(txn, value, front, statuses);
      hide After, Ordered;
      if !Conflict(RunCalls(Fresh(txn, value), front, statuses), call.txn, active[|calls| - 1]) {
        AfterOrders(RunCalls(Fresh(txn, value), front, statuses), call);
      }
    }
  }

  lemma AfterOrders<V>(c: Chain<V>, call: Call<V>)
    requires c != [] && Ordered(c) && c[0].version <= call.txn
    ensures Ordered(After(c, call))
  {
    assert forall i :: 0 < i < |After(c, call)| && !call.Delete? ==> After(c, call)[i].version == c[i - 1].version;
  }

  // ---------- who is alive ----------

  /** No two snapshots are alive at one time. */
  ghost predicate Disjoint<V>(c: Chain<V>) {
    forall i, j, t: nat :: 0 <= j < i < |c| ==> !(Alive(c[i], t) && Alive(c[j], t))
  }

  /** The latest of the ends of snapshot `j` and of all newer ones. */
  function Peak<V>(c: Chain<V>, j: nat): nat
    requires j < |c|
  {
    if j > 0 && Peak(c, j - 1) > c[j].end then Peak(c, j - 1) else c[j].end
  }

  /**
   * Whatever begins after a snapshot with a lifetime begins when it has ended, unless nothing is alive from
   * then on.
   */
  ghost predicate Clear<V>(c: Chain<V>) {
    forall i, j :: 0 <= j < i < |c| && c[i].version < c[i - 1].version ==>
      c[i - 1].version <= c[j].version || Peak(c, j) <= c[i].version || Peak(c, j) <= c[j].version
  }

  lemma {:induction false} PeakIs<V>(c: Chain<V>, j: nat, k: nat)
    requires k <= j < |c|
    ensures c[k].end <= Peak(c, j)
  {
    if k < j {
      PeakIs(c, j - 1, k);
    }
  }

  /** From the version of a snapshot up to the peak, it or a newer one is alive. */
  lemma {:induction false} Covered<V>(c: Chain<V>, j: nat, t: nat) returns (k: nat)
    requires Tiled(c) && j < |c| && c[j].version <= t < Peak(c, j)
    ensures k <= j && Alive(c[k], t)
  {
    if t < c[j].end {
      k := j;
    } else {
      k := Covered(c, j - 1, t);
    }
  }

  /** Exactly when lifetimes that tile do not overlap. */
  lemma DisjointExact<V>(c: Chain<V>)
    requires Tiled(c)
    ensures Disjoint(c) <==> Clear(c)
  {
    hide Peak;
    if Disjoint(c) {
      forall i, j | 0 <= j < i < |c| && c[i].version < c[i - 1].version
        ensures c[i - 1].version <= c[j].version || Peak(c, j) <= c[i].version || Peak(c, j) <= c[j].version
      {
        var t := if c[i].version < c[j].version then c[j].version else c[i].version;
        if t < c[i - 1].version && t < Peak(c, j) {
          assert Alive(c[i], t);
          var _ := Covered(c, j, t);
        }
      }
    }
    if Clear(c) {
      forall i, j, t: nat | 0 <= j < i < |c| && Alive(c[i], t)
        ensures !Alive(c[j], t)
      {
        PeakIs(c, j, j);
        assert c[i].version < c[i].end == c[i - 1].version;
      }
    }
  }

  lemma {:induction false} RunVersions<V>(txn: TxnId, value: V, calls: seq<Call<V>>, active: seq<Status>)
    requires |active| == |calls| && txn < INF && forall call :: call in calls ==> call.txn < INF
    ensures var c := RunCalls(Fresh(txn, value), calls, active);
      && c[|c| - 1].version == txn
      && forall i :: 0 <= i < |c| ==> c[i].version < INF
    decreases |calls|
  {
    hide Conflict;
    if calls != [] {
      RunVersions(txn, value, calls[..|calls| - 1], active[..|calls| - 1]);
    }
  }

  /** Whatever begins after a snapshot with a lifetime begins when it has ended. */
  ghost predicate OpenClear<V>(c: Chain<V>) {
    forall i, j :: 0 <= j < i < |c| && c[i].version < c[i - 1].version ==> c[i - 1].version <= c[j].version
  }

  lemma OpenClearExact<V>(c: Chain<V>)
    requires c != [] && c[0].end == INF && forall i :: 0 <= i < |c| ==> c[i].version < INF
    ensures Clear(c) <==> OpenClear(c)
  {
    forall j | 0 <= j < |c|
      ensures INF <= Peak(c, j)
    {
      PeakIs(c, j, 0);
    }
    hide Peak;
  }

  /**
   * After any run of calls, in whatever order of their ids: no two snapshots are alive at one time exactly if the
   * chain is clear. While the newest snapshot is open this means that every snapshot that begins after one
   * with a lifetime begins when that one has ended.
   */
  lemma RunDisjoint<V>(txn: TxnId, value: V, calls: seq<Call<V>>, active: seq<Status>)
    requires |active| == |calls| && txn < INF && forall call :: call in calls ==> call.txn < INF
    ensures var c := RunCalls(Fresh(txn, value), calls, active);
      && (Disjoint(c) <==> Clear(c))
      && (c[0].end == INF ==> (Disjoint(c) <==> OpenClear(c)))
  {
    var c := RunCalls(Fresh(txn, value), calls, active);
    RunTiles(txn, value, calls, active);
    RunVersions(txn, value, calls, active);
    hide RunCalls, Disjoint, Clear, OpenClear, Tiled;
    DisjointExact(c);
    if c[0].end == INF {
      OpenClearExact(c);
    }
  }

  lemma {:induction false} VersionsFall<V>(c: Chain<V>, i: nat, j: nat)
    requires Ordered(c) && i <= j < |c|
    ensures c[j].version <= c[i].version
    decreases j - i
  {
    if i < j {
      VersionsFall(c, i, j - 1);
    }
  }

  /** Ordered lifetimes do not overlap. */
  lemma OrderedDisjoint<V>(c: Chain<V>)
    requires Tiled(c) && Ordered(c)
    ensures Disjoint(c)
  {
    hide Peak, Disjoint;
    forall i, j | 0 <= j < i < |c| && c[i].version < c[i - 1].version
      ensures c[i - 1].version <= c[j].version
    {
      VersionsFall(c, j, i - 1);
    }
    assert Clear(c);
    DisjointExact(c);
  }

  /**
   * After any run whose calls pass in the order of their ids, exactly one snapshot of the cell is alive
   * at each time from its creation until its newest snapshot ends.
   */
  lemma ExactlyOneAlive<V>(txn: TxnId, value: V, calls: seq<Call<V>>, active: seq<Status>, t: nat) returns (i: nat)
    requires |active| == |calls| && Rising(Fresh(txn, value), calls, active)
    requires txn <= t < RunCalls(Fresh(txn, value), calls, active)[0].end
    ensures var c := RunCalls(Fresh(txn, value), calls, active);
      && i < |c| && Alive(c[i], t)
      && forall j :: 0 <= j < |c| && Alive(c[j], t) ==> j == i
  {
    var c := RunCalls(Fresh(txn, value), calls, active);
    RunTiles(txn, value, calls, active);
    RunOrders(txn, value, calls, active);
    FirstStays(txn, value, calls, active);
    hide RunCalls, Rising;
    OrderedDisjoint(c);
    PeakIs(c, |c| - 1, 0);
    i := Covered(c, |c| - 1, t);
  }

  lemma {:induction false} FirstStays<V>(txn: TxnId, value: V, calls: seq<Call<V>>, active: seq<Status>)
    requires |active| == |calls|
    ensures var c := RunCalls(Fresh(txn, value), calls, active); c[|c| - 1].version == txn
    decreases |calls|
  {
    if calls != [] {
      FirstStays(txn, value, calls[..|calls| - 1], active[..|calls| - 1]);
    }
  }

  /** With ids out of order the condition can fail: here the snapshots of 1 and of 3 are both alive at 3. */
  lemma OutOfOrderOverlaps<V>(a: V, b: V, c: V, active: Status)
    ensures var r := RunCalls(Fresh(1, a), [Overwrite(5, b), Overwrite(3, c)], [active, active]);
      |r| == 3 && r[0].end == INF && !OpenClear(r) && !Disjoint(r) && Alive(r[0], 3) && Alive(r[2], 3)
  {
    var calls := [Overwrite(5, b), Overwrite(3, c)];
    var statuses := [active, active];
    assert calls[..1][..0] == [] && calls[..1] == [Overwrite(5, b)];
    assert RunCalls(Fresh(1, a), calls[..1], statuses[..1]) == Pushed(Fresh(1, a), 5, b);
    var r := RunCalls(Fresh(1, a), calls, statuses);
    assert r == Pushed(Pushed(Fresh(1, a), 5, b), 3, c);
    hide RunCalls;
    assert Alive(r[2], 3) && Alive(r[0], 3);
    assert r[2].version < r[1].version && r[0].version < r[1].version;
  }
}
