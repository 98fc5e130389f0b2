/** Where the snapshots of a cell end after any interleaving, and when that is where their successors begin. */
module ConcurrentEnds {
  import opened Options
  import opened VersionChain
  import opened ConcurrentCell

  /** The step ends snapshot `id` with the id of its transaction, whether to replace or to delete it. */
  function MarkedBy<V>(s: State<V>, e: Event<V>, id: Id): Option<TxnId> {
    if e.Move? && (s.PhaseOf(e.t).Passed? || s.PhaseOf(e.t).Ending?) && s.PhaseOf(e.t).exp == id
    then Some(s.PhaseOf(e.t).req.call.txn)
    else None
  }

  /** The last step of the run that does so. */
  ghost function LastMark<V>(s: State<V>, es: seq<Event<V>>, id: Id): Option<TxnId>
    requires Safe(s)
  {
    if es == [] then None
    else
      var front, e := es[..|es| - 1], es[|es| - 1];
      var m := MarkedBy(Run(s, front), e, id);
      if m.Some? then m else LastMark(s, front, id)
  }

  function EndAfter(mark: Option<TxnId>, end: nat): nat {
    if mark.Some? then mark.value else end
  }

  /** A step changes ends by marking only, and a new snapshot is open. */
  lemma StepEnds<V>(s: State<V>, e: Event<V>, id: Id)
    requires Safe(s)
    ensures var r, m := Step(s, e), MarkedBy(s, e, id);
      && |s.store| <= |r.store|
      && (id < |s.store| ==> r.store[id].end == EndAfter(m, s.store[id].end))
      && (|s.store| <= id ==> m == None)
      && (|s.store| <= id < |r.store| ==> r.store[id].end == INF)
  {
    if e.Move? {
      hide Safe, Guarded;
      SafeThread(s, e.t);
    }
  }

  /** A snapshot ends with the last mark of the run, or is still open. */
  lemma {:induction false} EndIsLastMark<V>(txn: TxnId, value: V, es: seq<Event<V>>, id: Id)
    ensures Safe(Initial(txn, value))
    ensures var s, m := Run(Initial(txn, value), es), LastMark(Initial(txn, value), es, id);
      (id < |s.store| ==> s.store[id].end == EndAfter(m, INF)) && (|s.store| <= id ==> m == None)
  {
    hide Step, MarkedBy;
    if es != [] {
      var front := es[..|es| - 1];
      EndIsLastMark(txn, value, front, id);
      StepEnds(Run(Initial(txn, value), front), es[|es| - 1], id);
    }
  }

  ghost function AllMarked<V>(s: State<V>, es: seq<Event<V>>): iset<Id>
    requires Safe(s)
  {
    iset id: Id | LastMark(s, es, id).Some?
  }

  /** What is about to be replaced, and what has been replaced, has been marked. */
  ghost predicate MarksDone<V>(s: State<V>, marked: iset<Id>) {
    && (forall t :: t in s.threads && s.threads[t].Marked? ==> s.threads[t].exp in marked)
    && (forall i :: 0 <= i < |s.log| ==> s.At(i) in marked)
  }

  lemma PhaseMarks<V>(s: State<V>, t: ThreadId, u: ThreadId, marked: iset<Id>)
    requires Safe(s) && MarksDone(s, marked) && (s.PhaseOf(t).Passed? ==> s.PhaseOf(t).exp in marked)
    ensures var r := MoveThread(s, t); u in r.threads && r.threads[u].Marked? ==> r.threads[u].exp in marked
  {
    SafeThread(s, t);
    hide Safe, Guarded;
  }

  lemma LogMarks<V>(s: State<V>, t: ThreadId, i: nat, marked: iset<Id>)
    requires Safe(s) && s.head == s.At(|s.log|) && MarksDone(s, marked) && i < |MoveThread(s, t).log|
    ensures MoveThread(s, t).At(i) in marked
  {
    SafeThread(s, t);
    hide Safe, Guarded;
    assert i <= |s.log|;
    assert MoveThread(s, t).At(i) == s.At(i);
  }

  lemma StepMarks<V>(s: State<V>, e: Event<V>, before: iset<Id>, now: iset<Id>)
    requires Safe(s) && s.head == s.At(|s.log|) && MarksDone(s, before)
    requires forall id: Id :: id in now <==> id in before || MarkedBy(s, e, id).Some?
    ensures MarksDone(Step(s, e), now)
  {
    hide MoveThread;
    var r := Step(s, e);
    if e.Move? {
      assert s.PhaseOf(e.t).Passed? ==> s.PhaseOf(e.t).exp in now;
      hide MarkedBy;
      forall u | u in r.threads && r.threads[u].Marked?
        ensures r.threads[u].exp in now
      {
        PhaseMarks(s, e.t, u, now);
      }
      forall i | 0 <= i < |r.log|
        ensures r.At(i) in now
      {
        LogMarks(s, e.t, i, now);
      }
    } else {
      assert forall i :: 0 <= i < |r.log| ==> r.At(i) == s.At(i);
    }
  }

  lemma HeadLast<V>(s: State<V>, txn: TxnId, value: V)
    requires Inv(s, txn, value)
    ensures s.head == s.At(|s.log|)
  {
  }

  lemma {:induction false} ReplacedMarked<V>(txn: TxnId, value: V, es: seq<Event<V>>)
    ensures Safe(Initial(txn, value))
    ensures MarksDone(Run(Initial(txn, value), es), AllMarked(Initial(txn, value), es))
  {
    hide Step, Inv, MarkedBy;
    var i := Initial(txn, value);
    if es != [] {
      var front := es[..|es| - 1];
      ReplacedMarked(txn, value, front);
      RunKeeps(txn, value, front);
      HeadLast(Run(i, front), txn, value);
      hide MarksDone;
      StepMarks(Run(i, front), es[|es| - 1], AllMarked(i, front), AllMarked(i, es));
    }
  }

  /**
   * After any interleaving, a replaced snapshot ends where its successor begins if and only if the last step
   * that marked it belongs to the transaction that replaced it.
   */
  lemma TilesExact<V>(txn: TxnId, value: V, es: seq<Event<V>>, i: nat)
    ensures Safe(Initial(txn, value))
    ensures var s := Run(Initial(txn, value), es);
      i < |s.log| ==>
        && s.At(i) < |s.store| && s.At(i + 1) < |s.store|
        && (s.store[s.At(i)].end == s.store[s.At(i + 1)].version
            <==> LastMark(Initial(txn, value), es, s.At(i)) == Some(s.log[i].call.txn))
  {
    hide Run, LastMark;
    RunKeeps(txn, value, es);
    var s := Run(Initial(txn, value), es);
    if i < |s.log| {
      assert AppliedAt(s, i);
      EndIsLastMark(txn, value, es, s.At(i));
      ReplacedMarked(txn, value, es);
    }
  }

  lemma {:induction false} LastIsMark<V>(s: State<V>, es: seq<Event<V>>, id: Id) returns (n: nat)
    requires Safe(s) && LastMark(s, es, id).Some?
    ensures n < |es| && MarkedBy(Run(s, es[..n]), es[n], id) == LastMark(s, es, id)
  {
    var front := es[..|es| - 1];
    if MarkedBy(Run(s, front), es[|es| - 1], id).Some? {
      n := |es| - 1;
    } else {
      n := LastIsMark(s, front, id);
      assert front[..n] == es[..n];
    }
  }

  /** So it does if no other transaction has ever marked it. */
  lemma AloneTiles<V>(txn: TxnId, value: V, es: seq<Event<V>>, i: nat)
    requires Safe(Initial(txn, value))
    requires var s := Run(Initial(txn, value), es);
      && i < |s.log|
      && forall n :: 0 <= n < |es| ==>
           MarkedBy(Run(Initial(txn, value), es[..n]), es[n], s.At(i)) in {None, Some(s.log[i].call.txn)}
    ensures var s := Run(Initial(txn, value), es);
      && s.At(i) < |s.store| && s.At(i + 1) < |s.store|
      && s.store[s.At(i)].end == s.store[s.At(i + 1)].version
  {
    hide LastMark, MarkedBy, Inv;
    TilesExact(txn, value, es, i);
    ReplacedMarked(txn, value, es);
    var n := LastIsMark(Initial(txn, value), es, Run(Initial(txn, value), es).At(i));
  }
}
