/** What the calls of a run compute, when the guard turns one away, and what each of them answers. */
module ConcurrentCalls {
  import opened VersionChain
  import opened ConcurrentCell

  // ---------- values ----------

  /** Each installed write holds the value asked for, or what its updater makes of the value it replaced. */
  lemma InstalledValues<V>(txn: TxnId, value: V, es: seq<Event<V>>, i: nat)
    ensures Safe(Initial(txn, value))
    ensures var s := Run(Initial(txn, value), es);
      && s.At(0) < |s.store| && s.store[s.At(0)].value == value
      && (i < |s.log| ==>
            && s.At(i) < |s.store| && s.At(i + 1) < |s.store|
            && match s.log[i].call
               case Overwrite(_, v) => s.store[s.At(i + 1)].value == v
               case Update(_, updater) => s.store[s.At(i + 1)].value == updater(s.store[s.At(i)].value)
               case Delete(_) => false)
  {
    RunKeeps(txn, value, es);
    hide Run, Linked, ThreadsRemember, Apart, Counted;
    var s := Run(Initial(txn, value), es);
    if i < |s.log| {
      assert AppliedAt(s, i);
    }
  }

  /** `f` applied `n` times. */
  function Times<V>(f: V -> V, n: nat, value: V): V {
    if n == 0 then value else f(Times(f, n - 1, value))
  }

  lemma {:induction false} UpdatesReach<V>(txn: TxnId, value: V, es: seq<Event<V>>, f: V -> V, n: nat)
    requires var s := Run(Initial(txn, value), es);
      n <= |s.log| && forall i :: 0 <= i < |s.log| ==> s.log[i].call == Update(s.log[i].call.txn, f)
    ensures var s := Run(Initial(txn, value), es);
      s.At(n) < |s.store| && s.store[s.At(n)].value == Times(f, n, value)
  {
    hide Run;
    InstalledValues(txn, value, es, if n > 0 then n - 1 else 0);
    if n > 0 {
      UpdatesReach(txn, value, es, f, n - 1);
    }
  }

  /** If all writes are updates by one function, none is lost: the current value is the function applied that often. */
  lemma UpdatesAddUp<V>(txn: TxnId, value: V, es: seq<Event<V>>, f: V -> V)
    ensures Safe(Initial(txn, value))
    ensures var s := Run(Initial(txn, value), es);
      (forall i :: 0 <= i < |s.log| ==> s.log[i].call == Update(s.log[i].call.txn, f)) ==>
        s.store[s.head].value == Times(f, |s.log|, value)
  {
    RunKeeps(txn, value, es);
    hide Run, Applied, Linked, ThreadsRemember, Apart, Counted;
    var s := Run(Initial(txn, value), es);
    if forall i :: 0 <= i < |s.log| ==> s.log[i].call == Update(s.log[i].call.txn, f) {
      UpdatesReach(txn, value, es, f, |s.log|);
    }
  }

  // ---------- the guard ----------

  /** What was last said of the status of a transaction. */
  function LastStatus<V>(es: seq<Event<V>>, txn: TxnId): bool {
    if es == [] then false
    else
      var e := es[|es| - 1];
      if e.SetActive? && e.txn == txn then e.on else LastStatus(es[..|es| - 1], txn)
  }

  lemma {:induction false} ActiveIs<V>(s: State<V>, es: seq<Event<V>>, txn: TxnId)
    requires Safe(s) && s.active == {}
    ensures txn in Run(s, es).active <==> LastStatus(es, txn)
  {
    if es != [] {
      ActiveIs(s, es[..|es| - 1], txn);
      StepActive(Run(s, es[..|es| - 1]), es[|es| - 1]);
    }
  }

  lemma StepActive<V>(s: State<V>, e: Event<V>)
    requires Safe(s)
    ensures !e.SetActive? ==> Step(s, e).active == s.active
    ensures e.SetActive? ==> forall txn :: txn in Step(s, e).active <==> if txn == e.txn then e.on else txn in s.active
  {
    hide Safe, Guarded;
    if e.Move? {
      SafeThread(s, e.t);
    }
  }

  /** What a thread reads of the head: first which snapshot it is, and then its end. */
  lemma ReadsHead<V>(s: State<V>, t: ThreadId)
    requires Safe(s)
    ensures var p, r := s.PhaseOf(t), MoveThread(s, t);
      && (p.Ready? ==> r == s.(threads := s.threads[t := Loaded(p.req, p.no, s.head, |s.log|)]))
      && (p.Loaded? ==>
            p.exp < |s.store|
            && r == s.(threads := s.threads[t := Phase.Read(p.req, p.no, p.exp, p.at, s.store[p.exp].end)]))
  {
    SafeThread(s, t);
  }

  /**
   * A write passes the guard exactly if the end that it has read is open, or the snapshot belongs to its own
   * transaction, or to one that is not active now. Otherwise it starts over or answers null.
   */
  lemma GuardExact<V>(s: State<V>, t: ThreadId)
    requires Safe(s) && s.PhaseOf(t).Made?
    ensures var p, r := s.PhaseOf(t), MoveThread(s, t);
      && p.exp < |s.store| && r.store == s.store && r.head == s.head && r.log == s.log
      && var version := s.store[p.exp].version;
      var passes := p.end == INF || version == p.req.call.txn || version !in s.active;
      && r.PhaseOf(t) ==
        (if passes then Passed(p.req, p.no, p.exp, p.at, p.desired)
         else if p.req.retry then Ready(p.req, p.no)
         else Idle)
      && r.returned == if passes || p.req.retry then s.returned else s.returned[p.no := Refused]
  {
    SafeThread(s, t);
  }

  /** A delete passes on the same condition, and starts over otherwise. */
  lemma DeleteGuardExact<V>(s: State<V>, t: ThreadId)
    requires Safe(s) && s.PhaseOf(t).Read? && s.PhaseOf(t).req.call.Delete?
    ensures var p, r := s.PhaseOf(t), MoveThread(s, t);
      && p.exp < |s.store| && r == s.(threads := r.threads)
      && var version := s.store[p.exp].version;
      r.PhaseOf(t) ==
        if p.end == INF || version == p.req.call.txn || version !in s.active then Ending(p.req, p.no, p.exp, p.at)
        else Ready(p.req, p.no)
  {
    SafeThread(s, t);
  }

  // ---------- answers ----------

  /** The answers that a call may give. */
  predicate AnswerFits<V>(req: Request<V>, a: Outcome) {
    match a
    case Installed(_) => !req.call.Delete?
    case EndedAt(_) => req.call.Delete?
    case Refused => !req.call.Delete? && !req.retry
  }

  predicate PhaseFits<V>(p: Phase<V>) {
    (p.Ending? ==> p.req.call.Delete?) && (HasDesired(p) ==> !p.req.call.Delete?)
  }

  /** Thread `t` works on call `no`. */
  predicate Working<V>(s: State<V>, t: ThreadId, no: nat) {
    !s.PhaseOf(t).Idle? && s.PhaseOf(t).no == no
  }

  /** Answers fit their calls, and every call that was begun is being worked on or has been answered. */
  ghost predicate Answered<V>(s: State<V>) {
    && (forall t :: PhaseFits(s.PhaseOf(t)) && (!s.PhaseOf(t).Idle? ==> IsBegun(s, s.PhaseOf(t).no, s.PhaseOf(t).req)))
    && (forall no :: no in s.returned ==> no < |s.begun| && AnswerFits(s.begun[no], s.returned[no]))
    && (forall no :: 0 <= no < |s.begun| ==> no in s.returned || exists t :: Working(s, t, no))
  }

  /** A step of a thread goes on with its call or answers it. */
  lemma MoveAnswers<V>(s: State<V>, t: ThreadId)
    requires Safe(s) && !s.PhaseOf(t).Idle? && PhaseFits(s.PhaseOf(t))
    ensures var p, r := s.PhaseOf(t), MoveThread(s, t);
      var q := r.PhaseOf(t);
      && r.begun == s.begun && r.threads == s.threads[t := q] && PhaseFits(q)
      && if q.Idle? then p.no in r.returned && r.returned == s.returned[p.no := r.returned[p.no]]
                         && AnswerFits(p.req, r.returned[p.no])
         else r.returned == s.returned && q.no == p.no && q.req == p.req
  {
    hide Safe, Guarded;
    SafeThread(s, t);
  }

  lemma StillWorking<V>(s: State<V>, r: State<V>, t: ThreadId, q: Phase<V>, no: nat)
    requires r.threads == s.threads[t := q] && (exists u :: Working(s, u, no))
    requires s.PhaseOf(t).Idle? || s.PhaseOf(t).no != no || (!q.Idle? && q.no == no)
    ensures exists u :: Working(r, u, no)
  {
    var u :| Working(s, u, no);
    assert Working(r, u, no);
  }

  lemma MoveAnswered<V>(s: State<V>, t: ThreadId)
    requires Safe(s) && Answered(s)
    ensures Answered(MoveThread(s, t))
  {
    hide Safe, MoveThread, AnswerFits, PhaseFits;
    var p, r := s.PhaseOf(t), MoveThread(s, t);
    if p.Idle? {
      MoveIdle(s, t);
      return;
    }
    MoveAnswers(s, t);
    forall no | 0 <= no < |r.begun|
      ensures no in r.returned || exists u :: Working(r, u, no)
    {
      if no !in r.returned {
        StillWorking(s, r, t, r.PhaseOf(t), no);
      }
    }
    forall u
      ensures PhaseFits(r.PhaseOf(u))
      ensures !r.PhaseOf(u).Idle? ==> IsBegun(r, r.PhaseOf(u).no, r.PhaseOf(u).req)
    {
      assert u != t ==> r.PhaseOf(u) == s.PhaseOf(u);
    }
  }

  lemma BeginAnswered<V>(s: State<V>, t: ThreadId, req: Request<V>)
    requires Answered(s) && s.PhaseOf(t).Idle?
    ensures Answered(s.(threads := s.threads[t := Ready(req, |s.begun|)], begun := s.begun + [req]))
  {
    hide AnswerFits;
    var r := s.(threads := s.threads[t := Ready(req, |s.begun|)], begun := s.begun + [req]);
    assert Working(r, t, |s.begun|);
    forall no | 0 <= no < |s.begun| && no !in s.returned
      ensures exists u :: Working(r, u, no)
    {
      StillWorking(s, r, t, Ready(req, |s.begun|), no);
    }
    forall u
      ensures PhaseFits(r.PhaseOf(u))
      ensures !r.PhaseOf(u).Idle? ==> IsBegun(r, r.PhaseOf(u).no, r.PhaseOf(u).req)
    {
      assert u != t ==> r.PhaseOf(u) == s.PhaseOf(u);
    }
  }

  lemma ActiveAnswered<V>(s: State<V>, active: set<TxnId>)
    requires Answered(s)
    ensures Answered(s.(active := active))
  {
    hide AnswerFits, PhaseFits;
    var r := s.(active := active);
    forall no | 0 <= no < |s.begun| && no !in s.returned
      ensures exists u :: Working(r, u, no)
    {
      var u :| Working(s, u, no);
      assert Working(r, u, no);
    }
    assert forall u :: r.PhaseOf(u) == s.PhaseOf(u);
  }

  lemma {:induction false} RunAnswered<V>(txn: TxnId, value: V, es: seq<Event<V>>)
    ensures Safe(Initial(txn, value)) && Answered(Run(Initial(txn, value), es))
  {
    hide Answered, MoveThread;
    if es == [] {
      NoneBegun(txn, value);
    } else {
      var s, e := Run(Initial(txn, value), es[..|es| - 1]), es[|es| - 1];
      RunAnswered(txn, value, es[..|es| - 1]);
      match e {
        case Begin(t, req) => if s.PhaseOf(t).Idle? { BeginAnswered(s, t, req); }
        case Move(t) => MoveAnswered(s, t);
        case SetActive(id, on) => ActiveAnswered(s, if on then s.active + {id} else s.active - {id});
      }
    }
  }

  lemma NoneBegun<V>(txn: TxnId, value: V)
    ensures Answered(Initial(txn, value))
  {
  }

  /**
   * After every run each call that was begun is in progress or has its answer: a write that tries again is never
   * refused, a delete returns an ended snapshot, and only an overwrite or update that does not try again can get null.
   */
  lemma CallsAnswered<V>(txn: TxnId, value: V, es: seq<Event<V>>, no: nat)
    ensures Safe(Initial(txn, value))
    ensures var s := Run(Initial(txn, value), es);
      && (no < |s.begun| ==> no in s.returned || exists t :: !s.PhaseOf(t).Idle? && s.PhaseOf(t).no == no)
      && (no in s.returned ==>
            && no < |s.begun|
            && (s.returned[no].EndedAt? <==> s.begun[no].call.Delete?)
            && (s.begun[no].retry ==> s.returned[no] != Refused))
  {
    RunAnswered(txn, value, es);
    hide Run;
    var s := Run(Initial(txn, value), es);
    if no < |s.begun| && no !in s.returned {
      var t :| Working(s, t, no);
      assert !s.PhaseOf(t).Idle? && s.PhaseOf(t).no == no;
    }
  }

  /** A step refuses a call that does not try again at the guard, or because another write was installed. */
  lemma RefusedExact<V>(s: State<V>, t: ThreadId)
    requires Safe(s) && !s.PhaseOf(t).Idle? && s.PhaseOf(t).no !in s.returned
    ensures var p, r := s.PhaseOf(t), MoveThread(s, t);
      var version := if HasExp(p) && p.exp < |s.store| then s.store[p.exp].version else p.req.call.txn;
      (p.no in r.returned && r.returned[p.no] == Refused) <==>
      (!p.req.retry
       && ((p.Made? && p.end != INF && version != p.req.call.txn && version in s.active)
           || (p.Marked? && s.head != p.exp)))
  {
    hide Safe;
    SafeThread(s, t);
  }
}
