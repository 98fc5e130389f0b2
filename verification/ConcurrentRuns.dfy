/** What holds after every interleaving of calls on one version cell. */
module ConcurrentRuns {
  import opened Options
  import opened VersionChain
  import opened ConcurrentCell

  // ---------- no update is lost ----------

  /** The value that the installed calls make of `value`, one after the other. */
  function Composed<V>(value: V, log: seq<Install<V>>): V {
    if log == [] then value
    else NewValue(log[|log| - 1].call, Composed(value, log[..|log| - 1]))
  }

  lemma {:induction false} ComposedAt<V>(s: State<V>, txn: TxnId, value: V, n: nat)
    requires Inv(s, txn, value) && n <= |s.log|
    ensures s.store[s.At(n)].value == Composed(value, s.log[..n])
  {
    if n > 0 {
      ComposedAt(s, txn, value, n - 1);
      assert AppliedAt(s, n - 1);
      assert s.log[..n][..n - 1] == s.log[..n - 1];
    }
  }

  /** The current value is the composition of all installed calls in the order of their compare-and-swaps. */
  lemma NoUpdateLost<V>(txn: TxnId, value: V, es: seq<Event<V>>)
    ensures Safe(Initial(txn, value))
    ensures var s := Run(Initial(txn, value), es); s.store[s.head].value == Composed(value, s.log)
  {
    RunKeeps(txn, value, es);
    var s := Run(Initial(txn, value), es);
    ComposedAt(s, txn, value, |s.log|);
    assert s.log[..|s.log|] == s.log;
  }

  /** A compare-and-swap fails exactly when another write was installed since the thread loaded the head. */
  lemma SwapFailsAfterInstall<V>(txn: TxnId, value: V, es: seq<Event<V>>, t: ThreadId)
    ensures Safe(Initial(txn, value))
    ensures var s := Run(Initial(txn, value), es);
      s.PhaseOf(t).Marked? ==> (s.head != s.PhaseOf(t).exp <==> s.PhaseOf(t).at < |s.log|)
  {
    RunKeeps(txn, value, es);
    var s := Run(Initial(txn, value), es);
    if s.PhaseOf(t).Marked? {
      assert Remembers(s, s.PhaseOf(t));
    }
  }

  // ---------- every call takes effect as it reports ----------

  ghost predicate Entered<V>(s: State<V>, i: nat, no: nat, id: Id) {
    i < |s.log| && s.log[i].no == no && s.log[i].id == id
  }

  /** Installed writes belong to different calls, and are reported as installed or about to be. */
  ghost predicate LogAccounted<V>(s: State<V>) {
    && (forall i :: 0 <= i < |s.log| ==> s.log[i].no < |s.begun| && s.begun[s.log[i].no].call == s.log[i].call)
    && (forall i, j :: 0 <= i < j < |s.log| ==> s.log[i].no != s.log[j].no)
    && (forall i :: 0 <= i < |s.log| ==> Reported(s, i) || exists t :: Linking(s, t, i))
  }

  predicate Reported<V>(s: State<V>, i: nat)
    requires i < |s.log|
  {
    s.log[i].no in s.returned && s.returned[s.log[i].no] == Installed(s.log[i].id)
  }

  /** Only calls that installed their snapshot report it, and those that report a refusal installed nothing. */
  ghost predicate ReturnsAccounted<V>(s: State<V>) {
    forall no :: no in s.returned ==>
      && no < |s.begun|
      && match s.returned[no]
         case Installed(id) => exists i :: Entered(s, i, no, id)
         case _ => forall i :: 0 <= i < |s.log| ==> s.log[i].no != no
  }

  /** A call in progress has not returned, and has not installed anything before its compare-and-swap. */
  ghost predicate ThreadsAccounted<V>(s: State<V>) {
    forall t :: t in s.threads && !s.threads[t].Idle? ==> Pending(s, s.threads[t])
  }

  ghost predicate Pending<V>(s: State<V>, p: Phase<V>)
    requires !p.Idle?
  {
    && p.no !in s.returned
    && (!p.Swapped? ==> forall i :: 0 <= i < |s.log| ==> s.log[i].no != p.no)
  }

  ghost predicate Accounted<V>(s: State<V>) {
    LogAccounted(s) && ReturnsAccounted(s) && ThreadsAccounted(s)
  }

  /** A step that installs nothing, and returns at most a refusal or an ended snapshot. */
  ghost predicate Aside<V>(s: State<V>, r: State<V>, t: ThreadId, q: Phase<V>) {
    var p := s.PhaseOf(t);
    && r.log == s.log && s.begun <= r.begun && r.threads == s.threads[t := q] && !p.Swapped?
    && (q.Idle? || (!p.Idle? && q.no == p.no) || q.no == |s.begun|)
    && (q.Swapped? ==> p.Swapped?)
    && (r.returned == s.returned
        || (q.Idle? && HasExp(p)
            && (r.returned == s.returned[p.no := Refused] || r.returned == s.returned[p.no := EndedAt(p.exp)])))
  }

  lemma AsideReported<V>(s: State<V>, r: State<V>, t: ThreadId, q: Phase<V>)
    requires Accounted(s) && Aside(s, r, t, q)
    ensures LogAccounted(r)
  {
    hide ReturnsAccounted;
    forall i | 0 <= i < |r.log|
      ensures Reported(r, i) || exists u :: Linking(r, u, i)
    {
      if !Reported(s, i) {
        var u :| Linking(s, u, i);
        assert Linking(r, u, i);
      }
    }
  }

  lemma AsideReturns<V>(s: State<V>, r: State<V>, t: ThreadId, q: Phase<V>)
    requires Accounted(s) && Aside(s, r, t, q) && (!s.PhaseOf(t).Idle? ==> s.PhaseOf(t).no < |s.begun|)
    ensures ReturnsAccounted(r)
  {
    hide LogAccounted;
    forall no | no in r.returned && no in s.returned && r.returned[no].Installed?
      ensures exists i :: Entered(r, i, no, r.returned[no].id)
    {
      var i :| Entered(s, i, no, s.returned[no].id);
      assert Entered(r, i, no, r.returned[no].id);
    }
  }

  lemma AsideAccounted<V>(s: State<V>, r: State<V>, t: ThreadId, q: Phase<V>, txn: TxnId, value: V)
    requires Safe(s) && Inv(s, txn, value) && Accounted(s) && Aside(s, r, t, q)
    ensures Accounted(r)
  {
    hide Safe, HeadIsLast, Applied, Linked, ThreadsRemember, Apart;
    assert LogAccounted(r) by {
      AsideReported(s, r, t, q);
    }
    assert ReturnsAccounted(r) by {
      AsideReturns(s, r, t, q);
    }
    forall u | u in r.threads && !r.threads[u].Idle?
      ensures Pending(r, r.threads[u])
    {
      if u != t {
        PairApart(s, t, u);
      }
    }
  }

  /** The call of thread `t`, before its compare-and-swap or its link. */
  ghost predicate OnlyOne<V>(s: State<V>, t: ThreadId)
    requires !s.PhaseOf(t).Idle?
  {
    forall u :: u in s.threads && u != t && !s.threads[u].Idle? ==> s.threads[u].no != s.PhaseOf(t).no
  }

  lemma OnlyOneWorks<V>(s: State<V>, t: ThreadId, txn: TxnId, value: V)
    requires Inv(s, txn, value) && !s.PhaseOf(t).Idle?
    ensures OnlyOne(s, t)
  {
    hide HeadIsLast, Applied, Linked, ThreadsRemember, Counted, Apart;
    forall u | u in s.threads && u != t
      ensures PhasesApart(s.threads[u], s.PhaseOf(t))
    {
      PairApart(s, u, t);
    }
  }

  lemma SwapReported<V>(s: State<V>, t: ThreadId)
    requires LogAccounted(s) && s.PhaseOf(t).Marked? && s.PhaseOf(t).at == |s.log|
    ensures var r := SwapDone(s, t);
      forall i :: 0 <= i < |r.log| ==> Reported(r, i) || exists u :: Linking(r, u, i)
  {
    var r := SwapDone(s, t);
    forall i | 0 <= i < |r.log|
      ensures Reported(r, i) || exists u :: Linking(r, u, i)
    {
      if i == |s.log| {
        assert Linking(r, t, i);
      } else if !Reported(s, i) {
        var u :| Linking(s, u, i);
        assert Linking(r, u, i);
      }
    }
  }

  lemma SwapLog<V>(s: State<V>, t: ThreadId)
    requires LogAccounted(s) && s.PhaseOf(t).Marked? && s.PhaseOf(t).at == |s.log|
    requires Pending(s, s.PhaseOf(t)) && IsBegun(s, s.PhaseOf(t).no, s.PhaseOf(t).req)
    ensures LogAccounted(SwapDone(s, t))
  {
    hide Reported, Linking;
    SwapReported(s, t);
  }

  lemma SwapReturns<V>(s: State<V>, t: ThreadId)
    requires ReturnsAccounted(s) && s.PhaseOf(t).Marked? && Pending(s, s.PhaseOf(t))
    ensures ReturnsAccounted(SwapDone(s, t))
  {
    var r := SwapDone(s, t);
    forall no | no in r.returned && r.returned[no].Installed?
      ensures exists i :: Entered(r, i, no, r.returned[no].id)
    {
      var i :| Entered(s, i, no, s.returned[no].id);
      assert Entered(r, i, no, r.returned[no].id);
    }
  }

  lemma SwapAccounted<V>(s: State<V>, t: ThreadId, txn: TxnId, value: V)
    requires Safe(s) && Inv(s, txn, value) && Accounted(s)
    requires s.PhaseOf(t).Marked? && s.head == s.PhaseOf(t).exp
    ensures Accounted(MoveThread(s, t))
  {
    hide Safe, MoveThread, Inv, LogAccounted, ReturnsAccounted, SwapDone;
    SwapOrLink(s, t);
    InstallsNext(s, t, txn, value);
    OnlyOneWorks(s, t, txn, value);
    SwapLog(s, t);
    SwapReturns(s, t);
    SwapThreads(s, t);
  }

  lemma SwapThreads<V>(s: State<V>, t: ThreadId)
    requires ThreadsAccounted(s) && s.PhaseOf(t).Marked? && OnlyOne(s, t)
    ensures ThreadsAccounted(SwapDone(s, t))
  {
  }

  lemma InstallsNext<V>(s: State<V>, t: ThreadId, txn: TxnId, value: V)
    requires Inv(s, txn, value) && s.PhaseOf(t).Marked? && s.head == s.PhaseOf(t).exp
    ensures s.PhaseOf(t).at == |s.log| && IsBegun(s, s.PhaseOf(t).no, s.PhaseOf(t).req)
  {
    hide Applied, Linked, ThreadsRemember, Counted, Apart;
    ThreadFacts(s, t, txn, value);
  }

  lemma LinkReported<V>(s: State<V>, t: ThreadId)
    requires LogAccounted(s) && s.PhaseOf(t).Swapped? && s.PhaseOf(t).desired < |s.store|
    requires Entered(s, s.PhaseOf(t).at, s.PhaseOf(t).no, s.PhaseOf(t).desired)
    ensures LogAccounted(LinkDone(s, t))
  {
    var p, r := s.PhaseOf(t), LinkDone(s, t);
    forall i | 0 <= i < |r.log|
      ensures Reported(r, i) || exists u :: Linking(r, u, i)
    {
      if i != p.at && !Reported(s, i) {
        var u :| Linking(s, u, i);
        assert Linking(r, u, i);
      }
    }
  }

  lemma LinkReturns<V>(s: State<V>, t: ThreadId)
    requires ReturnsAccounted(s) && s.PhaseOf(t).Swapped? && s.PhaseOf(t).desired < |s.store|
    requires Entered(s, s.PhaseOf(t).at, s.PhaseOf(t).no, s.PhaseOf(t).desired) && s.PhaseOf(t).no < |s.begun|
    ensures ReturnsAccounted(LinkDone(s, t))
  {
    var p, r := s.PhaseOf(t), LinkDone(s, t);
    assert Entered(r, p.at, p.no, p.desired);
    forall no | no in s.returned && s.returned[no].Installed?
      ensures exists i :: Entered(r, i, no, s.returned[no].id)
    {
      var i :| Entered(s, i, no, s.returned[no].id);
      assert Entered(r, i, no, s.returned[no].id);
    }
  }

  lemma LinkThreads<V>(s: State<V>, t: ThreadId)
    requires ThreadsAccounted(s) && s.PhaseOf(t).Swapped? && s.PhaseOf(t).desired < |s.store| && OnlyOne(s, t)
    ensures ThreadsAccounted(LinkDone(s, t))
  {
  }

  lemma LinkAccounted<V>(s: State<V>, t: ThreadId, txn: TxnId, value: V)
    requires Safe(s) && Inv(s, txn, value) && Accounted(s) && s.PhaseOf(t).Swapped?
    ensures Accounted(MoveThread(s, t))
  {
    hide Safe, MoveThread, Inv, LogAccounted, ReturnsAccounted, ThreadsAccounted, LinkDone;
    SwapOrLink(s, t);
    LinksLast(s, t, txn, value);
    OnlyOneWorks(s, t, txn, value);
    LinkReported(s, t);
    LinkReturns(s, t);
    LinkThreads(s, t);
  }

  lemma LinksLast<V>(s: State<V>, t: ThreadId, txn: TxnId, value: V)
    requires Inv(s, txn, value) && s.PhaseOf(t).Swapped?
    ensures Entered(s, s.PhaseOf(t).at, s.PhaseOf(t).no, s.PhaseOf(t).desired) && s.PhaseOf(t).no < |s.begun|
  {
    hide Applied, Linked, ThreadsRemember, Counted, Apart;
    ThreadFacts(s, t, txn, value);
  }

  lemma MoveAside<V>(s: State<V>, t: ThreadId)
    requires Safe(s)
    requires var p := s.PhaseOf(t); !p.Idle? && !p.Swapped? && !(p.Marked? && s.head == p.exp)
    ensures var r := MoveThread(s, t); Aside(s, r, t, r.PhaseOf(t))
  {
    hide Safe, Guarded;
    SafeThread(s, t);
  }

  lemma ActiveAccounted<V>(s: State<V>, active: set<TxnId>)
    requires Accounted(s)
    ensures Accounted(s.(active := active))
  {
    var r := s.(active := active);
    forall i | 0 <= i < |r.log|
      ensures Reported(r, i) || exists u :: Linking(r, u, i)
    {
      if !Reported(s, i) {
        var u :| Linking(s, u, i);
        assert Linking(r, u, i);
      }
    }
    forall no | no in r.returned && r.returned[no].Installed?
      ensures exists i :: Entered(r, i, no, r.returned[no].id)
    {
      var i :| Entered(s, i, no, s.returned[no].id);
      assert Entered(r, i, no, r.returned[no].id);
    }
  }

  lemma StepAccounted<V>(s: State<V>, e: Event<V>, txn: TxnId, value: V)
    requires Safe(s) && Inv(s, txn, value) && Accounted(s)
    ensures Accounted(Step(s, e))
  {
    hide Inv, Accounted, MoveThread;
    match e {
      case Begin(t, req) =>
        if s.PhaseOf(t).Idle? {
          AsideAccounted(s, Step(s, e), t, Ready(req, |s.begun|), txn, value);
        }
      case SetActive(id, on) =>
        ActiveAccounted(s, if on then s.active + {id} else s.active - {id});
      case Move(t) =>
        var p := s.PhaseOf(t);
        if p.Idle? {
          MoveIdle(s, t);
        } else if p.Swapped? {
          LinkAccounted(s, t, txn, value);
        } else if p.Marked? && s.head == p.exp {
          SwapAccounted(s, t, txn, value);
        } else {
          MoveAside(s, t);
          AsideAccounted(s, MoveThread(s, t), t, MoveThread(s, t).PhaseOf(t), txn, value);
        }
    }
  }

  lemma {:induction false} RunAccounted<V>(txn: TxnId, value: V, es: seq<Event<V>>)
    ensures Safe(Initial(txn, value)) && Accounted(Run(Initial(txn, value), es))
  {
    if es != [] {
      hide Accounted, Inv;
      RunAccounted(txn, value, es[..|es| - 1]);
      RunKeeps(txn, value, es[..|es| - 1]);
      StepAccounted(Run(Initial(txn, value), es[..|es| - 1]), es[|es| - 1], txn, value);
    }
  }

  ghost function Entries<V>(log: seq<Install<V>>, no: nat): set<nat> {
    set i | 0 <= i < |log| && log[i].no == no
  }

  /**
   * A call that returned its snapshot is composed into the current value exactly once, with the
   * operation that the caller asked for; one that returned null, or only ended a snapshot, not at all.
   */
  lemma ExactlyOnce<V>(txn: TxnId, value: V, es: seq<Event<V>>, no: nat)
    ensures Safe(Initial(txn, value))
    ensures var s := Run(Initial(txn, value), es);
      && |Entries(s.log, no)| <= 1
      && (forall i :: i in Entries(s.log, no) ==> no < |s.begun| && s.log[i].call == s.begun[no].call)
      && (no in s.returned ==> (|Entries(s.log, no)| == 1 <==> s.returned[no].Installed?))
  {
    RunAccounted(txn, value, es);
    var s := Run(Initial(txn, value), es);
    forall i, j | i in Entries(s.log, no) && j in Entries(s.log, no)
      ensures i == j
    {
    }
    if i :| i in Entries(s.log, no) {
      assert Entries(s.log, no) == {i};
    }
    if no in s.returned && s.returned[no].Installed? {
      var i :| Entered(s, i, no, s.returned[no].id);
      assert i in Entries(s.log, no);
    }
  }

  /** A delete ends the current snapshot exactly when no write was installed since it loaded the head. */
  lemma DeleteEndsHead<V>(txn: TxnId, value: V, es: seq<Event<V>>, t: ThreadId)
    ensures Safe(Initial(txn, value))
    ensures var s := Run(Initial(txn, value), es);
      s.PhaseOf(t).Ending? ==> (s.head == s.PhaseOf(t).exp <==> s.PhaseOf(t).at == |s.log|)
  {
    RunKeeps(txn, value, es);
    var s := Run(Initial(txn, value), es);
    if s.PhaseOf(t).Ending? {
      assert Remembers(s, s.PhaseOf(t));
    }
  }

  // ---------- the chain ----------

  /** The installed snapshots, newest first. */
  ghost function Newest<V>(s: State<V>): (path: seq<Id>)
    ensures |path| == |s.log| + 1
  {
    seq(|s.log| + 1, k requires 0 <= k <= |s.log| => s.At(|s.log| - k))
  }

  /** Following the links from `path[0]` meets exactly the snapshots of `path`. */
  ghost predicate Lists<V>(store: seq<Snap<V>>, path: seq<Id>) {
    && path != [] && (forall k :: 0 <= k < |path| ==> path[k] < |store|)
    && (forall k :: 0 <= k < |path| - 1 ==> store[path[k]].older == Some(path[k + 1]))
    && store[path[|path| - 1]].older == None
  }

  /** At every moment a link is missing or leads to the snapshot that was replaced. */
  lemma LinksAreReplacements<V>(txn: TxnId, value: V, es: seq<Event<V>>, i: nat)
    ensures Safe(Initial(txn, value))
    ensures var s := Run(Initial(txn, value), es);
      && (i < |s.log| ==> s.At(i + 1) < |s.store|)
      && (i < |s.log| ==> s.store[s.At(i + 1)].older in {None, Some(s.At(i))})
  {
    RunKeeps(txn, value, es);
    var s := Run(Initial(txn, value), es);
    if i < |s.log| {
      assert LinkedAt(s, i);
    }
  }

  ghost predicate NoneLinking<V>(s: State<V>) {
    forall t :: t in s.threads ==> !s.threads[t].Swapped?
  }

  lemma LinkOfNewest<V>(s: State<V>, txn: TxnId, value: V, k: nat)
    requires Inv(s, txn, value) && NoneLinking(s) && k <= |s.log|
    ensures Newest(s)[k] < |s.store|
    ensures var snap := s.store[Newest(s)[k]];
      if k < |s.log| then
        snap.older == Some(Newest(s)[k + 1]) && snap.version == s.log[|s.log| - 1 - k].call.txn
      else
        snap.older == None && snap.version == txn
  {
    hide ThreadsRemember, Apart, Counted;
    if k < |s.log| {
      assert LinkedAt(s, |s.log| - 1 - k) && AppliedAt(s, |s.log| - 1 - k);
    }
  }

  /**
   * Whenever no thread is between its compare-and-swap and its link, the chain from the head
   * lists all installed snapshots, the newest first, with the versions of their transactions.
   */
  lemma ChainComplete<V>(txn: TxnId, value: V, es: seq<Event<V>>)
    ensures Safe(Initial(txn, value))
    ensures var s := Run(Initial(txn, value), es);
      NoneLinking(s) ==>
        && Newest(s)[0] == s.head && Lists(s.store, Newest(s))
        && (forall k :: 0 <= k < |s.log| ==> s.store[Newest(s)[k]].version == s.log[|s.log| - 1 - k].call.txn)
  {
    hide Inv, Run;
    RunKeeps(txn, value, es);
    var s := Run(Initial(txn, value), es);
    if NoneLinking(s) {
      NewestListed(s, txn, value);
    }
  }

  lemma NewestListed<V>(s: State<V>, txn: TxnId, value: V)
    requires Inv(s, txn, value) && NoneLinking(s)
    ensures Newest(s)[0] == s.head && Lists(s.store, Newest(s))
    ensures forall k :: 0 <= k < |s.log| ==> s.store[Newest(s)[k]].version == s.log[|s.log| - 1 - k].call.txn
  {
    HeadNewest(s, txn, value);
    hide Inv, Newest, NoneLinking;
    var path := Newest(s);
    forall k | 0 <= k < |path|
      ensures path[k] < |s.store|
      ensures k < |path| - 1 ==> s.store[path[k]].older == Some(path[k + 1])
      ensures k < |path| - 1 ==> s.store[path[k]].version == s.log[|s.log| - 1 - k].call.txn
      ensures k == |path| - 1 ==> s.store[path[k]].older == None
    {
      LinkOfNewest(s, txn, value, k);
    }
  }

  lemma HeadNewest<V>(s: State<V>, txn: TxnId, value: V)
    requires Inv(s, txn, value)
    ensures Newest(s)[0] == s.head
  {
  }

  /** What later steps leave of a state: its snapshots keep version and value, and its installs keep their order. */
  ghost predicate Extends<V>(s: State<V>, r: State<V>) {
    && |s.store| <= |r.store|
    && (forall id :: 0 <= id < |s.store| ==>
          r.store[id].version == s.store[id].version && r.store[id].value == s.store[id].value)
    && |s.log| <= |r.log| && (forall i :: 0 <= i < |s.log| ==> r.log[i] == s.log[i])
  }

  lemma StepExtends<V>(s: State<V>, e: Event<V>)
    requires Safe(s)
    ensures Extends(s, Step(s, e))
  {
    if e.Move? {
      assert SafeIds(s, s.PhaseOf(e.t));
    }
  }

  /** A snapshot handed out at some moment never changes its version or value afterwards. */
  lemma {:induction false} RunExtends<V>(s: State<V>, es: seq<Event<V>>, n: nat)
    requires Safe(s) && n <= |es|
    ensures Extends(Run(s, es[..n]), Run(s, es))
  {
    if n == |es| {
      assert es[..n] == es;
    } else {
      var before := es[..|es| - 1];
      RunExtends(s, before, n);
      assert before[..n] == es[..n];
      StepExtends(Run(s, before), es[|es| - 1]);
    }
  }

  // ---------- what does not hold when calls overlap ----------

  ghost predicate MarkedLate<V>(s: State<V>, r: State<V>, t: ThreadId)
    requires s.PhaseOf(t).Passed? && s.PhaseOf(t).at < |s.log|
  {
    var p := s.PhaseOf(t);
    && r.log == s.log && r.PhaseOf(t).Marked? && r.head != p.exp
    && p.exp == r.At(p.at) && r.At(p.at) < |r.store| && r.At(p.at + 1) < |r.store|
    && r.store[r.At(p.at)].end == p.req.call.txn
    && r.store[r.At(p.at + 1)].version == r.log[p.at].call.txn
  }

  lemma MarkLate<V>(s: State<V>, t: ThreadId, txn: TxnId, value: V)
    requires Safe(s) && Inv(s, txn, value) && s.PhaseOf(t).Passed? && s.PhaseOf(t).at < |s.log|
    ensures MarkedLate(s, MoveThread(s, t), t)
  {
    var p := s.PhaseOf(t);
    assert Remembers(s, p) && AppliedAt(s, p.at);
    hide ThreadsRemember, Remembers, Applied, Linked, Apart, Counted;
  }

  /**
   * A thread that gets past the guard after another write was installed goes on to overwrite the
   * end of a snapshot that is no longer the head, and its compare-and-swap then fails. That end is
   * the version of the next snapshot only if both writes belong to the same transaction.
   */
  lemma LateMark<V>(txn: TxnId, value: V, es: seq<Event<V>>, t: ThreadId)
    ensures Safe(Initial(txn, value))
    ensures var s := Run(Initial(txn, value), es);
      s.PhaseOf(t).Passed? && s.PhaseOf(t).at < |s.log| ==> MarkedLate(s, Step(s, Move(t)), t)
  {
    RunKeeps(txn, value, es);
    hide Inv, Run, MarkedLate, MoveThread;
    var s := Run(Initial(txn, value), es);
    if s.PhaseOf(t).Passed? && s.PhaseOf(t).at < |s.log| {
      MarkLate(s, t, txn, value);
    }
  }
}
