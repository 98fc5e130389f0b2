/** Calls that nobody disturbs, and two interleavings in which calls do disturb each other. */
module ConcurrentAlone {
  import opened Options
  import opened VersionChain
  import opened ConcurrentCell

  /** `n` steps of one thread, with nobody else in between. */
  function Moves<V>(t: ThreadId, n: nat): seq<Event<V>> {
    if n == 0 then [] else Moves<V>(t, n - 1) + [Move(t)]
  }

  lemma {:induction false} RunConcat<V>(s: State<V>, es: seq<Event<V>>, fs: seq<Event<V>>)
    requires Safe(s)
    ensures Run(s, es + fs) == Run(Run(s, es), fs)
  {
    hide Step;
    if fs == [] {
      assert es + fs == es;
    } else {
      var front := fs[..|fs| - 1];
      RunConcat(s, es, front);
      assert (es + fs)[..|es + fs| - 1] == es + front;
    }
  }

  lemma OneStep<V>(s: State<V>, es: seq<Event<V>>, e: Event<V>)
    requires Safe(s)
    ensures Run(s, es + [e]) == Step(Run(s, es), e)
  {
    hide Step;
    assert (es + [e])[..|es|] == es;
  }

  lemma OneMove<V>(s: State<V>, t: ThreadId, n: nat)
    requires Safe(s)
    ensures Run(s, Moves(t, 0)) == s
    ensures Run(s, Moves(t, n + 1)) == MoveThread(Run(s, Moves(t, n)), t)
  {
    hide MoveThread, Run;
    OneStep(s, Moves(t, n), Move(t));
    assert Run(s, []) == s by {
      NoStep(s);
    }
  }

  lemma NoStep<V>(s: State<V>)
    requires Safe(s)
    ensures Run(s, []) == s
  {
  }

  /** The same state, with thread `t` elsewhere in its call. */
  function With<V>(s: State<V>, t: ThreadId, p: Phase<V>): State<V> {
    s.(threads := s.threads[t := p])
  }

  lemma WithTwice<V>(s: State<V>, t: ThreadId, p: Phase<V>, q: Phase<V>)
    ensures With(With(s, t, p), t, q) == With(s, t, q) && With(s, t, p).PhaseOf(t) == p
    ensures Safe(s) && SafeIds(s, p) ==> Safe(With(s, t, p))
  {
  }

  /** The guard lets the call pass on the end that the snapshot has now. */
  predicate Open<V>(s: State<V>, req: Request<V>, exp: Id)
    requires exp < |s.store|
  {
    !Guarded(s, req, exp, s.store[exp].end)
  }

  // ---------- a write ----------

  function Grown<V>(s: State<V>, call: Call<V>, exp: Id): State<V>
    requires exp < |s.store|
  {
    s.(store := s.store + [Snap(call.txn, NewValue(call, s.store[exp].value), INF, None)])
  }

  lemma Loads<V>(s: State<V>, t: ThreadId, req: Request<V>, no: nat)
    requires Safe(s) && s.PhaseOf(t) == Ready(req, no)
    ensures MoveThread(s, t) == With(s, t, Loaded(req, no, s.head, |s.log|))
  {
  }

  lemma Reads<V>(s: State<V>, t: ThreadId, req: Request<V>, no: nat, exp: Id, at: nat)
    requires Safe(s) && exp < |s.store|
    ensures var r := With(s, t, Loaded(req, no, exp, at));
      Safe(r) && MoveThread(r, t) == With(s, t, Phase.Read(req, no, exp, at, s.store[exp].end))
  {
    WithTwice(s, t, Loaded(req, no, exp, at), Phase.Read(req, no, exp, at, s.store[exp].end));
  }

  lemma Makes<V>(s: State<V>, t: ThreadId, req: Request<V>, no: nat, exp: Id, at: nat, end: nat)
    requires Safe(s) && exp < |s.store| && !req.call.Delete?
    ensures var r := With(s, t, Phase.Read(req, no, exp, at, end));
      Safe(r) && MoveThread(r, t) == With(Grown(s, req.call, exp), t, Made(req, no, exp, at, end, |s.store|))
  {
    WithTwice(s, t, Phase.Read(req, no, exp, at, end), Made(req, no, exp, at, end, |s.store|));
  }

  lemma PassesGuard<V>(s: State<V>, t: ThreadId, req: Request<V>, no: nat, exp: Id, at: nat, end: nat)
    requires Safe(s) && exp < |s.store| && !Guarded(s, req, exp, end)
    ensures var g, made := Grown(s, req.call, exp), Made(req, no, exp, at, end, |s.store|);
      && Safe(With(g, t, made))
      && MoveThread(With(g, t, made), t) == With(g, t, Passed(req, no, exp, at, |s.store|))
  {
    WithTwice(Grown(s, req.call, exp), t, Made(req, no, exp, at, end, |s.store|), Passed(req, no, exp, at, |s.store|));
  }

  /** Four steps take a write past the guard. */
  lemma WritePasses<V>(s: State<V>, t: ThreadId, req: Request<V>, no: nat)
    requires Safe(s) && s.PhaseOf(t) == Ready(req, no) && !req.call.Delete? && Open(s, req, s.head)
    ensures Run(s, Moves(t, 4)) == With(Grown(s, req.call, s.head), t, Passed(req, no, s.head, |s.log|, |s.store|))
  {
    hide Run, Moves, MoveThread, With, Grown, Guarded;
    var exp, at, end := s.head, |s.log|, s.store[s.head].end;
    OneMove(s, t, 0);
    Loads(s, t, req, no);
    OneMove(s, t, 1);
    Reads(s, t, req, no, exp, at);
    OneMove(s, t, 2);
    Makes(s, t, req, no, exp, at, end);
    OneMove(s, t, 3);
    PassesGuard(s, t, req, no, exp, at, end);
  }

  function EndedIn<V>(s: State<V>, id: Id, txn: TxnId): State<V>
    requires id < |s.store|
  {
    s.(store := s.store[id := s.store[id].(end := txn)])
  }

  /** The state after snapshot `id` has been put in the place of the head. */
  function SwappedIn<V>(s: State<V>, call: Call<V>, no: nat, id: Id): State<V> {
    s.(head := id, log := s.log + [Install(no, call, id)])
  }

  function LinkedIn<V>(s: State<V>, no: nat, id: Id, exp: Id): State<V>
    requires id < |s.store|
  {
    s.(store := s.store[id := s.store[id].(older := Some(exp))], returned := s.returned[no := Installed(id)])
  }

  lemma Marks<V>(s: State<V>, t: ThreadId, req: Request<V>, no: nat, exp: Id, at: nat, id: Id)
    requires Safe(s) && exp < |s.store| && id < |s.store|
    ensures var r, e := With(s, t, Passed(req, no, exp, at, id)), EndedIn(s, exp, req.call.txn);
      Safe(r) && Safe(e) && MoveThread(r, t) == With(e, t, Marked(req, no, exp, at, id))
  {
    WithTwice(EndedIn(s, exp, req.call.txn), t, Passed(req, no, exp, at, id), Marked(req, no, exp, at, id));
  }

  lemma Swaps<V>(s: State<V>, t: ThreadId, req: Request<V>, no: nat, at: nat, id: Id)
    requires Safe(s) && id < |s.store|
    ensures var r, e := With(s, t, Marked(req, no, s.head, at, id)), SwappedIn(s, req.call, no, id);
      Safe(r) && Safe(e) && MoveThread(r, t) == With(e, t, Swapped(req, no, s.head, at, id))
  {
    WithTwice(SwappedIn(s, req.call, no, id), t, Marked(req, no, s.head, at, id), Swapped(req, no, s.head, at, id));
  }

  lemma Links<V>(s: State<V>, t: ThreadId, req: Request<V>, no: nat, exp: Id, at: nat, id: Id)
    requires Safe(s) && exp < |s.store| && id < |s.store|
    ensures var r, e := With(s, t, Swapped(req, no, exp, at, id)), LinkedIn(s, no, id, exp);
      Safe(r) && Safe(e) && MoveThread(r, t) == With(e, t, Idle)
  {
    WithTwice(LinkedIn(s, no, id, exp), t, Swapped(req, no, exp, at, id), Idle);
  }

  lemma TurnsAway<V>(s: State<V>, t: ThreadId, req: Request<V>, no: nat, exp: Id, at: nat, id: Id)
    requires Safe(s) && exp < |s.store| && id < |s.store| && exp != s.head && !req.retry
    ensures var r := With(s, t, Marked(req, no, exp, at, id));
      Safe(r) && MoveThread(r, t) == With(s.(returned := s.returned[no := Refused]), t, Idle)
  {
    WithTwice(s.(returned := s.returned[no := Refused]), t, Marked(req, no, exp, at, id), Idle);
  }

  function InstalledIn<V>(s: State<V>, call: Call<V>, no: nat, id: Id): State<V>
    requires s.head < |s.store| && id < |s.store|
  {
    LinkedIn(SwappedIn(EndedIn(s, s.head, call.txn), call, no, id), no, id, s.head)
  }

  /** Three more install it. */
  lemma WriteInstalls<V>(s: State<V>, t: ThreadId, req: Request<V>, no: nat, at: nat, id: Id)
    requires Safe(s) && id < |s.store|
    ensures var r := With(s, t, Passed(req, no, s.head, at, id));
      Safe(r) && Run(r, Moves(t, 3)) == With(InstalledIn(s, req.call, no, id), t, Idle)
  {
    hide Run, Moves, MoveThread, With;
    var e, r := EndedIn(s, s.head, req.call.txn), With(s, t, Passed(req, no, s.head, at, id));
    Marks(s, t, req, no, s.head, at, id);
    Swaps(e, t, req, no, at, id);
    Links(SwappedIn(e, req.call, no, id), t, req, no, s.head, at, id);
    OneMove(r, t, 0);
    OneMove(r, t, 1);
    OneMove(r, t, 2);
  }

  lemma {:induction false} MovesConcat<V>(t: ThreadId, m: nat, n: nat)
    ensures Moves<V>(t, m) + Moves<V>(t, n) == Moves(t, m + n)
  {
    if n > 0 {
      MovesConcat<V>(t, m, n - 1);
    }
  }

  function WrittenIn<V>(s: State<V>, call: Call<V>, no: nat): State<V>
    requires s.head < |s.store|
  {
    InstalledIn(Grown(s, call, s.head), call, no, |s.store|)
  }

  /**
   * A write that nobody disturbs and that the guard lets pass needs seven steps: its snapshot is the new head,
   * linked to the old one, which ends with the id of the transaction.
   */
  lemma WriteAlone<V>(s: State<V>, t: ThreadId, req: Request<V>, no: nat)
    requires Safe(s) && s.PhaseOf(t) == Ready(req, no) && !req.call.Delete? && Open(s, req, s.head)
    ensures Run(s, Moves(t, 7)) == With(WrittenIn(s, req.call, no), t, Idle)
    ensures var r := WrittenIn(s, req.call, no);
      && r.head == |s.store| && r.log == s.log + [Install(no, req.call, r.head)]
      && r.returned == s.returned[no := Installed(r.head)]
      && r.store == s.store[s.head := s.store[s.head].(end := req.call.txn)]
          + [Snap(req.call.txn, r.store[r.head].value, INF, Some(s.head))]
      && r.store[r.head].value ==
        if req.call.Overwrite? then req.call.value else req.call.updater(s.store[s.head].value)
  {
    hide Run, Moves, With, MoveThread;
    var g := Grown(s, req.call, s.head);
    WritePasses(s, t, req, no);
    assert Safe(g);
    WriteInstalls(g, t, req, no, |s.log|, |s.store|);
    RunConcat(s, Moves(t, 4), Moves(t, 3));
    MovesConcat<V>(t, 4, 3);
  }

  // ---------- a delete ----------

  lemma GoesToEnd<V>(s: State<V>, t: ThreadId, req: Request<V>, no: nat, exp: Id, at: nat, end: nat)
    requires Safe(s) && exp < |s.store| && req.call.Delete? && !Guarded(s, req, exp, end)
    ensures var r := With(s, t, Phase.Read(req, no, exp, at, end));
      Safe(r) && MoveThread(r, t) == With(s, t, Ending(req, no, exp, at))
  {
    WithTwice(s, t, Phase.Read(req, no, exp, at, end), Ending(req, no, exp, at));
  }

  lemma Ends<V>(s: State<V>, t: ThreadId, req: Request<V>, no: nat, exp: Id, at: nat)
    requires Safe(s) && exp < |s.store|
    ensures var r, e := With(s, t, Ending(req, no, exp, at)), EndedIn(s, exp, req.call.txn);
      Safe(r) && MoveThread(r, t) == With(e.(returned := e.returned[no := EndedAt(exp)]), t, Idle)
  {
    var e := EndedIn(s, exp, req.call.txn);
    WithTwice(e.(returned := e.returned[no := EndedAt(exp)]), t, Ending(req, no, exp, at), Idle);
  }

  /** A delete that has loaded a head ends that snapshot three steps later, whatever the head is by then. */
  lemma DeleteEnds<V>(s: State<V>, t: ThreadId, req: Request<V>, no: nat, exp: Id, at: nat)
    requires Safe(s) && exp < |s.store| && req.call.Delete? && Open(s, req, exp)
    ensures var r, e := With(s, t, Loaded(req, no, exp, at)), EndedIn(s, exp, req.call.txn);
      Safe(r) && Run(r, Moves(t, 3)) == With(e.(returned := e.returned[no := EndedAt(exp)]), t, Idle)
  {
    hide Run, Moves, MoveThread, With, Guarded;
    var r := With(s, t, Loaded(req, no, exp, at));
    Reads(s, t, req, no, exp, at);
    GoesToEnd(s, t, req, no, exp, at, s.store[exp].end);
    Ends(s, t, req, no, exp, at);
    OneMove(r, t, 0);
    OneMove(r, t, 1);
    OneMove(r, t, 2);
  }

  // ---------- two interleavings ----------

  lemma Begins<V>(s: State<V>, t: ThreadId, req: Request<V>)
    requires Safe(s) && s.PhaseOf(t).Idle?
    ensures Run(s, [Begin(t, req)]) == With(s.(begun := s.begun + [req]), t, Ready(req, |s.begun|))
  {
    hide Run;
    NoStep(s);
    OneStep(s, [], Begin(t, req));
    assert [] + [Begin(t, req)] == [Begin(t, req)];
  }

  lemma LoadsHead<V>(s: State<V>, t: ThreadId, req: Request<V>)
    requires Safe(s) && s.PhaseOf(t).Idle?
    ensures var no, r := |s.begun|, With(s.(begun := s.begun + [req]), t, Loaded(req, |s.begun|, s.head, |s.log|));
      Safe(r) && Run(s, [Begin(t, req)] + Moves(t, 1)) == r
  {
    hide Run, Moves, MoveThread;
    var b := s.(begun := s.begun + [req]);
    Begins(s, t, req);
    WithTwice(b, t, Ready(req, |s.begun|), Loaded(req, |s.begun|, s.head, |s.log|));
    RunConcat(s, [Begin(t, req)], Moves(t, 1));
    OneMove(With(b, t, Ready(req, |s.begun|)), t, 0);
    Loads(With(b, t, Ready(req, |s.begun|)), t, req, |s.begun|);
  }

  lemma WritesAlone<V>(s: State<V>, t: ThreadId, req: Request<V>)
    requires Safe(s) && s.PhaseOf(t).Idle? && !req.call.Delete? && Open(s, req, s.head)
    ensures var b := s.(begun := s.begun + [req]);
      Run(s, [Begin(t, req)] + Moves(t, 7)) == With(WrittenIn(b, req.call, |s.begun|), t, Idle)
  {
    hide Run, Moves, WrittenIn, MoveThread;
    var b, no := s.(begun := s.begun + [req]), |s.begun|;
    Begins(s, t, req);
    WithTwice(b, t, Ready(req, no), Idle);
    RunConcat(s, [Begin(t, req)], Moves(t, 7));
    WriteAlone(With(b, t, Ready(req, no)), t, req, no);
    WrittenWith(b, t, Ready(req, no), req.call, no);
  }

  lemma WrittenWith<V>(s: State<V>, t: ThreadId, p: Phase<V>, call: Call<V>, no: nat)
    requires s.head < |s.store|
    ensures With(WrittenIn(With(s, t, p), call, no), t, Idle) == With(WrittenIn(s, call, no), t, Idle)
  {
    WithTwice(WrittenIn(s, call, no), t, p, Idle);
  }

  /** The delete of thread 0 has loaded the head when thread 1 replaces it. */
  function DeleteRace<V>(x: TxnId, y: TxnId, b: V): seq<Event<V>> {
    [Begin(0, Request(Delete(x), false))] + Moves(0, 1) + ([Begin(1, Request(Overwrite(y, b), false))] + Moves(1, 7))
  }

  lemma ReplacedMeanwhile<V>(txn: TxnId, value: V, x: TxnId, y: TxnId, b: V) returns (s: State<V>)
    ensures Safe(Initial(txn, value)) && s == Run(Initial(txn, value), DeleteRace(x, y, b)) && Safe(s)
    ensures s.PhaseOf(0) == Loaded(Request(Delete(x), false), 0, 0, 0)
    ensures s.head == 1 && |s.log| == 1 && s.active == {}
    ensures s.store == [Snap(txn, value, y, None), Snap(y, b, INF, Some(0))]
  {
    hide Run, Moves;
    var i, d, w := Initial(txn, value), Request(Delete(x), false), Request(Overwrite(y, b), false);
    LoadsHead(i, 0, d);
    var loaded := With(i.(begun := [d]), 0, Loaded(d, 0, 0, 0));
    assert [] + [d] == [d];
    WritesAlone(loaded, 1, w);
    s := With(WrittenIn(loaded.(begun := [d] + [w]), w.call, 1), 1, Idle);
    RunConcat(i, [Begin(0, d)] + Moves(0, 1), [Begin(1, w)] + Moves(1, 7));
  }

  /**
   * The delete then returns the snapshot that it loaded as deleted, and has ended it a second time; but that one
   * has been replaced, and the record lives on with the value of the other call.
   */
  lemma DeleteMissesHead<V>(txn: TxnId, value: V, x: TxnId, y: TxnId, b: V)
    ensures Safe(Initial(txn, value))
    ensures var r := Run(Initial(txn, value), DeleteRace(x, y, b) + Moves(0, 3));
      && 0 in r.returned && r.returned[0] == EndedAt(0) && r.head == 1
      && r.store == [Snap(txn, value, x, None), Snap(y, b, INF, Some(0))]
  {
    hide Run, Moves, DeleteRace;
    var s := ReplacedMeanwhile(txn, value, x, y, b);
    var d := Request<V>.Request(Delete(x), false);
    RunConcat(Initial(txn, value), DeleteRace(x, y, b), Moves(0, 3));
    assert With(s, 0, Loaded(d, 0, 0, 0)) == s;
    DeleteEnds(s, 0, d, 0, 0, 0);
  }

  lemma GetsPast<V>(s: State<V>, t: ThreadId, req: Request<V>)
    requires Safe(s) && s.PhaseOf(t).Idle? && !req.call.Delete? && Open(s, req, s.head)
    ensures var g, no := Grown(s.(begun := s.begun + [req]), req.call, s.head), |s.begun|;
      var r := With(g, t, Passed(req, no, s.head, |s.log|, |s.store|));
      Safe(r) && Run(s, [Begin(t, req)] + Moves(t, 4)) == r
  {
    hide Run, Moves, MoveThread;
    var b, no := s.(begun := s.begun + [req]), |s.begun|;
    var passed := Passed(req, no, s.head, |s.log|, |s.store|);
    Begins(s, t, req);
    WithTwice(b, t, Ready(req, no), passed);
    WithTwice(Grown(b, req.call, s.head), t, Ready(req, no), passed);
    RunConcat(s, [Begin(t, req)], Moves(t, 4));
    WritePasses(With(b, t, Ready(req, no)), t, req, no);
  }

  /** The overwrite of thread 0 is past the guard when thread 1 replaces the head. */
  function WriteRace<V>(x: TxnId, a: V, y: TxnId, b: V): seq<Event<V>> {
    [Begin(0, Request(Overwrite(x, a), false))] + Moves(0, 4)
    + ([Begin(1, Request(Overwrite(y, b), false))] + Moves(1, 7))
  }

  lemma OvertakenPastGuard<V>(txn: TxnId, value: V, x: TxnId, a: V, y: TxnId, b: V) returns (s: State<V>)
    ensures Safe(Initial(txn, value)) && s == Run(Initial(txn, value), WriteRace(x, a, y, b)) && Safe(s)
    ensures s.PhaseOf(0) == Passed(Request(Overwrite(x, a), false), 0, 0, 0, 1)
    ensures s.head == 2 && |s.log| == 1
    ensures s.store == [Snap(txn, value, y, None), Snap(x, a, INF, None), Snap(y, b, INF, Some(0))]
  {
    hide Run, Moves;
    var i, v, w := Initial(txn, value), Request(Overwrite(x, a), false), Request(Overwrite(y, b), false);
    GetsPast(i, 0, v);
    var passed := With(Grown(i.(begun := [v]), v.call, 0), 0, Passed(v, 0, 0, 0, 1));
    assert [] + [v] == [v];
    WritesAlone(passed, 1, w);
    s := With(WrittenIn(passed.(begun := [v] + [w]), w.call, 1), 1, Idle);
    RunConcat(i, [Begin(0, v)] + Moves(0, 4), [Begin(1, w)] + Moves(1, 7));
  }

  /**
   * The first overwrite then returns null, as it should, but has first overwritten the end of a snapshot that
   * was replaced: it ends with the id of the call that failed, and no longer where its successor begins.
   */
  lemma FailedWriteMarks<V>(txn: TxnId, value: V, x: TxnId, a: V, y: TxnId, b: V)
    ensures Safe(Initial(txn, value))
    ensures var r := Run(Initial(txn, value), WriteRace(x, a, y, b) + Moves(0, 2));
      && 0 in r.returned && r.returned[0] == Refused && r.head == 2
      && r.store == [Snap(txn, value, x, None), Snap(x, a, INF, None), Snap(y, b, INF, Some(0))]
  {
    hide Run, Moves, MoveThread, WriteRace;
    var s := OvertakenPastGuard(txn, value, x, a, y, b);
    var v := Request<V>.Request(Overwrite(x, a), false);
    RunConcat(Initial(txn, value), WriteRace(x, a, y, b), Moves(0, 2));
    assert With(s, 0, Passed(v, 0, 0, 0, 1)) == s;
    Marks(s, 0, v, 0, 0, 0, 1);
    TurnsAway(EndedIn(s, 0, x), 0, v, 0, 0, 0, 1);
    OneMove(s, 0, 0);
    OneMove(s, 0, 1);
  }

  /** Both overwrites are past the guard on the same head. */
  function GuardRace<V>(x: TxnId, a: V, y: TxnId, b: V): seq<Event<V>> {
    [Begin(0, Request(Overwrite(x, a), false))] + Moves(0, 4)
    + ([Begin(1, Request(Overwrite(y, b), false))] + Moves(1, 4))
  }

  lemma BothPastGuard<V>(txn: TxnId, value: V, x: TxnId, a: V, y: TxnId, b: V) returns (s: State<V>)
    ensures Safe(Initial(txn, value)) && s == Run(Initial(txn, value), GuardRace(x, a, y, b)) && Safe(s)
    ensures s.threads == map[0 := Passed(Request(Overwrite(x, a), false), 0, 0, 0, 1),
                             1 := Passed(Request(Overwrite(y, b), false), 1, 0, 0, 2)]
    ensures s.head == 0 && s.log == [] && s.returned == map[]
    ensures s.store == [Snap(txn, value, INF, None), Snap(x, a, INF, None), Snap(y, b, INF, None)]
  {
    hide Run, Moves;
    var i, v, w := Initial(txn, value), Request(Overwrite(x, a), false), Request(Overwrite(y, b), false);
    GetsPast(i, 0, v);
    var passed := With(Grown(i.(begun := [v]), v.call, 0), 0, Passed(v, 0, 0, 0, 1));
    assert [] + [v] == [v];
    GetsPast(passed, 1, w);
    s := With(Grown(passed.(begun := [v] + [w]), w.call, 0), 1, Passed(w, 1, 0, 0, 2));
    RunConcat(i, [Begin(0, v)] + Moves(0, 4), [Begin(1, w)] + Moves(1, 4));
  }

  /** Each marks the head, and then the first one installs its snapshot. */
  function MarkRace<V>(): seq<Event<V>> {
    Moves<V>(0, 1) + Moves<V>(1, 1) + (Moves<V>(0, 2) + Moves<V>(1, 1))
  }

  lemma MarkStep<V>(s: State<V>, t: ThreadId, req: Request<V>, no: nat, id: Id)
    requires Safe(s) && 0 < |s.store| && id < |s.store| && s.PhaseOf(t) == Passed(req, no, 0, 0, id)
    ensures var r := With(EndedIn(s, 0, req.call.txn), t, Marked(req, no, 0, 0, id));
      Safe(r) && Run(s, Moves(t, 1)) == r
  {
    hide Run, Moves, MoveThread;
    assert With(s, t, Passed(req, no, 0, 0, id)) == s;
    Marks(s, t, req, no, 0, 0, id);
    WithTwice(EndedIn(s, 0, req.call.txn), t, Marked(req, no, 0, 0, id), Marked(req, no, 0, 0, id));
    OneMove(s, t, 0);
  }

  lemma BothMark<V>(s: State<V>, v: Request<V>, w: Request<V>) returns (r: State<V>)
    requires Safe(s) && |s.store| == 3
    requires s.threads == map[0 := Passed(v, 0, 0, 0, 1), 1 := Passed(w, 1, 0, 0, 2)]
    ensures r == Run(s, Moves(0, 1) + Moves(1, 1)) && Safe(r)
    ensures r == EndedIn(s, 0, w.call.txn).(threads := map[0 := Marked(v, 0, 0, 0, 1), 1 := Marked(w, 1, 0, 0, 2)])
  {
    hide Run, Moves, Safe;
    MarkStep(s, 0, v, 0, 1);
    var m := With(EndedIn(s, 0, v.call.txn), 0, Marked(v, 0, 0, 0, 1));
    MarkStep(m, 1, w, 1, 2);
    r := With(EndedIn(m, 0, w.call.txn), 1, Marked(w, 1, 0, 0, 2));
    RunConcat(s, Moves(0, 1), Moves(1, 1));
  }

  /** The last two steps of an undisturbed write. */
  lemma SwapsAndLinks<V>(s: State<V>, t: ThreadId, req: Request<V>, no: nat, id: Id)
    requires Safe(s) && id < |s.store| && s.PhaseOf(t) == Marked(req, no, s.head, 0, id)
    ensures var r := With(LinkedIn(SwappedIn(s, req.call, no, id), no, id, s.head), t, Idle);
      Safe(r) && Run(s, Moves(t, 2)) == r
  {
    hide Run, Moves, MoveThread;
    var e := SwappedIn(s, req.call, no, id);
    assert With(s, t, Marked(req, no, s.head, 0, id)) == s;
    Swaps(s, t, req, no, 0, id);
    OneMove(s, t, 0);
    Links(e, t, req, no, s.head, 0, id);
    WithTwice(LinkedIn(e, no, id, s.head), t, Idle, Idle);
    OneMove(s, t, 1);
  }

  lemma FirstWins<V>(s: State<V>, v: Request<V>, w: Request<V>) returns (r: State<V>)
    requires Safe(s) && |s.store| == 3 && s.head == 0 && !w.retry
    requires s.threads == map[0 := Marked(v, 0, 0, 0, 1), 1 := Marked(w, 1, 0, 0, 2)]
    ensures r == Run(s, Moves(0, 2) + Moves(1, 1))
    ensures r.head == 1 && r.returned == s.returned[0 := Installed(1)][1 := Refused]
    ensures r.store == s.store[1 := s.store[1].(older := Some(0))]
  {
    hide Run, Moves, MoveThread, Safe;
    SwapsAndLinks(s, 0, v, 0, 1);
    var l := With(LinkedIn(SwappedIn(s, v.call, 0, 1), 0, 1, 0), 0, Idle);
    assert With(l, 1, Marked(w, 1, 0, 0, 2)) == l;
    TurnsAway(l, 1, w, 1, 0, 0, 2);
    OneMove(l, 1, 0);
    r := With(l.(returned := l.returned[1 := Refused]), 1, Idle);
    RunConcat(s, Moves(0, 2), Moves(1, 1));
  }

  /**
   * No mark comes late here: both overwrites mark the head while it is one. The one that marked first installs
   * its snapshot, and the replaced one ends with the id of the call that is refused.
   */
  lemma FirstMarkLost<V>(txn: TxnId, value: V, x: TxnId, a: V, y: TxnId, b: V)
    ensures Safe(Initial(txn, value))
    ensures var r := Run(Initial(txn, value), GuardRace(x, a, y, b) + MarkRace());
      && 1 in r.returned && r.returned[1] == Refused && r.head == 1
      && r.store == [Snap(txn, value, y, None), Snap(x, a, INF, Some(0)), Snap(y, b, INF, None)]
  {
    hide Run, Moves, GuardRace;
    var v, w := Request(Overwrite(x, a), false), Request(Overwrite(y, b), false);
    var s := BothPastGuard(txn, value, x, a, y, b);
    var m := BothMark(s, v, w);
    var r := FirstWins(m, v, w);
    RunConcat(s, Moves(0, 1) + Moves(1, 1), Moves(0, 2) + Moves(1, 1));
    RunConcat(Initial(txn, value), GuardRace(x, a, y, b), MarkRace());
  }
}
