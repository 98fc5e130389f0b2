/**
 * One version cell used by any number of threads at once: every read or write of shared
 * memory is a step of its own, and a run interleaves the steps in any order.
 */
module ConcurrentCell {
  import opened Options
  import opened VersionChain

  /** The address of a snapshot: the position at which it was allocated. */
  type Id = nat
  type ThreadId = nat

  datatype Snap<V> = Snap(version: TxnId, value: V, end: nat, older: Option<Id>)

  /** A call, and whether it tries again when it is turned away or loses the race. */
  datatype Request<!V> = Request(call: Call<V>, retry: bool)

  datatype Outcome = Installed(id: Id) | EndedAt(id: Id) | Refused

  /**
   * Where a thread stands in its call number `no`. `exp` is the head that it loaded when `at` writes had been
   * installed.
   */
  datatype Phase<!V> =
    | Idle
    | Ready(req: Request<V>, no: nat)
    | Loaded(req: Request<V>, no: nat, exp: Id, at: nat)
    | Read(req: Request<V>, no: nat, exp: Id, at: nat, end: nat)
    | Made(req: Request<V>, no: nat, exp: Id, at: nat, end: nat, desired: Id)
    | Passed(req: Request<V>, no: nat, exp: Id, at: nat, desired: Id)
    | Marked(req: Request<V>, no: nat, exp: Id, at: nat, desired: Id)
    | Swapped(req: Request<V>, no: nat, exp: Id, at: nat, desired: Id)
    | Ending(req: Request<V>, no: nat, exp: Id, at: nat)

  /** A successful compare-and-swap: the call and the snapshot that it installed. */
  datatype Install<!V> = Install(no: nat, call: Call<V>, id: Id)

  datatype State<!V> = State(
    head: Id,
    store: seq<Snap<V>>,
    log: seq<Install<V>>,
    threads: map<ThreadId, Phase<V>>,
    begun: seq<Request<V>>,
    returned: map<nat, Outcome>,
    active: set<TxnId>)
  {
    function At(i: nat): Id
      requires i <= |log|
    {
      if i == 0 then 0 else log[i - 1].id
    }

    function PhaseOf(t: ThreadId): Phase<V> {
      if t in threads then threads[t] else Idle
    }
  }

  function Initial<V>(txn: TxnId, value: V): State<V> {
    State(0, [Snap(txn, value, INF, None)], [], map[], [], map[], {})
  }

  /** The value that a write installs over `value`. */
  function NewValue<V>(call: Call<V>, value: V): V {
    match call
    case Overwrite(_, v) => v
    case Update(_, updater) => updater(value)
    case Delete(_) => value
  }

  datatype Event<!V> =
    | Begin(t: ThreadId, req: Request<V>)
    | Move(t: ThreadId)
    | SetActive(txn: TxnId, on: bool)

  /** A thread turned away starts over or returns null. */
  function TurnedAway<V>(s: State<V>, t: ThreadId, req: Request<V>, no: nat): State<V> {
    if req.retry then s.(threads := s.threads[t := Ready(req, no)])
    else s.(threads := s.threads[t := Idle], returned := s.returned[no := Refused])
  }

  /** The conflict guard, on the end read earlier and the status read now. */
  predicate Guarded<V>(s: State<V>, req: Request<V>, exp: Id, end: nat)
    requires exp < |s.store|
  {
    var version := s.store[exp].version;
    end != INF && version != req.call.txn && version in s.active
  }

  /** The thread has loaded a head. */
  predicate HasExp<V>(p: Phase<V>) {
    !p.Idle? && !p.Ready?
  }

  /** The thread has allocated a snapshot that nobody else knows of, or has installed but not linked it. */
  predicate HasDesired<V>(p: Phase<V>) {
    p.Made? || p.Passed? || p.Marked? || p.Swapped?
  }

  /** All addresses in use have been allocated. */
  ghost predicate Safe<V>(s: State<V>) {
    && s.head < |s.store|
    && forall t :: t in s.threads ==> SafeIds(s, s.threads[t])
  }

  predicate SafeIds<V>(s: State<V>, p: Phase<V>) {
    (HasExp(p) ==> p.exp < |s.store|) && (HasDesired(p) ==> p.desired < |s.store|)
  }

  /** The next step of thread `t`. */
  ghost function MoveThread<V>(s: State<V>, t: ThreadId): State<V>
    requires Safe(s)
  {
    match s.PhaseOf(t)
    case Idle => s
    case Ready(req, no) =>
      s.(threads := s.threads[t := Loaded(req, no, s.head, |s.log|)])
    case Loaded(req, no, exp, at) =>
      s.(threads := s.threads[t := Read(req, no, exp, at, s.store[exp].end)])
    case Read(req, no, exp, at, end) =>
      if req.call.Delete? then
        if Guarded(s, req, exp, end) then s.(threads := s.threads[t := Ready(req, no)])
        else s.(threads := s.threads[t := Ending(req, no, exp, at)])
      else
        s.(store := s.store + [Snap(req.call.txn, NewValue(req.call, s.store[exp].value), INF, None)],
           threads := s.threads[t := Made(req, no, exp, at, end, |s.store|)])
    case Made(req, no, exp, at, end, desired) =>
      if Guarded(s, req, exp, end) then TurnedAway(s, t, req, no)
      else s.(threads := s.threads[t := Passed(req, no, exp, at, desired)])
    case Passed(req, no, exp, at, desired) =>
      s.(store := s.store[exp := s.store[exp].(end := req.call.txn)],
         threads := s.threads[t := Marked(req, no, exp, at, desired)])
    case Marked(req, no, exp, at, desired) =>
      if s.head == exp then
        s.(head := desired,
           log := s.log + [Install(no, req.call, desired)],
           threads := s.threads[t := Swapped(req, no, exp, at, desired)])
      else TurnedAway(s, t, req, no)
    case Swapped(req, no, exp, _, desired) =>
      s.(store := s.store[desired := s.store[desired].(older := Some(exp))],
         threads := s.threads[t := Idle],
         returned := s.returned[no := Installed(desired)])
    case Ending(req, no, exp, _) =>
      s.(store := s.store[exp := s.store[exp].(end := req.call.txn)],
         threads := s.threads[t := Idle],
         returned := s.returned[no := EndedAt(exp)])
  }

  /** One step of a run; to begin a call a thread must have finished its last one. */
  ghost function Step<V>(s: State<V>, e: Event<V>): (r: State<V>)
    requires Safe(s)
    ensures Safe(r)
  {
    match e
    case Begin(t, req) =>
      if s.PhaseOf(t).Idle? then s.(threads := s.threads[t := Ready(req, |s.begun|)], begun := s.begun + [req]) else s
    case Move(t) => MoveThread(s, t)
    case SetActive(txn, on) => s.(active := if on then s.active + {txn} else s.active - {txn})
  }

  /** The state after the steps of `es`. */
  ghost function Run<V>(s: State<V>, es: seq<Event<V>>): (r: State<V>)
    requires Safe(s)
    ensures Safe(r)
  {
    if es == [] then s else Step(Run(s, es[..|es| - 1]), es[|es| - 1])
  }

  // ---------- the invariant of every run ----------

  /** The installed snapshots, in the order of their compare-and-swaps, are distinct, and the head is the last. */
  ghost predicate HeadIsLast<V>(s: State<V>) {
    && s.head == s.At(|s.log|)
    && (forall i :: 0 <= i <= |s.log| ==> s.At(i) < |s.store|)
    && (forall i, j :: 0 <= i < j <= |s.log| ==> s.At(i) != s.At(j))
  }

  /** Each installed value is its call applied to the value that it replaced. */
  ghost predicate Applied<V>(s: State<V>, txn: TxnId, value: V)
    requires HeadIsLast(s)
  {
    && s.store[0].version == txn && s.store[0].value == value
    && forall i :: 0 <= i < |s.log| ==> AppliedAt(s, i)
  }

  ghost predicate AppliedAt<V>(s: State<V>, i: nat)
    requires HeadIsLast(s) && i < |s.log|
  {
    var after, before := s.store[s.At(i + 1)], s.store[s.At(i)];
    && !s.log[i].call.Delete?
    && after.version == s.log[i].call.txn
    && after.value == NewValue(s.log[i].call, before.value)
  }

  /** Thread `t` has installed write number `i` and has yet to link it. */
  ghost predicate Linking<V>(s: State<V>, t: ThreadId, i: nat) {
    s.PhaseOf(t).Swapped? && s.PhaseOf(t).at == i
  }

  /** Each installed snapshot is linked to the one that it replaced, or its thread is about to link it. */
  ghost predicate Linked<V>(s: State<V>)
    requires HeadIsLast(s)
  {
    && s.store[0].older == None
    && forall i :: 0 <= i < |s.log| ==> LinkedAt(s, i)
  }

  ghost predicate LinkedAt<V>(s: State<V>, i: nat)
    requires HeadIsLast(s) && i < |s.log|
  {
    var older := s.store[s.At(i + 1)].older;
    older == Some(s.At(i)) || (older == None && exists t :: Linking(s, t, i))
  }

  /** What a thread remembers is true of the cell. */
  ghost predicate Remembers<V>(s: State<V>, p: Phase<V>)
    requires HeadIsLast(s)
  {
    && (HasExp(p) ==> p.at <= |s.log| && p.exp == s.At(p.at))
    && (p.Swapped? ==> p.at < |s.log| && s.log[p.at] == Install(p.no, p.req.call, p.desired)
                       && s.store[s.At(p.at + 1)].older == None)
    && (HasDesired(p) && !p.Swapped? ==> OwnSnapshot(s, p))
  }

  /** A snapshot that has not been installed holds what its call makes of the head the thread loaded. */
  ghost predicate OwnSnapshot<V>(s: State<V>, p: Phase<V>)
    requires HeadIsLast(s) && HasDesired(p) && p.at <= |s.log| && p.exp == s.At(p.at)
  {
    && p.desired < |s.store| && !p.req.call.Delete?
    && s.store[p.desired].older == None
    && s.store[p.desired].version == p.req.call.txn
    && s.store[p.desired].value == NewValue(p.req.call, s.store[p.exp].value)
    && forall i :: 0 <= i <= |s.log| ==> s.At(i) != p.desired
  }

  ghost predicate ThreadsRemember<V>(s: State<V>)
    requires HeadIsLast(s)
  {
    forall t :: t in s.threads ==> Remembers(s, s.threads[t])
  }

  /** No two threads work on the same snapshot or the same call. */
  ghost predicate Apart<V>(s: State<V>) {
    forall t, u :: t in s.threads && u in s.threads && t != u ==> PhasesApart(s.threads[t], s.threads[u])
  }

  predicate PhasesApart<V>(p: Phase<V>, q: Phase<V>) {
    && (HasDesired(p) && HasDesired(q) ==> p.desired != q.desired)
    && (!p.Idle? && !q.Idle? ==> p.no != q.no)
  }

  /** A thread works on a call that was begun. */
  ghost predicate Counted<V>(s: State<V>) {
    forall t :: t in s.threads && !s.threads[t].Idle? ==> IsBegun(s, s.threads[t].no, s.threads[t].req)
  }

  ghost predicate IsBegun<V>(s: State<V>, no: nat, req: Request<V>) {
    no < |s.begun| && s.begun[no] == req
  }

  ghost predicate Inv<V>(s: State<V>, txn: TxnId, value: V) {
    && HeadIsLast(s)
    && Applied(s, txn, value)
    && Linked(s)
    && ThreadsRemember(s)
    && Apart(s)
    && Counted(s)
  }

  lemma InitialOk<V>(txn: TxnId, value: V)
    ensures Safe(Initial(txn, value)) && Inv(Initial(txn, value), txn, value)
  {
  }

  /** How the cell may change while a thread that works on `p` does not move. */
  ghost predicate Grows<V>(s: State<V>, r: State<V>, p: Phase<V>) {
    && |s.store| <= |r.store|
    && (forall id :: 0 <= id < |s.store| ==>
          r.store[id].version == s.store[id].version && r.store[id].value == s.store[id].value)
    && |s.log| <= |r.log| && (forall i :: 0 <= i < |s.log| ==> r.log[i] == s.log[i])
    && (HasDesired(p) && p.desired < |s.store| ==>
          && r.store[p.desired].older == s.store[p.desired].older
          && forall i :: |s.log| <= i < |r.log| ==> r.log[i].id != p.desired)
  }

  lemma RemembersStill<V>(s: State<V>, r: State<V>, p: Phase<V>)
    requires HeadIsLast(s) && HeadIsLast(r) && SafeIds(s, p) && Remembers(s, p) && Grows(s, r, p)
    ensures Remembers(r, p)
  {
    hide OwnSnapshot;
    assert forall i :: 0 <= i <= |s.log| ==> r.At(i) == s.At(i);
    if HasDesired(p) && !p.Swapped? {
      OwnStill(s, r, p);
    }
  }

  lemma OwnStill<V>(s: State<V>, r: State<V>, p: Phase<V>)
    requires HeadIsLast(s) && HeadIsLast(r) && Grows(s, r, p)
    requires HasDesired(p) && p.at <= |s.log| && p.exp == s.At(p.at) == r.At(p.at) && OwnSnapshot(s, p)
    ensures OwnSnapshot(r, p)
  {
    forall i | 0 <= i <= |r.log|
      ensures r.At(i) != p.desired
    {
      assert i <= |s.log| ==> r.At(i) == s.At(i);
    }
  }

  /** A step of thread `t` to `q` that installs and links nothing. */
  ghost predicate Quiet<V>(s: State<V>, r: State<V>, t: ThreadId, q: Phase<V>) {
    && r.head == s.head && r.log == s.log && r.threads == s.threads[t := q]
    && |s.store| <= |r.store|
    && (forall id :: 0 <= id < |s.store| ==>
          && r.store[id].version == s.store[id].version && r.store[id].value == s.store[id].value
          && r.store[id].older == s.store[id].older)
    && !s.PhaseOf(t).Swapped? && !q.Swapped?
    && s.begun <= r.begun && (q.Idle? || IsBegun(r, q.no, q.req))
  }

  /** `q` works on the snapshot and the call of `p`, or on ones that no thread has. */
  ghost predicate Own<V>(s: State<V>, p: Phase<V>, q: Phase<V>) {
    && (HasDesired(q) ==> (HasDesired(p) && q.desired == p.desired) || |s.store| <= q.desired)
    && (!q.Idle? ==> (!p.Idle? && q.no == p.no)
                     || forall u :: u in s.threads ==> s.threads[u].Idle? || s.threads[u].no != q.no)
  }

  lemma PairApart<V>(s: State<V>, t: ThreadId, u: ThreadId)
    requires Apart(s) && t != u
    ensures PhasesApart(s.PhaseOf(t), s.PhaseOf(u))
  {
  }

  lemma ApartStill<V>(s: State<V>, r: State<V>, t: ThreadId, q: Phase<V>)
    requires Safe(s) && Apart(s) && r.threads == s.threads[t := q] && Own(s, s.PhaseOf(t), q)
    ensures Apart(r)
  {
    forall u | u in s.threads && u != t
      ensures PhasesApart(s.threads[u], q) && PhasesApart(q, s.threads[u])
    {
      assert SafeIds(s, s.threads[u]);
      assert t in s.threads ==> PhasesApart(s.threads[t], s.threads[u]);
    }
  }

  lemma OthersRemember<V>(s: State<V>, r: State<V>, t: ThreadId, q: Phase<V>)
    requires Safe(s) && HeadIsLast(s) && HeadIsLast(r) && ThreadsRemember(s)
    requires r.threads == s.threads[t := q] && Remembers(r, q)
    requires forall u :: u in s.threads && u != t ==> Grows(s, r, s.threads[u])
    ensures ThreadsRemember(r)
  {
    hide Remembers, Grows, HeadIsLast, SafeIds;
    forall u | u in r.threads
      ensures Remembers(r, r.threads[u])
    {
      if u != t {
        assert SafeIds(s, s.threads[u]);
        RemembersStill(s, r, s.threads[u]);
      }
    }
  }

  lemma QuietHead<V>(s: State<V>, r: State<V>, t: ThreadId, q: Phase<V>)
    requires HeadIsLast(s) && Quiet(s, r, t, q)
    ensures HeadIsLast(r) && r.log == s.log && forall i :: 0 <= i <= |s.log| ==> r.At(i) == s.At(i)
  {
    assert forall i :: 0 <= i <= |s.log| ==> r.At(i) == s.At(i);
  }

  lemma QuietApplied<V>(s: State<V>, r: State<V>, t: ThreadId, q: Phase<V>, txn: TxnId, value: V)
    requires HeadIsLast(s) && HeadIsLast(r) && Quiet(s, r, t, q) && Applied(s, txn, value) && Linked(s)
    ensures Applied(r, txn, value) && Linked(r)
  {
    QuietHead(s, r, t, q);
    forall i | 0 <= i < |r.log|
      ensures AppliedAt(r, i) && LinkedAt(r, i)
    {
      assert AppliedAt(s, i) && LinkedAt(s, i);
      if u :| Linking(s, u, i) {
        assert Linking(r, u, i);
      }
    }
  }

  lemma QuietKeeps<V>(s: State<V>, r: State<V>, t: ThreadId, q: Phase<V>, txn: TxnId, value: V)
    requires Safe(s) && Inv(s, txn, value) && Quiet(s, r, t, q) && Own(s, s.PhaseOf(t), q)
    requires HeadIsLast(r) ==> Remembers(r, q)
    ensures Inv(r, txn, value)
  {
    hide Safe, HeadIsLast, Applied, Linked, ThreadsRemember, Remembers, Apart, Own;
    QuietHead(s, r, t, q);
    OthersRemember(s, r, t, q);
    ApartStill(s, r, t, q);
    QuietApplied(s, r, t, q, txn, value);
  }

  /** The state after a successful compare-and-swap. */
  function SwapDone<V>(s: State<V>, t: ThreadId): State<V>
    requires s.PhaseOf(t).Marked?
  {
    var p := s.PhaseOf(t);
    s.(head := p.desired,
       log := s.log + [Install(p.no, p.req.call, p.desired)],
       threads := s.threads[t := Swapped(p.req, p.no, p.exp, p.at, p.desired)])
  }

  /** The state after the link that follows it. */
  function LinkDone<V>(s: State<V>, t: ThreadId): State<V>
    requires s.PhaseOf(t).Swapped? && s.PhaseOf(t).desired < |s.store|
  {
    var p := s.PhaseOf(t);
    s.(store := s.store[p.desired := s.store[p.desired].(older := Some(p.exp))],
       threads := s.threads[t := Idle],
       returned := s.returned[p.no := Installed(p.desired)])
  }

  lemma SwapOrLink<V>(s: State<V>, t: ThreadId)
    requires Safe(s)
    ensures SafeIds(s, s.PhaseOf(t))
    ensures s.PhaseOf(t).Marked? && s.head == s.PhaseOf(t).exp ==> MoveThread(s, t) == SwapDone(s, t)
    ensures s.PhaseOf(t).Swapped? ==> MoveThread(s, t) == LinkDone(s, t)
  {
  }

  /** What the invariant says of one thread. */
  lemma ThreadFacts<V>(s: State<V>, t: ThreadId, txn: TxnId, value: V)
    requires Inv(s, txn, value)
    ensures Remembers(s, s.PhaseOf(t))
    ensures !s.PhaseOf(t).Idle? ==> IsBegun(s, s.PhaseOf(t).no, s.PhaseOf(t).req)
    ensures forall u :: u != t ==> PhasesApart(s.PhaseOf(u), s.PhaseOf(t))
  {
    hide Remembers, PhasesApart;
    if t !in s.threads {
      IdleFacts(s);
    }
    forall u | u != t
      ensures PhasesApart(s.PhaseOf(u), s.PhaseOf(t))
    {
      PairApart(s, u, t);
    }
  }

  lemma IdleFacts<V>(s: State<V>)
    requires HeadIsLast(s)
    ensures Remembers(s, Idle)
  {
  }

  /** A successful compare-and-swap. */
  lemma SwapKeeps<V>(s: State<V>, t: ThreadId, txn: TxnId, value: V)
    requires Safe(s) && Inv(s, txn, value) && s.PhaseOf(t).Marked? && s.head == s.PhaseOf(t).exp
    ensures Inv(MoveThread(s, t), txn, value)
  {
    hide MoveThread, Apart, Linked, Applied, ThreadsRemember, Remembers;
    SwapOrLink(s, t);
    var p, r := s.PhaseOf(t), SwapDone(s, t);
    ThreadFacts(s, t, txn, value);
    SwapHead(s, t);
    ApartStill(s, r, t, r.PhaseOf(t));
    forall u | u in s.threads && u != t
      ensures Grows(s, r, s.threads[u])
    {
      assert PhasesApart(s.PhaseOf(u), p);
    }
    OthersRemember(s, r, t, r.PhaseOf(t));
    SwapApplied(s, t, txn, value);
    SwapLinks(s, t);
  }

  /** The new head is a snapshot that was not installed, and its thread has loaded the old one. */
  lemma SwapHead<V>(s: State<V>, t: ThreadId)
    requires HeadIsLast(s) && s.PhaseOf(t).Marked? && s.head == s.PhaseOf(t).exp && Remembers(s, s.PhaseOf(t))
    ensures var p, r := s.PhaseOf(t), SwapDone(s, t);
      && HeadIsLast(r) && p.at == |s.log| && (forall i :: 0 <= i <= |s.log| ==> r.At(i) == s.At(i))
      && r.At(|r.log|) == p.desired
      && Remembers(r, r.PhaseOf(t))
  {
    var p, r := s.PhaseOf(t), SwapDone(s, t);
    assert forall i :: 0 <= i <= |s.log| ==> r.At(i) == s.At(i);
    assert r.At(|r.log|) == p.desired;
  }

  lemma SwapApplied<V>(s: State<V>, t: ThreadId, txn: TxnId, value: V)
    requires HeadIsLast(s) && Applied(s, txn, value) && s.PhaseOf(t).Marked? && s.head == s.PhaseOf(t).exp
    requires Remembers(s, s.PhaseOf(t)) && HeadIsLast(SwapDone(s, t))
    ensures Applied(SwapDone(s, t), txn, value)
  {
    SwapHead(s, t);
    var r := SwapDone(s, t);
    forall i | 0 <= i < |s.log|
      ensures AppliedAt(r, i)
    {
      assert AppliedAt(s, i);
    }
  }

  lemma SwapLinks<V>(s: State<V>, t: ThreadId)
    requires HeadIsLast(s) && Linked(s) && s.PhaseOf(t).Marked? && s.head == s.PhaseOf(t).exp
    requires Remembers(s, s.PhaseOf(t)) && HeadIsLast(SwapDone(s, t))
    ensures Linked(SwapDone(s, t))
  {
    SwapHead(s, t);
    var r := SwapDone(s, t);
    forall i | 0 <= i < |r.log|
      ensures LinkedAt(r, i)
    {
      if i == |s.log| {
        assert Linking(r, t, i);
      } else {
        assert LinkedAt(s, i);
        if u :| Linking(s, u, i) {
          assert Linking(r, u, i);
        }
      }
    }
  }

  /** The link that follows it. */
  lemma LinkKeeps<V>(s: State<V>, t: ThreadId, txn: TxnId, value: V)
    requires Safe(s) && Inv(s, txn, value) && s.PhaseOf(t).Swapped?
    ensures Inv(MoveThread(s, t), txn, value)
  {
    hide MoveThread, Apart, Linked, Applied, ThreadsRemember, Remembers;
    SwapOrLink(s, t);
    var p, r := s.PhaseOf(t), LinkDone(s, t);
    ThreadFacts(s, t, txn, value);
    LinkHead(s, t);
    ApartStill(s, r, t, Idle);
    forall u | u in s.threads && u != t
      ensures Grows(s, r, s.threads[u])
    {
      assert PhasesApart(s.PhaseOf(u), p);
    }
    OthersRemember(s, r, t, Idle);
    LinkApplied(s, t, txn, value);
    LinkLinks(s, t);
  }

  lemma LinkHead<V>(s: State<V>, t: ThreadId)
    requires HeadIsLast(s) && s.PhaseOf(t).Swapped? && Remembers(s, s.PhaseOf(t))
    ensures var p := s.PhaseOf(t);
      && p.at < |s.log| && p.desired == s.At(p.at + 1) < |s.store| && p.exp == s.At(p.at)
      && HeadIsLast(LinkDone(s, t)) && (forall i :: 0 <= i <= |s.log| ==> LinkDone(s, t).At(i) == s.At(i))
      && Remembers(LinkDone(s, t), Idle)
  {
    assert forall i :: 0 <= i <= |s.log| ==> LinkDone(s, t).At(i) == s.At(i);
  }

  lemma LinkApplied<V>(s: State<V>, t: ThreadId, txn: TxnId, value: V)
    requires HeadIsLast(s) && Applied(s, txn, value) && s.PhaseOf(t).Swapped? && s.PhaseOf(t).desired < |s.store|
    requires Remembers(s, s.PhaseOf(t)) && HeadIsLast(LinkDone(s, t))
    ensures Applied(LinkDone(s, t), txn, value)
  {
    LinkHead(s, t);
    var r := LinkDone(s, t);
    forall i | 0 <= i < |r.log|
      ensures AppliedAt(r, i)
    {
      assert AppliedAt(s, i);
    }
  }

  lemma LinkLinks<V>(s: State<V>, t: ThreadId)
    requires HeadIsLast(s) && Linked(s) && s.PhaseOf(t).Swapped? && s.PhaseOf(t).desired < |s.store|
    requires Remembers(s, s.PhaseOf(t)) && HeadIsLast(LinkDone(s, t))
    ensures Linked(LinkDone(s, t))
  {
    LinkHead(s, t);
    hide Remembers;
    var p, r := s.PhaseOf(t), LinkDone(s, t);
    assert s.At(0) != s.At(p.at + 1);
    forall i | 0 <= i < |r.log|
      ensures LinkedAt(r, i)
    {
      assert LinkedAt(s, i);
      if i != p.at {
        assert s.At(i + 1) != s.At(p.at + 1);
        if u :| Linking(s, u, i) {
          assert Linking(r, u, i);
        }
      }
    }
  }

  lemma ActiveKeeps<V>(s: State<V>, active: set<TxnId>, txn: TxnId, value: V)
    requires Safe(s) && Inv(s, txn, value)
    ensures Inv(s.(active := active), txn, value)
  {
    hide Remembers, SafeIds;
    var r := s.(active := active);
    assert forall i :: 0 <= i <= |s.log| ==> r.At(i) == s.At(i);
    forall u | u in r.threads
      ensures Remembers(r, r.threads[u])
    {
      assert SafeIds(s, s.threads[u]);
      RemembersStill(s, r, r.threads[u]);
    }
    forall i | 0 <= i < |r.log|
      ensures AppliedAt(r, i) && LinkedAt(r, i)
    {
      assert AppliedAt(s, i) && LinkedAt(s, i);
      if u :| Linking(s, u, i) {
        assert Linking(r, u, i);
      }
    }
  }

  lemma InvCounted<V>(s: State<V>, txn: TxnId, value: V)
    requires Inv(s, txn, value)
    ensures Counted(s)
  {
  }

  lemma PhaseFacts<V>(s: State<V>, t: ThreadId)
    requires Safe(s) && Counted(s)
    ensures s.head < |s.store| && SafeIds(s, s.PhaseOf(t))
    ensures !s.PhaseOf(t).Idle? ==> IsBegun(s, s.PhaseOf(t).no, s.PhaseOf(t).req)
  {
  }

  lemma MoveOwns<V>(s: State<V>, t: ThreadId)
    requires Safe(s) && !s.PhaseOf(t).Idle?
    ensures Own(s, s.PhaseOf(t), MoveThread(s, t).PhaseOf(t))
  {
    hide Safe, Guarded;
    SafeThread(s, t);
  }

  /** Every step that installs and links nothing is quiet. */
  lemma MoveQuiet<V>(s: State<V>, t: ThreadId)
    requires Safe(s) && Counted(s)
    requires var p := s.PhaseOf(t); !p.Idle? && !p.Swapped? && !(p.Marked? && s.head == p.exp)
    ensures var r := MoveThread(s, t); Quiet(s, r, t, r.PhaseOf(t))
  {
    hide Safe, Counted, Guarded;
    PhaseFacts(s, t);
  }

  lemma QuietGrows<V>(s: State<V>, r: State<V>, t: ThreadId, q: Phase<V>, p: Phase<V>)
    requires Quiet(s, r, t, q)
    ensures Grows(s, r, p)
  {
  }

  lemma MoveRemembers<V>(s: State<V>, t: ThreadId, txn: TxnId, value: V)
    requires Safe(s) && Inv(s, txn, value)
    requires var p := s.PhaseOf(t); !p.Idle? && !p.Swapped? && !(p.Marked? && s.head == p.exp)
    requires HeadIsLast(MoveThread(s, t)) && Quiet(s, MoveThread(s, t), t, MoveThread(s, t).PhaseOf(t))
    ensures var r := MoveThread(s, t); Remembers(r, r.PhaseOf(t))
  {
    hide MoveThread, Safe, Remembers, HeadIsLast, Quiet, Apart, Applied, Linked, ThreadsRemember, Counted;
    SafeThread(s, t);
    ThreadFacts(s, t, txn, value);
    var p, r := s.PhaseOf(t), MoveThread(s, t);
    QuietGrows(s, r, t, r.PhaseOf(t), p);
    RemembersStill(s, r, p);
    QuietHead(s, r, t, r.PhaseOf(t));
    NextRemembers(s, t);
  }

  lemma SafeThread<V>(s: State<V>, t: ThreadId)
    requires Safe(s)
    ensures SafeIds(s, s.PhaseOf(t))
  {
  }

  /** A phase that remembers no more than the one before. */
  ghost predicate Follows<V>(p: Phase<V>, q: Phase<V>) {
    q.Idle? || q.Ready?
    || (HasExp(p) && HasExp(q) && q.exp == p.exp && q.at == p.at && !q.Swapped?
        && (HasDesired(q) ==> HasDesired(p) && !p.Swapped? && q.desired == p.desired && q.req == p.req))
  }

  lemma MoveFollows<V>(s: State<V>, t: ThreadId)
    requires Safe(s)
    requires var p := s.PhaseOf(t); HasExp(p) && !p.Swapped? && !(p.Marked? && s.head == p.exp)
    requires s.PhaseOf(t).Read? ==> s.PhaseOf(t).req.call.Delete?
    ensures Follows(s.PhaseOf(t), MoveThread(s, t).PhaseOf(t))
  {
    hide Safe, Guarded;
    SafeThread(s, t);
  }

  lemma FollowsRemembers<V>(r: State<V>, p: Phase<V>, q: Phase<V>)
    requires HeadIsLast(r) && Remembers(r, p) && Follows(p, q)
    ensures Remembers(r, q)
  {
  }

  lemma LoadRemembers<V>(s: State<V>, t: ThreadId)
    requires Safe(s) && HeadIsLast(s) && s.PhaseOf(t).Ready?
    requires var r := MoveThread(s, t); HeadIsLast(r) && r.log == s.log
    ensures var r := MoveThread(s, t); Remembers(r, r.PhaseOf(t))
  {
  }

  /** The new snapshot is not among the installed ones. */
  lemma MakeRemembers<V>(s: State<V>, t: ThreadId)
    requires Safe(s) && HeadIsLast(s) && s.PhaseOf(t).Read? && !s.PhaseOf(t).req.call.Delete?
    requires var r := MoveThread(s, t); HeadIsLast(r) && r.log == s.log && Remembers(r, s.PhaseOf(t))
    requires forall i :: 0 <= i <= |s.log| ==> MoveThread(s, t).At(i) == s.At(i)
    ensures var r := MoveThread(s, t); Remembers(r, r.PhaseOf(t))
  {
    SafeThread(s, t);
    hide Safe, Guarded;
  }

  /** What a thread remembers goes over to its next phase. */
  lemma NextRemembers<V>(s: State<V>, t: ThreadId)
    requires Safe(s) && HeadIsLast(s) && HeadIsLast(MoveThread(s, t)) && Remembers(MoveThread(s, t), s.PhaseOf(t))
    requires var p := s.PhaseOf(t); !p.Idle? && !p.Swapped? && !(p.Marked? && s.head == p.exp)
    requires MoveThread(s, t).log == s.log
    requires forall i :: 0 <= i <= |s.log| ==> MoveThread(s, t).At(i) == s.At(i)
    ensures var r := MoveThread(s, t); Remembers(r, r.PhaseOf(t))
  {
    hide Safe, MoveThread, HeadIsLast, Remembers, Follows;
    var p, r := s.PhaseOf(t), MoveThread(s, t);
    if p.Ready? {
      LoadRemembers(s, t);
    } else if p.Read? && !p.req.call.Delete? {
      MakeRemembers(s, t);
    } else {
      MoveFollows(s, t);
      FollowsRemembers(r, p, r.PhaseOf(t));
    }
  }

  lemma MoveIdle<V>(s: State<V>, t: ThreadId)
    requires Safe(s) && s.PhaseOf(t).Idle?
    ensures MoveThread(s, t) == s
  {
  }

  lemma MoveKeeps<V>(s: State<V>, t: ThreadId, txn: TxnId, value: V)
    requires Safe(s) && Inv(s, txn, value)
    ensures Inv(MoveThread(s, t), txn, value)
  {
    hide Inv, MoveThread, HeadIsLast;
    var p, r := s.PhaseOf(t), MoveThread(s, t);
    if p.Idle? {
      MoveIdle(s, t);
    } else if p.Swapped? {
      LinkKeeps(s, t, txn, value);
    } else if p.Marked? && s.head == p.exp {
      SwapKeeps(s, t, txn, value);
    } else {
      assert Counted(s) by {
        InvCounted(s, txn, value);
      }
      MoveQuiet(s, t);
      MoveOwns(s, t);
      if HeadIsLast(r) {
        MoveRemembers(s, t, txn, value);
      }
      QuietKeeps(s, r, t, r.PhaseOf(t), txn, value);
    }
  }

  lemma StepKeeps<V>(s: State<V>, e: Event<V>, txn: TxnId, value: V)
    requires Safe(s) && Inv(s, txn, value)
    ensures Inv(Step(s, e), txn, value)
  {
    match e {
      case Begin(t, req) =>
        if s.PhaseOf(t).Idle? {
          QuietKeeps(s, Step(s, e), t, Ready(req, |s.begun|), txn, value);
        }
      case Move(t) =>
        MoveKeeps(s, t, txn, value);
      case SetActive(id, on) =>
        ActiveKeeps(s, if on then s.active + {id} else s.active - {id}, txn, value);
    }
    hide Inv;
  }

  /** Every interleaving, from a new cell on. */
  lemma {:induction false} RunKeeps<V>(txn: TxnId, value: V, es: seq<Event<V>>)
    ensures Safe(Initial(txn, value)) && Inv(Run(Initial(txn, value), es), txn, value)
  {
    InitialOk(txn, value);
    hide Inv;
    if es != [] {
      RunKeeps(txn, value, es[..|es| - 1]);
      StepKeeps(Run(Initial(txn, value), es[..|es| - 1]), es[|es| - 1], txn, value);
    }
  }
}
