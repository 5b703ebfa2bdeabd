/**
 The update queue of the RIB and the acknowledge/retry protocol of the FIB updater, as a state machine over
 enqueueing, starting a batch, acknowledgements, timeouts, 410 responses and destroyed faces.
 */
module UpdateProtocol {
  import opened Wrappers
  import opened FibOps
  import opened FibCompute
  import opened FibApply
  import opened FibUpdates

  const MAX_NUM_TIMEOUTS: nat := 10

  /** A command on its way: which update it is for, whether it was sent as an add, the timeouts so far, and the batch
      to which the callbacks of its sender are bound. */
  datatype Sent = Sent(update: FibUpdate, asAdd: bool, nTimeouts: nat, batch: RibUpdate)

  /** The two computations the protocol runs around: the emissions for an update, and the commit of an update with
      the records of emissions. */
  datatype Computations<!R> = Computations(compute: (R, RibUpdate) -> seq<Op>, commit: (R, RibUpdate, seq<Op>) -> R)

  /** What became of an update: its success or its failure callback was called. */
  datatype Finished = Finished(update: RibUpdate, applied: bool)

  /** The state of RIB, updater, network and forwarder; `current` is the batch in progress. The last four fields are
      history: the updates ever enqueued, what became of those taken up, the sends of the last batch, and the
      forwarding table when it started. */
  datatype State<R> = State(
    rib: R, queue: seq<RibUpdate>, current: Option<RibUpdate>,
    batchFace: nat, forBatch: seq<FibUpdate>, forOther: seq<FibUpdate>, ops: seq<Op>,
    outstanding: seq<Sent>, fib: Fib, dead: set<nat>, thrown: bool,
    enqueued: seq<RibUpdate>, log: seq<Finished>, sends: multiset<FibUpdate>, base: Fib)

  datatype Event =
    | Enqueue(u: RibUpdate)
    | Start
    | Ack(i: nat)
    | Timeout(i: nat, tookEffect: bool)
    | Gone(i: nat)
    | Destroy(f: nat)

  function Init<R>(rib: R): (s: State<R>) {
    State(rib, [], None, 0, [], [], [], [], map[], {}, false, [], [], multiset{}, map[])
  }

  // ----- the forwarder -----

  /** What a command does; on a destroyed face it does nothing. */
  function Execute(fib: Fib, dead: set<nat>, m: Sent): (r: Fib) {
    var u := m.update;
    if u.faceId in dead then fib
    else if m.asAdd then fib[(u.name, u.faceId) := u.cost]
    else fib - {(u.name, u.faceId)}
  }

  /** The forwarder drops every next hop on a destroyed face. */
  function DropFace(fib: Fib, f: nat): (r: Fib) { map k | k in fib && k.1 != f :: fib[k] }

  // ----- the updater and the RIB -----

  function SendAll(us: seq<FibUpdate>, batch: RibUpdate): (ms: seq<Sent>)
    ensures |ms| == |us|
    ensures forall i | 0 <= i < |us| :: ms[i] == Sent(us[i], us[i].action == AddNextHop, 0, batch)
  {
    seq(|us|, i requires 0 <= i < |us| => Sent(us[i], us[i].action == AddNextHop, 0, batch))
  }

  /** `std::list::remove`: every equal element. */
  function Remove(us: seq<FibUpdate>, u: FibUpdate): (r: seq<FibUpdate>)
    ensures forall x :: x in r <==> x in us && x != u
  {
    if us == [] then []
    else
      var front, last := us[..|us| - 1], us[|us| - 1];
      assert us == front + [last];
      if last == u then Remove(front, u) else Remove(front, u) + [last]
  }

  /** `onFibUpdateSuccess` of a batch, with the inherited routes that the updater holds. */
  function Complete<R>(c: Computations<R>, s: State<R>, batch: RibUpdate): (r: State<R>) {
    s.(rib := c.commit(s.rib, batch, s.ops), current := None, log := s.log + [Finished(batch, true)])
  }

  /** `sendUpdatesForNonBatchFaceId`. */
  function SendOther<R>(c: Computations<R>, s: State<R>, batch: RibUpdate): (r: State<R>) {
    if s.forOther == [] then Complete(c, s, batch)
    else s.(outstanding := s.outstanding + SendAll(s.forOther, batch), sends := s.sends + multiset(s.forOther))
  }

  /** `sendUpdatesForBatchFaceId`. */
  function SendBatch<R>(c: Computations<R>, s: State<R>, batch: RibUpdate): (r: State<R>) {
    if s.forBatch == [] then SendOther(c, s, batch)
    else s.(outstanding := s.outstanding + SendAll(s.forBatch, batch), sends := s.sends + multiset(s.forBatch))
  }

  /** The updater after `computeUpdates`, before anything is sent. */
  function Computed<R>(c: Computations<R>, s: State<R>, u: RibUpdate): (r: State<R>) {
    var ops := c.compute(s.rib, u);
    var updates, f := UpdatesOf(ops), u.route.faceId;
    s.(current := Some(u), batchFace := f, ops := ops,
       forBatch := if u.RemoveFace? then [] else ListOf(f, updates, true),
       forOther := ListOf(f, updates, false), sends := multiset{}, base := s.fib)
  }

  /** `sendBatchFromQueue` with `computeAndSendFibUpdates`. */
  function StartBatch<R>(c: Computations<R>, s: State<R>): (r: State<R>)
    requires s.queue != []
  {
    SendBatch(c, Computed(c, s.(queue := s.queue[1..]), s.queue[0]), s.queue[0])
  }

  function Without(ms: seq<Sent>, i: nat): (r: seq<Sent>)
    requires i < |ms|
  {
    ms[..i] + ms[i + 1..]
  }

  /** `onUpdateSuccess`, and the branch of `onUpdateError` that ignores a 410 on another face; `batch` is the one that
      the callbacks are bound to, the lists are those that the updater holds now. */
  function Settle<R>(c: Computations<R>, s: State<R>, u: FibUpdate, batch: RibUpdate): (r: State<R>) {
    if u.faceId == s.batchFace then
      var s' := s.(forBatch := Remove(s.forBatch, u));
      if s'.forBatch == [] then SendOther(c, s', batch) else s'
    else
      var s' := s.(forOther := Remove(s.forOther, u));
      if s'.forOther == [] then Complete(c, s', batch) else s'
  }

  // ----- steps -----

  predicate Enabled<R>(s: State<R>, e: Event) {
    && !s.thrown
    && match e
       case Enqueue(u) => u.RemoveFace? ==> u.route.faceId in s.dead
       case Start => s.current.None? && s.queue != []
       case Ack(i) => i < |s.outstanding|
       case Timeout(i, _) => i < |s.outstanding|
       case Gone(i) => i < |s.outstanding| && s.outstanding[i].update.faceId in s.dead
       case Destroy(f) => true
  }

  function Next<R>(c: Computations<R>, s: State<R>, e: Event): (r: State<R>)
    requires Enabled(s, e)
  {
    match e
    case Enqueue(u) => s.(queue := s.queue + [u], enqueued := s.enqueued + [u])
    case Start => StartBatch(c, s)
    case Ack(i) =>
      var m := s.outstanding[i];
      Settle(c, s.(fib := Execute(s.fib, s.dead, m), outstanding := Without(s.outstanding, i)), m.update, m.batch)
    case Timeout(i, tookEffect) =>
      var m := s.outstanding[i];
      var s' := s.(fib := if tookEffect then Execute(s.fib, s.dead, m) else s.fib);
      if m.nTimeouts < MAX_NUM_TIMEOUTS then
        // The retry is an add, whatever the update is.
        s'.(outstanding := s.outstanding[i := Retry(m)], sends := s.sends + multiset{m.update})
      else s'.(thrown := true)
    case Gone(i) =>
      var m := s.outstanding[i];
      var s' := s.(outstanding := Without(s.outstanding, i));
      if m.update.faceId == s.batchFace then
        // `onFibUpdateFailure`: the slot is free, whatever else is outstanding.
        s'.(current := None, log := s.log + [Finished(m.batch, false)])
      else Settle(c, s', m.update, m.batch)
    case Destroy(f) => s.(dead := s.dead + {f}, fib := DropFace(s.fib, f))
  }

  function Retry(m: Sent): (r: Sent) { m.(asAdd := true, nTimeouts := m.nTimeouts + 1) }

  /** A command on the batch face gets a 410 only when it is the last one on its way, and no update runs out of
      retries. */
  predicate Orderly<R>(s: State<R>, e: Event) {
    && Enabled(s, e)
    && (e.Timeout? ==> s.outstanding[e.i].nTimeouts < MAX_NUM_TIMEOUTS)
    && (e.Gone? && s.outstanding[e.i].update.faceId == s.batchFace ==> |s.outstanding| == 1)
  }

  // ----- the protocol invariant -----

  predicate Carries(ms: seq<Sent>, u: FibUpdate) { exists m :: m in ms && m.update == u }

  /** The commands on their way are exactly the updates of a list, one command each. */
  ghost predicate Matches(ms: seq<Sent>, us: seq<FibUpdate>) {
    && (forall i, j | 0 <= i < j < |ms| :: ms[i].update != ms[j].update)
    && (forall u :: u in us <==> Carries(ms, u))
  }

  /** Each command was sent once more often than it timed out, and no update was sent more than 11 times. */
  ghost predicate SendsBounded<R>(s: State<R>) {
    && (forall m | m in s.outstanding :: m.nTimeouts <= MAX_NUM_TIMEOUTS && s.sends[m.update] == m.nTimeouts + 1)
    && (forall u :: s.sends[u] <= MAX_NUM_TIMEOUTS + 1)
  }

  /** While a batch is in flight its commands are the only ones on their way: first those on the batch face,
      and those on other faces only when every command on the batch face is acknowledged. */
  ghost predicate Busy<R>(s: State<R>) {
    && s.current.Some? && s.batchFace == s.current.value.route.faceId
    && (forall u | u in s.forBatch :: u.faceId == s.batchFace)
    && (forall u | u in s.forOther :: u.faceId != s.batchFace)
    && (s.forBatch != [] || s.forOther != [])
    && Matches(s.outstanding, if s.forBatch != [] then s.forBatch else s.forOther)
    && (forall m | m in s.outstanding :: m.batch == s.current.value)
    && (s.forBatch != [] ==> forall u | u in s.forOther :: s.sends[u] == 0)
    && OnePerPair(s.forOther)
    && SendsBounded(s)
  }

  /** Nothing is in progress or on its way. */
  ghost predicate Idle<R>(s: State<R>) {
    s.current.None? && s.outstanding == [] && forall u :: s.sends[u] <= MAX_NUM_TIMEOUTS + 1
  }

  // ----- history -----

  function Taken(log: seq<Finished>): (us: seq<RibUpdate>) {
    if log == [] then [] else Taken(log[..|log| - 1]) + [log[|log| - 1].update]
  }

  function Applied(log: seq<Finished>): (us: seq<RibUpdate>) {
    if log == [] then []
    else Applied(log[..|log| - 1]) + if log[|log| - 1].applied then [log[|log| - 1].update] else []
  }

  lemma LogSnoc(log: seq<Finished>, e: Finished)
    ensures Taken(log + [e]) == Taken(log) + [e.update]
    ensures Applied(log + [e]) == Applied(log) + if e.applied then [e.update] else []
  {
    assert (log + [e])[..|log|] == log;
  }

  /** The RIB that the applied updates make, in order. */
  function Replay<R>(c: Computations<R>, start: R, us: seq<RibUpdate>): (r: R) {
    if us == [] then start
    else
      var rib, u := Replay(c, start, us[..|us| - 1]), us[|us| - 1];
      c.commit(rib, u, c.compute(rib, u))
  }

  lemma ReplaySnoc<R>(c: Computations<R>, start: R, us: seq<RibUpdate>, u: RibUpdate)
    ensures var rib := Replay(c, start, us); Replay(c, start, us + [u]) == c.commit(rib, u, c.compute(rib, u))
  {
    assert (us + [u])[..|us|] == us;
  }

  /** The RIB is the fold of the applied updates, and updates are taken up in the order they were enqueued, each
      once. */
  ghost predicate InOrder<R>(c: Computations<R>, start: R, s: State<R>) {
    && s.rib == Replay(c, start, Applied(s.log))
    && s.enqueued == Taken(s.log) + (if s.current.Some? then [s.current.value] else []) + s.queue
    && (s.current.Some? ==> s.ops == c.compute(s.rib, s.current.value))
  }

  ghost predicate ProtocolInv<R>(c: Computations<R>, start: R, s: State<R>) {
    !s.thrown && InOrder(c, start, s) && (Idle(s) || Busy(s))
  }

  // ----- commands on their way -----

  lemma SendAllMatches(us: seq<FibUpdate>, batch: RibUpdate)
    requires OnePerPair(us)
    ensures Matches(SendAll(us, batch), us)
    ensures forall m | m in SendAll(us, batch) :: m.batch == batch
  {
    var ms := SendAll(us, batch);
    forall u ensures u in us <==> Carries(ms, u) {
      if u in us {
        var i :| 0 <= i < |us| && us[i] == u;
        assert ms[i] in ms;
      }
    }
  }

  lemma WithoutOne(ms: seq<Sent>, i: nat)
    requires i < |ms|
    ensures forall m :: m in ms <==> m in Without(ms, i) || m == ms[i]
  {
    assert ms == ms[..i] + [ms[i]] + ms[i + 1..];
  }

  lemma StillCarried(ms: seq<Sent>, us: seq<FibUpdate>, i: nat, u: FibUpdate)
    requires Matches(ms, us) && i < |ms|
    ensures u in Remove(us, ms[i].update) <==> Carries(Without(ms, i), u)
  {
    var rest := Without(ms, i);
    WithoutOne(ms, i);
    assert u in us <==> Carries(ms, u);
    if Carries(rest, u) {
      var j :| 0 <= j < |rest| && rest[j].update == u;
      assert rest[j] == if j < i then ms[j] else ms[j + 1];
    }
  }

  lemma MatchesAfterSettle(ms: seq<Sent>, us: seq<FibUpdate>, i: nat)
    requires Matches(ms, us) && i < |ms|
    ensures Matches(Without(ms, i), Remove(us, ms[i].update))
    ensures forall m | m in Without(ms, i) :: m in ms
    ensures Remove(us, ms[i].update) == [] <==> Without(ms, i) == []
  {
    var rest, left := Without(ms, i), Remove(us, ms[i].update);
    WithoutOne(ms, i);
    forall u ensures u in left <==> Carries(rest, u) { StillCarried(ms, us, i, u); }
    if rest != [] { assert rest[0] in rest && Carries(rest, rest[0].update); }
    if left != [] { assert left[0] in left; }
  }

  lemma MatchesAfterRetry(ms: seq<Sent>, us: seq<FibUpdate>, i: nat, m: Sent)
    requires Matches(ms, us) && i < |ms| && m.update == ms[i].update
    ensures Matches(ms[i := m], us)
  {
    var rs := ms[i := m];
    forall u ensures Carries(ms, u) <==> Carries(rs, u) {
      if Carries(ms, u) {
        var j :| 0 <= j < |ms| && ms[j].update == u;
        assert rs[j] in rs && rs[j].update == u;
      }
      if Carries(rs, u) {
        var j :| 0 <= j < |rs| && rs[j].update == u;
        assert ms[j] in ms && ms[j].update == u;
      }
    }
  }

  // ----- every step keeps the protocol invariant -----

  /** A batch with nothing on its way. */
  ghost predicate Quiet<R>(c: Computations<R>, start: R, s: State<R>) {
    && s.current.Some? && s.batchFace == s.current.value.route.faceId && !s.thrown && InOrder(c, start, s)
    && s.outstanding == [] && forall u :: s.sends[u] <= MAX_NUM_TIMEOUTS + 1
  }

  lemma CompleteKeeps<R>(c: Computations<R>, start: R, s: State<R>)
    requires Quiet(c, start, s)
    ensures ProtocolInv(c, start, Complete(c, s, s.current.value)) && Idle(Complete(c, s, s.current.value))
  {
    CompleteInOrder(c, start, s);
  }

  lemma CompleteInOrder<R>(c: Computations<R>, start: R, s: State<R>)
    requires s.current.Some? && InOrder(c, start, s)
    ensures InOrder(c, start, Complete(c, s, s.current.value))
  {
    HistoryGrows(c, start, s.log, s.current.value);
    assert Taken(s.log) + [s.current.value] + [] == Taken(s.log) + [s.current.value];
  }

  lemma HistoryGrows<R>(c: Computations<R>, start: R, log: seq<Finished>, u: RibUpdate)
    ensures var rib, log' := Replay(c, start, Applied(log)), log + [Finished(u, true)];
      Replay(c, start, Applied(log')) == c.commit(rib, u, c.compute(rib, u)) && Taken(log') == Taken(log) + [u]
  {
    LogSnoc(log, Finished(u, true));
    ReplaySnoc(c, start, Applied(log), u);
  }

  /** The commands on other faces are still to be sent. */
  ghost predicate OtherUnsent<R>(s: State<R>) {
    && (forall u | u in s.forOther :: u.faceId != s.batchFace && s.sends[u] == 0)
    && OnePerPair(s.forOther)
  }

  lemma {:induction false} CountInList(us: seq<FibUpdate>, u: FibUpdate)
    requires OnePerPair(us)
    ensures multiset(us)[u] == if u in us then 1 else 0
  {
    if us != [] {
      var front, last := us[..|us| - 1], us[|us| - 1];
      assert us == front + [last];
      CountInList(front, u);
      assert last !in front;
    }
  }

  lemma SentOnce<R>(s: State<R>, us: seq<FibUpdate>, batch: RibUpdate, t: State<R>)
    requires OnePerPair(us) && (forall u | u in us :: s.sends[u] == 0)
    requires forall u :: s.sends[u] <= MAX_NUM_TIMEOUTS + 1
    requires t.outstanding == SendAll(us, batch) && t.sends == s.sends + multiset(us)
    ensures SendsBounded(t)
    ensures forall u | u !in us :: t.sends[u] == s.sends[u]
  {
    forall u ensures t.sends[u] == s.sends[u] + if u in us then 1 else 0 { CountInList(us, u); }
    forall m | m in t.outstanding ensures m.update in us && m.nTimeouts == 0 {
      var i :| 0 <= i < |t.outstanding| && t.outstanding[i] == m;
    }
  }

  lemma SendOtherKeeps<R>(c: Computations<R>, start: R, s: State<R>)
    requires Quiet(c, start, s) && OtherUnsent(s) && s.forBatch == []
    ensures ProtocolInv(c, start, SendOther(c, s, s.current.value))
  {
    var u := s.current.value;
    if s.forOther == [] {
      CompleteKeeps(c, start, s);
    } else {
      NothingElseSent(SendAll(s.forOther, u));
      SendAllMatches(s.forOther, u);
      OtherIsBusy(s, SendOther(c, s, u));
    }
  }

  lemma OtherIsBusy<R>(s: State<R>, t: State<R>)
    requires s.current.Some? && s.batchFace == s.current.value.route.faceId
    requires OtherUnsent(s) && s.forBatch == [] && s.forOther != [] && forall u :: s.sends[u] <= MAX_NUM_TIMEOUTS + 1
    requires t == s.(outstanding := SendAll(s.forOther, s.current.value), sends := s.sends + multiset(s.forOther))
    requires Matches(t.outstanding, s.forOther) && forall m | m in t.outstanding :: m.batch == s.current.value
    ensures Busy(t)
  {
    SentOnce(s, s.forOther, s.current.value, t);
  }

  lemma SendBatchKeeps<R>(c: Computations<R>, start: R, s: State<R>)
    requires Quiet(c, start, s) && OtherUnsent(s) && OnePerPair(s.forBatch) && s.sends == multiset{}
    requires forall u | u in s.forBatch :: u.faceId == s.batchFace
    ensures ProtocolInv(c, start, SendBatch(c, s, s.current.value))
  {
    var u := s.current.value;
    if s.forBatch == [] {
      SendOtherKeeps(c, start, s);
    } else {
      NothingElseSent(SendAll(s.forBatch, u));
      SendAllMatches(s.forBatch, u);
      BatchIsBusy(s, SendBatch(c, s, u));
    }
  }

  lemma BatchIsBusy<R>(s: State<R>, t: State<R>)
    requires s.current.Some? && s.batchFace == s.current.value.route.faceId
    requires OtherUnsent(s) && OnePerPair(s.forBatch) && s.sends == multiset{} && s.forBatch != []
    requires forall u | u in s.forBatch :: u.faceId == s.batchFace
    requires t == s.(outstanding := SendAll(s.forBatch, s.current.value), sends := s.sends + multiset(s.forBatch))
    requires Matches(t.outstanding, s.forBatch) && forall m | m in t.outstanding :: m.batch == s.current.value
    ensures Busy(t)
  {
    SentOnce(s, s.forBatch, s.current.value, t);
  }

  lemma NothingElseSent(ms: seq<Sent>)
    ensures [] + ms == ms
  {
  }

  lemma ListFaces(batchFace: nat, us: seq<FibUpdate>, batch: bool, u: FibUpdate)
    requires u in ListOf(batchFace, us, batch)
    ensures (u.faceId == batchFace) == batch
    ensures Last(us, u.name, u.faceId) == Some(u)
  {
    ListOfKeepsLast(batchFace, us, batch, u.name, u.faceId);
    LastIsMember(ListOf(batchFace, us, batch), u);
  }

  lemma StartKeeps<R>(c: Computations<R>, start: R, s: State<R>)
    requires !s.thrown && InOrder(c, start, s) && Idle(s) && s.queue != []
    ensures ProtocolInv(c, start, StartBatch(c, s))
  {
    var u := s.queue[0];
    var t := Computed(c, s.(queue := s.queue[1..]), u);
    ComputedLists(c.compute(s.rib, u), u.route.faceId);
    assert s.queue == [u] + s.queue[1..];
    assert Taken(s.log) + [] + s.queue == Taken(s.log) + [u] + s.queue[1..];
    SendBatchKeeps(c, start, t);
  }

  lemma ComputedLists(ops: seq<Op>, f: nat)
    ensures var a, b := ListOf(f, UpdatesOf(ops), true), ListOf(f, UpdatesOf(ops), false);
      && OnePerPair(a) && (forall x | x in a :: x.faceId == f)
      && OnePerPair(b) && (forall x | x in b :: x.faceId != f)
  {
    var updates := UpdatesOf(ops);
    ListOfKeepsLast(f, updates, true, [], 0);
    ListOfKeepsLast(f, updates, false, [], 0);
    forall x | x in ListOf(f, updates, true) ensures x.faceId == f { ListFaces(f, updates, true, x); }
    forall x | x in ListOf(f, updates, false) ensures x.faceId != f { ListFaces(f, updates, false, x); }
  }

  /** Settling a command of the batch in flight. */
  lemma SettleKeeps<R>(c: Computations<R>, start: R, s: State<R>, i: nat, t: State<R>)
    requires !s.thrown && InOrder(c, start, s) && Busy(s) && i < |s.outstanding|
    requires t == s.(fib := t.fib, outstanding := Without(s.outstanding, i))
    ensures ProtocolInv(c, start, Settle(c, t, s.outstanding[i].update, s.outstanding[i].batch))
  {
    var u := s.outstanding[i].update;
    assert s.outstanding[i] in s.outstanding && Carries(s.outstanding, u);
    var list := if s.forBatch != [] then s.forBatch else s.forOther;
    assert u in list;
    MatchesAfterSettle(s.outstanding, list, i);
    if s.forBatch != [] {
      SettleBatchKeeps(c, start, s, u, t.(forBatch := Remove(s.forBatch, u)));
    } else {
      SettleOtherKeeps(c, start, s, u, t.(forOther := Remove(s.forOther, u)));
    }
  }

  lemma SettleBatchKeeps<R>(c: Computations<R>, start: R, s: State<R>, u: FibUpdate, t: State<R>)
    requires !s.thrown && InOrder(c, start, s) && Busy(s) && s.forBatch != []
    requires t == s.(fib := t.fib, outstanding := t.outstanding, forBatch := Remove(s.forBatch, u))
    requires Matches(t.outstanding, t.forBatch) && (forall m | m in t.outstanding :: m in s.outstanding)
    requires t.forBatch == [] ==> t.outstanding == []
    ensures ProtocolInv(c, start, if t.forBatch == [] then SendOther(c, t, s.current.value) else t)
  {
    if t.forBatch == [] { SendOtherKeeps(c, start, t); }
  }

  lemma SettleOtherKeeps<R>(c: Computations<R>, start: R, s: State<R>, u: FibUpdate, t: State<R>)
    requires !s.thrown && InOrder(c, start, s) && Busy(s) && s.forBatch == []
    requires t == s.(fib := t.fib, outstanding := t.outstanding, forOther := Remove(s.forOther, u))
    requires Matches(t.outstanding, t.forOther) && (forall m | m in t.outstanding :: m in s.outstanding)
    requires t.forOther == [] ==> t.outstanding == []
    ensures ProtocolInv(c, start, if t.forOther == [] then Complete(c, t, s.current.value) else t)
  {
    RemoveKeepsOnePerPair(s.forOther, u);
    if t.forOther == [] { CompleteKeeps(c, start, t); }
  }

  lemma {:induction false} RemoveKeepsOnePerPair(us: seq<FibUpdate>, u: FibUpdate)
    requires OnePerPair(us)
    ensures OnePerPair(Remove(us, u))
  {
    if us != [] {
      var front, last := us[..|us| - 1], us[|us| - 1];
      assert us == front + [last];
      RemoveKeepsOnePerPair(front, u);
      var r := Remove(front, u);
      forall i | 0 <= i < |r| ensures r[i].name != last.name || r[i].faceId != last.faceId {
        assert r[i] in front;
      }
    }
  }

  lemma RetryKeeps<R>(c: Computations<R>, start: R, s: State<R>, i: nat, t: State<R>)
    requires !s.thrown && InOrder(c, start, s) && Busy(s)
    requires i < |s.outstanding| && s.outstanding[i].nTimeouts < MAX_NUM_TIMEOUTS
    requires t == s.(fib := t.fib, outstanding := s.outstanding[i := Retry(s.outstanding[i])],
                     sends := s.sends + multiset{s.outstanding[i].update})
    ensures ProtocolInv(c, start, t)
  {
    var m := s.outstanding[i];
    var list := if s.forBatch != [] then s.forBatch else s.forOther;
    MatchesAfterRetry(s.outstanding, list, i, Retry(m));
    assert m in s.outstanding && Carries(s.outstanding, m.update);
    RetrySends(s, i, t);
    assert Busy(t);
  }

  lemma RetrySends<R>(s: State<R>, i: nat, t: State<R>)
    requires SendsBounded(s) && i < |s.outstanding| && s.outstanding[i].nTimeouts < MAX_NUM_TIMEOUTS
    requires forall a, b | 0 <= a < b < |s.outstanding| :: s.outstanding[a].update != s.outstanding[b].update
    requires t.outstanding == s.outstanding[i := Retry(s.outstanding[i])]
    requires t.sends == s.sends + multiset{s.outstanding[i].update}
    ensures SendsBounded(t) && forall m | m in t.outstanding :: exists x :: x in s.outstanding && x.batch == m.batch
  {
    var m := s.outstanding[i];
    assert m in s.outstanding;
    forall x | x in t.outstanding
      ensures x.nTimeouts <= MAX_NUM_TIMEOUTS && t.sends[x.update] == x.nTimeouts + 1
      ensures exists y :: y in s.outstanding && y.batch == x.batch
    {
      var j :| 0 <= j < |t.outstanding| && t.outstanding[j] == x;
      assert s.outstanding[j] in s.outstanding;
    }
    forall u ensures t.sends[u] <= MAX_NUM_TIMEOUTS + 1 { assert s.sends[u] <= MAX_NUM_TIMEOUTS + 1; }
  }

  /** The only command on its way, on the batch face, gets a 410: the update fails, and nothing is left. */
  lemma FailKeeps<R>(c: Computations<R>, start: R, s: State<R>)
    requires !s.thrown && InOrder(c, start, s) && Busy(s) && |s.outstanding| == 1
    ensures var u := s.current.value;
      ProtocolInv(c, start, s.(outstanding := Without(s.outstanding, 0), current := None,
                               log := s.log + [Finished(u, false)]))
  {
    var u := s.current.value;
    LogSnoc(s.log, Finished(u, false));
    assert Applied(s.log) + [] == Applied(s.log);
    assert s.enqueued == (Taken(s.log) + [u]) + [] + s.queue;
  }

  /** Every orderly step, in any interleaving, keeps the protocol invariant, whatever is computed. */
  lemma StepKeepsProtocol<R>(c: Computations<R>, start: R, s: State<R>, e: Event)
    requires ProtocolInv(c, start, s) && Orderly(s, e)
    ensures ProtocolInv(c, start, Next(c, s, e))
  {
    match e
    case Enqueue(u) => EnqueueKeeps(c, start, s, u);
    case Start => StartKeeps(c, start, s);
    case Ack(i) =>
      SettleKeeps(c, start, s, i,
                  s.(fib := Execute(s.fib, s.dead, s.outstanding[i]), outstanding := Without(s.outstanding, i)));
    case Timeout(i, _) => RetryKeeps(c, start, s, i, Next(c, s, e));
    case Gone(i) => GoneKeeps(c, start, s, i);
    case Destroy(_) =>
  }

  /** An update that times out is sent again, as an addition, unless it has been sent eleven times: then it throws. */
  lemma ThrowsAfterElevenSends<R>(c: Computations<R>, start: R, s: State<R>, i: nat, tookEffect: bool)
    requires ProtocolInv(c, start, s) && i < |s.outstanding|
    ensures var u, r := s.outstanding[i].update, Next(c, s, Timeout(i, tookEffect));
      && (r.thrown <==> s.sends[u] == 11)
      && (!r.thrown ==> r.sends[u] == s.sends[u] + 1 && r.outstanding[i].update == u && r.outstanding[i].asAdd)
  {
    assert s.outstanding[i] in s.outstanding;
  }

  /** Which steps these are: a step that the code can take keeps the protocol invariant, one batch at a time, if and only
      if it is orderly. */
  lemma StepKeepsProtocolIff<R>(c: Computations<R>, start: R, s: State<R>, e: Event)
    requires ProtocolInv(c, start, s) && Enabled(s, e)
    ensures ProtocolInv(c, start, Next(c, s, e)) <==> Orderly(s, e)
  {
    if Orderly(s, e) { StepKeepsProtocol(c, start, s, e); } else { DisorderBreaks(c, start, s, e, Next(c, s, e)); }
  }

  /** A disorderly step throws, or frees the slot while other commands are on their way. */
  lemma DisorderBreaks<R>(c: Computations<R>, start: R, s: State<R>, e: Event, r: State<R>)
    requires ProtocolInv(c, start, s) && Enabled(s, e) && !Orderly(s, e) && r == Next(c, s, e)
    ensures r.thrown || (r.current.None? && r.outstanding != [])
  {
    match e
    case Timeout(i, tookEffect) =>
    case Gone(i) => GoneFreesSlotIff(c, start, s, i);
    case _ =>
  }

  /** A 410 on the batch face ends the batch as failed. Nothing is left on its way if and only if the command was the only
      one; otherwise every other command is, though the slot is free, and the next batch can start beside it. */
  lemma GoneFreesSlotIff<R>(c: Computations<R>, start: R, s: State<R>, i: nat)
    requires ProtocolInv(c, start, s) && Enabled(s, Gone(i)) && s.outstanding[i].update.faceId == s.batchFace
    ensures var r := Next(c, s, Gone(i));
      && r.current.None? && r.log == s.log + [Finished(s.current.value, false)] && r.rib == s.rib
      && (forall m :: m in r.outstanding <==> m in s.outstanding && m != s.outstanding[i])
      && (r.outstanding == [] <==> |s.outstanding| == 1)
      && (s.queue != [] ==> Enabled(r, Start))
  {
    InFlight(c, start, s, i);
    OthersRemain(s.outstanding, i);
  }

  /** A command on its way is one of the batch in flight, and no other is for its update. */
  lemma InFlight<R>(c: Computations<R>, start: R, s: State<R>, i: nat)
    requires ProtocolInv(c, start, s) && i < |s.outstanding|
    ensures s.current == Some(s.outstanding[i].batch)
    ensures forall a, b | 0 <= a < b < |s.outstanding| :: s.outstanding[a].update != s.outstanding[b].update
  {
    assert s.outstanding[i] in s.outstanding;
  }

  lemma OthersRemain(ms: seq<Sent>, i: nat)
    requires i < |ms| && forall a, b | 0 <= a < b < |ms| :: ms[a].update != ms[b].update
    ensures |Without(ms, i)| == |ms| - 1 && forall m :: m in Without(ms, i) <==> m in ms && m != ms[i]
  {
    WithoutOne(ms, i);
    forall m | m in Without(ms, i) ensures m != ms[i] {
      var j :| 0 <= j < |ms| - 1 && Without(ms, i)[j] == m;
      assert m == if j < i then ms[j] else ms[j + 1];
    }
  }

  lemma EnqueueKeeps<R>(c: Computations<R>, start: R, s: State<R>, u: RibUpdate)
    requires ProtocolInv(c, start, s)
    ensures ProtocolInv(c, start, s.(queue := s.queue + [u], enqueued := s.enqueued + [u]))
  {
    var inFlight := if s.current.Some? then [s.current.value] else [];
    assert s.enqueued + [u] == Taken(s.log) + inFlight + (s.queue + [u]);
  }

  lemma GoneKeeps<R>(c: Computations<R>, start: R, s: State<R>, i: nat)
    requires ProtocolInv(c, start, s) && Orderly(s, Gone(i))
    ensures ProtocolInv(c, start, Next(c, s, Gone(i)))
  {
    assert s.outstanding[i] in s.outstanding;
    if s.outstanding[i].update.faceId == s.batchFace {
      FailKeeps(c, start, s);
    } else {
      SettleKeeps(c, start, s, i, s.(outstanding := Without(s.outstanding, i)));
    }
  }

  // ----- runs -----

  ghost predicate IsOrderlyRun<R(!new)>(c: Computations<R>, start: R, states: seq<State<R>>, events: seq<Event>) {
    && |states| == |events| + 1
    && states[0] == Init(start)
    && forall i | 0 <= i < |events| :: Orderly(states[i], events[i]) && states[i + 1] == Next(c, states[i], events[i])
  }

  lemma {:induction false} RunKeepsProtocol<R(!new)>(c: Computations<R>, start: R, states: seq<State<R>>,
                                                     events: seq<Event>, k: nat)
    requires IsOrderlyRun(c, start, states, events) && k < |states|
    ensures ProtocolInv(c, start, states[k])
  {
    if k > 0 {
      RunKeepsProtocol(c, start, states, events, k - 1);
      StepKeepsProtocol(c, start, states[k - 1], events[k - 1]);
    }
  }

  /** Over every orderly run: nothing is on its way between batches; while a batch is in flight every command on its
      way is one of it, and one on another face is on its way only when no update on the batch face is left; no
      update was sent more than 11 times; the RIB is the fold of the applied updates; and every update that came is
      finished once, in flight or queued, in the order they came. */
  lemma OrderlyRuns<R(!new)>(c: Computations<R>, start: R, states: seq<State<R>>, events: seq<Event>, k: nat)
    requires IsOrderlyRun(c, start, states, events) && k < |states|
    ensures var s := states[k];
      && (s.current.None? ==> s.outstanding == [])
      && (forall m | m in s.outstanding ::
            && s.current == Some(m.batch) && m.nTimeouts <= 10
            && (m.update.faceId == m.batch.route.faceId || s.forBatch == []))
      && (forall u :: s.sends[u] <= 11)
      && s.rib == Replay(c, start, Applied(s.log))
      && s.enqueued == Taken(s.log) + (if s.current.Some? then [s.current.value] else []) + s.queue
  {
    RunKeepsProtocol(c, start, states, events, k);
    var s := states[k];
    forall m | m in s.outstanding
      ensures s.current == Some(m.batch) && (m.update.faceId == m.batch.route.faceId || s.forBatch == [])
    {
      assert Carries(s.outstanding, m.update);
    }
  }
}
