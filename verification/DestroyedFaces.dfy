/**
 Destroyed faces in the protocol: they hold no next hop, the batches that remove their routes send them no command and
 cannot fail, and such a batch completes at once when it has nothing to tell other faces.
 */
module DestroyedFaces {
  import opened Wrappers
  import opened FibOps
  import opened FibCompute
  import opened FibApply
  import opened FibUpdates
  import opened UpdateProtocol

  // ----- what a batch sends when it starts -----

  /** The update of some emission, and the last one about its name and face. */
  predicate Counts(ops: seq<Op>, x: FibUpdate) { Last(UpdatesOf(ops), x.name, x.faceId) == Some(x) }

  /** The updates that are sent to the face of the batch: none if it is being removed. */
  predicate ForItsFace(u: RibUpdate, ops: seq<Op>, x: FibUpdate) {
    Counts(ops, x) && x.faceId == u.route.faceId && !u.RemoveFace?
  }

  predicate ForOtherFaces(u: RibUpdate, ops: seq<Op>, x: FibUpdate) { Counts(ops, x) && x.faceId != u.route.faceId }

  predicate IsFresh(m: Sent, u: RibUpdate) {
    m.batch == u && m.nTimeouts == 0 && (m.asAdd <==> m.update.action == AddNextHop)
  }

  /** What is on its way once a batch has started, in terms of its emissions: the updates for its own face; if there are
      none, those for other faces; if there are none either, nothing, and it is complete. */
  lemma StartSends<R>(c: Computations<R>, s: State<R>)
    requires s.queue != [] && s.outstanding == []
    ensures var u, r := s.queue[0], StartBatch(c, s);
      var ops := c.compute(s.rib, u);
      && (forall m | m in r.outstanding :: IsFresh(m, u))
      && (forall x :: Carries(r.outstanding, x) <==>
            ForItsFace(u, ops, x) || ((forall y :: !ForItsFace(u, ops, y)) && ForOtherFaces(u, ops, x)))
      && (r.log == s.log + [Finished(u, true)] <==> r.outstanding == [])
      && (r.outstanding == [] ==> r.current == None && r.rib == c.commit(s.rib, u, ops))
      && (r.outstanding != [] ==> r.current == Some(u) && r.rib == s.rib && r.log == s.log)
  {
    var u := s.queue[0];
    var ops, f := c.compute(s.rib, u), u.route.faceId;
    var t := Computed(c, s.(queue := s.queue[1..]), u);
    ComputedAre(c, s);
    ListSent(t.forBatch, u);
    ListSent(t.forOther, u);
    assert [] + SendAll(t.forBatch, u) == SendAll(t.forBatch, u) && [] + SendAll(t.forOther, u) == SendAll(t.forOther, u);
    if t.forBatch != [] {
      assert ForItsFace(u, ops, t.forBatch[0]) && SendAll(t.forBatch, u)[0] in SendAll(t.forBatch, u);
    } else if t.forOther != [] {
      assert SendAll(t.forOther, u)[0] in SendAll(t.forOther, u);
    }
  }

  /** The two lists of a batch hold what counts on their faces. */
  lemma ComputedAre<R>(c: Computations<R>, s: State<R>)
    requires s.queue != []
    ensures var u := s.queue[0];
      var ops, t := c.compute(s.rib, u), Computed(c, s.(queue := s.queue[1..]), u);
      && OnePerPair(t.forBatch) && OnePerPair(t.forOther)
      && (forall x :: x in t.forBatch <==> ForItsFace(u, ops, x))
      && (forall x :: x in t.forOther <==> ForOtherFaces(u, ops, x))
  {
    var u := s.queue[0];
    var ops, f := c.compute(s.rib, u), u.route.faceId;
    ComputedLists(ops, f);
    forall x, b ensures x in ListOf(f, UpdatesOf(ops), b) <==> Counts(ops, x) && (x.faceId == f) == b {
      ListHolds(f, ops, b, x);
    }
  }

  lemma ListHolds(f: nat, ops: seq<Op>, batch: bool, x: FibUpdate)
    ensures x in ListOf(f, UpdatesOf(ops), batch) <==> Counts(ops, x) && (x.faceId == f) == batch
  {
    ListOfKeepsLast(f, UpdatesOf(ops), batch, x.name, x.faceId);
    if x in ListOf(f, UpdatesOf(ops), batch) { ListFaces(f, UpdatesOf(ops), batch, x); }
  }

  lemma ListSent(us: seq<FibUpdate>, u: RibUpdate)
    ensures forall x :: x in us <==> Carries(SendAll(us, u), x)
    ensures forall m | m in SendAll(us, u) :: IsFresh(m, u)
  {
    var ms := SendAll(us, u);
    forall x | x in us ensures Carries(ms, x) {
      var i :| 0 <= i < |us| && us[i] == x;
      assert ms[i] in ms;
    }
  }

  /** A batch that removes a face and concerns no other face completes when it starts, and nothing is sent. */
  lemma NothingToTell<R>(c: Computations<R>, s: State<R>)
    requires s.queue != [] && s.outstanding == [] && s.queue[0].RemoveFace?
    requires forall x | x in UpdatesOf(c.compute(s.rib, s.queue[0])) :: x.faceId == s.queue[0].route.faceId
    ensures var u, r := s.queue[0], StartBatch(c, s);
      && r.outstanding == [] && r.current == None && r.log == s.log + [Finished(u, true)]
      && r.rib == c.commit(s.rib, u, c.compute(s.rib, u))
  {
    StartSends(c, s);
    var u, r := s.queue[0], StartBatch(c, s);
    if r.outstanding != [] { assert Carries(r.outstanding, r.outstanding[0].update); }
  }

  // ----- batches that remove a face -----

  /** The batch in progress, if it removes a face, has nothing for that face. */
  ghost predicate SparesFace<R>(s: State<R>) {
    s.current.Some? && s.current.value.RemoveFace? ==>
      s.forBatch == [] && forall m | m in s.outstanding :: m.update.faceId != s.current.value.route.faceId
  }

  /** No removal of a route of a destroyed face has failed. */
  predicate NoneFailed(log: seq<Finished>) { forall x | x in log && x.update.RemoveFace? :: x.applied }

  lemma StartSpares<R>(c: Computations<R>, s: State<R>)
    requires s.queue != [] && s.outstanding == []
    ensures SparesFace(StartBatch(c, s))
  {
    var u, r := s.queue[0], StartBatch(c, s);
    StartSends(c, s);
    forall m | m in r.outstanding ensures u.RemoveFace? ==> m.update.faceId != u.route.faceId {
      assert Carries(r.outstanding, m.update);
    }
  }

  lemma SettleSpares<R>(c: Computations<R>, s: State<R>, i: nat, t: State<R>)
    requires Busy(s) && SparesFace(s) && i < |s.outstanding|
    requires t == s.(fib := t.fib, outstanding := Without(s.outstanding, i))
    ensures var r := Settle(c, t, s.outstanding[i].update, s.outstanding[i].batch);
      SparesFace(r) && (r.log == s.log || r.log == s.log + [Finished(s.current.value, true)])
  {
    WithoutOne(s.outstanding, i);
    assert s.outstanding[i] in s.outstanding;
  }

  lemma StepSpares<R>(c: Computations<R>, start: R, s: State<R>, e: Event)
    requires ProtocolInv(c, start, s) && Orderly(s, e) && SparesFace(s) && NoneFailed(s.log)
    ensures SparesFace(Next(c, s, e)) && NoneFailed(Next(c, s, e).log)
  {
    match e
    case Start =>
      StartSends(c, s);
      StartSpares(c, s);
    case Ack(i) =>
      SettleSpares(c, s, i, s.(fib := Execute(s.fib, s.dead, s.outstanding[i]), outstanding := Without(s.outstanding, i)));
    case Gone(i) =>
      assert s.outstanding[i] in s.outstanding;
      if s.outstanding[i].update.faceId != s.batchFace {
        SettleSpares(c, s, i, s.(outstanding := Without(s.outstanding, i)));
      }
    case Timeout(i, _) =>
      var r := Next(c, s, e);
      forall m | m in r.outstanding ensures exists x :: x in s.outstanding && x.update == m.update {
        var j :| 0 <= j < |r.outstanding| && r.outstanding[j] == m;
        assert s.outstanding[j] in s.outstanding;
      }
    case _ =>
  }

  ghost predicate RemovalsFine<R>(s: State<R>) { SparesFace(s) && NoneFailed(s.log) }

  lemma StepOfRunSpares<R(!new)>(c: Computations<R>, start: R, states: seq<State<R>>, events: seq<Event>, k: nat)
    requires IsOrderlyRun(c, start, states, events) && k < |events| && RemovalsFine(states[k])
    ensures RemovalsFine(states[k + 1])
  {
    RunKeepsProtocol(c, start, states, events, k);
    assert Orderly(states[k], events[k]) && states[k + 1] == Next(c, states[k], events[k]);
    StepSpares(c, start, states[k], events[k]);
  }

  lemma {:induction false} RunSpares<R(!new)>(c: Computations<R>, start: R, states: seq<State<R>>, events: seq<Event>, k: nat)
    requires IsOrderlyRun(c, start, states, events) && k < |states|
    ensures RemovalsFine(states[k])
  {
    if k > 0 {
      RunSpares(c, start, states, events, k - 1);
      StepOfRunSpares(c, start, states, events, k - 1);
    }
  }

  /** Over every orderly run: while a batch removes a face, no command on that face is on its way; and no such batch has
      ever failed. */
  lemma RemovalsNeverFail<R(!new)>(c: Computations<R>, start: R, states: seq<State<R>>, events: seq<Event>, k: nat)
    requires IsOrderlyRun(c, start, states, events) && k < |states|
    ensures forall m | m in states[k].outstanding && m.batch.RemoveFace? :: m.update.faceId != m.batch.route.faceId
    ensures forall x | x in states[k].log && x.update.RemoveFace? :: x.applied
  {
    RunKeepsProtocol(c, start, states, events, k);
    RunSpares(c, start, states, events, k);
    CommandsSpareFace(c, start, states[k]);
  }

  lemma CommandsSpareFace<R>(c: Computations<R>, start: R, s: State<R>)
    requires ProtocolInv(c, start, s) && SparesFace(s)
    ensures forall m | m in s.outstanding && m.batch.RemoveFace? :: m.update.faceId != m.batch.route.faceId
  {
  }

  // ----- the forwarder -----

  predicate HoldsNone<R>(s: State<R>) { forall k | k in s.fib :: k.1 !in s.dead }

  /** Over every orderly run no destroyed face holds a next hop. */
  lemma DeadFacesHoldNone<R(!new)>(c: Computations<R>, start: R, states: seq<State<R>>, events: seq<Event>, k: nat)
    requires IsOrderlyRun(c, start, states, events) && k < |states|
    ensures forall n, f | f in states[k].dead :: Get(states[k].fib, n, f) == None
  {
    HoldNone(c, start, states, events, k);
  }

  /** Over every orderly run the destroyed faces are those that a Destroy was for. */
  lemma {:induction false} DeadIffDestroyed<R(!new)>(c: Computations<R>, start: R, states: seq<State<R>>, events: seq<Event>,
                                                     k: nat, f: nat)
    requires IsOrderlyRun(c, start, states, events) && k < |states|
    ensures f in states[k].dead <==> exists j :: 0 <= j < k && events[j] == Destroy(f)
  {
    if k > 0 {
      DeadIffDestroyed(c, start, states, events, k - 1, f);
      StepForwarder(c, states[k - 1], events[k - 1]);
    }
  }

  lemma {:induction false} HoldNone<R(!new)>(c: Computations<R>, start: R, states: seq<State<R>>, events: seq<Event>, k: nat)
    requires IsOrderlyRun(c, start, states, events) && k < |states|
    ensures HoldsNone(states[k])
  {
    if k > 0 {
      HoldNone(c, start, states, events, k - 1);
      StepHoldsNone(c, states[k - 1], events[k - 1]);
    }
  }

  /** Both states have the same forwarder. */
  predicate SameForwarder<R>(s: State<R>, r: State<R>) { r.fib == s.fib && r.dead == s.dead }

  lemma CompleteForwarder<R>(c: Computations<R>, s: State<R>, batch: RibUpdate)
    ensures SameForwarder(s, Complete(c, s, batch))
  {
  }

  lemma SendForwarder<R>(c: Computations<R>, s: State<R>, batch: RibUpdate)
    ensures SameForwarder(s, SendOther(c, s, batch)) && SameForwarder(s, SendBatch(c, s, batch))
  {
    CompleteForwarder(c, s, batch);
  }

  lemma StartForwarder<R>(c: Computations<R>, s: State<R>)
    requires s.queue != []
    ensures SameForwarder(s, StartBatch(c, s))
  {
    SendForwarder(c, Computed(c, s.(queue := s.queue[1..]), s.queue[0]), s.queue[0]);
  }

  lemma SettleForwarder<R>(c: Computations<R>, s: State<R>, u: FibUpdate, batch: RibUpdate)
    ensures SameForwarder(s, Settle(c, s, u, batch))
  {
    SendForwarder(c, s.(forBatch := Remove(s.forBatch, u)), batch);
    CompleteForwarder(c, s.(forOther := Remove(s.forOther, u)), batch);
  }

  /** What a step does to the forwarder. */
  function FibAfter<R>(s: State<R>, e: Event): (fib: Fib)
    requires Enabled(s, e)
  {
    match e
    case Ack(i) => Execute(s.fib, s.dead, s.outstanding[i])
    case Timeout(i, tookEffect) => if tookEffect then Execute(s.fib, s.dead, s.outstanding[i]) else s.fib
    case Destroy(f) => DropFace(s.fib, f)
    case _ => s.fib
  }

  lemma StepForwarder<R>(c: Computations<R>, s: State<R>, e: Event)
    requires Enabled(s, e)
    ensures Next(c, s, e).fib == FibAfter(s, e)
    ensures Next(c, s, e).dead == if e.Destroy? then s.dead + {e.f} else s.dead
  {
    match e
    case Start => StartForwarder(c, s);
    case Ack(i) => AckForwarder(c, s, i);
    case Gone(i) => GoneForwarder(c, s, i);
    case _ =>
  }

  lemma AckForwarder<R>(c: Computations<R>, s: State<R>, i: nat)
    requires Enabled(s, Ack(i))
    ensures Next(c, s, Ack(i)).fib == Execute(s.fib, s.dead, s.outstanding[i]) && Next(c, s, Ack(i)).dead == s.dead
  {
    var m := s.outstanding[i];
    SettleForwarder(c, s.(fib := Execute(s.fib, s.dead, m), outstanding := Without(s.outstanding, i)), m.update, m.batch);
  }

  lemma GoneForwarder<R>(c: Computations<R>, s: State<R>, i: nat)
    requires Enabled(s, Gone(i))
    ensures SameForwarder(s, Next(c, s, Gone(i)))
  {
    var m := s.outstanding[i];
    SettleForwarder(c, s.(outstanding := Without(s.outstanding, i)), m.update, m.batch);
  }

  lemma StepHoldsNone<R>(c: Computations<R>, s: State<R>, e: Event)
    requires HoldsNone(s) && Enabled(s, e)
    ensures HoldsNone(Next(c, s, e))
  {
    var r := Next(c, s, e);
    StepForwarder(c, s, e);
    forall k | k in r.fib ensures k.1 !in r.dead {}
  }
}
