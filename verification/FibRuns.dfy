/**
 Whole runs: in every interleaving of registrations, unregistrations, destroyed faces, acknowledgements,
 timeouts and 410 responses, when the forwarding table equals the declarative one, face by face.
 */
module FibRuns {
  import opened Wrappers
  import opened Names
  import opened RibTree
  import opened FibSpec
  import opened FibOps
  import opened FibCompute
  import opened FibApply
  import opened FibEdit
  import opened FibTheorem
  import opened FibCommit
  import opened FibUpdates
  import opened UpdateProtocol
  import opened UpdateData

  /** The protocol around the incremental FIB computation and the RIB commit. */
  ghost function OfRib(): (c: Computations<Rib>) {
    Computations((s, u) => if RibExact(s) then UpdateOps(s, u) else [],
                 (s, u, ops) => if RibExact(s) then CommitWith(s, u, ops) else s)
  }

  /** An orderly step; a batch that starts keeps the capture flags of registered routes and can be computed. */
  ghost predicate Lawful(s: State<Rib>, e: Event) {
    Orderly(s, e) && (e.Start? ==> Admissible(s.rib.table, s.queue[0]))
  }

  ghost predicate IsRun(states: seq<State<Rib>>, events: seq<Event>) {
    && |states| == |events| + 1
    && states[0] == Init(Empty)
    && forall i | 0 <= i < |events| :: LawfulTo(states[i], events[i], states[i + 1])
  }

  ghost predicate LawfulTo(s: State<Rib>, e: Event, r: State<Rib>) { Lawful(s, e) && r == Next(OfRib(), s, e) }

  // ----- what holds in every run -----

  ghost predicate RunInv(s: State<Rib>) {
    && ProtocolInv(OfRib(), Empty, s) && DataInv(s)
    && Good(s.rib) && (s.current.Some? ==> Admissible(s.rib.table, s.current.value))
  }

  /** The update that a step may start or complete. */
  function InHand(s: State<Rib>, e: Event): (u: Option<RibUpdate>) {
    if e.Start? && s.queue != [] then Some(s.queue[0]) else s.current
  }

  /** What a step does to the RIB: nothing, or the commit of the update in hand. */
  ghost predicate RibStep(s: State<Rib>, e: Event, r: State<Rib>)
    requires RibExact(s.rib)
  {
    || (r.rib == s.rib && (r.current.Some? ==> r.current == InHand(s, e)))
    || (r.current.None? && InHand(s, e).Some? && r.rib == Commit(s.rib, InHand(s, e).value))
  }

  lemma OfRibIs(s: Rib, u: RibUpdate)
    requires RibExact(s)
    ensures OfRib().compute(s, u) == UpdateOps(s, u)
    ensures OfRib().commit(s, u, UpdateOps(s, u)) == Commit(s, u)
  {
  }

  /** A started batch has its commands sent, or is complete at once. */
  lemma StartShape<R>(c: Computations<R>, s: State<R>)
    requires s.queue != []
    ensures var u := s.queue[0];
      var t, r := Computed(c, s.(queue := s.queue[1..]), u), StartBatch(c, s);
      && r.base == s.fib && r.fib == s.fib && r.ops == c.compute(s.rib, u) && r.dead == s.dead
      && if t.forBatch == t.forOther == [] then
           && r.rib == c.commit(s.rib, u, c.compute(s.rib, u)) && r.current.None?
           && r.log == s.log + [Finished(u, true)] && r.sends == multiset{}
         else r.rib == s.rib && r.current == Some(u) && r.log == s.log
  {
    SendBatchShape(c, Computed(c, s.(queue := s.queue[1..]), s.queue[0]), s.queue[0]);
  }

  lemma SendBatchShape<R>(c: Computations<R>, s: State<R>, batch: RibUpdate)
    ensures var r := SendBatch(c, s, batch);
      && r.base == s.base && r.fib == s.fib && r.ops == s.ops && r.dead == s.dead
      && if s.forBatch == s.forOther == [] then
           && r.rib == c.commit(s.rib, batch, s.ops) && r.current.None?
           && r.log == s.log + [Finished(batch, true)] && r.sends == s.sends
         else r.rib == s.rib && r.current == s.current && r.log == s.log
  {
    if s.forBatch == [] { SendOtherShape(c, s, batch); }
  }

  lemma SendOtherShape<R>(c: Computations<R>, s: State<R>, batch: RibUpdate)
    ensures var r := SendOther(c, s, batch);
      && r.base == s.base && r.fib == s.fib && r.ops == s.ops && r.dead == s.dead
      && if s.forOther == [] then
           && r.rib == c.commit(s.rib, batch, s.ops) && r.current.None?
           && r.log == s.log + [Finished(batch, true)] && r.sends == s.sends
         else r.rib == s.rib && r.current == s.current && r.log == s.log
  {
  }

  lemma StepRib(s: State<Rib>, e: Event)
    requires RunInv(s) && Lawful(s, e)
    ensures RibStep(s, e, Next(OfRib(), s, e))
  {
    if InHand(s, e).Some? { OfRibIs(s.rib, InHand(s, e).value); }
    match e
    case Enqueue(_) =>
    case Start => StartShape(OfRib(), s);
    case Ack(i) => SettleStep(OfRib(), s, i, true);
    case Timeout(_, _) =>
    case Gone(i) => if s.outstanding[i].update.faceId != s.batchFace { SettleStep(OfRib(), s, i, false); }
    case Destroy(_) =>
  }

  lemma StepKeepsGood(s: State<Rib>, e: Event, r: State<Rib>)
    requires Good(s.rib) && RibStep(s, e, r)
    requires InHand(s, e).Some? ==> Admissible(s.rib.table, InHand(s, e).value)
    ensures Good(r.rib) && (r.current.Some? ==> Admissible(r.rib.table, r.current.value))
  {
    if InHand(s, e).Some? { CommitKeepsGood(s.rib, InHand(s, e).value); }
  }

  lemma StepKeepsRun(s: State<Rib>, e: Event)
    requires RunInv(s) && Lawful(s, e)
    ensures RunInv(Next(OfRib(), s, e))
  {
    StepKeepsProtocol(OfRib(), Empty, s, e);
    StepKeepsData(OfRib(), Empty, s, e);
    StepRib(s, e);
    StepKeepsGood(s, e, Next(OfRib(), s, e));
  }

  /** Which steps these are: a step that the code can take, and that starts only an admissible batch, keeps the invariant
      if and only if it is orderly. */
  lemma StepKeepsRunIff(s: State<Rib>, e: Event)
    requires RunInv(s) && Enabled(s, e) && (e.Start? ==> Admissible(s.rib.table, s.queue[0]))
    ensures RunInv(Next(OfRib(), s, e)) <==> Orderly(s, e)
  {
    StepKeepsProtocolIff(OfRib(), Empty, s, e);
    if Orderly(s, e) { StepKeepsRun(s, e); }
  }

  // ----- one face -----

  /** The forwarding table is the declarative one on face `f`, but for some names that have no next hop by the routes and
      one of cost 0 in the forwarder. */
  ghost predicate ButAt(t: Table, fib: Fib, left: iset<Name>, f: nat, d: Name) {
    if d in left then NextHop(t, d, f) == None && Get(fib, d, f) == Some(0) else Get(fib, d, f) == NextHop(t, d, f)
  }

  ghost predicate ExactBut(t: Table, fib: Fib, left: iset<Name>, f: nat) { forall d :: ButAt(t, fib, left, f, d) }

  /** Such a table is exact if and only if there is no such name. */
  lemma ExactButIff(t: Table, fib: Fib, left: iset<Name>, f: nat)
    requires ExactBut(t, fib, left, f)
    ensures ExactOn(t, fib, f) <==> left == iset{}
  {
    if d :| d in left { assert ButAt(t, fib, left, f, d) && Get(fib, d, f) != NextHop(t, d, f); }
    if left == iset{} { forall d ensures Get(fib, d, f) == NextHop(t, d, f) { assert ButAt(t, fib, left, f, d); } }
  }

  /** What a completed batch does to these names: one more where a removal was retried, one less where the batch has
      another update for the pair. */
  ghost function LeftAfter(r: State<Rib>, left: iset<Name>, f: nat): (after: iset<Name>) {
    iset d | LeftAt(r, left, f, d)
  }

  ghost predicate LeftAt(r: State<Rib>, left: iset<Name>, f: nat, d: Name) {
    var u := Last(UpdatesOf(r.ops), d, f);
    if u.Some? then Retried(r, u.value) else d in left
  }

  /** The step finishes a batch and applies its update. */
  predicate Applies(s: State<Rib>, r: State<Rib>) { |r.log| > |s.log| && r.log[|r.log| - 1].applied }

  ghost function LeftStep(s: State<Rib>, r: State<Rib>, left: iset<Name>, f: nat): (after: iset<Name>) {
    if Applies(s, r) then LeftAfter(r, left, f) else left
  }

  /** Face `f` is dead, or the forwarding table is exact there but for some names, or was when the batch in flight
      started. */
  ghost predicate FaceInv(s: State<Rib>, left: iset<Name>, f: nat) {
    f in s.dead ||
    (&& Covered(s.rib.table, f)
     && if s.current.None? then ExactBut(s.rib.table, s.fib, left, f)
        else ExactBut(s.rib.table, s.base, left, f) && SoundOn(s.rib.table, s.current.value, f))
  }

  /** A lawful step; the batch that it may start is sound on `f`. */
  ghost predicate SoundStep(s: State<Rib>, e: Event, f: nat) {
    Lawful(s, e) && (e.Start? ==> SoundOn(s.rib.table, s.queue[0], f))
  }

  // ----- a completed batch -----

  /** Removals carry the default cost. */
  lemma {:induction false} RemovalCost(ops: seq<Op>, d: Name, f: nat)
    ensures var u := Last(UpdatesOf(ops), d, f); u.Some? && u.value.action == RemoveNextHop ==> u.value.cost == 0
  {
    if ops != [] {
      var front, last := UpdatesOf(ops[..|ops| - 1]), UpdateOf(ops[|ops| - 1]);
      assert (front + [last])[..|front|] == front;
      RemovalCost(ops[..|ops| - 1], d, f);
    }
  }

  /** The forwarding table without the hops that were left over. */
  function Cleared(fib: Fib, t: Table, f: nat): (r: Fib) {
    map k | k in fib && (k.1 != f || NextHop(t, k.0, f).Some?) :: fib[k]
  }

  lemma ClearedIsExact(t: Table, fib: Fib, left: iset<Name>, f: nat)
    requires ExactBut(t, fib, left, f)
    ensures ExactOn(t, Cleared(fib, t, f), f)
  {
    forall d ensures Get(Cleared(fib, t, f), d, f) == NextHop(t, d, f) { assert ButAt(t, fib, left, f, d); }
  }

  /** A sound batch is complete: the names left over are those of its retried removals, and those that it does not
      touch. */
  lemma CompletionBut(rib: Rib, u: RibUpdate, r: State<Rib>, left: iset<Name>, f: nat)
    requires Good(rib) && Admissible(rib.table, u) && SoundOn(rib.table, u, f)
    requires Covered(rib.table, f) && ExactBut(rib.table, r.base, left, f)
    requires r.ops == UpdateOps(rib, u) && r.rib == Commit(rib, u) && AllSettled(r) && f !in r.dead
    ensures Covered(r.rib.table, f) && ExactBut(r.rib.table, r.fib, LeftAfter(r, left, f), f)
  {
    var fib := Cleared(r.base, rib.table, f);
    ClearedIsExact(rib.table, r.base, left, f);
    UpdateExact(rib, u, fib, f);
    forall d ensures ButAt(r.rib.table, r.fib, LeftAfter(r, left, f), f, d) {
      assert ButAt(rib.table, r.base, left, f, d);
      assert Get(fib, d, f) == NextHop(rib.table, d, f);
      OpsOutcome(fib, r.ops, d, f);
      RemovalCost(r.ops, d, f);
      SettledBut(rib.table, r, r.rib.table, left, f, d);
    }
  }

  lemma SettledBut(t: Table, r: State<Rib>, after: Table, left: iset<Name>, f: nat, d: Name)
    requires ButAt(t, r.base, left, f, d)
    requires var u := Last(UpdatesOf(r.ops), d, f);
      && NextHop(after, d, f) == Outcome(NextHop(t, d, f), u)
      && (u.Some? && u.value.action == RemoveNextHop ==> u.value.cost == 0)
    requires AllSettled(r) && f !in r.dead
    ensures ButAt(after, r.fib, LeftAfter(r, left, f), f, d)
  {
    assert Get(r.fib, d, f) == FinalHop(r, d, f);
    assert d in LeftAfter(r, left, f) <==> LeftAt(r, left, f, d);
  }

  /** What a step that completes a batch makes of the RIB and the forwarding table. */
  lemma CompletesBut(s: State<Rib>, u: RibUpdate, r: State<Rib>, left: iset<Name>, f: nat)
    requires Good(s.rib) && Admissible(s.rib.table, u) && SoundOn(s.rib.table, u, f)
    requires f !in r.dead && Covered(s.rib.table, f) && ExactBut(s.rib.table, r.base, left, f)
    requires r.log == s.log + [Finished(u, true)] && r.current.None?
    requires r.ops == UpdateOps(s.rib, u) && r.rib == Commit(s.rib, u) && AllSettled(r)
    ensures FaceInv(r, LeftStep(s, r, left, f), f)
  {
    CompletionBut(s.rib, u, r, left, f);
  }

  // ----- every step -----

  lemma StartFace(s: State<Rib>, left: iset<Name>, f: nat)
    requires RunInv(s) && FaceInv(s, left, f) && SoundStep(s, Start, f)
    ensures FaceInv(StartBatch(OfRib(), s), LeftStep(s, StartBatch(OfRib(), s), left, f), f)
  {
    var c, u := OfRib(), s.queue[0];
    var t, r := Computed(c, s.(queue := s.queue[1..]), u), StartBatch(c, s);
    StartShape(c, s);
    OfRibIs(s.rib, u);
    if f !in s.dead && t.forBatch == t.forOther == [] {
      StartData(c, s);
      CompletesBut(s, u, r, left, f);
    }
  }

  lemma SettleFace(s: State<Rib>, i: nat, acked: bool, r: State<Rib>, left: iset<Name>, f: nat)
    requires RunInv(s) && FaceInv(s, left, f) && Busy(s) && i < |s.outstanding|
    requires acked || (s.outstanding[i].update.faceId in s.dead && s.outstanding[i].update.faceId != s.batchFace)
    requires var m := s.outstanding[i];
      r == Settle(OfRib(), s.(fib := if acked then Execute(s.fib, s.dead, m) else s.fib,
                              outstanding := Without(s.outstanding, i)), m.update, m.batch)
    ensures FaceInv(r, LeftStep(s, r, left, f), f)
  {
    SettleStep(OfRib(), s, i, acked);
    OfRibIs(s.rib, s.current.value);
    SettleDead(s, i, acked, r);
    SettledFace(s, r, left, f);
  }

  lemma SettleDead(s: State<Rib>, i: nat, acked: bool, r: State<Rib>)
    requires i < |s.outstanding|
    requires var m := s.outstanding[i];
      r == Settle(OfRib(), s.(fib := if acked then Execute(s.fib, s.dead, m) else s.fib,
                              outstanding := Without(s.outstanding, i)), m.update, m.batch)
    ensures r.dead == s.dead
  {
  }

  lemma SettledFace(s: State<Rib>, r: State<Rib>, left: iset<Name>, f: nat)
    requires s.current.Some? && Good(s.rib) && Admissible(s.rib.table, s.current.value) && FaceInv(s, left, f)
    requires s.ops == UpdateOps(s.rib, s.current.value) && r.dead == s.dead && r.base == s.base
    requires if r.current.Some? then Continues(s, r) else CompletedRight(OfRib(), s, s.current.value, r)
    ensures FaceInv(r, LeftStep(s, r, left, f), f)
  {
    OfRibIs(s.rib, s.current.value);
    if f !in s.dead && r.current.None? { CompletesBut(s, s.current.value, r, left, f); }
  }

  lemma FailFace(s: State<Rib>, i: nat, left: iset<Name>, f: nat)
    requires RunInv(s) && FaceInv(s, left, f) && Lawful(s, Gone(i)) && s.outstanding[i].update.faceId == s.batchFace
    ensures FaceInv(Next(OfRib(), s, Gone(i)), left, f)
  {
    assert s.outstanding[i] in s.outstanding && Carries(s.outstanding, s.outstanding[i].update);
    if f !in s.dead {
      forall d ensures ButAt(s.rib.table, s.fib, left, f, d) {
        assert UntouchedAt(s, d, f) && ButAt(s.rib.table, s.base, left, f, d);
      }
    }
  }

  lemma DestroyFace(s: State<Rib>, g: nat, left: iset<Name>, f: nat)
    requires FaceInv(s, left, f)
    ensures FaceInv(s.(dead := s.dead + {g}, fib := DropFace(s.fib, g)), left, f)
  {
    if f != g && f !in s.dead && s.current.None? {
      forall d ensures ButAt(s.rib.table, DropFace(s.fib, g), left, f, d) { assert ButAt(s.rib.table, s.fib, left, f, d); }
    }
  }

  /** Every step that starts only what is sound on a face keeps the forwarding table exact there between batches, but for
      what retried removals leave over. */
  lemma StepKeepsFace(s: State<Rib>, e: Event, left: iset<Name>, f: nat)
    requires RunInv(s) && FaceInv(s, left, f) && SoundStep(s, e, f)
    ensures FaceInv(Next(OfRib(), s, e), LeftStep(s, Next(OfRib(), s, e), left, f), f)
  {
    match e
    case Start => StartFace(s, left, f);
    case Ack(i) => SettleFace(s, i, true, Next(OfRib(), s, e), left, f);
    case Gone(i) => GoneFace(s, i, left, f);
    case Destroy(g) => DestroyFace(s, g, left, f);
    case _ => QuietFace(s, e, left, f);
  }

  /** Enqueueing and timeouts change nothing that counts between batches. */
  lemma QuietFace(s: State<Rib>, e: Event, left: iset<Name>, f: nat)
    requires RunInv(s) && FaceInv(s, left, f) && SoundStep(s, e, f) && (e.Enqueue? || e.Timeout?)
    ensures FaceInv(Next(OfRib(), s, e), LeftStep(s, Next(OfRib(), s, e), left, f), f)
  {
  }

  lemma GoneFace(s: State<Rib>, i: nat, left: iset<Name>, f: nat)
    requires RunInv(s) && FaceInv(s, left, f) && Lawful(s, Gone(i))
    ensures FaceInv(Next(OfRib(), s, Gone(i)), LeftStep(s, Next(OfRib(), s, Gone(i)), left, f), f)
  {
    if s.outstanding[i].update.faceId == s.batchFace {
      FailFace(s, i, left, f);
    } else {
      SettleFace(s, i, false, Next(OfRib(), s, Gone(i)), left, f);
    }
  }

  // ----- retries -----

  /** No removal on `f` of the last batch was retried. */
  ghost predicate NoneRetried(s: State<Rib>, f: nat) { forall u: FibUpdate | u.faceId == f :: !Retried(s, u) }

  /** At the start of a batch every update is sent at most once. */
  lemma SentOnceEach<R>(c: Computations<R>, s: State<R>)
    requires s.queue != []
    ensures forall u :: StartBatch(c, s).sends[u] <= 1
  {
    var t := Computed(c, s.(queue := s.queue[1..]), s.queue[0]);
    ComputedLists(t.ops, t.batchFace);
    forall u ensures StartBatch(c, s).sends[u] <= 1 {
      CountInList(t.forBatch, u);
      CountInList(t.forOther, u);
    }
  }

  /** Settling sends nothing a second time. */
  lemma SettleSends(s: State<Rib>, i: nat, acked: bool, r: State<Rib>)
    requires Busy(s) && i < |s.outstanding|
    requires var m := s.outstanding[i];
      r == Settle(OfRib(), s.(fib := if acked then Execute(s.fib, s.dead, m) else s.fib,
                              outstanding := Without(s.outstanding, i)), m.update, m.batch)
    ensures r.dead == s.dead && forall u :: Retried(r, u) <==> Retried(s, u)
  {
    assert s.outstanding[i] in s.outstanding && Carries(s.outstanding, s.outstanding[i].update);
    var m := s.outstanding[i];
    SettleShape(OfRib(), s.(fib := if acked then Execute(s.fib, s.dead, m) else s.fib, outstanding := Without(s.outstanding, i)),
                m.update, m.batch);
    assert r.sends != s.sends ==> s.forBatch != [] && r.sends == s.sends + multiset(s.forOther);
    forall u ensures Retried(r, u) <==> Retried(s, u) {
      if r.sends != s.sends {
        SendsOther(s, u);
        assert Twice(r.sends, u) <==> Twice(s.sends, u);
      }
    }
  }

  predicate Twice(sends: multiset<FibUpdate>, u: FibUpdate) { sends[u] > 1 }

  lemma SendsOther<R>(s: State<R>, u: FibUpdate)
    requires OnePerPair(s.forOther) && forall x | x in s.forOther :: s.sends[x] == 0
    ensures Twice(s.sends + multiset(s.forOther), u) <==> Twice(s.sends, u)
  {
    CountInList(s.forOther, u);
  }

  /** Settling sends the commands on other faces or none. */
  lemma SettleShape<R>(c: Computations<R>, s: State<R>, u: FibUpdate, batch: RibUpdate)
    ensures var r := Settle(c, s, u, batch);
      && r.dead == s.dead
      && (r.sends == s.sends || (u.faceId == s.batchFace && r.sends == s.sends + multiset(s.forOther)))
  {
    if u.faceId == s.batchFace {
      SendShape(c, s.(forBatch := Remove(s.forBatch, u)), batch);
    } else {
      CompleteShape(c, s.(forOther := Remove(s.forOther, u)), batch);
    }
  }

  lemma CompleteShape<R>(c: Computations<R>, s: State<R>, batch: RibUpdate)
    ensures Complete(c, s, batch).dead == s.dead && Complete(c, s, batch).sends == s.sends
  {
  }

  lemma SendShape<R>(c: Computations<R>, s: State<R>, batch: RibUpdate)
    ensures var r := SendOther(c, s, batch); r.dead == s.dead && (r.sends == s.sends || r.sends == s.sends + multiset(s.forOther))
  {
    CompleteShape(c, s, batch);
  }

  /** The step is not a timeout of a removal on `f`. */
  predicate LosesNoRemoval(s: State<Rib>, e: Event, f: nat)
    requires Enabled(s, e)
  {
    e.Timeout? ==> var u := s.outstanding[e.i].update; u.faceId != f || u.action == AddNextHop
  }

  lemma StepRetries(s: State<Rib>, e: Event, f: nat)
    requires RunInv(s) && Lawful(s, e) && NoneRetried(s, f) && LosesNoRemoval(s, e, f)
    ensures NoneRetried(Next(OfRib(), s, e), f)
  {
    var r := Next(OfRib(), s, e);
    match e
    case Start =>
      SentOnceEach(OfRib(), s);
      forall u: FibUpdate | u.faceId == f ensures !Retried(r, u) { assert r.sends[u] <= 1; }
    case Ack(i) =>
      SettleSends(s, i, true, r);
      forall u: FibUpdate | u.faceId == f ensures !Retried(r, u) { assert !Retried(s, u); }
    case Timeout(i, tookEffect) => TimeoutRetries(s, i, tookEffect, f);
    case Gone(i) =>
      if s.outstanding[i].update.faceId != s.batchFace { SettleSends(s, i, false, r); }
      forall u: FibUpdate | u.faceId == f ensures !Retried(r, u) { assert !Retried(s, u); }
    case _ =>
      forall u: FibUpdate | u.faceId == f ensures !Retried(r, u) { assert !Retried(s, u); }
  }

  lemma TimeoutRetries(s: State<Rib>, i: nat, tookEffect: bool, f: nat)
    requires Orderly(s, Timeout(i, tookEffect)) && NoneRetried(s, f) && LosesNoRemoval(s, Timeout(i, tookEffect), f)
    ensures NoneRetried(Next(OfRib(), s, Timeout(i, tookEffect)), f)
  {
    var r, x := Next(OfRib(), s, Timeout(i, tookEffect)), s.outstanding[i].update;
    assert r.sends == s.sends + multiset{x};
    forall u: FibUpdate | u.faceId == f ensures !Retried(r, u) {
      assert !Retried(s, u);
      if u.action == RemoveNextHop { assert u != x && r.sends[u] == s.sends[u]; }
    }
  }

  // ----- runs -----

  /** The names for which a retried removal has left a hop on `f` in the forwarder, after `k` steps of a run: each
      completed batch adds those whose removal it retried, and settles those for which it has another update. */
  ghost function LeftOver(states: seq<State<Rib>>, k: nat, f: nat): (left: iset<Name>)
    requires k < |states|
  {
    if k == 0 then iset{} else LeftStep(states[k - 1], states[k], LeftOver(states, k - 1, f), f)
  }

  lemma InitIsExact()
    ensures RunInv(Init(Empty)) && forall f :: FaceInv(Init(Empty), iset{}, f) && NoneRetried(Init(Empty), f)
  {
    EmptyIsExact();
    var s: State<Rib> := Init(Empty);
    forall n, f ensures SettledAt(s, n, f) && UntouchedAt(s, n, f) {}
    forall f ensures FaceInv(s, iset{}, f) && NoneRetried(s, f) {
      forall d ensures ButAt(Empty.table, map[], iset{}, f, d) && CoveredAt(Empty.table, d, f) {}
    }
  }

  lemma RunInvariant(states: seq<State<Rib>>, events: seq<Event>, k: nat)
    requires IsRun(states, events) && k < |states|
    ensures RunInv(states[k])
  {
    InitIsExact();
    forall s, e, r | RunInv(s) && LawfulTo(s, e, r) ensures RunInv(r) { StepKeepsRun(s, e); }
    Induct(s => RunInv(s), (s, e, r) => LawfulTo(s, e, r), states, events, k);
  }

  lemma {:induction false} FaceInvariant(states: seq<State<Rib>>, events: seq<Event>, k: nat, f: nat)
    requires IsRun(states, events) && k < |states|
    requires forall i | 0 <= i < k :: SoundStep(states[i], events[i], f)
    ensures FaceInv(states[k], LeftOver(states, k, f), f)
  {
    if k == 0 {
      InitIsExact();
    } else {
      FaceInvariant(states, events, k - 1, f);
      RunInvariant(states, events, k - 1);
      assert SoundStep(states[k - 1], events[k - 1], f);
      StepKeepsFace(states[k - 1], events[k - 1], LeftOver(states, k - 1, f), f);
    }
  }

  /** Over every run and for every face on which the batches started so far were sound, whatever was lost: whenever no
      batch is in flight and the face is alive, every next hop on it is the one that the declarative definition gives,
      except that a name which a retried removal left over has one of cost 0 and should have none. */
  lemma RunsStayExact(states: seq<State<Rib>>, events: seq<Event>, k: nat, n: Name, f: nat)
    requires IsRun(states, events) && k < |states|
    requires forall i | 0 <= i < k :: SoundStep(states[i], events[i], f)
    requires states[k].current.None? && f !in states[k].dead
    ensures Get(states[k].fib, n, f) == if n in LeftOver(states, k, f) then Some(0) else NextHop(states[k].rib.table, n, f)
    ensures n in LeftOver(states, k, f) ==> NextHop(states[k].rib.table, n, f) == None
    ensures ExactOn(states[k].rib.table, states[k].fib, f) <==> LeftOver(states, k, f) == iset{}
    ensures states[k].rib == Replay(OfRib(), Empty, Applied(states[k].log))
    ensures Taken(states[k].log) + states[k].queue == states[k].enqueued
    ensures states[k].outstanding == []
  {
    RunInvariant(states, events, k);
    FaceInvariant(states, events, k, f);
    ExactButIff(states[k].rib.table, states[k].fib, LeftOver(states, k, f), f);
    assert ButAt(states[k].rib.table, states[k].fib, LeftOver(states, k, f), f, n);
    assert Taken(states[k].log) + [] == Taken(states[k].log);
  }

  /** Nothing is left over on a face of which no removal timed out. */
  lemma NothingLostNothingLeft(states: seq<State<Rib>>, events: seq<Event>, k: nat, f: nat)
    requires IsRun(states, events) && k < |states|
    requires forall i | 0 <= i < k :: Enabled(states[i], events[i]) && LosesNoRemoval(states[i], events[i], f)
    ensures LeftOver(states, k, f) == iset{}
  {
    InitIsExact();
    forall s, e, r | RunInv(s) && NoneRetried(s, f) && KeepsRemovals(s, e, r, f) ensures RunInv(r) && NoneRetried(r, f) {
      StepKeepsRun(s, e);
      StepRetries(s, e, f);
    }
    forall j | 0 <= j <= k ensures NoneRetried(states[j], f) {
      Induct(s => RunInv(s) && NoneRetried(s, f), (s, e, r) => KeepsRemovals(s, e, r, f), states, events, j);
    }
    NoneLeftOver(states, k, f);
  }

  ghost predicate KeepsRemovals(s: State<Rib>, e: Event, r: State<Rib>, f: nat) {
    LawfulTo(s, e, r) && LosesNoRemoval(s, e, f)
  }

  lemma {:induction false} NoneLeftOver(states: seq<State<Rib>>, k: nat, f: nat)
    requires k < |states| && forall j | 0 <= j <= k :: NoneRetried(states[j], f)
    ensures LeftOver(states, k, f) == iset{}
  {
    if k > 0 {
      NoneLeftOver(states, k - 1, f);
      NoneLeft(states[k - 1], states[k], f);
    }
  }

  lemma NoneLeft(s: State<Rib>, r: State<Rib>, f: nat)
    requires NoneRetried(r, f)
    ensures LeftStep(s, r, iset{}, f) == iset{}
  {
    forall d ensures !LeftAt(r, iset{}, f, d) {
      var u := Last(UpdatesOf(r.ops), d, f);
      if u.Some? { assert !Retried(r, u.value); }
    }
  }

  /** What one batch leaves: when a batch that started from an exact table and is sound on a live face completes, the
      table is exact on the face if and only if every removal on the face was sent once. */
  lemma RetriedRemovalDecides(states: seq<State<Rib>>, events: seq<Event>, k: nat, u: RibUpdate, f: nat)
    requires IsRun(states, events) && k < |events|
    requires states[k + 1].log == states[k].log + [Finished(u, true)] && f !in states[k + 1].dead
    requires Covered(states[k].rib.table, f) && ExactOn(states[k].rib.table, states[k + 1].base, f)
    requires SoundOn(states[k].rib.table, u, f)
    ensures ExactOn(states[k + 1].rib.table, states[k + 1].fib, f) <==>
            forall v: FibUpdate | v.faceId == f && v.action == RemoveNextHop :: states[k + 1].sends[v] <= 1
  {
    var s, e, r := states[k], events[k], states[k + 1];
    assert Lawful(s, e) && r == Next(OfRib(), s, e);
    RunInvariant(states, events, k);
    RunInvariant(states, events, k + 1);
    CompletingStep(s, e, u);
    DecidedBySends(s.rib, u, r, f);
  }

  lemma DecidedBySends(rib: Rib, u: RibUpdate, r: State<Rib>, f: nat)
    requires Good(rib) && Admissible(rib.table, u) && SoundOn(rib.table, u, f)
    requires Covered(rib.table, f) && ExactOn(rib.table, r.base, f)
    requires r.ops == UpdateOps(rib, u) && r.rib == Commit(rib, u) && AllSettled(r) && f !in r.dead
    requires forall v | r.sends[v] > 0 :: Decides(r.ops, v)
    ensures ExactOn(r.rib.table, r.fib, f) <==>
            forall v: FibUpdate | v.faceId == f && v.action == RemoveNextHop :: r.sends[v] <= 1
  {
    forall d ensures ButAt(rib.table, r.base, iset{}, f, d) {}
    CompletionBut(rib, u, r, iset{}, f);
    ExactButIff(r.rib.table, r.fib, LeftAfter(r, iset{}, f), f);
    LeftIffRetried(r, f);
  }

  lemma LeftIffRetried(r: State<Rib>, f: nat)
    requires forall v | r.sends[v] > 0 :: Decides(r.ops, v)
    ensures LeftAfter(r, iset{}, f) == iset{} <==>
            forall v: FibUpdate | v.faceId == f && v.action == RemoveNextHop :: r.sends[v] <= 1
  {
    forall v: FibUpdate | v.faceId == f && v.action == RemoveNextHop && r.sends[v] > 1
      ensures v.name in LeftAfter(r, iset{}, f)
    {
      assert Decides(r.ops, v);
      assert LeftAt(r, iset{}, f, v.name);
    }
    if d :| d in LeftAfter(r, iset{}, f) {
      assert LeftAt(r, iset{}, f, d);
      var v := Last(UpdatesOf(r.ops), d, f).value;
      assert v.faceId == f && v.action == RemoveNextHop && r.sends[v] > 1;
    }
  }

  lemma CompletingStep(s: State<Rib>, e: Event, u: RibUpdate)
    requires RunInv(s) && Lawful(s, e) && Next(OfRib(), s, e).log == s.log + [Finished(u, true)]
    ensures var r := Next(OfRib(), s, e);
      && Admissible(s.rib.table, u) && r.ops == UpdateOps(s.rib, u) && r.rib == Commit(s.rib, u) && AllSettled(r)
  {
    var c, r := OfRib(), Next(OfRib(), s, e);
    assert |r.log| == |s.log| + 1 && r.log[|s.log|] == Finished(u, true);
    if InHand(s, e).Some? { OfRibIs(s.rib, InHand(s, e).value); }
    match e
    case Enqueue(_) =>
    case Start =>
      StartShape(c, s);
      StartData(c, s);
    case Ack(i) => SettleStep(c, s, i, true);
    case Timeout(_, _) =>
    case Gone(i) => if s.outstanding[i].update.faceId != s.batchFace { SettleStep(c, s, i, false); }
    case Destroy(_) =>
  }

  // ----- plain runs -----

  /** New names, and routes without capture that are the only one of their name. */
  ghost predicate PlainUpdate(t: Table, u: RibUpdate) {
    && (u.Register? ==> u.name !in t)
    && (!u.Register? && u.name in t ==> |t[u.name].routes| == 1 && !t[u.name].routes[0].IsCapture())
  }

  ghost predicate IsPlainRun(states: seq<State<Rib>>, events: seq<Event>) {
    && |states| == |events| + 1
    && states[0] == Init(Empty)
    && forall i | 0 <= i < |events| :: PlainTo(states[i], events[i], states[i + 1])
  }

  ghost predicate PlainTo(s: State<Rib>, e: Event, r: State<Rib>) {
    Orderly(s, e) && r == Next(OfRib(), s, e) && (e.Start? ==> PlainUpdate(s.rib.table, s.queue[0]))
  }

  /** Without leftover records a plain update is sound on every face, and leaves no leftover record. */
  lemma PlainIsSound(t: Table, u: RibUpdate, f: nat)
    requires PlainUpdate(t, u) && Tidy(t, f)
    ensures Admissible(t, u) && SoundOn(t, u, f) && NoLeftover(t, u, f)
  {
    if LeftoverBelow(t, u.name, f) { LeftoverIsUntidy(t, u.name, f); }
  }

  ghost predicate AllTidy(t: Table) { forall f :: Tidy(t, f) }

  lemma PlainStep(s: State<Rib>, e: Event)
    requires RunInv(s) && Lawful(s, e) && AllTidy(s.rib.table)
    requires e.Start? ==> PlainUpdate(s.rib.table, s.queue[0])
    requires s.current.Some? ==> PlainUpdate(s.rib.table, s.current.value)
    ensures var r := Next(OfRib(), s, e);
      AllTidy(r.rib.table) && (r.current.Some? ==> PlainUpdate(r.rib.table, r.current.value))
  {
    var r := Next(OfRib(), s, e);
    StepRib(s, e);
    StepKeepsRun(s, e);
    if r.rib != s.rib {
      forall f ensures Tidy(r.rib.table, f) {
        assert Tidy(s.rib.table, f);
        PlainIsSound(s.rib.table, InHand(s, e).value, f);
        TidyIff(s.rib, InHand(s, e).value, f);
      }
    }
  }

  ghost predicate PlainInv(s: State<Rib>) {
    && RunInv(s) && AllTidy(s.rib.table)
    && (s.current.Some? ==> PlainUpdate(s.rib.table, s.current.value))
  }

  lemma PlainKeeps(s: State<Rib>, e: Event, r: State<Rib>)
    requires PlainInv(s) && PlainTo(s, e, r)
    ensures PlainInv(r)
  {
    if e.Start? { PlainIsSound(s.rib.table, s.queue[0], 0); }
    PlainStep(s, e);
    StepKeepsRun(s, e);
  }

  lemma PlainStart()
    ensures PlainInv(Init(Empty))
  {
    InitIsExact();
    forall f, d ensures TidyAt(Empty.table, d, f) {}
  }

  lemma PlainInvariant(states: seq<State<Rib>>, events: seq<Event>, k: nat)
    requires IsPlainRun(states, events) && k < |states|
    ensures PlainInv(states[k])
  {
    PlainStart();
    forall s, e, r | PlainInv(s) && PlainTo(s, e, r) ensures PlainInv(r) { PlainKeeps(s, e, r); }
    Induct(s => PlainInv(s), (s, e, r) => PlainTo(s, e, r), states, events, k);
  }

  /** What holds at the start and is kept by every step holds all along a run. */
  lemma {:induction false} Induct<S(!new), E(!new)>(inv: S -> bool, step: (S, E, S) -> bool, states: seq<S>, events: seq<E>,
                                                    k: nat)
    requires |states| == |events| + 1 && k < |states| && inv(states[0])
    requires forall i | 0 <= i < k :: step(states[i], events[i], states[i + 1])
    requires forall s, e, r :: inv(s) && step(s, e, r) ==> inv(r)
    ensures inv(states[k])
  {
    if k > 0 { Induct(inv, step, states, events, k - 1); }
  }

  /** Runs of plain updates, in which one name never has two routes and no capturing route is unregistered, need no
      further condition: on every live face the table is exact but for what retried removals left over. */
  lemma PlainRunsStayExact(states: seq<State<Rib>>, events: seq<Event>, k: nat, n: Name, f: nat)
    requires IsPlainRun(states, events) && k < |states|
    requires states[k].current.None? && f !in states[k].dead
    ensures Get(states[k].fib, n, f) == if n in LeftOver(states, k, f) then Some(0) else NextHop(states[k].rib.table, n, f)
    ensures n in LeftOver(states, k, f) ==> NextHop(states[k].rib.table, n, f) == None
    ensures states[k].rib == Replay(OfRib(), Empty, Applied(states[k].log))
  {
    forall i | 0 <= i < |events| ensures Lawful(states[i], events[i]) && SoundStep(states[i], events[i], f) {
      PlainInvariant(states, events, i);
      PlainIsLawful(states[i], events[i], states[i + 1], f);
    }
    RunsStayExact(states, events, k, n, f);
  }

  lemma PlainIsLawful(s: State<Rib>, e: Event, r: State<Rib>, f: nat)
    requires PlainInv(s) && PlainTo(s, e, r)
    ensures Lawful(s, e) && SoundStep(s, e, f)
  {
    assert Tidy(s.rib.table, f);
    if e.Start? { PlainIsSound(s.rib.table, s.queue[0], f); }
  }
}
