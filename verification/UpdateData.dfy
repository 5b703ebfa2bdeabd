/**
 What the commands of a batch do to the forwarding table while they are acknowledged, retried and skipped: at
 every moment each live pair that is not pending already has its final next hop.
 */
module UpdateData {
  import opened Wrappers
  import opened Names
  import opened FibOps
  import opened FibCompute
  import opened FibApply
  import opened FibUpdates
  import opened UpdateProtocol

  predicate Pending<R>(s: State<R>, n: Name, f: nat) {
    Last(s.forBatch, n, f).Some? || Last(s.forOther, n, f).Some?
  }

  predicate Listed<R>(s: State<R>, u: FibUpdate) { u in s.forBatch || u in s.forOther }

  /** The update is the one that counts for its pair. */
  predicate Decides(ops: seq<Op>, u: FibUpdate) { Last(UpdatesOf(ops), u.name, u.faceId) == Some(u) }

  /** A removal that was sent more than once: every time but the first it was sent as an addition. */
  predicate Retried<R>(s: State<R>, u: FibUpdate) { u.action == RemoveNextHop && s.sends[u] > 1 }

  /** The next hop of a pair when its command is settled: what the emissions give it, unless its removal was
      retried. */
  function FinalHop<R>(s: State<R>, n: Name, f: nat): (c: Option<nat>) {
    var u := Last(UpdatesOf(s.ops), n, f);
    if u.Some? && Retried(s, u.value) then Some(u.value.cost) else Outcome(Get(s.base, n, f), u)
  }

  predicate SettledAt<R>(s: State<R>, n: Name, f: nat) {
    f in s.dead || Pending(s, n, f) || Get(s.fib, n, f) == FinalHop(s, n, f)
  }

  /** While the batch face is not done, the other live faces are as they were when the batch started. */
  predicate UntouchedAt<R>(s: State<R>, n: Name, f: nat) {
    s.forBatch != [] && f != s.batchFace && f !in s.dead ==> Get(s.fib, n, f) == Get(s.base, n, f)
  }

  predicate SentRight<R>(s: State<R>, m: Sent) {
    m.asAdd == (m.update.action == AddNextHop || m.nTimeouts > 0) && Listed(s, m.update)
  }

  ghost predicate DataInv<R>(s: State<R>) {
    && (forall u | Listed(s, u) :: Decides(s.ops, u))
    && (forall u | s.sends[u] > 0 :: Decides(s.ops, u))
    && (forall m | m in s.outstanding :: SentRight(s, m))
    && (forall n, f :: SettledAt(s, n, f))
    && (forall n, f :: UntouchedAt(s, n, f))
    && (forall u | u in s.queue && u.RemoveFace? :: u.route.faceId in s.dead)
  }

  /** Every live pair has its final next hop. */
  ghost predicate AllSettled<R>(s: State<R>) {
    forall n, f | f !in s.dead :: Get(s.fib, n, f) == FinalHop(s, n, f)
  }

  lemma OpsOutcome(base: Fib, ops: seq<Op>, n: Name, f: nat)
    ensures Get(ApplyOps(base, ops), n, f) == Outcome(Get(base, n, f), Last(UpdatesOf(ops), n, f))
  {
    ApplyAllIsApplyOps(base, ops);
    GetAfterAll(base, UpdatesOf(ops), n, f);
  }

  lemma ExecuteElsewhere(fib: Fib, dead: set<nat>, m: Sent, n: Name, f: nat)
    requires !m.update.On(n, f)
    ensures Get(Execute(fib, dead, m), n, f) == Get(fib, n, f)
  {
  }

  // ----- settling -----

  /** The lists and commands after a command is settled, before anything else is sent. */
  ghost predicate Settles<R>(s: State<R>, i: nat, acked: bool, t: State<R>)
    requires i < |s.outstanding|
  {
    var m := s.outstanding[i];
    && t == s.(fib := if acked then Execute(s.fib, s.dead, m) else s.fib, outstanding := t.outstanding,
               forBatch := t.forBatch, forOther := t.forOther)
    && (forall x :: x in t.forBatch ==> x in s.forBatch && x != m.update)
    && (forall x :: x in t.forOther ==> x in s.forOther && x != m.update)
    && (forall x :: Listed(s, x) && x != m.update ==> Listed(t, x))
    && (forall x :: x in t.outstanding ==> x in s.outstanding && x.update != m.update)
  }

  /** Settling one command: its pair gets its final next hop, the others keep what they have. */
  lemma SettleData<R>(s: State<R>, i: nat, acked: bool, t: State<R>)
    requires DataInv(s) && SendsBounded(s) && i < |s.outstanding| && Settles(s, i, acked, t)
    requires acked || s.outstanding[i].update.faceId in s.dead
    requires s.forBatch != [] ==> s.outstanding[i].update.faceId == s.batchFace
    ensures DataInv(t)
  {
    var m := s.outstanding[i];
    assert m in s.outstanding && SentRight(s, m) && Decides(s.ops, m.update);
    if t.forBatch != [] { assert t.forBatch[0] in t.forBatch; }
    forall x | x in t.outstanding ensures SentRight(t, x) { assert SentRight(s, x); }
    forall n, f ensures SettledAt(t, n, f) && UntouchedAt(t, n, f) {
      assert SettledAt(s, n, f) && UntouchedAt(s, n, f);
      if !m.update.On(n, f) {
        ExecuteElsewhere(s.fib, s.dead, m, n, f);
        if Pending(s, n, f) { StillPending(s, m.update, t, n, f); }
      }
    }
  }

  lemma StillPending<R>(s: State<R>, u: FibUpdate, t: State<R>, n: Name, f: nat)
    requires Pending(s, n, f) && !u.On(n, f) && forall x :: Listed(s, x) && x != u ==> Listed(t, x)
    ensures Pending(t, n, f)
  {
    var x := if Last(s.forBatch, n, f).Some? then Last(s.forBatch, n, f).value else Last(s.forOther, n, f).value;
    assert Listed(s, x) && x.On(n, f);
    assert Listed(t, x);
  }

  lemma NothingListed<R>(s: State<R>)
    requires DataInv(s) && s.forBatch == [] && s.forOther == []
    ensures AllSettled(s)
  {
    forall n, f | f !in s.dead ensures Get(s.fib, n, f) == FinalHop(s, n, f) { assert SettledAt(s, n, f); }
  }

  // ----- sending -----

  /** Sending a list once more leaves the settled pairs alone. */
  lemma SendData<R>(s: State<R>, us: seq<FibUpdate>, batch: RibUpdate, t: State<R>)
    requires DataInv(s) && s.outstanding == [] && OnePerPair(us) && forall u | u in us :: Listed(s, u) && s.sends[u] == 0
    requires t == s.(outstanding := SendAll(us, batch), sends := s.sends + multiset(us))
    ensures DataInv(t)
  {
    forall u ensures t.sends[u] == s.sends[u] + if u in us then 1 else 0 { CountInList(us, u); }
    forall m | m in t.outstanding ensures SentRight(t, m) {
      var i :| 0 <= i < |us| && SendAll(us, batch)[i] == m;
      assert us[i] in us;
    }
    forall u | t.sends[u] > 0 ensures Decides(t.ops, u) { assert Listed(s, u) || s.sends[u] > 0; }
    forall n, f ensures SettledAt(t, n, f) && UntouchedAt(t, n, f) {
      assert SettledAt(s, n, f) && UntouchedAt(s, n, f);
    }
  }

  /** Completing changes nothing about the forwarding table. */
  lemma SameData<R>(s: State<R>, t: State<R>)
    requires DataInv(s) && t == s.(rib := t.rib, current := t.current, log := t.log, enqueued := t.enqueued, queue := t.queue)
    requires forall u | u in t.queue && u.RemoveFace? :: u.route.faceId in s.dead
    ensures DataInv(t)
  {
    forall m | m in t.outstanding ensures SentRight(t, m) { assert SentRight(s, m); }
    forall n, f ensures SettledAt(t, n, f) && UntouchedAt(t, n, f) {
      assert SettledAt(s, n, f) && UntouchedAt(s, n, f);
    }
  }

  lemma SendOtherData<R>(c: Computations<R>, s: State<R>, batch: RibUpdate)
    requires DataInv(s) && s.outstanding == [] && s.forBatch == [] && OtherUnsent(s)
    ensures var t := SendOther(c, s, batch); DataInv(t) && (s.forOther == [] ==> AllSettled(t))
  {
    var t := SendOther(c, s, batch);
    if s.forOther == [] {
      SameData(s, t);
      NothingListed(t);
    } else {
      assert t.outstanding == SendAll(s.forOther, batch);
      SendData(s, s.forOther, batch, t);
    }
  }

  lemma SendBatchData<R>(c: Computations<R>, s: State<R>, batch: RibUpdate)
    requires DataInv(s) && s.outstanding == [] && OtherUnsent(s) && OnePerPair(s.forBatch) && s.sends == multiset{}
    ensures var t := SendBatch(c, s, batch); DataInv(t) && (s.forBatch == s.forOther == [] ==> AllSettled(t))
  {
    var t := SendBatch(c, s, batch);
    if s.forBatch == [] {
      SendOtherData(c, s, batch);
    } else {
      assert t.outstanding == SendAll(s.forBatch, batch);
      SendData(s, s.forBatch, batch, t);
    }
  }

  /** When a batch starts, everything its emissions do not touch is final already. */
  lemma ComputedData<R>(c: Computations<R>, s: State<R>, u: RibUpdate)
    requires s.outstanding == [] && (u.RemoveFace? ==> u.route.faceId in s.dead)
    requires forall x | x in s.queue && x.RemoveFace? :: x.route.faceId in s.dead
    ensures DataInv(Computed(c, s, u))
  {
    var t := Computed(c, s, u);
    var updates, f := UpdatesOf(t.ops), u.route.faceId;
    forall x | Listed(t, x) ensures Decides(t.ops, x) { ListFaces(f, updates, x in t.forBatch, x); }
    forall n, g ensures SettledAt(t, n, g) && UntouchedAt(t, n, g) {
      ListOfKeepsLast(f, updates, true, n, g);
      ListOfKeepsLast(f, updates, false, n, g);
    }
  }

  lemma StartData<R>(c: Computations<R>, s: State<R>)
    requires DataInv(s) && Idle(s) && s.queue != []
    ensures var t := Computed(c, s.(queue := s.queue[1..]), s.queue[0]);
      DataInv(StartBatch(c, s)) && (t.forBatch == t.forOther == [] ==> AllSettled(StartBatch(c, s)))
  {
    var u := s.queue[0];
    assert s.queue == [u] + s.queue[1..];
    ComputedData(c, s.(queue := s.queue[1..]), u);
    ComputedLists(c.compute(s.rib, u), u.route.faceId);
    SendBatchData(c, Computed(c, s.(queue := s.queue[1..]), u), u);
  }

  // ----- the steps -----

  /** What a completed batch leaves: the commit of its update, and final next hops everywhere. */
  ghost predicate CompletedRight<R>(c: Computations<R>, s: State<R>, u: RibUpdate, r: State<R>) {
    && r.current.None? && r.log == s.log + [Finished(u, true)]
    && r.rib == c.commit(s.rib, u, r.ops) && r.ops == c.compute(s.rib, u) && AllSettled(r)
  }

  /** The batch goes on. */
  ghost predicate Continues<R>(s: State<R>, r: State<R>) {
    r.current == s.current && r.log == s.log && r.rib == s.rib && r.base == s.base && r.ops == s.ops
  }

  /** One acknowledgement or ignored 410 brings the forwarding table one pair closer; the last one makes every live
      pair final and completes the batch. */
  lemma SettleStep<R>(c: Computations<R>, s: State<R>, i: nat, acked: bool)
    requires Busy(s) && DataInv(s) && i < |s.outstanding| && s.ops == c.compute(s.rib, s.current.value)
    requires acked || (s.outstanding[i].update.faceId in s.dead && s.outstanding[i].update.faceId != s.batchFace)
    ensures var m := s.outstanding[i];
      var t := s.(fib := if acked then Execute(s.fib, s.dead, m) else s.fib, outstanding := Without(s.outstanding, i));
      var r := Settle(c, t, m.update, m.batch);
      && DataInv(r) && r.base == s.base
      && if r.current.Some? then Continues(s, r) else CompletedRight(c, s, s.current.value, r)
  {
    var m := s.outstanding[i];
    var t := s.(fib := if acked then Execute(s.fib, s.dead, m) else s.fib, outstanding := Without(s.outstanding, i));
    assert m in s.outstanding && Carries(s.outstanding, m.update);
    var list := if s.forBatch != [] then s.forBatch else s.forOther;
    assert m.update in list;
    MatchesAfterSettle(s.outstanding, list, i);
    forall x | x in t.outstanding ensures x in s.outstanding && x.update != m.update {
      assert Carries(t.outstanding, x.update);
    }
    if s.forBatch != [] {
      SettleBatchData(c, s, i, acked, t.(forBatch := Remove(s.forBatch, m.update)));
    } else {
      SettleOtherData(c, s, i, acked, t.(forOther := Remove(s.forOther, m.update)));
    }
  }

  lemma SettleBatchData<R>(c: Computations<R>, s: State<R>, i: nat, acked: bool, t: State<R>)
    requires Busy(s) && DataInv(s) && i < |s.outstanding| && acked && s.forBatch != []
    requires s.outstanding[i].update in s.forBatch && s.ops == c.compute(s.rib, s.current.value)
    requires t == s.(fib := Execute(s.fib, s.dead, s.outstanding[i]), outstanding := t.outstanding,
                     forBatch := Remove(s.forBatch, s.outstanding[i].update))
    requires forall x | x in t.outstanding :: x in s.outstanding && x.update != s.outstanding[i].update
    requires t.forBatch == [] ==> t.outstanding == []
    ensures var u := s.current.value;
      var r := if t.forBatch == [] then SendOther(c, t, u) else t;
      DataInv(r) && r.base == s.base && if r.current.Some? then Continues(s, r) else CompletedRight(c, s, u, r)
  {
    OtherListKept(s, s.outstanding[i].update);
    BatchSettles(s, i, t);
    SettleData(s, i, acked, t);
    BatchDone(c, s, s.current.value, t);
  }

  lemma BatchSettles<R>(s: State<R>, i: nat, t: State<R>)
    requires i < |s.outstanding| && s.outstanding[i].update !in s.forOther
    requires t == s.(fib := Execute(s.fib, s.dead, s.outstanding[i]), outstanding := t.outstanding,
                     forBatch := Remove(s.forBatch, s.outstanding[i].update))
    requires forall x | x in t.outstanding :: x in s.outstanding && x.update != s.outstanding[i].update
    ensures Settles(s, i, true, t) && Continues(s, t)
    ensures t.forOther == s.forOther && t.sends == s.sends && t.batchFace == s.batchFace
  {
  }

  /** The last command on the batch face lets the others go, or completes the batch. */
  lemma BatchDone<R>(c: Computations<R>, s: State<R>, u: RibUpdate, t: State<R>)
    requires DataInv(t) && Continues(s, t) && s.current == Some(u) && s.ops == c.compute(s.rib, u)
    requires t.forBatch == [] ==> t.outstanding == [] && OtherUnsent(t)
    ensures var r := if t.forBatch == [] then SendOther(c, t, u) else t;
      DataInv(r) && r.base == s.base && if r.current.Some? then Continues(s, r) else CompletedRight(c, s, u, r)
  {
    if t.forBatch == [] {
      if t.forOther == [] { CompleteData(c, t, u); } else { SendOtherData(c, t, u); }
    }
  }

  /** An update on the batch face is not in the other list. */
  lemma OtherListKept<R>(s: State<R>, u: FibUpdate)
    requires Busy(s) && u in s.forBatch
    ensures u !in s.forOther
  {
  }

  lemma SettleOtherData<R>(c: Computations<R>, s: State<R>, i: nat, acked: bool, t: State<R>)
    requires Busy(s) && DataInv(s) && i < |s.outstanding| && s.forBatch == []
    requires acked || s.outstanding[i].update.faceId in s.dead
    requires s.outstanding[i].update in s.forOther && s.ops == c.compute(s.rib, s.current.value)
    requires t == s.(fib := if acked then Execute(s.fib, s.dead, s.outstanding[i]) else s.fib, outstanding := t.outstanding,
                     forOther := Remove(s.forOther, s.outstanding[i].update))
    requires forall x | x in t.outstanding :: x in s.outstanding && x.update != s.outstanding[i].update
    ensures var u := s.current.value;
      var r := if t.forOther == [] then Complete(c, t, u) else t;
      DataInv(r) && r.base == s.base && if r.current.Some? then Continues(s, r) else CompletedRight(c, s, u, r)
  {
    OtherSettles(s, i, acked, t);
    SettleData(s, i, acked, t);
    OtherDone(c, s, s.current.value, t);
  }

  lemma OtherSettles<R>(s: State<R>, i: nat, acked: bool, t: State<R>)
    requires i < |s.outstanding| && s.forBatch == []
    requires t == s.(fib := if acked then Execute(s.fib, s.dead, s.outstanding[i]) else s.fib, outstanding := t.outstanding,
                     forOther := Remove(s.forOther, s.outstanding[i].update))
    requires forall x | x in t.outstanding :: x in s.outstanding && x.update != s.outstanding[i].update
    ensures Settles(s, i, acked, t) && Continues(s, t) && t.forBatch == []
  {
  }

  /** The last command on another face completes the batch. */
  lemma OtherDone<R>(c: Computations<R>, s: State<R>, u: RibUpdate, t: State<R>)
    requires DataInv(t) && Continues(s, t) && t.forBatch == [] && s.current == Some(u) && s.ops == c.compute(s.rib, u)
    ensures var r := if t.forOther == [] then Complete(c, t, u) else t;
      DataInv(r) && r.base == s.base && if r.current.Some? then Continues(s, r) else CompletedRight(c, s, u, r)
  {
    if t.forOther == [] { CompleteData(c, t, u); }
  }

  /** A batch with nothing listed is complete. */
  lemma CompleteData<R>(c: Computations<R>, t: State<R>, u: RibUpdate)
    requires DataInv(t) && t.forBatch == [] && t.forOther == [] && t.ops == c.compute(t.rib, u)
    ensures DataInv(Complete(c, t, u)) && CompletedRight(c, t, u, Complete(c, t, u)) && Complete(c, t, u).base == t.base
  {
    var r := Complete(c, t, u);
    CompleteFields(c, t, u);
    SameData(t, r);
    NothingListed(r);
  }

  lemma CompleteFields<R>(c: Computations<R>, t: State<R>, u: RibUpdate)
    ensures var r := Complete(c, t, u);
      && r.current.None? && r.log == t.log + [Finished(u, true)] && r.rib == c.commit(t.rib, u, t.ops)
      && r.ops == t.ops && r.base == t.base && r.forBatch == t.forBatch && r.forOther == t.forOther && r.queue == t.queue
      && r == t.(rib := r.rib, current := r.current, log := r.log, enqueued := r.enqueued, queue := r.queue)
  {
  }

  /** A retry leaves the settled pairs alone: its own pair is pending. */
  lemma RetryData<R>(s: State<R>, i: nat, tookEffect: bool, t: State<R>)
    requires DataInv(s) && Busy(s) && i < |s.outstanding|
    requires t == s.(fib := if tookEffect then Execute(s.fib, s.dead, s.outstanding[i]) else s.fib,
                     outstanding := s.outstanding[i := Retry(s.outstanding[i])],
                     sends := s.sends + multiset{s.outstanding[i].update})
    ensures DataInv(t)
  {
    var u := s.outstanding[i].update;
    assert s.outstanding[i] in s.outstanding && SentRight(s, s.outstanding[i]);
    RetrySentRight(s, i, t);
    forall x | t.sends[x] > 0 ensures Decides(t.ops, x) { assert x == u || s.sends[x] > 0; }
    forall n, f ensures SettledAt(t, n, f) && UntouchedAt(t, n, f) { RetryAt(s, i, tookEffect, t, n, f); }
  }

  lemma RetrySentRight<R>(s: State<R>, i: nat, t: State<R>)
    requires DataInv(s) && i < |s.outstanding| && t.ops == s.ops
    requires t.outstanding == s.outstanding[i := Retry(s.outstanding[i])]
    requires t.sends == s.sends + multiset{s.outstanding[i].update}
    requires t.forBatch == s.forBatch && t.forOther == s.forOther && t.batchFace == s.batchFace && Busy(s)
    ensures forall x | x in t.outstanding :: SentRight(t, x)
  {
    forall x | x in t.outstanding ensures SentRight(t, x) {
      var j :| 0 <= j < |t.outstanding| && t.outstanding[j] == x;
      assert s.outstanding[j] in s.outstanding && SentRight(s, s.outstanding[j]);
    }
  }

  lemma RetryAt<R>(s: State<R>, i: nat, tookEffect: bool, t: State<R>, n: Name, f: nat)
    requires DataInv(s) && Busy(s) && i < |s.outstanding|
    requires t == s.(fib := if tookEffect then Execute(s.fib, s.dead, s.outstanding[i]) else s.fib,
                     outstanding := s.outstanding[i := Retry(s.outstanding[i])],
                     sends := s.sends + multiset{s.outstanding[i].update})
    ensures SettledAt(t, n, f) && UntouchedAt(t, n, f)
  {
    var m := s.outstanding[i];
    assert m in s.outstanding && Carries(s.outstanding, m.update);
    assert SettledAt(s, n, f) && UntouchedAt(s, n, f);
    if m.update.On(n, f) {
      assert Pending(t, n, f);
    } else {
      ExecuteElsewhere(s.fib, s.dead, m, n, f);
    }
  }

  lemma DropData<R>(s: State<R>, f: nat)
    requires DataInv(s)
    ensures DataInv(s.(dead := s.dead + {f}, fib := DropFace(s.fib, f)))
  {
    var t := s.(dead := s.dead + {f}, fib := DropFace(s.fib, f));
    forall m | m in t.outstanding ensures SentRight(t, m) { assert SentRight(s, m); }
    forall n, g ensures SettledAt(t, n, g) && UntouchedAt(t, n, g) {
      assert SettledAt(s, n, g) && UntouchedAt(s, n, g);
    }
  }

  /** The batch face of the last command is gone: what is not on it is as it was. */
  lemma FailData<R>(s: State<R>, t: State<R>)
    requires DataInv(s) && t == s.(outstanding := [], current := None, log := t.log)
    ensures DataInv(t)
  {
    forall n, f ensures SettledAt(t, n, f) && UntouchedAt(t, n, f) {
      assert SettledAt(s, n, f) && UntouchedAt(s, n, f);
    }
  }

  /** Every orderly step, also one in which a removal times out, keeps the settled pairs final. */
  lemma StepKeepsData<R>(c: Computations<R>, start: R, s: State<R>, e: Event)
    requires ProtocolInv(c, start, s) && DataInv(s) && Orderly(s, e)
    ensures DataInv(Next(c, s, e))
  {
    var r := Next(c, s, e);
    match e
    case Enqueue(u) => SameData(s, r);
    case Start => StartData(c, s);
    case Ack(i) => SettleStep(c, s, i, true);
    case Timeout(i, tookEffect) => RetryData(s, i, tookEffect, r);
    case Gone(i) => GoneData(c, start, s, i);
    case Destroy(f) => DropData(s, f);
  }

  lemma GoneData<R>(c: Computations<R>, start: R, s: State<R>, i: nat)
    requires ProtocolInv(c, start, s) && DataInv(s) && Orderly(s, Gone(i))
    ensures DataInv(Next(c, s, Gone(i)))
  {
    if s.outstanding[i].update.faceId == s.batchFace {
      assert Without(s.outstanding, i) == [];
      FailData(s, Next(c, s, Gone(i)));
    } else {
      SettleStep(c, s, i, false);
    }
  }
}
