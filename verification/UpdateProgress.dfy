/**
 Progress: a batch in flight can always be answered, every answer brings it closer to its end, and after a bounded
 number of answers, timeouts included, it is finished.
 */
module UpdateProgress {
  import opened Wrappers
  import opened FibCompute
  import opened FibUpdates
  import opened UpdateProtocol

  // ----- what is still to come -----

  /** The commands that are still to be answered: those on their way and, before the batch face is done, the others. */
  function ToGo<R>(s: State<R>): (n: nat) { |s.outstanding| + if s.forBatch != [] then |s.forOther| else 0 }

  /** How often a command may still be answered or time out. */
  function Tries(m: Sent): (n: nat) { if m.nTimeouts <= MAX_NUM_TIMEOUTS then MAX_NUM_TIMEOUTS + 1 - m.nTimeouts else 0 }

  function TriesOf(ms: seq<Sent>): (n: nat) {
    if ms == [] then 0 else TriesOf(ms[..|ms| - 1]) + Tries(ms[|ms| - 1])
  }

  /** The answers and timeouts that may still come before the batch is finished. */
  function Budget<R>(s: State<R>): (n: nat) {
    TriesOf(s.outstanding) + if s.forBatch != [] then (MAX_NUM_TIMEOUTS + 1) * |s.forOther| else 0
  }

  /** The network answers or loses a command. */
  predicate IsAnswer(e: Event) { e.Ack? || e.Timeout? || e.Gone? }

  lemma {:induction false} TriesConcat(a: seq<Sent>, b: seq<Sent>)
    ensures TriesOf(a + b) == TriesOf(a) + TriesOf(b)
  {
    if b == [] {
      assert a + b == a;
    } else {
      TriesConcat(a, b[..|b| - 1]);
      assert (a + b)[..|a + b| - 1] == a + b[..|b| - 1];
    }
  }

  lemma TriesAt(ms: seq<Sent>, i: nat, m: Sent)
    requires i < |ms|
    ensures TriesOf(Without(ms, i)) == TriesOf(ms) - Tries(ms[i])
    ensures TriesOf(ms[i := m]) == TriesOf(ms) - Tries(ms[i]) + Tries(m)
  {
    TriesParts(ms[..i], ms[i], ms[i + 1..]);
    TriesParts(ms[..i], m, ms[i + 1..]);
    assert ms == ms[..i] + [ms[i]] + ms[i + 1..] && ms[i := m] == ms[..i] + [m] + ms[i + 1..];
  }

  lemma TriesParts(a: seq<Sent>, m: Sent, b: seq<Sent>)
    ensures TriesOf(a + [m] + b) == TriesOf(a) + Tries(m) + TriesOf(b) && TriesOf(a + b) == TriesOf(a) + TriesOf(b)
  {
    TriesConcat(a + [m], b);
    TriesConcat(a, [m]);
    TriesConcat(a, b);
    assert [m][..0] == [];
  }

  /** New commands have all their tries. */
  lemma {:induction false} TriesOfNew(ms: seq<Sent>)
    requires forall m | m in ms :: m.nTimeouts == 0
    ensures TriesOf(ms) == (MAX_NUM_TIMEOUTS + 1) * |ms|
  {
    if ms != [] {
      var front, last := ms[..|ms| - 1], ms[|ms| - 1];
      assert ms == front + [last];
      TriesOfNew(front);
    }
  }

  // ----- one step -----

  /** What an answer that settles a command does: the batch is finished, or one command less is to come. */
  ghost predicate Progresses<R>(s: State<R>, r: State<R>) {
    && (r.current.None? <==> ToGo(s) == 1)
    && (r.current.Some? ==> r.current == s.current && ToGo(r) == ToGo(s) - 1 && Budget(r) < Budget(s))
  }

  lemma SendsFresh(us: seq<FibUpdate>, batch: RibUpdate)
    ensures var ms := [] + SendAll(us, batch); |ms| == |us| && TriesOf(ms) == (MAX_NUM_TIMEOUTS + 1) * |us|
  {
    var ms := SendAll(us, batch);
    assert [] + ms == ms;
    TriesOfNew(ms);
  }

  /** One command less on its way. */
  lemma OneLess(ms: seq<Sent>, us: seq<FibUpdate>, i: nat)
    requires Matches(ms, us) && i < |ms| && ms[i].nTimeouts <= MAX_NUM_TIMEOUTS
    ensures ms[i].update in us
    ensures |Without(ms, i)| == |ms| - 1 && TriesOf(Without(ms, i)) < TriesOf(ms)
    ensures Remove(us, ms[i].update) == [] <==> |ms| == 1
  {
    assert ms[i] in ms && Carries(ms, ms[i].update);
    MatchesAfterSettle(ms, us, i);
    TriesAt(ms, i, ms[i]);
  }

  lemma SettleProgresses<R>(c: Computations<R>, s: State<R>, i: nat, t: State<R>)
    requires Busy(s) && i < |s.outstanding| && t == s.(fib := t.fib, outstanding := Without(s.outstanding, i))
    ensures Progresses(s, Settle(c, t, s.outstanding[i].update, s.outstanding[i].batch))
  {
    var m := s.outstanding[i];
    assert m in s.outstanding;
    if s.forBatch != [] {
      OneLess(s.outstanding, s.forBatch, i);
      BatchProgresses(c, s, m.batch, t.(forBatch := Remove(s.forBatch, m.update)));
    } else {
      OneLess(s.outstanding, s.forOther, i);
    }
  }

  lemma BatchProgresses<R>(c: Computations<R>, s: State<R>, batch: RibUpdate, t: State<R>)
    requires s.current == Some(batch) && t.current == s.current && s.forBatch != [] && t.forOther == s.forOther
    requires |t.outstanding| == |s.outstanding| - 1 && TriesOf(t.outstanding) < TriesOf(s.outstanding)
    requires t.forBatch == [] <==> |s.outstanding| == 1
    ensures Progresses(s, if t.forBatch == [] then SendOther(c, t, batch) else t)
  {
    if t.forBatch == [] {
      assert t.outstanding == [];
      SendsFresh(t.forOther, batch);
    }
  }

  /** An answer settles a command or, on the batch face, ends the batch; a timeout costs one try. Nothing else changes
      what is to come. */
  lemma StepProgresses<R>(c: Computations<R>, start: R, s: State<R>, e: Event)
    requires ProtocolInv(c, start, s) && Orderly(s, e) && s.current.Some?
    ensures var r := Next(c, s, e);
      && (e.Ack? ==> Progresses(s, r))
      && (e.Gone? ==> r.current.None? || Progresses(s, r))
      && (e.Timeout? ==> r.current == s.current && ToGo(r) == ToGo(s) && Budget(r) < Budget(s))
      && (!IsAnswer(e) ==> r.current == s.current && ToGo(r) == ToGo(s) && Budget(r) == Budget(s))
  {
    match e
    case Ack(i) =>
      SettleProgresses(c, s, i, s.(fib := Execute(s.fib, s.dead, s.outstanding[i]), outstanding := Without(s.outstanding, i)));
    case Gone(i) =>
      if s.outstanding[i].update.faceId != s.batchFace {
        SettleProgresses(c, s, i, s.(outstanding := Without(s.outstanding, i)));
      }
    case Timeout(i, _) => TriesAt(s.outstanding, i, Retry(s.outstanding[i]));
    case _ =>
  }

  /** Nobody waits for ever: a batch in flight has a command on its way that can be answered, and otherwise a queued
      update can be taken up. */
  lemma NeverStuck<R>(c: Computations<R>, start: R, s: State<R>)
    requires ProtocolInv(c, start, s)
    ensures s.current.Some? ==> Orderly(s, Ack(0)) && ToGo(s) > 0
    ensures s.current.None? && s.queue != [] ==> Orderly(s, Start)
  {
    if s.current.Some? {
      var list := if s.forBatch != [] then s.forBatch else s.forOther;
      assert list[0] in list && Carries(s.outstanding, list[0]);
    }
  }

  // ----- runs -----

  /** The events of a run between two moments that answer a command. */
  function Answers(events: seq<Event>): (n: nat) {
    if events == [] then 0 else Answers(events[..|events| - 1]) + if IsAnswer(events[|events| - 1]) then 1 else 0
  }

  /** Those among them that settle one, rather than time out. */
  function Settled(events: seq<Event>): (n: nat) {
    if events == [] then 0
    else Settled(events[..|events| - 1]) + if events[|events| - 1].Ack? || events[|events| - 1].Gone? then 1 else 0
  }

  lemma EventsSnoc(events: seq<Event>, i: nat, k: nat)
    requires i < k <= |events|
    ensures Answers(events[i..k]) == Answers(events[i..k - 1]) + if IsAnswer(events[k - 1]) then 1 else 0
    ensures Settled(events[i..k]) == Settled(events[i..k - 1]) + if events[k - 1].Ack? || events[k - 1].Gone? then 1 else 0
  {
    assert events[i..k][..k - 1 - i] == events[i..k - 1];
  }

  /** A step of a batch: it goes on with one command or one try less, or this was its last answer. */
  ghost predicate Counts<R>(s: State<R>, e: Event, r: State<R>) {
    if r.current.Some? then
      && r.current == s.current && ToGo(r) > 0
      && ToGo(r) + (if e.Ack? || e.Gone? then 1 else 0) == ToGo(s)
      && Budget(r) + (if IsAnswer(e) then 1 else 0) <= Budget(s)
    else
      (e.Ack? || e.Gone?) && ToGo(s) > 0 && Budget(s) > 0 && (e.Ack? ==> ToGo(s) == 1)
  }

  lemma StepCounts<R>(c: Computations<R>, start: R, s: State<R>, e: Event, r: State<R>)
    requires ProtocolInv(c, start, s) && Orderly(s, e) && r == Next(c, s, e) && s.current.Some? && ProtocolInv(c, start, r)
    ensures Counts(s, e, r)
  {
    StepProgresses(c, start, s, e);
    NeverStuck(c, start, s);
    NeverStuck(c, start, r);
    LastTry(c, start, s);
  }

  /** In an orderly run every step of a batch in flight is one. */
  lemma RunCounts<R(!new)>(c: Computations<R>, start: R, states: seq<State<R>>, events: seq<Event>, j: nat)
    requires IsOrderlyRun(c, start, states, events) && j < |events| && states[j].current.Some?
    ensures Counts(states[j], events[j], states[j + 1])
  {
    var s, e, r := states[j], events[j], states[j + 1];
    RunKeepsProtocol(c, start, states, events, j);
    RunKeepsProtocol(c, start, states, events, j + 1);
    assert Orderly(s, e) && r == Next(c, s, e);
    StepCounts(c, start, s, e, r);
  }

  ghost predicate CountsAll<R>(states: seq<State<R>>, events: seq<Event>, i: nat, k: nat)
    requires |states| == |events| + 1 && i <= k < |states|
  {
    forall j | i <= j < k :: states[j].current.Some? && Counts(states[j], events[j], states[j + 1])
  }

  lemma {:induction false} CountsAdd<R>(states: seq<State<R>>, events: seq<Event>, i: nat, k: nat)
    requires |states| == |events| + 1 && i <= k < |states| && CountsAll(states, events, i, k) && states[k].current.Some?
    ensures states[k].current == states[i].current && (i < k ==> ToGo(states[k]) > 0)
    ensures ToGo(states[k]) + Settled(events[i..k]) == ToGo(states[i])
    ensures Budget(states[k]) + Answers(events[i..k]) <= Budget(states[i])
  {
    if i < k {
      assert Counts(states[k - 1], events[k - 1], states[k]);
      CountsAdd(states, events, i, k - 1);
      EventsSnoc(events, i, k);
    }
  }

  /** Over every orderly run, as long as a batch is in flight: the commands to go go down by one with every
      acknowledgement or ignored 410, and the budget with every answer or timeout. */
  lemma BatchProceeds<R(!new)>(c: Computations<R>, start: R, states: seq<State<R>>, events: seq<Event>, i: nat, k: nat)
    requires IsOrderlyRun(c, start, states, events) && i <= k < |states|
    requires forall j | i <= j <= k :: states[j].current.Some?
    ensures states[k].current == states[i].current
    ensures ToGo(states[k]) + Settled(events[i..k]) == ToGo(states[i])
    ensures Budget(states[k]) + Answers(events[i..k]) <= Budget(states[i])
  {
    forall j | i <= j < k ensures Counts(states[j], events[j], states[j + 1]) { RunCounts(c, start, states, events, j); }
    CountsAdd(states, events, i, k);
  }

  /** A batch is finished after exactly as many acknowledgements and ignored 410s as there are commands to go, unless a 410
      ends it before; and after at most eleven times as many answers if some of them are timeouts. */
  lemma BatchFinishes<R(!new)>(c: Computations<R>, start: R, states: seq<State<R>>, events: seq<Event>, i: nat, k: nat)
    requires IsOrderlyRun(c, start, states, events) && i < k < |states|
    requires forall j | i <= j < k :: states[j].current.Some?
    ensures states[k].current.None? ==> events[k - 1].Ack? || events[k - 1].Gone?
    ensures states[k].current.None? && events[k - 1].Ack? ==> Settled(events[i..k]) == ToGo(states[i])
    ensures Settled(events[i..k]) <= ToGo(states[i]) && (states[k].current.Some? ==> Settled(events[i..k]) < ToGo(states[i]))
    ensures Answers(events[i..k]) <= Budget(states[i]) <= 11 * ToGo(states[i])
  {
    forall j | i <= j < k ensures Counts(states[j], events[j], states[j + 1]) { RunCounts(c, start, states, events, j); }
    BudgetBound(states[i].outstanding);
    CountsEnd(states, events, i, k);
  }

  lemma CountsEnd<R>(states: seq<State<R>>, events: seq<Event>, i: nat, k: nat)
    requires |states| == |events| + 1 && i < k < |states| && CountsAll(states, events, i, k)
    ensures states[k].current.None? ==> events[k - 1].Ack? || events[k - 1].Gone?
    ensures states[k].current.None? && events[k - 1].Ack? ==> Settled(events[i..k]) == ToGo(states[i])
    ensures Settled(events[i..k]) <= ToGo(states[i]) && (states[k].current.Some? ==> Settled(events[i..k]) < ToGo(states[i]))
    ensures Answers(events[i..k]) <= Budget(states[i])
  {
    if states[k].current.Some? {
      CountsAdd(states, events, i, k);
    } else {
      assert Counts(states[k - 1], events[k - 1], states[k]);
      CountsAdd(states, events, i, k - 1);
      EventsSnoc(events, i, k);
    }
  }

  lemma {:induction false} BudgetBound(ms: seq<Sent>)
    ensures TriesOf(ms) <= (MAX_NUM_TIMEOUTS + 1) * |ms|
  {
    if ms != [] { BudgetBound(ms[..|ms| - 1]); }
  }

  /** While a batch is in flight there is a try left. */
  lemma LastTry<R>(c: Computations<R>, start: R, s: State<R>)
    requires ProtocolInv(c, start, s) && s.current.Some?
    ensures Budget(s) > 0
  {
    NeverStuck(c, start, s);
    assert s.outstanding[|s.outstanding| - 1] in s.outstanding;
  }
}
