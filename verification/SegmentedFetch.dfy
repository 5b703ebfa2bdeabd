/**
 The get tool as a consumer over a lossy store: in every pattern of arrivals and timeouts its output is a prefix
 of one stored file, and the whole file when it finishes.
 */
module SegmentedFetch {
  import opened Wrappers
  import opened Bytes
  import opened SegmentedFile

  type Version = nat

  /** The Interest on its way: for anything under the name, or for one segment of one version. */
  datatype Pending = Discover | Fetch(version: Version, segment: nat)

  datatype Get = Get(nextSegment: nat, isFirst: bool, isFinished: bool, retryCount: nat, output: seq<byte>,
                     pending: Option<Pending>)

  datatype Event = Arrive(version: Version, segment: nat, packet: Packet) | Expire

  /** After `run` has sent the first Interest. */
  const Start: Get := Get(1, true, false, 0, [], Some(Discover))

  /** The store answers with genuine segments of what was asked for; nothing else is assumed of it. */
  predicate Possible(store: map<Version, File>, g: Get, e: Event) {
    && g.pending.Some?
    && match e
       case Arrive(v, k, p) =>
         v in store && Genuine(store[v], k, p) && (g.pending.value == Discover || g.pending.value == Fetch(v, k))
       case Expire => true
  }

  function Step(g: Get, e: Event): (r: Get)
    requires g.pending.Some?
  {
    match e
    case Arrive(v, k, p) =>
      if g.isFirst && k != 0 then
        // Some other segment came first: ask for the start, and drop this one.
        g.(isFirst := false, pending := Some(Fetch(v, 0)))
      else
        var h := g.(isFirst := false, output := g.output + p.content);
        if p.final == Some(k) then h.(isFinished := true, pending := None)
        else h.(retryCount := 0, pending := Some(Fetch(v, g.nextSegment)), nextSegment := g.nextSegment + 1)
    case Expire =>
      g.(retryCount := g.retryCount + 1, pending := if g.retryCount < MAX_RETRY then g.pending else None)
  }

  // ----- the invariant -----

  /** The output is what the segments of version `v` before the next one hold. */
  predicate Following(store: map<Version, File>, g: Get, v: Version) {
    && v in store
    && !g.isFirst && !g.isFinished && g.nextSegment > 0
    && g.output == store[v][..Reach(store[v], g.nextSegment - 1)]
    && Reach(store[v], g.nextSegment - 1) < |store[v]|
    && (g.pending.Some? ==> g.pending.value == Fetch(v, g.nextSegment - 1))
  }

  ghost predicate Inv(store: map<Version, File>, g: Get) {
    || (g == Start.(retryCount := g.retryCount, pending := g.pending) && (g.pending.Some? ==> g.pending.value == Discover))
    || (exists v :: Following(store, g, v))
    || (g.isFinished && g.pending.None? && exists v :: v in store && g.output == store[v])
  }

  /** The assertion of `fetchNextData`: what is read is the next segment. */
  predicate AssertionHolds(g: Get, e: Event) {
    e.Arrive? && !(g.isFirst && e.segment != 0) ==> e.segment == g.nextSegment - 1
  }

  lemma NextIsThere(file: File, k: nat)
    requires Reach(file, k) < |file| && !IsLast(file, k)
    ensures Reach(file, k + 1) < |file|
  {
  }

  lemma StepKeepsInv(store: map<Version, File>, g: Get, e: Event)
    requires Inv(store, g) && Possible(store, g, e)
    ensures Inv(store, Step(g, e)) && AssertionHolds(g, e)
    ensures e.Arrive? ==> (g.isFirst && !Step(g, e).isFirst) || |Step(g, e).output| > |g.output|
  {
    var r := Step(g, e);
    if e.Arrive? {
      var v, k, p := e.version, e.segment, e.packet;
      var file := store[v];
      if g.isFirst && k != 0 {
        assert Following(store, r, v);
      } else {
        ReachSteps(file, k);
        assert g.output == file[..Reach(file, k)] && k == g.nextSegment - 1;
        if p.final == Some(k) {
          assert r.output == file[..|file|] == file;
        } else {
          NextIsThere(file, k);
          assert Following(store, r, v);
        }
      }
    } else if !g.isFirst {
      var v :| Following(store, g, v);
      assert Following(store, r, v);
    }
  }

  // ----- runs -----

  ghost predicate IsRun(store: map<Version, File>, states: seq<Get>, events: seq<Event>) {
    && |states| == |events| + 1 && states[0] == Start
    && forall i | 0 <= i < |events| :: Possible(store, states[i], events[i]) && states[i + 1] == Step(states[i], events[i])
  }

  lemma {:induction false} RunKeepsInv(store: map<Version, File>, states: seq<Get>, events: seq<Event>, k: nat)
    requires IsRun(store, states, events) && k < |states|
    ensures Inv(store, states[k])
  {
    if k > 0 {
      RunKeepsInv(store, states, events, k - 1);
      StepKeepsInv(store, states[k - 1], events[k - 1]);
    }
  }

  /** In every run: the output is a prefix of one stored file, it is all of it at the end, the assertion holds at
      every arrival, and no segment is asked for more than four times in a row. */
  lemma GetReturnsFile(store: map<Version, File>, states: seq<Get>, events: seq<Event>, k: nat)
    requires IsRun(store, states, events) && k < |states|
    ensures states[k].output == [] || exists v :: v in store && states[k].output <= store[v]
    ensures states[k].isFinished ==> exists v :: v in store && states[k].output == store[v]
    ensures k < |events| ==> AssertionHolds(states[k], events[k])
    ensures states[k].pending.Some? ==> states[k].retryCount <= MAX_RETRY
  {
    RunKeepsInv(store, states, events, k);
    RetriesBounded(store, states, events, k);
    var g := states[k];
    if k < |events| { StepKeepsInv(store, g, events[k]); }
    if v :| Following(store, g, v) { assert g.output <= store[v]; }
  }

  lemma {:induction false} RetriesBounded(store: map<Version, File>, states: seq<Get>, events: seq<Event>, k: nat)
    requires IsRun(store, states, events) && k < |states|
    ensures states[k].pending.Some? ==> states[k].retryCount <= MAX_RETRY
  {
    if k > 0 { RetriesBounded(store, states, events, k - 1); }
  }

  // ----- what every run comes to -----

  /** How many packets arrive in the first `k` events. */
  function Arrivals(events: seq<Event>, k: nat): (n: nat)
    requires k <= |events|
  {
    if k == 0 then 0 else Arrivals(events, k - 1) + if events[k - 1].Arrive? then 1 else 0
  }

  /** An arrival, but not one of another segment before the first one. */
  predicate LeadsOn(events: seq<Event>, i: nat)
    requires i < |events|
  {
    events[i].Arrive? && (Arrivals(events, i) > 0 || events[i].segment == 0)
  }

  /** How many of the first `k` events lead on. */
  function Kept(events: seq<Event>, k: nat): (n: nat)
    requires k <= |events|
  {
    if k == 0 then 0 else Kept(events, k - 1) + if LeadsOn(events, k - 1) then 1 else 0
  }

  /** How many timeouts there are among the first `k` events since the last one that led on. */
  function Timeouts(events: seq<Event>, k: nat): (n: nat)
    requires k <= |events|
  {
    if k == 0 || LeadsOn(events, k - 1) then 0
    else Timeouts(events, k - 1) + if events[k - 1].Expire? then 1 else 0
  }

  /** The version of the first packet that arrives. */
  function FirstVersion(events: seq<Event>, k: nat): (v: Version)
    requires k <= |events| && Arrivals(events, k) > 0
  {
    if Arrivals(events, k - 1) > 0 then FirstVersion(events, k - 1) else events[k - 1].version
  }

  /** Where the fetch of `file` stands after the first `kept` segments and `timeouts` timeouts. */
  predicate Stands(g: Get, v: Version, file: File, kept: nat, timeouts: nat) {
    && g.output == file[..if 1000 * kept < |file| then 1000 * kept else |file|]
    && kept <= Segments(file)
    && (g.isFinished <==> kept == Segments(file))
    && g.pending == if kept < Segments(file) && timeouts <= 3 then Some(Fetch(v, kept)) else None
  }

  /** Nothing has arrived yet. */
  predicate Waits(g: Get, timeouts: nat) {
    g.output == [] && !g.isFinished && g.pending == if timeouts <= 3 then Some(Discover) else None
  }

  /** The fields that no one sees. */
  predicate Inside(g: Get, arrived: bool, kept: nat, timeouts: nat) {
    (g.isFirst <==> !arrived) && (!g.isFinished ==> g.nextSegment == kept + 1 && g.retryCount == timeouts)
  }

  lemma ArriveStands(g: Get, v: Version, file: File, kept: nat, timeouts: nat, e: Event)
    requires Stands(g, v, file, kept, timeouts) && Inside(g, true, kept, timeouts) && g.pending == Some(Fetch(v, kept))
    requires e.Arrive? && e.version == v && e.segment == kept && Genuine(file, kept, e.packet)
    ensures Stands(Step(g, e), v, file, kept + 1, 0) && Inside(Step(g, e), true, kept + 1, 0)
  {
    ReachSteps(file, kept);
  }

  lemma FirstArriveStands(g: Get, file: File, timeouts: nat, e: Event)
    requires Waits(g, timeouts) && Inside(g, false, 0, timeouts) && g.pending.Some?
    requires e.Arrive? && Genuine(file, e.segment, e.packet)
    ensures var r, leads := Step(g, e), e.segment == 0;
      && Stands(r, e.version, file, if leads then 1 else 0, if leads then 0 else timeouts)
      && Inside(r, true, if leads then 1 else 0, if leads then 0 else timeouts)
  {
    ReachSteps(file, 0);
  }

  /** What holds of the state after the first `k` events. */
  predicate StandsAt(store: map<Version, File>, g: Get, events: seq<Event>, k: nat)
    requires k <= |events|
  {
    && Inside(g, Arrivals(events, k) > 0, Kept(events, k), Timeouts(events, k))
    && if Arrivals(events, k) == 0 then Kept(events, k) == 0 && Waits(g, Timeouts(events, k))
       else
         var v := FirstVersion(events, k);
         v in store && Stands(g, v, store[v], Kept(events, k), Timeouts(events, k))
  }

  lemma ArrivalStands(store: map<Version, File>, g: Get, events: seq<Event>, k: nat)
    requires k < |events| && StandsAt(store, g, events, k) && Possible(store, g, events[k]) && events[k].Arrive?
    ensures StandsAt(store, Step(g, events[k]), events, k + 1)
  {
    var e := events[k];
    if Arrivals(events, k) == 0 {
      FirstArriveStands(g, store[e.version], Timeouts(events, k), e);
    } else {
      var v := FirstVersion(events, k);
      ArriveStands(g, v, store[v], Kept(events, k), Timeouts(events, k), e);
    }
  }

  lemma TimeoutStands(store: map<Version, File>, g: Get, events: seq<Event>, k: nat)
    requires k < |events| && StandsAt(store, g, events, k) && Possible(store, g, events[k]) && events[k].Expire?
    ensures StandsAt(store, Step(g, events[k]), events, k + 1)
  {
  }

  lemma {:induction false} RunStands(store: map<Version, File>, states: seq<Get>, events: seq<Event>, k: nat)
    requires IsRun(store, states, events) && k < |states|
    ensures StandsAt(store, states[k], events, k)
  {
    if k > 0 {
      RunStands(store, states, events, k - 1);
      if events[k - 1].Arrive? {
        ArrivalStands(store, states[k - 1], events, k - 1);
      } else {
        TimeoutStands(store, states[k - 1], events, k - 1);
      }
    }
  }

  /** The fetch goes on: in every run, as long as the last segment has not come and there have been at most three timeouts
      since the last arrival that led on, the segment after those that came is asked for, or, before anything came,
      anything under the name; what is asked for can be answered if the store holds the file. After the fourth timeout,
      and only then, it is given up. */
  lemma FetchGoesOn(store: map<Version, File>, states: seq<Get>, events: seq<Event>, k: nat)
    requires IsRun(store, states, events) && k < |states|
    ensures var g, kept, timeouts := states[k], Kept(events, k), Timeouts(events, k);
      && timeouts <= 4
      && (g.pending.None? && !g.isFinished <==> timeouts == 4)
      && (!g.isFinished && timeouts <= 3 ==>
            g.pending == Some(if Arrivals(events, k) == 0 then Discover else Fetch(FirstVersion(events, k), kept)))
    ensures states[k].pending.Some? && (exists v :: v in store && store[v] != []) ==>
              exists e: Event :: e.Arrive? && Possible(store, states[k], e)
  {
    RunStands(store, states, events, k);
    TimeoutsBounded(store, states, events, k);
    if states[k].pending.Some? && exists v :: v in store && store[v] != [] {
      var e := Answer(store, states, events, k);
    }
  }

  lemma {:induction false} TimeoutsBounded(store: map<Version, File>, states: seq<Get>, events: seq<Event>, k: nat)
    requires IsRun(store, states, events) && k < |states|
    ensures Timeouts(events, k) <= if states[k].pending.Some? || states[k].isFinished then 3 else 4
  {
    RunStands(store, states, events, k);
    if k > 0 {
      RunStands(store, states, events, k - 1);
      TimeoutsBounded(store, states, events, k - 1);
    }
  }

  /** The store answers with the segment that is asked for, or with the first one of some file. */
  lemma Answer(store: map<Version, File>, states: seq<Get>, events: seq<Event>, k: nat) returns (e: Event)
    requires IsRun(store, states, events) && k < |states|
    requires states[k].pending.Some? && exists v :: v in store && store[v] != []
    ensures e.Arrive? && Possible(store, states[k], e)
    ensures e.segment == Kept(events, k)
  {
    RunStands(store, states, events, k);
    var v :| v in store && store[v] != [];
    if Arrivals(events, k) > 0 { v := FirstVersion(events, k); }
    var file, n := store[v], Kept(events, k);
    e := Arrive(v, n, Packet(Block(file, n), if IsLast(file, n) then Some(n) else None));
    assert n < Segments(file);
  }

  /** What a timeout does: three times the same request is sent again, at the fourth nothing is; what came stays. */
  lemma TimeoutAsksAgain(store: map<Version, File>, states: seq<Get>, events: seq<Event>, k: nat)
    requires IsRun(store, states, events) && k < |events| && events[k].Expire?
    ensures var g, r := states[k], states[k + 1];
      && r.pending == (if Timeouts(events, k) < 3 then g.pending else None)
      && g.pending.Some? && !r.isFinished && r.output == g.output
  {
    RunStands(store, states, events, k);
    RunStands(store, states, events, k + 1);
  }

  /** The fetch finishes: in every run, with the first packet the version is settled, the output is made of the first
      segments of its file, one for each arrival, but for a first one that is not the first segment; it is the whole file,
      and the fetch is finished, exactly when as many arrived as the file has segments. */
  lemma FetchFinishes(store: map<Version, File>, states: seq<Get>, events: seq<Event>, k: nat)
    requires IsRun(store, states, events) && k < |states| && Arrivals(events, k) > 0
    ensures FirstVersion(events, k) in store
    ensures var g, file := states[k], store[FirstVersion(events, k)];
      && Arrivals(events, k) == Kept(events, k) + (if StartsWithAnother(events, k) then 1 else 0)
      && (g.isFinished <==> Kept(events, k) == (|file| + 999) / 1000)
      && (g.isFinished <==> g.output == file)
      && g.output == file[..if 1000 * Kept(events, k) < |file| then 1000 * Kept(events, k) else |file|]
  {
    RunStands(store, states, events, k);
    AllButOneKept(events, k);
  }

  /** The first packet to arrive is not the first segment. */
  predicate StartsWithAnother(events: seq<Event>, k: nat)
    requires k <= |events|
  {
    exists i | 0 <= i < k :: Arrivals(events, i) == 0 && events[i].Arrive? && events[i].segment != 0
  }

  lemma {:induction false} AllButOneKept(events: seq<Event>, k: nat)
    requires k <= |events|
    ensures Arrivals(events, k) == Kept(events, k) + (if StartsWithAnother(events, k) then 1 else 0)
    ensures Arrivals(events, k) == 0 ==> !StartsWithAnother(events, k)
  {
    if k > 0 {
      AllButOneKept(events, k - 1);
      if StartsWithAnother(events, k - 1) {
        var i :| 0 <= i < k - 1 && Arrivals(events, i) == 0 && events[i].Arrive? && events[i].segment != 0;
        assert StartsWithAnother(events, k);
      }
    }
  }

  /** Nothing stands in the way: a run in which something is asked for goes on, with arrivals only, to the end of the
      file. */
  lemma FetchCanFinish(store: map<Version, File>, states: seq<Get>, events: seq<Event>)
    returns (all: seq<Get>, more: seq<Event>)
    requires IsRun(store, states, events) && states[|events|].pending.Some?
    requires exists v :: v in store && store[v] != []
    ensures IsRun(store, states + all, events + more) && forall e | e in more :: e.Arrive?
    ensures (states + all)[|events + more|].isFinished
  {
    if Arrivals(events, |events|) > 0 {
      all, more := FinishFrom(store, states, events);
    } else {
      var g, e := OneMore(store, states, events);
      if g.isFinished {
        all, more := [g], [e];
      } else {
        all, more := FinishFrom(store, states + [g], events + [e]);
        all, more := [g] + all, [e] + more;
        Regrouped(states, g, all[1..]);
        Regrouped(events, e, more[1..]);
      }
    }
  }

  lemma Regrouped<T>(a: seq<T>, x: T, b: seq<T>)
    ensures ([x] + b)[1..] == b && (a + [x]) + b == a + ([x] + b)
  {
  }

  /** The store answers, and the run goes on with that. */
  lemma OneMore(store: map<Version, File>, states: seq<Get>, events: seq<Event>) returns (g: Get, e: Event)
    requires IsRun(store, states, events) && states[|events|].pending.Some?
    requires exists v :: v in store && store[v] != []
    ensures IsRun(store, states + [g], events + [e]) && e.Arrive? && (g.isFinished || g.pending.Some?)
    ensures Arrivals(events + [e], |events| + 1) > 0
    ensures Arrivals(events, |events|) > 0 && !g.isFinished ==> 0 <= Missing(store, events + [e]) < Missing(store, events)
  {
    var n := |events|;
    e := Answer(store, states, events, n);
    g := Step(states[n], e);
    SameStart(events, events + [e], n);
    assert IsRun(store, states + [g], events + [e]);
    assert LeadsOn(events + [e], n) by { RunStands(store, states, events, n); }
    RunStands(store, states + [g], events + [e], n + 1);
  }

  lemma {:induction false} FinishFrom(store: map<Version, File>, states: seq<Get>, events: seq<Event>)
    returns (all: seq<Get>, more: seq<Event>)
    requires IsRun(store, states, events) && states[|events|].pending.Some?
    requires Arrivals(events, |events|) > 0 && exists v :: v in store && store[v] != []
    ensures IsRun(store, states + all, events + more) && forall e | e in more :: e.Arrive?
    ensures (states + all)[|events + more|].isFinished
    decreases Missing(store, events)
  {
    var g, e := OneMore(store, states, events);
    if g.isFinished {
      all, more := [g], [e];
    } else {
      all, more := FinishFrom(store, states + [g], events + [e]);
      all, more := [g] + all, [e] + more;
      Regrouped(states, g, all[1..]);
      Regrouped(events, e, more[1..]);
    }
  }

  /** How many segments have not come yet. */
  function Missing(store: map<Version, File>, events: seq<Event>): (n: int) {
    if Arrivals(events, |events|) == 0 || FirstVersion(events, |events|) !in store then 0
    else Segments(store[FirstVersion(events, |events|)]) - Kept(events, |events|)
  }

  lemma {:induction false} SameStart(a: seq<Event>, b: seq<Event>, k: nat)
    requires k <= |a| <= |b| && a == b[..|a|]
    ensures Kept(a, k) == Kept(b, k) && Arrivals(a, k) == Arrivals(b, k)
    ensures Arrivals(a, k) > 0 ==> FirstVersion(a, k) == FirstVersion(b, k)
  {
    if k > 0 { SameStart(a, b, k - 1); }
  }

  /** As long as no packet is dropped the timeouts counted are those in a row. */
  lemma {:induction false} TimeoutsInARow(events: seq<Event>, k: nat)
    requires k <= |events| && !StartsWithAnother(events, k)
    ensures var t := Timeouts(events, k);
      && t <= k && (forall i | k - t <= i < k :: events[i].Expire?) && (t < k ==> events[k - t - 1].Arrive?)
  {
    if k > 0 {
      assert !StartsWithAnother(events, k - 1);
      TimeoutsInARow(events, k - 1);
    }
  }

  /** A packet that is dropped does not count as an answer: of a file of two segments, with two timeouts before the second
      segment comes first and two after, no Interest times out three times in a row, and the fetch is given up. */
  lemma DroppedAnswerCountsOn() returns (store: map<Version, File>, states: seq<Get>, events: seq<Event>)
    ensures IsRun(store, states, events) && states[|events|].pending.None? && !states[|events|].isFinished
    ensures forall i | 2 <= i < |events| :: !(events[i - 2].Expire? && events[i - 1].Expire? && events[i].Expire?)
  {
    var file: File := seq(1001, _ => 7);
    store := map[0 := file];
    events := [Expire, Expire, Arrive(0, 1, Packet([7], Some(1))), Expire, Expire];
    var a := Step(Start, Expire);
    var b := Step(a, Expire);
    var c := Step(b, events[2]);
    var d := Step(c, Expire);
    states := [Start, a, b, c, d, Step(d, Expire)];
    assert Block(file, 1) == [7];
  }

  // ----- the object -----

  class Consumer {
    var nextSegment: nat
    var isFirst: bool
    var isFinished: bool
    var retryCount: nat
    var output: seq<byte>
    var pending: Option<Pending>

    ghost function State(): (g: Get)
      reads this
    {
      Get(nextSegment, isFirst, isFinished, retryCount, output, pending)
    }

    constructor ()
      ensures State() == Start.(nextSegment := 0, pending := None)
    {
      nextSegment, isFirst, isFinished, retryCount, output, pending := 0, true, false, 0, [], None;
    }

    /** `run`, up to the event loop. */
    method Run()
      requires State() == Start.(nextSegment := 0, pending := None)
      modifies this
      ensures State() == Start
    {
      nextSegment := nextSegment + 1;
      pending := Some(Discover);
    }

    /** `fetchNextData`, with the assertion of the source as its precondition. */
    method FetchNextData(version: Version, segment: nat, packet: Packet)
      requires segment == nextSegment - 1
      modifies this`isFinished, this`pending, this`retryCount, this`nextSegment
      ensures State() == if packet.final == Some(segment) then old(State()).(isFinished := true, pending := None)
        else old(State()).(retryCount := 0, pending := Some(Fetch(version, segment + 1)), nextSegment := segment + 2)
    {
      if packet.final == Some(segment) {
        isFinished, pending := true, None;
      } else {
        retryCount := 0;
        pending := Some(Fetch(version, nextSegment));
        nextSegment := nextSegment + 1;
      }
    }

    /** `onVersionedData` and `onUnversionedData` for a segment, with `readData`. */
    method OnData(version: Version, segment: nat, packet: Packet)
      requires pending.Some? && AssertionHolds(State(), Arrive(version, segment, packet))
      modifies this
      ensures State() == Step(old(State()), Arrive(version, segment, packet))
    {
      if isFirst {
        if segment != 0 {
          pending := Some(Fetch(version, 0));
          isFirst := false;
          return;
        }
        isFirst := false;
      }
      FetchNextData(version, segment, packet);
      output := output + packet.content;
    }

    /** `onTimeout`. */
    method OnTimeout()
      requires pending.Some?
      modifies this
      ensures State() == Step(old(State()), Expire)
    {
      var again := retryCount < MAX_RETRY;
      retryCount := retryCount + 1;
      if !again { pending := None; }
    }
  }
}
