/**
 Reachable runs from the empty RIB in which the protocol goes wrong: a removal that is retried as an addition, and
 two batches that overlap after a 410 on the batch face.
 */
module ProtocolLimits {
  import opened Wrappers
  import opened Names
  import opened Routes
  import opened RibLinks
  import opened RibTree
  import opened FibSpec
  import opened FibOps
  import opened FibCompute
  import opened FibApply
  import opened FibSteps
  import opened FibTheorem
  import opened FibCommit
  import opened FibUpdates
  import opened UpdateProtocol
  import opened FibRuns
  import opened RouteLists

  // ----- runs as lists of events -----

  ghost function Steps(): (step: (State<Rib>, Event) -> Option<State<Rib>>) {
    (s, e) => if Enabled(s, e) then Some(Next(OfRib(), s, e)) else None
  }

  /** The state that a list of events leads to, if each is enabled when it comes. */
  ghost function Follow<S, E>(step: (S, E) -> Option<S>, s: S, events: seq<E>): (r: Option<S>)
    decreases |events|
  {
    if events == [] then Some(s)
    else
      var next := step(s, events[0]);
      if next.Some? then Follow(step, next.value, events[1..]) else None
  }

  lemma {:induction false} FollowJoins<S, E>(step: (S, E) -> Option<S>, s: S, first: seq<E>, second: seq<E>)
    requires Follow(step, s, first).Some?
    ensures Follow(step, s, first + second) == Follow(step, Follow(step, s, first).value, second)
    decreases |first|
  {
    if first == [] {
      assert first + second == second;
    } else {
      FollowJoins(step, step(s, first[0]).value, first[1..], second);
      assert (first + second)[1..] == first[1..] + second;
    }
  }

  ghost function Run(s: State<Rib>, events: seq<Event>): (r: Option<State<Rib>>) {
    Follow(Steps(), s, events)
  }

  lemma Chain(s: State<Rib>, a: seq<Event>, s1: State<Rib>, b: seq<Event>)
    requires Run(s, a) == Some(s1)
    ensures Run(s, a + b) == Run(s1, b)
  {
    FollowJoins(Steps(), s, a, b);
  }

  lemma RunOne(s: State<Rib>, e: Event)
    requires Enabled(s, e)
    ensures Run(s, [e]) == Some(Next(OfRib(), s, e))
  {
    FollowOne(Steps(), s, e);
  }

  lemma FollowOne<S, E>(step: (S, E) -> Option<S>, s: S, e: E)
    ensures Follow(step, s, [e]) == step(s, e)
  {
    assert [e][1..] == [];
  }

  /** A batch is on its way whose commands are all on the batch face. */
  function InFlight(s: State<Rib>, u: RibUpdate, ops: seq<Op>, us: seq<FibUpdate>): (r: State<Rib>) {
    s.(enqueued := s.enqueued + [u], current := Some(u), batchFace := u.route.faceId, forBatch := us, forOther := [],
       ops := ops, outstanding := s.outstanding + SendAll(us, u), sends := multiset(us), base := s.fib)
  }

  lemma BatchStarts(s: State<Rib>, u: RibUpdate, ops: seq<Op>, us: seq<FibUpdate>)
    requires !s.thrown && s.current.None? && s.queue == [] && !u.RemoveFace? && us != []
    requires RibExact(s.rib) && UpdateOps(s.rib, u) == ops
    requires ListOf(u.route.faceId, UpdatesOf(ops), true) == us && ListOf(u.route.faceId, UpdatesOf(ops), false) == []
    ensures Run(s, [Enqueue(u)] + [Start]) == Some(InFlight(s, u, ops, us))
  {
    var s1 := Next(OfRib(), s, Enqueue(u));
    RunOne(s, Enqueue(u));
    StartOne(s, s1, u, ops, us);
    Chain(s, [Enqueue(u)], s1, [Start]);
  }

  lemma StartOne(s: State<Rib>, s1: State<Rib>, u: RibUpdate, ops: seq<Op>, us: seq<FibUpdate>)
    requires !s.thrown && s.current.None? && s.queue == [] && !u.RemoveFace? && us != []
    requires RibExact(s.rib) && UpdateOps(s.rib, u) == ops && s1 == s.(queue := [] + [u], enqueued := s.enqueued + [u])
    requires ListOf(u.route.faceId, UpdatesOf(ops), true) == us && ListOf(u.route.faceId, UpdatesOf(ops), false) == []
    ensures Run(s1, [Start]) == Some(InFlight(s, u, ops, us))
  {
    OfRibIs(s.rib, u);
    assert s1.queue == [u] && s1.queue[1..] == [];
    assert s1.(queue := s1.queue[1..]) == s.(enqueued := s.enqueued + [u]);
    assert multiset{} + multiset(us) == multiset(us);
    RunOne(s1, Start);
  }

  function OneInFlight(s: State<Rib>, u: RibUpdate, op: Op): (r: State<Rib>) { InFlight(s, u, [op], [UpdateOf(op)]) }

  lemma SingleBatch(s: State<Rib>, u: RibUpdate, op: Op)
    requires !s.thrown && s.current.None? && s.queue == [] && !u.RemoveFace?
    requires RibExact(s.rib) && UpdateOps(s.rib, u) == [op] && op.Face() == u.route.faceId
    ensures Run(s, [Enqueue(u)] + [Start]) == Some(OneInFlight(s, u, op))
  {
    SingleLists(op, u.route.faceId);
    BatchStarts(s, u, [op], [UpdateOf(op)]);
  }

  lemma SingleLists(op: Op, f: nat)
    requires op.Face() == f
    ensures ListOf(f, UpdatesOf([op]), true) == [UpdateOf(op)] && ListOf(f, UpdatesOf([op]), false) == []
  {
    var x := UpdateOf(op);
    assert [op][..0] == [] && UpdatesOf([op]) == [] + [x] == [x] && [x][..0] == [];
    assert Put([], x) == [x];
  }

  /** The only command of a batch is acknowledged: the batch is committed. */
  lemma SingleAck(s: State<Rib>, u: RibUpdate, op: Op)
    requires !s.thrown && RibExact(s.rib) && s.current == Some(u) && s.batchFace == u.route.faceId == op.Face()
    requires s.forBatch == [UpdateOf(op)] && s.forOther == [] && s.ops == [op]
    requires |s.outstanding| == 1 && s.outstanding[0].update == UpdateOf(op) && s.outstanding[0].batch == u
    ensures Run(s, [Ack(0)]) ==
            Some(s.(fib := Execute(s.fib, s.dead, s.outstanding[0]), forBatch := [], outstanding := [],
                    rib := CommitWith(s.rib, u, [op]), current := None, log := s.log + [Finished(u, true)]))
  {
    RunOne(s, Ack(0));
    var x := UpdateOf(op);
    assert [x][..0] == [] && Remove([x], x) == [];
    assert UpdateProtocol.Without(s.outstanding, 0) == [];
  }

  // ----- the first route, and the last one -----

  /** Registered in the empty RIB, whatever the flags. */
  lemma FirstRoute(n: Name, r: Route)
    ensures RibExact(Empty) && UpdateOps(Empty, Register(n, r)) == [AddHop(n, r.faceId, r.cost)]
    ensures var s := Commit(Empty, Register(n, r));
      Good(s) && s.table.Keys == {n} && s.table[n].routes == [r] && s.table[n].inherited == []
  {
    EmptyIsExact();
    var u, t := Register(n, r), Empty.table;
    assert ParentOf(t.Keys, n) == None && Under(Empty.order, n) == [];
    NewNameAlone(t, n, r);
    CommitKeepsGood(Empty, u);
    InsertedTable(Empty, n, r);
    var c, ops := Insert(Empty, n, r).table, [AddHop(n, r.faceId, r.cost)];
    assert ops[..0] == [] && ApplyRecords(c, ops) == c;
    forall m ensures m in c <==> m == n { if m != n { assert SameRoutesAt(t, c, m); } }
  }

  /** A new name without ancestors and without names under it. */
  lemma NewNameAlone(t: Table, n: Name, r: Route)
    requires TreeExact(t) && ParentOf(t.Keys, n) == None
    ensures NewEntryOps(t, n, r, []) == [AddHop(n, r.faceId, r.cost)]
  {
    assert AncestorRoutes(t, None) == [];
  }

  lemma LastRoute(s: Rib, n: Name, r: Route)
    requires RibExact(s) && s.table.Keys == {n} && s.table[n].routes == [r] && s.table[n].inherited == []
    requires !r.IsChildInherit() && !r.IsCapture()
    ensures UpdateOps(s, Unregister(n, r)) == [RemoveHop(n, r.faceId)]
    ensures forall d, f :: NextHop(Commit(s, Unregister(n, r)).table, d, f) == None
  {
    LastEmitted(s, n, r);
    LastLeaves(s, n, r);
    EmptyHasNoHops(s, Unregister(n, r));
  }

  lemma LastEmitted(s: Rib, n: Name, r: Route)
    requires RibExact(s) && s.table.Keys == {n} && s.table[n].routes == [r] && s.table[n].inherited == []
    requires !r.IsChildInherit() && !r.IsCapture()
    ensures UpdateOps(s, Unregister(n, r)) == [RemoveHop(n, r.faceId)]
  {
    assert n in s.table.Keys && FindRoute([r], r) == 0;
    LastEmission(s.table, n, r);
  }

  lemma EmptyHasNoHops(s: Rib, u: RibUpdate)
    requires RibExact(s) && !u.Register? && forall m :: m !in Erase(s, u.name, u.route).table
    ensures forall d, f :: NextHop(Commit(s, u).table, d, f) == None
  {
    forall d, f ensures NextHop(Commit(s, u).table, d, f) == None {}
  }

  lemma LastLeaves(s: Rib, n: Name, r: Route)
    requires RibExact(s) && s.table.Keys == {n} && s.table[n].routes == [r]
    ensures forall m :: m !in Erase(s, n, r).table
  {
    var t := s.table;
    assert n in t && FindRoute([r], r) == 0 && WithoutIndex([r], 0) == [];
    ErasedTable(s, n, r);
    var c := Erase(s, n, r).table;
    forall m ensures m !in c { if m != n { assert SameRoutesAt(t, c, m); } }
  }

  lemma LastEmission(t: Table, n: Name, r: Route)
    requires TreeExact(t) && n in t && t[n].routes == [r] && t[n].inherited == []
    requires !r.IsChildInherit() && !r.IsCapture()
    ensures UnregisterFoundOps(t, n, t[n], r.faceId, 0) == [RemoveHop(n, r.faceId)]
  {
    assert WithoutIndex([r], 0) == [] && [r][..0] == [] && Cheapest([r], r.faceId) == Some(r);
    assert WithoutRoute([r], r) == [] && SecondCheapest([r], r.faceId) == None;
    assert ErasedEntryOps(n, []) == [];
  }

  // ----- a removal that is retried -----

  /** The events: a route is registered, then unregistered; the removal times out and its retry is acknowledged. */
  function RetryEvents(n: Name, r: Route, tookEffect: bool): (events: seq<Event>) {
    [Enqueue(Register(n, r))] + [Start] + [Ack(0)] + LostRemoval(n, r, tookEffect)
  }

  function LostRemoval(n: Name, r: Route, tookEffect: bool): (events: seq<Event>) {
    [Enqueue(Unregister(n, r))] + [Start] + ([Timeout(0, tookEffect)] + [Ack(0)])
  }

  ghost function Registered(n: Name, r: Route): (s: State<Rib>)
    requires RibExact(Empty)
  {
    var u, op := Register(n, r), AddHop(n, r.faceId, r.cost);
    State(Commit(Empty, u), [], None, r.faceId, [], [], [op], [], map[(n, r.faceId) := r.cost], {}, false,
          [u], [Finished(u, true)], multiset{UpdateOf(op)}, map[])
  }

  lemma RegisteredRun(n: Name, r: Route)
    ensures RibExact(Empty)
    ensures Run(Init(Empty), [Enqueue(Register(n, r))] + [Start] + [Ack(0)]) == Some(Registered(n, r))
  {
    FirstRoute(n, r);
    var u, op, s: State<Rib> := Register(n, r), AddHop(n, r.faceId, r.cost), Init(Empty);
    SingleBatch(s, u, op);
    SingleAck(OneInFlight(s, u, op), u, op);
    Chain(s, [Enqueue(u)] + [Start], OneInFlight(s, u, op), [Ack(0)]);
    assert [] + [u] == [u] && [] + [Finished(u, true)] == [Finished(u, true)];
  }

  /** For every name and every route without flags, whether or not the lost removal took effect: the run ends with
      nothing in progress and no route in the RIB, and the forwarder keeps a next hop of cost 0 that is retried into
      it. */
  lemma RetriedRemovalLeavesHop(n: Name, r: Route, tookEffect: bool)
    requires !r.IsChildInherit() && !r.IsCapture()
    ensures var s := Run(Init(Empty), RetryEvents(n, r, tookEffect));
      && s.Some? && s.value.current.None? && s.value.outstanding == [] && s.value.queue == [] && s.value.dead == {}
      && Get(s.value.fib, n, r.faceId) == Some(0) && NextHop(s.value.rib.table, n, r.faceId) == None
  {
    RegisteredRun(n, r);
    FirstRoute(n, r);
    RetriedFrom(Registered(n, r), n, r, tookEffect);
    Chain(Init(Empty), [Enqueue(Register(n, r))] + [Start] + [Ack(0)], Registered(n, r), LostRemoval(n, r, tookEffect));
  }

  lemma RetriedFrom(s: State<Rib>, n: Name, r: Route, tookEffect: bool)
    requires !s.thrown && s.current.None? && s.queue == [] && s.outstanding == [] && s.dead == {}
    requires RibExact(s.rib) && s.rib.table.Keys == {n} && s.rib.table[n].routes == [r] && s.rib.table[n].inherited == []
    requires !r.IsChildInherit() && !r.IsCapture()
    ensures var z := Run(s, LostRemoval(n, r, tookEffect));
      && z.Some? && z.value.current.None? && z.value.outstanding == [] && z.value.queue == [] && z.value.dead == {}
      && Get(z.value.fib, n, r.faceId) == Some(0) && NextHop(z.value.rib.table, n, r.faceId) == None
  {
    var u, op := Unregister(n, r), RemoveHop(n, r.faceId);
    LastRoute(s.rib, n, r);
    SingleBatch(s, u, op);
    RetriedAck(OneInFlight(s, u, op), u, op, tookEffect);
    Chain(s, [Enqueue(u)] + [Start], OneInFlight(s, u, op), [Timeout(0, tookEffect)] + [Ack(0)]);
  }

  /** The retry of the only command of a batch is acknowledged: it was an addition. */
  lemma RetriedAck(s: State<Rib>, u: RibUpdate, op: Op, tookEffect: bool)
    requires !s.thrown && RibExact(s.rib) && s.current == Some(u) && s.batchFace == u.route.faceId == op.Face()
    requires s.forBatch == [UpdateOf(op)] && s.forOther == [] && s.ops == [op] && s.dead == {}
    requires |s.outstanding| == 1 && s.outstanding[0] == Sent(UpdateOf(op), UpdateOf(op).action == AddNextHop, 0, u)
    ensures var z := Run(s, [Timeout(0, tookEffect)] + [Ack(0)]);
      && z.Some? && z.value.current.None? && z.value.outstanding == [] && z.value.queue == s.queue && z.value.dead == {}
      && Get(z.value.fib, op.name, op.Face()) == Some(UpdateOf(op).cost) && z.value.rib == CommitWith(s.rib, u, [op])
  {
    var s2 := Next(OfRib(), s, Timeout(0, tookEffect));
    RunOne(s, Timeout(0, tookEffect));
    SingleAck(s2, u, op);
    Chain(s, [Timeout(0, tookEffect)], s2, [Ack(0)]);
  }

  // ----- batches that overlap -----

  /** What goes to a single name without children, capture or offers, when a route goes down on a face it has not. */
  lemma TraverseOne(t: Table, n: Name, m: Name, r: Route)
    requires TreeExact(t) && Roots(t, n, [m]) && m in t && t[m].children == [] && t[m].captureCount == 0
    requires !HasFace(t[m].routes, r.faceId) && !HasChildInherit(t[m].routes, r.faceId)
    ensures TraverseAll(t, n, [m], [r], []) == [Inherit(m, r)]
  {
    VisitOne(t, m, r);
    assert [m][..0] == [];
  }

  lemma NothingToRemove(m: Name, e: Entry<Name>)
    ensures DropOffered(e, []) == [] && RemoveOps(m, e, []) == [] && AddOps(m, e, []) == []
  {
  }

  lemma VisitOne(t: Table, m: Name, r: Route)
    requires TreeExact(t) && m in t && t[m].children == [] && t[m].captureCount == 0
    requires !HasFace(t[m].routes, r.faceId) && !HasChildInherit(t[m].routes, r.faceId)
    ensures Traverse(t, m, [r], []) == [Inherit(m, r)]
  {
    assert [r][..0] == [];
    NothingToRemove(m, t[m]);
    assert DropOffered(t[m], [r]) == [] + [r];
    assert AddOps(m, t[m], [r]) == [] + [Inherit(m, r)];
    ChildrenAreBelow(t, m);
    assert TraverseAll(t, m, [], [r], []) == [];
  }

  /** The emissions of a registration above a single name: for an offer the own next hop and the inherited one, both
      on the same face. */
  lemma AboveOne(s: Rib, n: Name, m: Name, r: Route)
    requires Good(s) && s.table.Keys == {m} && s.order == [m] && n < m && !r.IsCapture()
    requires !Captures(s.table[m].routes) && !HasFace(s.table[m].routes, r.faceId)
    ensures UpdateOps(s, Register(n, r)) ==
            [AddHop(n, r.faceId, r.cost)] + if r.IsChildInherit() then [Inherit(m, r)] else []
  {
    var t := s.table;
    OneName(t, m);
    assert n !in t && ParentOf(t.Keys, n) == None && ParentOf(t.Keys, m) == None;
    assert [m][..0] == [] && Under([m], n) == [] + [m];
    assert FutureChildren(t, None, [m]) == [] + [m];
    if r.IsChildInherit() { TraverseOne(t, n, m, r); }
    AboveOneEntry(t, n, m, r);
  }

  lemma OneName(t: Table, m: Name)
    requires TreeExact(t) && CaptureExact(t) && t.Keys == {m}
    ensures m in t && t[m].parent == None && t[m].children == []
    ensures !Captures(t[m].routes) ==> t[m].captureCount == 0
  {
    assert m in t;
    var cs := t[m].children;
    assert cs == [] || cs[0] in cs;
    forall c ensures c !in cs { assert LinkExact(t, m, c); }
  }

  lemma AboveOneEntry(t: Table, n: Name, m: Name, r: Route)
    requires TreeExact(t) && Roots(t, n, [m]) && ParentOf(t.Keys, n) == None && !r.IsCapture()
    requires r.IsChildInherit() ==> TraverseAll(t, n, [m], [r], []) == [Inherit(m, r)]
    ensures NewEntryOps(t, n, r, [m]) == [AddHop(n, r.faceId, r.cost)] + if r.IsChildInherit() then [Inherit(m, r)] else []
  {
    assert AncestorRoutes(t, None) == [] && InheritOps(n, [], r.faceId) == [];
    assert InsertRoute(EraseFace([], r.faceId), r) == [r];
  }

  /** Two names, one above the other: a leaf without flags, an offer above it and another route without flags, each of
      the two on a face of its own. */
  datatype Scene = Scene(above: Name, below: Name, leaf: Route, offer: Route, other: Route)

  predicate IsScene(x: Scene) {
    && x.above < x.below
    && x.leaf.faceId != x.offer.faceId && x.leaf.faceId != x.other.faceId && x.offer.faceId != x.other.faceId
    && !x.leaf.IsChildInherit() && !x.leaf.IsCapture()
    && x.offer.IsChildInherit() && !x.offer.IsCapture()
    && !x.other.IsChildInherit() && !x.other.IsCapture()
  }

  function Early(x: Scene): (u: RibUpdate) { Register(x.above, x.offer) }
  function Later(x: Scene): (u: RibUpdate) { Register(x.above, x.other) }

  function OwnCommand(x: Scene): (u: FibUpdate) { FibUpdate(x.above, x.offer.faceId, x.offer.cost, AddNextHop) }
  function BelowCommand(x: Scene): (u: FibUpdate) { FibUpdate(x.below, x.offer.faceId, x.offer.cost, AddNextHop) }
  function LaterCommand(x: Scene): (u: FibUpdate) { FibUpdate(x.above, x.other.faceId, x.other.cost, AddNextHop) }

  lemma SceneOps(x: Scene)
    requires IsScene(x)
    ensures RibExact(Empty)
    ensures var s := Commit(Empty, Register(x.below, x.leaf));
      && Good(s) && x.above !in s.table
      && UpdateOps(s, Early(x)) == EarlyOps(x)
      && UpdateOps(s, Later(x)) == [AddHop(x.above, x.other.faceId, x.other.cost)]
  {
    FirstRoute(x.below, x.leaf);
    FirstOrder(x.below, x.leaf);
    SceneOpsFrom(x, Commit(Empty, Register(x.below, x.leaf)));
  }

  lemma SceneOpsFrom(x: Scene, s: Rib)
    requires IsScene(x) && Good(s) && s.table.Keys == {x.below} && s.order == [x.below] && s.table[x.below].routes == [x.leaf]
    ensures x.above !in s.table
    ensures UpdateOps(s, Early(x)) == EarlyOps(x)
    ensures UpdateOps(s, Later(x)) == [AddHop(x.above, x.other.faceId, x.other.cost)]
  {
    assert x.above !in s.table.Keys;
    OfferAbove(s, x.above, x.below, x.leaf, x.offer);
    PlainAbove(s, x.above, x.below, x.leaf, x.other);
  }

  /** An offer above a leaf: the own next hop and the inherited one. */
  lemma OfferAbove(s: Rib, n: Name, m: Name, leaf: Route, r: Route)
    requires Good(s) && s.table.Keys == {m} && s.order == [m] && s.table[m].routes == [leaf] && n < m
    requires !leaf.IsCapture() && !r.IsCapture() && r.faceId != leaf.faceId && r.IsChildInherit()
    ensures UpdateOps(s, Register(n, r)) == [AddHop(n, r.faceId, r.cost), Inherit(m, r)]
  {
    AboveLeaf(s, n, m, leaf, r);
    TwoOps(AddHop(n, r.faceId, r.cost), Inherit(m, r));
  }

  /** A route without flags there: the own next hop only. */
  lemma PlainAbove(s: Rib, n: Name, m: Name, leaf: Route, r: Route)
    requires Good(s) && s.table.Keys == {m} && s.order == [m] && s.table[m].routes == [leaf] && n < m
    requires !leaf.IsCapture() && !r.IsCapture() && r.faceId != leaf.faceId && !r.IsChildInherit()
    ensures UpdateOps(s, Register(n, r)) == [AddHop(n, r.faceId, r.cost)]
  {
    AboveLeaf(s, n, m, leaf, r);
    TwoOps(AddHop(n, r.faceId, r.cost), AddHop(n, r.faceId, r.cost));
  }

  lemma TwoOps(a: Op, b: Op)
    ensures [a] + [b] == [a, b] && [a] + [] == [a]
  {
  }

  lemma FirstOrder(n: Name, r: Route)
    requires RibExact(Empty)
    ensures Commit(Empty, Register(n, r)).order == [n]
  {
  }

  lemma AboveLeaf(s: Rib, n: Name, m: Name, leaf: Route, r: Route)
    requires Good(s) && s.table.Keys == {m} && s.order == [m] && s.table[m].routes == [leaf] && n < m
    requires !leaf.IsCapture() && !r.IsCapture() && r.faceId != leaf.faceId
    ensures UpdateOps(s, Register(n, r)) ==
            [AddHop(n, r.faceId, r.cost)] + if r.IsChildInherit() then [Inherit(m, r)] else []
  {
    SingleRoute(leaf, r.faceId);
    AboveOne(s, n, m, r);
  }

  function EarlyOps(x: Scene): (ops: seq<Op>) {
    [AddHop(x.above, x.offer.faceId, x.offer.cost), Inherit(x.below, x.offer)]
  }

  /** The batch of the offer: both commands on the batch face are on their way. */
  ghost function BothSent(x: Scene): (s: State<Rib>)
    requires RibExact(Empty)
  {
    InFlight(Registered(x.below, x.leaf), Early(x), EarlyOps(x), [OwnCommand(x), BelowCommand(x)])
  }

  lemma SceneLists(x: Scene)
    requires IsScene(x)
    ensures var us := UpdatesOf(EarlyOps(x));
      && ListOf(x.offer.faceId, us, true) == [OwnCommand(x), BelowCommand(x)]
      && ListOf(x.offer.faceId, us, false) == []
  {
    var a, b, f := OwnCommand(x), BelowCommand(x), x.offer.faceId;
    var ops := EarlyOps(x);
    SingleLists(ops[0], f);
    assert ops[..1] == [ops[0]] && UpdatesOf([ops[0]]) == [a] by { assert [ops[0]][..0] == []; }
    assert UpdatesOf(ops) == [a] + [b] && [a, b][..1] == [a];
    assert Find([a], b.name, b.faceId) == 1 && [a] + [b] == [a, b];
  }

  lemma BothSentRun(x: Scene)
    requires IsScene(x)
    ensures RibExact(Empty) && Run(Registered(x.below, x.leaf), [Enqueue(Early(x))] + [Start]) == Some(BothSent(x))
  {
    SceneOps(x);
    SceneLists(x);
    BatchStarts(Registered(x.below, x.leaf), Early(x), EarlyOps(x), [OwnCommand(x), BelowCommand(x)]);
  }

  /** The face of the batch goes away and the first of its commands gets a 410. */
  ghost function SlotFreed(s: State<Rib>, f: nat): (r: State<Rib>)
    requires s.outstanding != []
  {
    s.(dead := s.dead + {f}, fib := DropFace(s.fib, f), current := None, outstanding := s.outstanding[1..],
       log := s.log + [Finished(s.outstanding[0].batch, false)])
  }

  lemma SlotIsFreed(s: State<Rib>, f: nat)
    requires !s.thrown && s.outstanding != [] && s.outstanding[0].update.faceId == f == s.batchFace
    ensures Run(s, [Destroy(f)] + [Gone(0)]) == Some(SlotFreed(s, f))
  {
    var s1 := Next(OfRib(), s, Destroy(f));
    RunOne(s, Destroy(f));
    RunOne(s1, Gone(0));
    Chain(s, [Destroy(f)], s1, [Gone(0)]);
    assert UpdateProtocol.Without(s.outstanding, 0) == s.outstanding[1..];
  }

  function Grown(x: Scene): (events: seq<Event>) { [Enqueue(Register(x.below, x.leaf))] + [Start] + [Ack(0)] }
  function Begun(x: Scene): (events: seq<Event>) { [Enqueue(Early(x))] + [Start] }
  function Failed(x: Scene): (events: seq<Event>) { [Destroy(x.offer.faceId)] + [Gone(0)] }
  function BegunLater(x: Scene): (events: seq<Event>) { [Enqueue(Later(x))] + [Start] }

  function OverlapEvents(x: Scene): (events: seq<Event>) { Grown(x) + Begun(x) + Failed(x) + BegunLater(x) }

  lemma ChainFour(s0: State<Rib>, a: seq<Event>, s1: State<Rib>, b: seq<Event>, s2: State<Rib>,
                  c: seq<Event>, s3: State<Rib>, d: seq<Event>, s4: State<Rib>)
    requires Run(s0, a) == Some(s1) && Run(s1, b) == Some(s2) && Run(s2, c) == Some(s3) && Run(s3, d) == Some(s4)
    ensures Run(s0, a + b + c + d) == Some(s4)
  {
    Chain(s0, a, s1, b);
    Chain(s0, a + b, s2, c);
    Chain(s0, a + b + c, s3, d);
  }

  /** The state in which both batches are on their way. */
  ghost function Overlap(x: Scene): (s: State<Rib>)
    requires RibExact(Empty)
  {
    OneInFlight(SlotFreed(BothSent(x), x.offer.faceId), Later(x), AddHop(x.above, x.other.faceId, x.other.cost))
  }

  /** The later batch is in progress, the earlier one has failed, and a command of each is on its way. */
  ghost predicate IsOverlap(x: Scene, s: State<Rib>)
    requires RibExact(Empty)
  {
    && s.current == Some(Later(x)) && !s.thrown && s.dead == {x.offer.faceId} && s.batchFace == x.other.faceId
    && s.outstanding == [Sent(BelowCommand(x), true, 0, Early(x)), Sent(LaterCommand(x), true, 0, Later(x))]
    && s.log == [Finished(Register(x.below, x.leaf), true), Finished(Early(x), false)]
    && s.forOther == [] && s.rib == Commit(Empty, Register(x.below, x.leaf))
    && s.ops == [AddHop(x.above, x.other.faceId, x.other.cost)]
  }

  /** A run from the empty RIB in which two batches overlap: a registration above a name has two commands on the batch
      face, the face goes away and one of them gets a 410. The next batch starts while the other one is on its way. */
  lemma BatchesOverlap(x: Scene)
    requires IsScene(x)
    ensures RibExact(Empty) && Run(Init(Empty), OverlapEvents(x)) == Some(Overlap(x)) && IsOverlap(x, Overlap(x))
  {
    RegisteredRun(x.below, x.leaf);
    BothSentRun(x);
    SlotIsFreed(BothSent(x), x.offer.faceId);
    LaterStarts(x);
    ChainFour(Init(Empty), Grown(x), Registered(x.below, x.leaf), Begun(x), BothSent(x),
              Failed(x), SlotFreed(BothSent(x), x.offer.faceId), BegunLater(x), Overlap(x));
    OverlapShape(x);
  }

  lemma LaterStarts(x: Scene)
    requires IsScene(x)
    ensures RibExact(Empty) && Run(SlotFreed(BothSent(x), x.offer.faceId), BegunLater(x)) == Some(Overlap(x))
  {
    SceneOps(x);
    SingleBatch(SlotFreed(BothSent(x), x.offer.faceId), Later(x), AddHop(x.above, x.other.faceId, x.other.cost));
  }

  lemma OverlapShape(x: Scene)
    requires IsScene(x) && RibExact(Empty)
    ensures IsOverlap(x, Overlap(x))
  {
  }

  /** The late 410 then arrives. Its callbacks are bound to the earlier batch, which has failed, and its face is not the
      face of the batch in progress: the earlier update is committed after all, a route on a destroyed face is in the
      RIB, and the slot is free again while the command of the later batch is on its way. */
  lemma LateAnswerCommitsFailedBatch(x: Scene)
    requires IsScene(x)
    ensures var s := Run(Init(Empty), OverlapEvents(x) + [Gone(0)]);
      && s.Some? && s.value.current.None? && x.offer.faceId in s.value.dead
      && s.value.outstanding == [Sent(LaterCommand(x), true, 0, Later(x))]
      && s.value.log == [Finished(Register(x.below, x.leaf), true), Finished(Early(x), false), Finished(Early(x), true)]
      && x.above in s.value.rib.table && s.value.rib.table[x.above].routes == [x.offer]
  {
    BatchesOverlap(x);
    LateGoneOf(x, Overlap(x));
    Chain(Init(Empty), OverlapEvents(x), Overlap(x), [Gone(0)]);
  }

  lemma LateGoneOf(x: Scene, s: State<Rib>)
    requires IsScene(x) && RibExact(Empty) && IsOverlap(x, s)
    ensures var r := Run(s, [Gone(0)]);
      && r.Some? && r.value.current.None? && r.value.dead == {x.offer.faceId}
      && r.value.outstanding == [Sent(LaterCommand(x), true, 0, Later(x))]
      && r.value.log == [Finished(Register(x.below, x.leaf), true), Finished(Early(x), false), Finished(Early(x), true)]
      && x.above in r.value.rib.table && r.value.rib.table[x.above].routes == [x.offer]
  {
    FirstRoute(x.below, x.leaf);
    assert x.above !in s.rib.table.Keys;
    LateGone(s, Early(x), AddHop(x.above, x.other.faceId, x.other.cost));
  }

  lemma LateGone(s: State<Rib>, u: RibUpdate, op: Op)
    requires !s.thrown && |s.outstanding| == 2 && s.outstanding[0].batch == u && s.forOther == [] && s.ops == [op]
    requires s.outstanding[0].update.faceId in s.dead && s.outstanding[0].update.faceId != s.batchFace
    requires RibExact(s.rib) && u.Register? && u.name !in s.rib.table && op.AddHop?
    ensures var r := Run(s, [Gone(0)]);
      && r.Some? && r.value.current.None? && r.value.dead == s.dead && r.value.outstanding == [s.outstanding[1]]
      && r.value.log == s.log + [Finished(u, true)]
      && u.name in r.value.rib.table && r.value.rib.table[u.name].routes == [u.route]
  {
    RunOne(s, Gone(0));
    assert UpdateProtocol.Without(s.outstanding, 0) == [s.outstanding[1]];
    assert Remove([], s.outstanding[0].update) == [];
    InsertedTable(s.rib, u.name, u.route);
    var c := Insert(s.rib, u.name, u.route).table;
    assert [op][..0] == [] && ApplyRecords(c, [op]) == c;
  }
}
