/**
 Where the incremental code departs from the declarative table: reachable states built from the empty RIB by
 registrations alone, and the update that goes wrong there.
 */
module Witnesses {
  import opened Wrappers
  import opened Names
  import opened Routes
  import opened RibTree
  import opened FibSpec
  import opened FibOps
  import opened FibCompute
  import opened FibApply
  import opened FibEdit
  import opened FibSteps
  import opened FibKnown
  import opened FibTheorem
  import opened FibCommit
  import opened RouteLists

  /** A RIB and the forwarding table beside it. */
  datatype World = World(rib: Rib, fib: Fib)

  /** Exact on a face, with records that cover what is inherited and stand beside no own route. */
  ghost predicate RightOn(t: Table, fib: Fib, f: nat) { Covered(t, f) && Tidy(t, f) && ExactOn(t, fib, f) }

  ghost predicate Right(w: World) { Good(w.rib) && forall f :: RightOn(w.rib.table, w.fib, f) }

  /** An update that is sound and leaves no leftover record keeps the state right. */
  lemma StaysRight(w: World, u: RibUpdate)
    requires Right(w) && Admissible(w.rib.table, u)
    requires forall f :: SoundOn(w.rib.table, u, f) && NoLeftover(w.rib.table, u, f)
    ensures Right(After(w, u))
  {
    CommitKeepsGood(w.rib, u);
    forall f ensures RightOn(After(w, u).rib.table, After(w, u).fib, f) {
      assert RightOn(w.rib.table, w.fib, f);
      assert SoundOn(w.rib.table, u, f) && NoLeftover(w.rib.table, u, f);
      UpdateExact(w.rib, u, w.fib, f);
      TidyIff(w.rib, u, f);
    }
  }

  /** Without leftover records nothing is taken away from own routes. */
  lemma RightHasNoLeftover(w: World, n: Name, f: nat)
    requires Right(w)
    ensures !LeftoverBelow(w.rib.table, n, f)
  {
    assert RightOn(w.rib.table, w.fib, f);
    if LeftoverBelow(w.rib.table, n, f) { LeftoverIsUntidy(w.rib.table, n, f); }
  }

  /** An update is carried out without losses. */
  ghost function After(w: World, u: RibUpdate): (r: World)
    requires RibExact(w.rib)
  {
    World(Commit(w.rib, u), ApplyOps(w.fib, UpdateOps(w.rib, u)))
  }

  /** A route and the name it is registered under. */
  datatype Planted = Planted(name: Name, route: Route)

  ghost predicate NewNames(plan: seq<Planted>) {
    forall i, j | 0 <= i < j < |plan| :: plan[i].name != plan[j].name
  }

  /** The table holds the planted routes, one name each, and nothing else. */
  ghost predicate Holds(t: Table, plan: seq<Planted>) {
    && (forall p | p in plan :: p.name in t && t[p.name].routes == [p.route])
    && (forall n | n in t :: exists p :: p in plan && p.name == n)
  }

  lemma StartIsRight()
    ensures Right(World(Empty, map[])) && Holds(Empty.table, [])
  {
    EmptyIsExact();
    forall f ensures RightOn(Empty.table, map[], f) {
      forall d ensures CoveredAt(Empty.table, d, f) && TidyAt(Empty.table, d, f) {}
      forall d ensures Get(map[], d, f) == NextHop(Empty.table, d, f) {}
    }
  }

  /** A registration under a new name is right in every state. */
  lemma NewNameStaysRight(w: World, n: Name, r: Route)
    requires Right(w) && n !in w.rib.table
    ensures Right(After(w, Register(n, r)))
  {
    var u := Register(n, r);
    forall f ensures SoundOn(w.rib.table, u, f) && NoLeftover(w.rib.table, u, f) { RightHasNoLeftover(w, n, f); }
    StaysRight(w, u);
  }

  lemma RoutesAfterNewName(s: Rib, n: Name, r: Route, plan: seq<Planted>)
    requires Good(s) && n !in s.table && Holds(s.table, plan)
    ensures Holds(Commit(s, Register(n, r)).table, plan + [Planted(n, r)])
  {
    var u := Register(n, r);
    var c := Edited(s, u).table;
    var t := Commit(s, u).table;
    InsertedTable(s, n, r);
    forall m | m in c ensures t[m].routes == c[m].routes { RecordsAfterOps(c, UpdateOps(s, u), m, 0); }
    forall p | p in plan ensures p.name in t && t[p.name].routes == [p.route] { assert SameRoutesAt(s.table, c, p.name); }
    forall m | m in t ensures exists p :: p in plan + [Planted(n, r)] && p.name == m {
      if m == n {
        assert Planted(n, r) in plan + [Planted(n, r)];
      } else {
        assert SameRoutesAt(s.table, c, m);
        var p :| p in plan && p.name == m;
        assert p in plan + [Planted(n, r)];
      }
    }
  }

  /** The state after routes are registered under new names, one after the other. */
  ghost function Grow(plan: seq<Planted>): (w: World)
    requires NewNames(plan)
    ensures Right(w) && Holds(w.rib.table, plan)
  {
    if plan == [] then
      StartIsRight();
      World(Empty, map[])
    else
      var front, last := plan[..|plan| - 1], plan[|plan| - 1];
      assert NewNames(front) && plan == front + [last];
      var w := Grow(front);
      assert last.name !in w.rib.table by { NotPlanted(w.rib.table, front, last.name); }
      NewNameStaysRight(w, last.name, last.route);
      RoutesAfterNewName(w.rib, last.name, last.route, front);
      After(w, Register(last.name, last.route))
  }

  lemma NotPlanted(t: Table, plan: seq<Planted>, n: Name)
    requires Holds(t, plan) && forall p | p in plan :: p.name != n
    ensures n !in t
  {
  }

  // ----- the names and routes of the examples -----

  const A: Name := [NameComponent.Component(NameComponent.GENERIC, [97])]
  const AB: Name := A + [NameComponent.Component(NameComponent.GENERIC, [98])]

  const FromRoot := Route(1, 0, CHILD_INHERIT, 10)
  const Wall := Route(2, 0, CAPTURE, 20)
  const Leaf := Route(3, 0, 0, 30)

  lemma NamesDiffer()
    ensures [] < A < AB && [] != A && A != AB && AB[..1] == A && AB[..0] == [] && A[..0] == [] && AB[..2] == AB && A[..1] == A
    ensures |A| == 1 && |AB| == 2
  {
  }

  lemma FlagsOfRoutes()
    ensures FromRoot.IsChildInherit() && !FromRoot.IsCapture()
    ensures !Wall.IsChildInherit() && Wall.IsCapture()
    ensures !Leaf.IsChildInherit() && !Leaf.IsCapture()
  {
  }

  /** An update that is not sound on a face leaves the forwarding table wrong there. */
  lemma UnsoundIsWrong(w: World, u: RibUpdate, f: nat)
    requires Right(w) && Admissible(w.rib.table, u) && Misdelivers(w.rib.table, u, f) && Reaches(w.rib.table, u.name, f)
    ensures !ExactOn(After(w, u).rib.table, After(w, u).fib, f)
  {
    assert RightOn(w.rib.table, w.fib, f);
    UpdateExact(w.rib, u, w.fib, f);
  }

  /** The name under `A` is open to what `A` sends down. */
  lemma LeafIsReached(t: Table)
    requires AB in t && t[AB].routes == [Leaf]
    ensures Reaches(t, A, 1)
  {
    NamesDiffer();
    FlagsOfRoutes();
    assert PassesAt(t, AB, 2, 1);
    assert Open(t, A, AB, 1) && !HasFace(t[AB].routes, 1);
  }

  lemma RootArrives(t: Table)
    requires [] in t && t[[]].routes == [FromRoot]
    ensures Arriving(t, A, 1) == Some(FromRoot)
  {
    NamesDiffer();
    FlagsOfRoutes();
    assert FromRoot in t[[]].routes;
    assert OffersOn([FromRoot], 1) == Some(FromRoot);
  }

  const WallPlan: seq<Planted> := [Planted([], FromRoot), Planted(A, Wall), Planted(AB, Leaf)]

  lemma PlansAreNew()
    ensures NewNames(WallPlan) && NewNames(OfferPlan) && NewNames(RecordPlan)
  {
    NamesDiffer();
  }

  lemma PlanHolds(t: Table, plan: seq<Planted>, i: nat)
    requires Holds(t, plan) && i < |plan|
    ensures plan[i].name in t && t[plan[i].name].routes == [plan[i].route]
  {
    assert plan[i] in plan;
  }

  lemma WallMisdelivers(t: Table)
    requires Holds(t, WallPlan)
    ensures Misdelivers(t, Unregister(A, Wall), 1) && Reaches(t, A, 1)
  {
    PlanHolds(t, WallPlan, 0);
    PlanHolds(t, WallPlan, 1);
    PlanHolds(t, WallPlan, 2);
    RootArrives(t);
    LeafIsReached(t);
    FlagsOfRoutes();
    assert FindRoute([Wall], Wall) == 0 && WithoutIndex([Wall], 0) == [];
  }

  /** Erasing the last route of a capturing name: the names under it do not get their ancestors' routes back. */
  lemma ErasedCaptureKeepsRoutesAway()
    ensures NewNames(WallPlan)
    ensures var v := After(Grow(WallPlan), Unregister(A, Wall)); !ExactOn(v.rib.table, v.fib, 1)
  {
    PlansAreNew();
    WallGoesWrong(Grow(WallPlan));
  }

  lemma WallGoesWrong(w: World)
    requires Right(w) && Holds(w.rib.table, WallPlan)
    ensures var v := After(w, Unregister(A, Wall)); !ExactOn(v.rib.table, v.fib, 1)
  {
    WallMisdelivers(w.rib.table);
    UnsoundIsWrong(w, Unregister(A, Wall), 1);
  }

  // ----- capture turned on beside an own offer -----

  const OwnOffer := Route(1, 0, CHILD_INHERIT, 5)
  const OfferPlan: seq<Planted> := [Planted([], FromRoot), Planted(A, OwnOffer), Planted(AB, Leaf)]

  lemma OwnOfferFacts()
    ensures OwnOffer.IsChildInherit() && !OwnOffer.IsCapture()
    ensures HasChildInherit([OwnOffer], 1) && !Captures([OwnOffer]) && !HasFace([OwnOffer], 2)
    ensures FindRoute([OwnOffer], Wall) == 1 && OffersOn([OwnOffer], 1) == Some(OwnOffer)
  {
    assert OwnOffer in [OwnOffer];
  }

  lemma OfferMisdelivers(t: Table)
    requires Holds(t, OfferPlan)
    ensures Misdelivers(t, Register(A, Wall), 1) && Reaches(t, A, 1) && Admissible(t, Register(A, Wall))
  {
    PlanHolds(t, OfferPlan, 0);
    PlanHolds(t, OfferPlan, 1);
    PlanHolds(t, OfferPlan, 2);
    RootArrives(t);
    LeafIsReached(t);
    FlagsOfRoutes();
    OwnOfferFacts();
  }

  /** A further route with capture: the names under it lose a face that their parent offers itself. */
  lemma CaptureTakesOwnOfferAway()
    ensures NewNames(OfferPlan)
    ensures var v := After(Grow(OfferPlan), Register(A, Wall)); !ExactOn(v.rib.table, v.fib, 1)
  {
    PlansAreNew();
    OfferGoesWrong(Grow(OfferPlan));
  }

  lemma OfferGoesWrong(w: World)
    requires Right(w) && Holds(w.rib.table, OfferPlan)
    ensures var v := After(w, Register(A, Wall)); !ExactOn(v.rib.table, v.fib, 1)
  {
    OfferMisdelivers(w.rib.table);
    UnsoundIsWrong(w, Register(A, Wall), 1);
  }

  // ----- a record that is left over -----

  const Own := Route(1, 0, 0, 5)
  const Plain := Route(2, 0, 0, 20)
  const RecordPlan: seq<Planted> := [Planted([], FromRoot), Planted(A, Plain)]

  /** A further route without capture leaves the records of its name alone. */
  lemma FurtherRouteKeepsRecords(s: Rib, n: Name, r: Route, f: nat)
    requires Good(s) && n in s.table && !r.IsCapture()
    requires FindRoute(s.table[n].routes, r) == |s.table[n].routes|
    ensures var t := Commit(s, Register(n, r)).table;
      && OnlyAt(s.table, t, n) && n in t && t[n].routes == s.table[n].routes + [r]
      && CountOn(t[n].inherited, f) == CountOn(s.table[n].inherited, f)
  {
    var u := Register(n, r);
    var c, t, ops := Edited(s, u).table, Commit(s, u).table, UpdateOps(s, u);
    InsertedTable(s, n, r);
    NewRouteEmits(s.table, n, r, f);
    CountThenAdd(false, f == r.faceId && BestRoute(s.table[n].routes, r), n, r, r, CountOn(s.table[n].inherited, f));
    forall m | m in c ensures t[m].routes == c[m].routes { RecordsAfterOps(c, ops, m, f); }
    RecordsAfterOps(c, ops, n, f);
    forall m | m != n ensures SameRoutesAt(s.table, t, m) { assert SameRoutesAt(s.table, c, m); }
  }

  /** Any update that takes routes on a face away, and a name in reach with a route of its own on the face: its next
      hop stays right if and only if it keeps no leftover record there; otherwise it is gone. */
  lemma LeftoverRecordLosesHop(w: World, u: RibUpdate, d: Name, f: nat)
    requires Good(w.rib) && Admissible(w.rib.table, u) && TakesAway(w.rib.table, u, f)
    requires Open(w.rib.table, u.name, d, f) && HasFace(w.rib.table[d].routes, f)
    requires Get(w.fib, d, f) == NextHop(w.rib.table, d, f)
    ensures var v := After(w, u);
      && NextHop(v.rib.table, d, f).Some?
      && Get(v.fib, d, f) == (if HasRecord(w.rib.table[d], f) then None else NextHop(v.rib.table, d, f))
  {
    var t := w.rib.table;
    var add, remove, more := Traversals(w.rib, u, f);
    assert EmitsAt(t, u.name, add, remove, more, UpdateOps(w.rib, u), f, d);
    HopAfter(w, u, d, f);
    VisitEffect(d, t[d], add, remove, more, f, NextHop(t, d, f));
    OwnRoutesStay(w.rib, u, d);
  }

  /** The routes of the other names stay as they are. */
  lemma OwnRoutesStay(s: Rib, u: RibUpdate, d: Name)
    requires RibExact(s) && OnlyAt(s.table, Edited(s, u).table, u.name) && d != u.name
    ensures SameRoutesAt(s.table, Commit(s, u).table, d)
  {
    assert SameRoutesAt(s.table, Edited(s, u).table, d);
    RoutesAfterRecords(Edited(s, u).table, UpdateOps(s, u), d);
  }

  lemma HopAfter(w: World, u: RibUpdate, d: Name, f: nat)
    requires RibExact(w.rib)
    ensures Get(After(w, u).fib, d, f) == Effect(Get(w.fib, d, f), Project(UpdateOps(w.rib, u), d, f))
  {
    GetAfterOps(w.fib, UpdateOps(w.rib, u), d, f);
  }

  lemma RecordPlanFacts(w: World)
    requires Right(w) && Holds(w.rib.table, RecordPlan)
    ensures var t := w.rib.table;
      && [] in t && t[[]].routes == [FromRoot] && A in t && t[A].routes == [Plain]
      && HasRecord(t[A], 1) && !HasFace([Plain], 1) && !Own.IsCapture()
  {
    var t := w.rib.table;
    PlanHolds(t, RecordPlan, 0);
    PlanHolds(t, RecordPlan, 1);
    RootArrives(t);
    RightRecords(w, A, 1);
    RecordIsThere(t);
  }

  lemma RightRecords(w: World, d: Name, f: nat)
    requires Right(w)
    ensures CoveredAt(w.rib.table, d, f)
  {
    assert RightOn(w.rib.table, w.fib, f);
  }

  lemma RecordIsThere(t: Table)
    requires CoveredAt(t, A, 1) && A in t && t[A].routes == [Plain] && Arriving(t, A, 1).Some?
    ensures HasRecord(t[A], 1) && !HasFace([Plain], 1) && !Own.IsCapture()
  {
    SingleRoute(Plain, 1);
  }

  lemma OwnPasses(t: Table)
    requires [] in t && t[[]].routes == [FromRoot] && A in t && t[A].routes == [Plain, Own]
    ensures Open(t, [], A, 1) && HasFace(t[A].routes, 1) && Arriving(t, [], 1) == None
  {
    NamesDiffer();
    assert PassesAt(t, A, 1, 1);
    assert Own in t[A].routes;
  }

  lemma FurtherRouteState(s: Rib, n: Name, was: Route, r: Route, m: Name, f: nat)
    requires Good(s) && n in s.table && s.table[n].routes == [was] && m in s.table && m != n
    requires !r.IsCapture() && r.faceId != was.faceId
    ensures var t := Commit(s, Register(n, r)).table;
      && Good(Commit(s, Register(n, r)))
      && n in t && t[n].routes == [was, r] && CountOn(t[n].inherited, f) == CountOn(s.table[n].inherited, f)
      && m in t && t[m].routes == s.table[m].routes
  {
    assert FindRoute([was], r) == 1 && !HasFace([was], r.faceId) && [was] + [r] == [was, r];
    CommitKeepsGood(s, Register(n, r));
    FurtherRouteKeepsRecords(s, n, r, f);
    assert SameRoutesAt(s.table, Commit(s, Register(n, r)).table, m);
  }

  /** A further route on a face on which nothing arrives from the name itself: the next hop of the name is the own
      one. */
  lemma OwnHopIsThere(w: World)
    requires Right(w) && Holds(w.rib.table, RecordPlan)
    ensures var v := After(w, Register(A, Own));
      Get(v.fib, A, 1) == Some(Own.cost) && NextHop(v.rib.table, A, 1) == Some(Own.cost)
  {
    RecordPlanFacts(w);
    OwnFacts();
    OwnHopOfFurther(w, A, Own);
    FurtherRouteKeepsRecords(w.rib, A, Own, 1);
  }

  lemma OwnFacts()
    ensures FindRoute([Plain], Own) == 1 && [Plain] + [Own] == [Plain, Own] && Own.faceId == 1 && !Own.IsCapture()
    ensures BestRoute([Plain], Own) && HasFace([Plain, Own], 1) && Cheapest([Plain, Own], 1) == Some(Own)
  {
    assert Own in [Plain, Own];
    assert Cheapest([Plain], 1) == None;
    assert [Plain, Own][..1] == [Plain];
  }

  lemma OwnHopOfFurther(w: World, n: Name, r: Route)
    requires Good(w.rib) && n in w.rib.table && FindRoute(w.rib.table[n].routes, r) == |w.rib.table[n].routes|
    requires !r.IsCapture() && BestRoute(w.rib.table[n].routes, r)
    ensures Get(After(w, Register(n, r)).fib, n, r.faceId) == Some(r.cost)
  {
    NewRouteEmits(w.rib.table, n, r, r.faceId);
    HopAfter(w, Register(n, r), n, r.faceId);
    assert Project(UpdateOps(w.rib, Register(n, r)), n, r.faceId) == [] + [AddHop(n, r.faceId, r.cost)];
  }

  /** Registering a route on a face that the name already inherits, and then losing the ancestor's route: the
      name's own next hop is gone. */
  lemma OwnHopIsLost()
    ensures NewNames(RecordPlan)
    ensures var w := After(Grow(RecordPlan), Register(A, Own));
      && RibExact(w.rib)
      && var v := After(w, Unregister([], FromRoot));
         Get(v.fib, A, 1) == None && NextHop(v.rib.table, A, 1).Some?
  {
    PlansAreNew();
    RecordGoesWrong(Grow(RecordPlan));
  }

  lemma RecordGoesWrong(w0: World)
    requires Right(w0) && Holds(w0.rib.table, RecordPlan)
    ensures var w := After(w0, Register(A, Own));
      && RibExact(w.rib)
      && var v := After(w, Unregister([], FromRoot));
         Get(v.fib, A, 1) == None && NextHop(v.rib.table, A, 1).Some?
  {
    NamesDiffer();
    RecordPlanFacts(w0);
    FurtherRouteState(w0.rib, A, Plain, Own, [], 1);
    OwnHopIsThere(w0);
    RootLeaves(After(w0, Register(A, Own)));
  }

  /** The root's only route goes, above a name with an own route and a leftover record on its face. */
  lemma RootLeaves(w: World)
    requires Good(w.rib) && [] in w.rib.table && w.rib.table[[]].routes == [FromRoot]
    requires A in w.rib.table && w.rib.table[A].routes == [Plain, Own] && HasRecord(w.rib.table[A], 1)
    requires Get(w.fib, A, 1) == NextHop(w.rib.table, A, 1)
    ensures var v := After(w, Unregister([], FromRoot)); Get(v.fib, A, 1) == None && NextHop(v.rib.table, A, 1).Some?
  {
    OwnPasses(w.rib.table);
    FlagsOfRoutes();
    assert FindRoute([FromRoot], FromRoot) == 0;
    LeftoverRecordLosesHop(w, Unregister([], FromRoot), A, 1);
  }

  // ----- one of several offers is erased -----

  const Second := Route(2, 0, CHILD_INHERIT, 7)

  /** A new name starts with the records of what arrives there. */
  lemma NewNameRecords(s: Rib, n: Name, r: Route, f: nat)
    requires Good(s) && n !in s.table
    ensures var t := Commit(s, Register(n, r)).table;
      && n in t && t[n].routes == [r]
      && CountOn(t[n].inherited, f) == if f != r.faceId && !r.IsCapture() && Arriving(s.table, n, f).Some? then 1 else 0
  {
    var t, c := s.table, Insert(s, n, r).table;
    FutureChildrenAreTops(s, n);
    NewNameEmits(t, n, r, FutureChildren(t, ParentOf(t.Keys, n), Under(s.order, n)), f);
    InsertedTable(s, n, r);
    NewNameCount(t, n, r, f);
    RecordsAfterOps(c, RegisterOps(s, n, r), n, f);
  }

  lemma NewNameKeepsOthers(s: Rib, n: Name, r: Route, m: Name)
    requires Good(s) && n !in s.table && m != n
    ensures SameRoutesAt(s.table, Commit(s, Register(n, r)).table, m)
  {
    InsertedTable(s, n, r);
    var c := Insert(s, n, r).table;
    assert SameRoutesAt(s.table, c, m);
    if m in c { RecordsAfterOps(c, RegisterOps(s, n, r), m, 0); }
  }

  /** A further route on a face of which the name has no record stays right where nothing arrives. */
  lemma FurtherRouteStaysRight(w: World, n: Name, r: Route)
    requires Right(w) && n in w.rib.table && !HasFace(w.rib.table[n].routes, r.faceId)
    requires FindRoute(w.rib.table[n].routes, r) == |w.rib.table[n].routes|
    requires CountOn(w.rib.table[n].inherited, r.faceId) == 0 && forall f :: Arriving(w.rib.table, n, f) == None
    ensures Right(After(w, Register(n, r)))
  {
    var u := Register(n, r);
    forall f ensures SoundOn(w.rib.table, u, f) && NoLeftover(w.rib.table, u, f) {
      assert Arriving(w.rib.table, n, f) == None;
      assert !HasChildInherit(w.rib.table[n].routes, r.faceId);
    }
    StaysRight(w, u);
  }

  lemma NothingArrives(t: Table, f: nat)
    requires [] !in t
    ensures Arriving(t, A, f) == None
  {
    NamesDiffer();
    assert Offered(t, A, 0, f) == None;
  }

  /** `A` alone with one offer, then with two, then the root above it, then the name under it. */
  ghost function Single(): (w: World)
    ensures Right(w) && w.rib.table.Keys == {A} && w.rib.table[A].routes == [Second]
    ensures CountOn(w.rib.table[A].inherited, 1) == 0
  {
    StartIsRight();
    SingleIsRight(World(Empty, map[]));
    After(World(Empty, map[]), Register(A, Second))
  }

  lemma SingleIsRight(w: World)
    requires Right(w) && w.rib.table == map[]
    ensures var v := After(w, Register(A, Second));
      Right(v) && v.rib.table.Keys == {A} && v.rib.table[A].routes == [Second] && CountOn(v.rib.table[A].inherited, 1) == 0
  {
    NewNameStaysRight(w, A, Second);
    NothingArrives(w.rib.table, 1);
    NewNameRecords(w.rib, A, Second, 1);
    RoutesAfterNewName(w.rib, A, Second, []);
    OnlyPlanted(After(w, Register(A, Second)).rib.table, A, Second);
  }

  lemma OnlyPlanted(t: Table, n: Name, r: Route)
    requires Holds(t, [] + [Planted(n, r)])
    ensures t.Keys == {n}
  {
    assert Planted(n, r) in [] + [Planted(n, r)];
  }

  ghost function Double(): (w: World)
    ensures Right(w) && [] !in w.rib.table && AB !in w.rib.table
    ensures A in w.rib.table && w.rib.table[A].routes == [Second, OwnOffer]
  {
    var w := Single();
    DoubleIsRight(w);
    After(w, Register(A, OwnOffer))
  }

  lemma DoubleIsRight(w: World)
    requires Right(w) && w.rib.table.Keys == {A} && w.rib.table[A].routes == [Second]
    requires CountOn(w.rib.table[A].inherited, 1) == 0
    ensures var v := After(w, Register(A, OwnOffer));
      Right(v) && [] !in v.rib.table && AB !in v.rib.table && A in v.rib.table && v.rib.table[A].routes == [Second, OwnOffer]
  {
    DoubleRoutes();
    assert A in w.rib.table.Keys && [] !in w.rib.table.Keys && AB !in w.rib.table.Keys;
    forall f ensures Arriving(w.rib.table, A, f) == None { NothingArrives(w.rib.table, f); }
    FurtherRouteStaysRight(w, A, OwnOffer);
    FurtherRouteElsewhere(w.rib, A, OwnOffer);
  }

  lemma DoubleRoutes()
    ensures FindRoute([Second], OwnOffer) == 1 && !HasFace([Second], OwnOffer.faceId)
    ensures [Second] + [OwnOffer] == [Second, OwnOffer]
    ensures !OwnOffer.IsCapture() && OwnOffer.faceId == 1 && [] != A && AB != A
  {
    NamesDiffer();
  }

  lemma FurtherRouteElsewhere(s: Rib, n: Name, r: Route)
    requires Good(s) && n in s.table && !r.IsCapture() && FindRoute(s.table[n].routes, r) == |s.table[n].routes|
    ensures var t := Commit(s, Register(n, r)).table;
      n in t && t[n].routes == s.table[n].routes + [r] && forall m | m !in s.table :: m !in t
  {
    FurtherRouteKeepsRecords(s, n, r, 0);
    var t := Commit(s, Register(n, r)).table;
    forall m | m !in s.table ensures m !in t { assert SameRoutesAt(s.table, t, m); }
  }

  ghost predicate IsFull(t: Table) {
    && [] in t && t[[]].routes == [FromRoot] && A in t && t[A].routes == [Second, OwnOffer]
    && AB in t && t[AB].routes == [Leaf]
  }

  lemma FullIsRight(w: World)
    requires Right(w) && [] !in w.rib.table && AB !in w.rib.table
    requires A in w.rib.table && w.rib.table[A].routes == [Second, OwnOffer]
    ensures var w1 := After(w, Register([], FromRoot));
      Right(w1) && var w2 := After(w1, Register(AB, Leaf)); Right(w2) && IsFull(w2.rib.table)
  {
    NamesDiffer();
    var w1 := After(w, Register([], FromRoot));
    NewNameStaysRight(w, [], FromRoot);
    NewNameKeepsOthers(w.rib, [], FromRoot, A);
    NewNameKeepsOthers(w.rib, [], FromRoot, AB);
    NewNameRecords(w.rib, [], FromRoot, 1);
    NewNameStaysRight(w1, AB, Leaf);
    NewNameKeepsOthers(w1.rib, AB, Leaf, A);
    NewNameKeepsOthers(w1.rib, AB, Leaf, []);
    NewNameRecords(w1.rib, AB, Leaf, 1);
  }

  ghost function Full(): (w: World)
    ensures Right(w) && IsFull(w.rib.table)
  {
    var w := Double();
    FullIsRight(w);
    After(After(w, Register([], FromRoot)), Register(AB, Leaf))
  }

  lemma SecondMisdelivers(t: Table)
    requires IsFull(t)
    ensures Misdelivers(t, Unregister(A, Second), 1) && Reaches(t, A, 1)
  {
    RootArrives(t);
    LeafIsReached(t);
    OwnOfferFacts();
    var routes := [Second, OwnOffer];
    assert FindRoute(routes, Second) == 0 && WithoutIndex(routes, 0) == [OwnOffer];
    assert Second.IsChildInherit();
  }

  /** Erasing one of several offers gives the names under it their ancestors' routes back, also on a face that
      their parent still offers itself at another cost. */
  lemma ErasedOfferBringsWrongCost()
    ensures var v := After(Full(), Unregister(A, Second)); !ExactOn(v.rib.table, v.fib, 1)
  {
    var w := Full();
    SecondMisdelivers(w.rib.table);
    UnsoundIsWrong(w, Unregister(A, Second), 1);
  }
}
