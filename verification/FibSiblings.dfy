/**
 Several routes of one name on one face, and re-registrations that change flags: what the step theorem says there
 in terms of costs and list order, and reachable states in which the code goes wrong.
 */
module FibSiblings {
  import opened Wrappers
  import opened Names
  import opened Routes
  import opened RibTree
  import opened FibSpec
  import opened FibOps
  import opened FibCompute
  import opened FibApply
  import opened FibEdit
  import opened FibSteps
  import opened FibKnown
  import opened FibTheorem
  import opened FibCommit
  import opened RouteLists
  import opened Witnesses

  // ----- registering beside a route on the same face -----

  /** Capture is turned on where a route on `f` arrives. */
  ghost predicate Blocks(t: Table, n: Name, r: Route, f: nat)
    requires n in t
  {
    !Captures(t[n].routes) && r.IsCapture() && Arriving(t, n, f).Some?
  }

  /** The new route is the cheapest on its face `f`. */
  predicate Undercuts(routes: seq<Route>, r: Route, f: nat) {
    f == r.faceId && forall x | x in routes && x.faceId == f :: r.cost <= x.cost
  }

  /** The new route is the cheapest offer on its face `f`. */
  predicate Overrides(routes: seq<Route>, r: Route, f: nat) {
    f == r.faceId && r.IsChildInherit() && forall x | x in routes && x.faceId == f && x.IsChildInherit() :: r.cost <= x.cost
  }

  /** The conditions of the step theorem in terms of costs and list order. */
  lemma SiblingTerms(t: Table, n: Name, r: Route, f: nat)
    requires n in t && HasFace(t[n].routes, r.faceId)
    ensures var routes := t[n].routes;
      && (RouteLosesOwn(t, n, r, f) <==>
          Blocks(t, n, r, f) && HasRecord(t[n], f) && HasFace(routes, f) && !Undercuts(routes, r, f))
      && (RouteMisdelivers(t, n, r, f) <==>
          HasChildInherit(routes, f) &&
          if Overrides(routes, r, f) then CostOf(OffersOn(routes, f)) != Some(r.cost) else Blocks(t, n, r, f))
  {
    var routes := t[n].routes;
    BestInCosts(routes, r);
    if f == r.faceId {
      assert Undercuts(routes, r, f) <==> BestRoute(routes, r);
      assert Overrides(routes, r, f) <==> BestOffer(routes, r);
    }
  }

  lemma BestInCosts(routes: seq<Route>, r: Route)
    ensures BestRoute(routes, r) <==> forall x | x in routes && x.faceId == r.faceId :: r.cost <= x.cost
    ensures BestOffer(routes, r) <==>
            r.IsChildInherit() && forall x | x in routes && x.faceId == r.faceId && x.IsChildInherit() :: r.cost <= x.cost
  {
    var a, b := Cheapest(routes, r.faceId), CheapestOffer(routes, r.faceId);
    if a.Some? { assert a.value in routes && a.value.faceId == r.faceId; }
    if b.Some? { assert b.value in routes && b.value.faceId == r.faceId && b.value.IsChildInherit(); }
  }

  /** A further route on a face that the name already uses. On every face, the name's own next hop is right unless
      capture is turned on, a leftover record is taken for it, and the new route does not undercut it. The names under
      it are left right if and only if nobody would use the face, or: a new cheapest offer costs what the first listed
      offer costs, and otherwise capture is not turned on over an own offer; and no leftover record is in reach of what
      capture takes away. */
  lemma SiblingRegistrationExact(s: Rib, n: Name, r: Route, fib: Fib, f: nat)
    requires Good(s) && n in s.table && Covered(s.table, f) && ExactOn(s.table, fib, f)
    requires FindRoute(s.table[n].routes, r) == |s.table[n].routes| && HasFace(s.table[n].routes, r.faceId)
    ensures var t, u, routes := s.table, Register(n, r), s.table[n].routes;
      var after, hops := Commit(s, u).table, ApplyOps(fib, UpdateOps(s, u));
      && (Get(hops, n, f) == NextHop(after, n, f) <==>
          !(Blocks(t, n, r, f) && HasRecord(t[n], f) && HasFace(routes, f) && !Undercuts(routes, r, f)))
      && (ExactOn(after, hops, f) <==>
          && Get(hops, n, f) == NextHop(after, n, f)
          && (Reaches(t, n, f) && HasChildInherit(routes, f) ==>
              if Overrides(routes, r, f) then CostOf(OffersOn(routes, f)) == Some(r.cost) else !Blocks(t, n, r, f))
          && (Blocks(t, n, r, f) ==> !LeftoverBelow(t, n, f)))
  {
    OwnHopAfterSibling(s, n, r, fib, f);
    UpdateExact(s, Register(n, r), fib, f);
    SoundCases(s.table, Register(n, r), f);
    SiblingTerms(s.table, n, r, f);
    assert Blocks(s.table, n, r, f) <==> TurnsCaptureOn(s.table[n], r) && Arriving(s.table, n, f).Some?;
  }

  /** The next hop of the edited name after its own emissions. */
  lemma OwnHop(t: Table, c: Table, fib: Fib, ops: seq<Op>, n: Name, f: nat)
    requires Get(fib, n, f) == NextHop(t, n, f)
    ensures Get(ApplyOps(fib, ops), n, f) == NextHop(ApplyRecords(c, ops), n, f) <==>
            Effect(NextHop(t, n, f), Project(ops, n, f)) == NextHop(c, n, f)
  {
    GetAfterOps(fib, ops, n, f);
    NextHopIgnoresRecords(c, ops, n, f);
  }

  lemma OwnHopAfterSibling(s: Rib, n: Name, r: Route, fib: Fib, f: nat)
    requires Good(s) && n in s.table && CoveredAt(s.table, n, f) && Get(fib, n, f) == NextHop(s.table, n, f)
    requires FindRoute(s.table[n].routes, r) == |s.table[n].routes|
    ensures var u := Register(n, r);
      Get(ApplyOps(fib, UpdateOps(s, u)), n, f) == NextHop(Commit(s, u).table, n, f) <==> !RouteLosesOwn(s.table, n, r, f)
  {
    var c := Insert(s, n, r).table;
    InsertedTable(s, n, r);
    NewRouteEmits(s.table, n, r, f);
    NewRouteOwn(s.table, c, n, r, f);
    OwnHop(s.table, c, fib, RegisterOps(s, n, r), n, f);
  }

  // ----- erasing one of several routes on a face -----

  /** Erasing one of several routes on a face. On that face the name's own next hop is right if and only if the route
      was a cheapest one, or the two cheapest tie, or by chance what arrives on the face costs the same; on every other
      face it is right. The names under it are left right if and only if `ErasureMisdelivers` does not hold or nobody
      would use the face, and no leftover record is in reach of an offer that is taken away. */
  lemma SiblingErasureExact(s: Rib, n: Name, r: Route, fib: Fib, f: nat)
    requires Good(s) && n in s.table && Covered(s.table, f) && ExactOn(s.table, fib, f)
    requires FindRoute(s.table[n].routes, r) < |s.table[n].routes|
    requires HasFace(WithoutIndex(s.table[n].routes, FindRoute(s.table[n].routes, r)), r.faceId)
    ensures var t, u, routes := s.table, Unregister(n, r), s.table[n].routes;
      var i := FindRoute(routes, r);
      var rest, gone := WithoutIndex(routes, i), routes[i];
      var best, after, hops := Cheapest(rest, r.faceId), Commit(s, u).table, ApplyOps(fib, UpdateOps(s, u));
      && best.Some? && Cheapest(routes, r.faceId).Some? && SecondCheapest(routes, r.faceId).Some?
      && (Get(hops, n, f) == NextHop(after, n, f) <==>
          || f != r.faceId
          || gone.cost <= best.value.cost
          || SecondCheapest(routes, f).value.cost == Cheapest(routes, f).value.cost
          || (!Captures(rest) && CostOf(Arriving(t, n, f)) == CostOf(best)))
      && (ExactOn(after, hops, f) <==>
          && Get(hops, n, f) == NextHop(after, n, f)
          && (ErasureMisdelivers(t, n, i, f) ==> !Reaches(t, n, f))
          && (f == r.faceId && gone.IsChildInherit() ==> !LeftoverBelow(t, n, f)))
  {
    var i := FindRoute(s.table[n].routes, r);
    SiblingErasureTerms(s.table, n, i, f);
    OwnHopAfterErasure(s, n, r, fib, f);
    UpdateExact(s, Unregister(n, r), fib, f);
    SoundCases(s.table, Unregister(n, r), f);
  }

  /** When the own next hop is missed, in terms of costs. */
  lemma SiblingErasureTerms(t: Table, n: Name, i: nat, f: nat)
    requires n in t && i < |t[n].routes| && HasFace(WithoutIndex(t[n].routes, i), t[n].routes[i].faceId)
    ensures var routes, rest, gone := t[n].routes, WithoutIndex(t[n].routes, i), t[n].routes[i];
      var best := Cheapest(rest, gone.faceId);
      && |routes| > 1
      && best.Some? && Cheapest(routes, gone.faceId).Some? && SecondCheapest(routes, gone.faceId).Some?
      && (!ErasureMissesOwn(t, n, i, f) <==>
          || f != gone.faceId
          || gone.cost <= best.value.cost
          || SecondCheapest(routes, f).value.cost == Cheapest(routes, f).value.cost
          || (!Captures(rest) && CostOf(Arriving(t, n, f)) == CostOf(best)))
  {
    SecondAgainstRest(t[n].routes, i);
  }

  lemma OwnHopAfterErasure(s: Rib, n: Name, r: Route, fib: Fib, f: nat)
    requires Good(s) && n in s.table && Get(fib, n, f) == NextHop(s.table, n, f)
    requires FindRoute(s.table[n].routes, r) < |s.table[n].routes| && |s.table[n].routes| > 1
    ensures var u := Unregister(n, r);
      Get(ApplyOps(fib, UpdateOps(s, u)), n, f) == NextHop(Commit(s, u).table, n, f) <==>
      !ErasureMissesOwn(s.table, n, FindRoute(s.table[n].routes, r), f)
  {
    OwnHopOfErase(s, n, r, fib, f);
  }

  lemma OwnHopOfErase(s: Rib, n: Name, r: Route, fib: Fib, f: nat)
    requires Good(s) && n in s.table && Get(fib, n, f) == NextHop(s.table, n, f)
    requires FindRoute(s.table[n].routes, r) < |s.table[n].routes| && |s.table[n].routes| > 1
    ensures Get(ApplyOps(fib, UnregisterOps(s, n, r)), n, f) ==
            NextHop(ApplyRecords(Erase(s, n, r).table, UnregisterOps(s, n, r)), n, f) <==>
            !ErasureMissesOwn(s.table, n, FindRoute(s.table[n].routes, r), f)
  {
    ErasedTable(s, n, r);
    OwnErasure(s.table, Erase(s, n, r).table, fib, n, FindRoute(s.table[n].routes, r), f);
  }

  lemma OwnErasure(t: Table, c: Table, fib: Fib, n: Name, i: nat, f: nat)
    requires TreeExact(t) && CaptureExact(t) && n in t && i < |t[n].routes| && |t[n].routes| > 1
    requires OnlyAt(t, c, n) && n in c && c[n].routes == WithoutIndex(t[n].routes, i) && Get(fib, n, f) == NextHop(t, n, f)
    ensures var ops := UnregisterFoundOps(t, n, t[n], t[n].routes[i].faceId, i);
      Get(ApplyOps(fib, ops), n, f) == NextHop(ApplyRecords(c, ops), n, f) <==> !ErasureMissesOwn(t, n, i, f)
  {
    FoundOwn(t, n, i, f);
    ErasureOwnEffect(t, c, n, i, f);
    OwnHop(t, c, fib, UnregisterFoundOps(t, n, t[n], t[n].routes[i].faceId, i), n, f);
  }

  // ----- reachable states -----

  const Cheap := Route(1, 0, 0, 5)
  const Dear := Route(1, 1, 0, 9)
  const SiblingPlan: seq<Planted> := [Planted(A, Cheap)]

  /** `A` with two routes on one face, registered one after the other. */
  ghost predicate IsSiblings(w: World) {
    Right(w) && A in w.rib.table && w.rib.table[A].routes == [Cheap, Dear] && [] !in w.rib.table
  }

  ghost function Siblings(): (w: World)
    ensures IsSiblings(w)
  {
    SiblingAdded(Grow(SiblingPlan));
    After(Grow(SiblingPlan), Register(A, Dear))
  }

  lemma SiblingAdded(w: World)
    requires Right(w) && Holds(w.rib.table, SiblingPlan)
    ensures IsSiblings(After(w, Register(A, Dear)))
  {
    var t, u := w.rib.table, Register(A, Dear);
    PlanHolds(t, SiblingPlan, 0);
    NamesDiffer();
    NotPlanted(t, SiblingPlan, []);
    assert FindRoute([Cheap], Dear) == 1 && [Cheap] + [Dear] == [Cheap, Dear];
    forall f ensures SoundOn(t, u, f) && NoLeftover(t, u, f) { PlainSiblingSound(w, f); }
    StaysRight(w, u);
    FurtherRouteKeepsRecords(w.rib, A, Dear, 0);
    assert SameRoutesAt(t, After(w, u).rib.table, []);
  }

  lemma PlainSiblingSound(w: World, f: nat)
    requires Right(w) && A in w.rib.table && w.rib.table[A].routes == [Cheap]
    ensures SoundOn(w.rib.table, Register(A, Dear), f) && NoLeftover(w.rib.table, Register(A, Dear), f)
  {
    var t := w.rib.table;
    assert RightOn(t, w.fib, f) && TidyAt(t, A, f);
    SingleRoute(Cheap, f);
    assert !Dear.IsCapture() && !Dear.IsChildInherit() && FindRoute([Cheap], Dear) == 1;
  }

  /** Erasing the dearer of two routes on a face takes the next hop away that the cheaper one still stands for. */
  lemma DearerErasureLosesHop()
    ensures var w := Siblings(); var v := After(w, Unregister(A, Dear)); Get(v.fib, A, 1) != NextHop(v.rib.table, A, 1)
  {
    DearerGoesWrong(Siblings());
  }

  lemma DearerGoesWrong(w: World)
    requires IsSiblings(w)
    ensures var v := After(w, Unregister(A, Dear)); Get(v.fib, A, 1) != NextHop(v.rib.table, A, 1)
  {
    assert RightOn(w.rib.table, w.fib, 1);
    SiblingCosts();
    NothingArrives(w.rib.table, 1);
    SiblingErasureExact(w.rib, A, Dear, w.fib, 1);
  }

  lemma SiblingCosts()
    ensures var routes := [Cheap, Dear];
      && FindRoute(routes, Dear) == 1 && WithoutIndex(routes, 1) == [Cheap] && HasFace([Cheap], 1)
      && Cheapest([Cheap], 1) == Some(Cheap) && Cheapest(routes, 1) == Some(Cheap)
      && SecondCheapest(routes, 1) == Some(Dear)
  {
    var routes := [Cheap, Dear];
    assert WithoutIndex(routes, 1) == [Cheap] && Cheap in [Cheap];
    assert WithoutRoute(routes, Cheap) == [Dear] && routes[..1] == [Cheap] && [Cheap][..0] == [] && [Dear][..0] == [];
  }

  /** Re-registering the cheaper of two routes without child-inherit at a cost above the other dereferences null. */
  lemma NullIsDereferenced()
    ensures !Computable(Siblings().rib.table, Register(A, Cheap.(cost := 12)))
  {
    NullFrom(Siblings().rib.table);
  }

  lemma NullFrom(t: Table)
    requires A in t && t[A].routes == [Cheap, Dear]
    ensures !Computable(t, Register(A, Cheap.(cost := 12)))
  {
    var r, rs := Cheap.(cost := 12), [Cheap.(cost := 12), Dear];
    assert FindRoute([Cheap, Dear], r) == 0 && [Cheap, Dear][0 := r] == rs;
    assert rs[..1] == [r] && [r][..0] == [] && Cheapest([r], 1) == Some(r) && Cheapest(rs, 1) == Some(Dear);
    assert !r.IsChildInherit() && !Dear.IsChildInherit();
  }

  const Cheaper := Route(1, 1, CHILD_INHERIT, 3)
  const SecondOfferPlan: seq<Planted> := [Planted(A, OwnOffer), Planted(AB, Leaf)]

  /** A second, cheaper offer on the face: the name under it gets the cheaper cost, though a name that is registered
      there later would get the cost of the first listed offer. */
  lemma CheaperOfferMisleads()
    ensures NewNames(SecondOfferPlan)
    ensures var v := After(Grow(SecondOfferPlan), Register(A, Cheaper)); !ExactOn(v.rib.table, v.fib, 1)
  {
    SecondOfferIsNew();
    CheaperGoesWrong(Grow(SecondOfferPlan));
  }

  lemma SecondOfferIsNew()
    ensures NewNames(SecondOfferPlan)
  {
    NamesDiffer();
  }

  lemma CheaperGoesWrong(w: World)
    requires Right(w) && Holds(w.rib.table, SecondOfferPlan)
    ensures var v := After(w, Register(A, Cheaper)); !ExactOn(v.rib.table, v.fib, 1)
  {
    PlanHolds(w.rib.table, SecondOfferPlan, 0);
    PlanHolds(w.rib.table, SecondOfferPlan, 1);
    CheaperMisdelivers(w.rib.table);
    UnsoundIsWrong(w, Register(A, Cheaper), 1);
  }

  lemma CheaperMisdelivers(t: Table)
    requires A in t && t[A].routes == [OwnOffer] && AB in t && t[AB].routes == [Leaf]
    ensures Misdelivers(t, Register(A, Cheaper), 1) && Reaches(t, A, 1) && Admissible(t, Register(A, Cheaper))
  {
    LeafIsReached(t);
    OwnOfferFacts();
    assert FindRoute([OwnOffer], Cheaper) == 1 && [OwnOffer][..0] == [] && CheapestOffer([OwnOffer], 1) == Some(OwnOffer);
    assert Cheaper.IsChildInherit();
  }

  // ----- a record that is erased twice -----

  const Turned := Route(1, 0, CAPTURE, 5)
  const TwicePlan: seq<Planted> := [Planted([], FromRoot), Planted(A, OwnOffer)]

  /** One registration that turns child-inherit off and capture on: `removeInheritedRoute` erases past the end of the
      records of a name with a leftover record. */
  lemma RecordErasedTwice()
    ensures NewNames(TwicePlan)
    ensures var w1 := After(Grow(TwicePlan), Register(AB, Plain));
      && RibExact(w1.rib)
      && var w2, u := After(w1, Register(AB, Own)), Register(A, Turned);
         RibExact(w2.rib) && !Clean(Edited(w2.rib, u).table, UpdateOps(w2.rib, u))
  {
    NamesDiffer();
    TwiceGoesWrong(Grow(TwicePlan));
  }

  lemma TwiceGoesWrong(w: World)
    requires Right(w) && Holds(w.rib.table, TwicePlan)
    ensures var w1 := After(w, Register(AB, Plain));
      && RibExact(w1.rib)
      && var w2, u := After(w1, Register(AB, Own)), Register(A, Turned);
         RibExact(w2.rib) && !Clean(Edited(w2.rib, u).table, UpdateOps(w2.rib, u))
  {
    var w1 := After(w, Register(AB, Plain));
    TwiceGrows(w);
    TwiceFurther(w1.rib);
    TwiceTurns(After(w1, Register(AB, Own)).rib);
  }

  lemma TwiceGrows(w: World)
    requires Right(w) && Holds(w.rib.table, TwicePlan)
    ensures var v := After(w, Register(AB, Plain)).rib;
      && Good(v) && [] in v.table && v.table[[]].routes == [FromRoot] && A in v.table && v.table[A].routes == [OwnOffer]
      && AB in v.table && v.table[AB].routes == [Plain] && CountOn(v.table[AB].inherited, 1) == 1
  {
    var t := w.rib.table;
    NamesDiffer();
    PlanHolds(t, TwicePlan, 0);
    PlanHolds(t, TwicePlan, 1);
    NotPlanted(t, TwicePlan, AB);
    OwnOfferFacts();
    assert Arriving(t, AB, 1) == Some(OwnOffer);
    CommitKeepsGood(w.rib, Register(AB, Plain));
    Witnesses.NewNameRecords(w.rib, AB, Plain, 1);
    NewNameKeepsOthers(w.rib, AB, Plain, A);
    NewNameKeepsOthers(w.rib, AB, Plain, []);
  }

  lemma TwiceFurther(s: Rib)
    requires Good(s) && [] in s.table && s.table[[]].routes == [FromRoot] && A in s.table && s.table[A].routes == [OwnOffer]
    requires AB in s.table && s.table[AB].routes == [Plain] && CountOn(s.table[AB].inherited, 1) == 1
    ensures var v := Commit(s, Register(AB, Own));
      && Good(v) && [] in v.table && v.table[[]].routes == [FromRoot] && A in v.table && v.table[A].routes == [OwnOffer]
      && AB in v.table && v.table[AB].routes == [Plain, Own] && CountOn(v.table[AB].inherited, 1) == 1
  {
    NamesDiffer();
    FurtherRouteState(s, AB, Plain, Own, A, 1);
    FurtherRouteState(s, AB, Plain, Own, [], 1);
  }

  lemma TwiceTurns(s: Rib)
    requires Good(s) && [] in s.table && s.table[[]].routes == [FromRoot] && A in s.table && s.table[A].routes == [OwnOffer]
    requires AB in s.table && s.table[AB].routes == [Plain, Own] && CountOn(s.table[AB].inherited, 1) == 1
    ensures !Clean(Edited(s, Register(A, Turned)).table, UpdateOps(s, Register(A, Turned)))
  {
    TwiceErases(s.table);
    CommitIsClean(s, Register(A, Turned));
  }

  lemma TwiceErases(t: Table)
    requires [] in t && t[[]].routes == [FromRoot] && A in t && t[A].routes == [OwnOffer]
    requires AB in t && t[AB].routes == [Plain, Own] && CountOn(t[AB].inherited, 1) == 1
    ensures ErasesTwice(t, Register(A, Turned))
  {
    NamesDiffer();
    RootArrives(t);
    OwnOfferFacts();
    assert Own in t[AB].routes && PassesAt(t, AB, 2, 1);
    assert ErasesTwiceAt(t, A, 1, AB);
    assert FindRoute([OwnOffer], Turned) == 0;
  }
}
