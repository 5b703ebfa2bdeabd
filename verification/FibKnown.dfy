/** Edits of a name that is in the table: a further route, a changed cost, an erased route. */
module FibKnown {
  import opened Wrappers
  import opened Names
  import opened Routes
  import opened RibLinks
  import opened RibTree
  import opened FibSpec
  import opened FibOps
  import opened FibSubtree
  import opened FibCompute
  import opened FibApply
  import opened FibEdit
  import opened FibSteps
  import opened RouteLists

  /** Emissions about `n`, then the traversal of its children, then emissions about `n`. */
  lemma ToChildrenEmits(t: Table, n: Name, add: seq<Route>, remove: seq<Route>, pre: seq<Op>, post: seq<Op>, f: nat)
    requires TreeExact(t) && CaptureExact(t) && n in t && IsRouteSet(add) && IsRouteSet(remove)
    requires AllAbout(pre, n) && AllAbout(post, n)
    ensures var ops := pre + ToChildren(t, n, add, remove) + post;
      EmitsUnder(t, n, add, remove, [], ops, f) && Project(ops, n, f) == Project(pre, n, f) + Project(post, n, f)
  {
    ChildrenAreTops(t, n);
    EmitsFromParts(t, n, t[n].children, add, remove, pre, post, f);
  }

  // ----- a further route -----

  ghost predicate TurnsCaptureOn(e: Entry<Name>, r: Route) { !Captures(e.routes) && r.IsCapture() }

  ghost function RemovedByRoute(t: Table, n: Name, r: Route): (rs: seq<Route>)
    requires ParentsExact(t) && n in t
    ensures IsRouteSet(rs)
  {
    if TurnsCaptureOn(t[n], r) then AncestorRoutes(t, t[n].parent) else []
  }

  /** The route is no dearer than every offer of the list on its face. */
  predicate BestOffer(routes: seq<Route>, r: Route) {
    r.IsChildInherit() && (CheapestOffer(routes, r.faceId).None? || r.cost <= CheapestOffer(routes, r.faceId).value.cost)
  }

  /** The route is no dearer than every route of the list on its face. */
  predicate BestRoute(routes: seq<Route>, r: Route) {
    Cheapest(routes, r.faceId).None? || r.cost <= Cheapest(routes, r.faceId).value.cost
  }

  function AddedByRoute(routes: seq<Route>, r: Route): (rs: seq<Route>) { if BestOffer(routes, r) then [r] else [] }

  function OwnHop(n: Name, routes: seq<Route>, r: Route): (ops: seq<Op>) {
    if BestRoute(routes, r) then [AddHop(n, r.faceId, r.cost)] else []
  }

  ghost function OwnOfRoute(t: Table, n: Name, r: Route, f: nat): (ops: seq<Op>)
    requires n in t
  {
    (if TurnsCaptureOn(t[n], r) && Arriving(t, n, f).Some? && HasRecord(t[n], f)
     then [Disinherit(n, Arriving(t, n, f).value)] else []) +
    (if f == r.faceId && BestRoute(t[n].routes, r) then [AddHop(n, r.faceId, r.cost)] else [])
  }

  /** The pieces of `createFibUpdatesForNewRoute` for an entry or a copy of it. */
  lemma NewRouteShape(t: Table, n: Name, e: Entry<Name>, r: Route, on: bool)
    requires CopyOf(t, n, e)
    ensures var remove := if on then AncestorRoutes(t, e.parent) else [];
      NewRouteOps(t, n, e, r, on) ==
      RemoveOps(n, e, remove) + ToChildren(t, n, AddedByRoute(e.routes, r), remove) + OwnHop(n, e.routes, r)
  {
  }

  lemma NewRouteEmits(t: Table, n: Name, r: Route, f: nat)
    requires TreeExact(t) && CaptureExact(t) && n in t
    ensures var ops := NewRouteOps(t, n, t[n], r, t[n].captureCount == 0 && r.IsCapture());
      && EmitsUnder(t, n, AddedByRoute(t[n].routes, r), RemovedByRoute(t, n, r), [], ops, f)
      && Project(ops, n, f) == OwnOfRoute(t, n, r, f)
  {
    var e, remove := t[n], RemovedByRoute(t, n, r);
    var own := OwnHop(n, e.routes, r);
    NewRouteShape(t, n, e, r, e.captureCount == 0 && r.IsCapture());
    OpsAboutSelf(n, e, remove, 0);
    ToChildrenEmits(t, n, AddedByRoute(e.routes, r), remove, RemoveOps(n, e, remove), own, f);
    NewRouteOwnOps(t, n, r, own, f);
  }

  lemma NewRouteOwnOps(t: Table, n: Name, r: Route, own: seq<Op>, f: nat)
    requires TreeExact(t) && CaptureExact(t) && n in t && own == OwnHop(n, t[n].routes, r)
    ensures Project(RemoveOps(n, t[n], RemovedByRoute(t, n, r)), n, f) + Project(own, n, f) == OwnOfRoute(t, n, r, f)
  {
    AncestorRoutesExact(t, n, f);
    ProjectRemoveOps(n, t[n], RemovedByRoute(t, n, r), n, f);
    ProjectSmall(own, n, f);
  }

  /** The name's own next hop on `f` gets lost: capture is turned on, and a leftover record of what arrives on `f`
      is taken for the name's own next hop. */
  ghost predicate RouteLosesOwn(t: Table, n: Name, r: Route, f: nat)
    requires n in t
  {
    && TurnsCaptureOn(t[n], r) && Arriving(t, n, f).Some? && HasRecord(t[n], f) && HasFace(t[n].routes, f)
    && !(f == r.faceId && BestRoute(t[n].routes, r))
  }

  /** The traversal brings the cheapest offer on the face of the route, though the names under it go by the first
      listed one; or capture is turned on and takes a face away that the name offers itself. */
  ghost predicate RouteMisdelivers(t: Table, n: Name, r: Route, f: nat)
    requires n in t
  {
    && HasChildInherit(t[n].routes, f)
    && if f == r.faceId && BestOffer(t[n].routes, r) then r.cost != OffersOn(t[n].routes, f).value.cost
       else TurnsCaptureOn(t[n], r) && Arriving(t, n, f).Some?
  }

  lemma NewRouteDelivers(t: Table, c: Table, n: Name, r: Route, f: nat)
    requires TreeExact(t) && CaptureExact(t) && OnlyAt(t, c, n)
    requires n in t && n in c && c[n].routes == t[n].routes + [r]
    ensures Delivered(t, n, AddedByRoute(t[n].routes, r), RemovedByRoute(t, n, r), [], f) == CostOf(SentDown(c, n, f)) <==>
            !RouteMisdelivers(t, n, r, f)
  {
    DeliveredByRoute(t, n, r, f);
    SentByRoute(t, c, n, r, f);
    NoOfferIsBest(t[n].routes, r);
  }

  /** What the traversals bring. */
  lemma DeliveredByRoute(t: Table, n: Name, r: Route, f: nat)
    requires TreeExact(t) && CaptureExact(t) && n in t
    ensures Delivered(t, n, AddedByRoute(t[n].routes, r), RemovedByRoute(t, n, r), [], f) ==
            if f == r.faceId && BestOffer(t[n].routes, r) then Some(r.cost)
            else if TurnsCaptureOn(t[n], r) && Arriving(t, n, f).Some? then None
            else CostOf(SentDown(t, n, f))
  {
    AncestorRoutesExact(t, n, f);
    SingleRoute(r, f);
  }

  /** What the name sends down after it. */
  lemma SentByRoute(t: Table, c: Table, n: Name, r: Route, f: nat)
    requires OnlyAt(t, c, n) && n in t && n in c && c[n].routes == t[n].routes + [r]
    ensures SentDown(c, n, f) ==
            if HasChildInherit(t[n].routes, f) then OffersOn(t[n].routes, f)
            else if f == r.faceId && r.IsChildInherit() then Some(r)
            else if Captures(t[n].routes) || r.IsCapture() then None else Arriving(t, n, f)
  {
    ArrivingIgnoresSelf(t, c, n, f);
    OffersAfterAppend(t[n].routes, c[n].routes, r, f);
  }

  lemma OffersAfterAppend(routes: seq<Route>, rs: seq<Route>, r: Route, f: nat)
    requires rs == routes + [r]
    ensures OffersOn(rs, f) == if HasChildInherit(routes, f) then OffersOn(routes, f)
                               else if f == r.faceId && r.IsChildInherit() then Some(r) else None
    ensures HasChildInherit(rs, f) <==> HasChildInherit(routes, f) || (f == r.faceId && r.IsChildInherit())
    ensures Captures(rs) <==> Captures(routes) || r.IsCapture()
  {
    AppendRoute(routes, r, f);
  }

  lemma NoOfferIsBest(routes: seq<Route>, r: Route)
    ensures !HasChildInherit(routes, r.faceId) ==> (BestOffer(routes, r) <==> r.IsChildInherit())
    ensures HasChildInherit(routes, r.faceId) ==> OffersOn(routes, r.faceId).Some?
  {
  }

  lemma NewRouteOwn(t: Table, c: Table, n: Name, r: Route, f: nat)
    requires OnlyAt(t, c, n) && CoveredAt(t, n, f)
    requires n in t && n in c && c[n].routes == t[n].routes + [r]
    ensures Effect(NextHop(t, n, f), OwnOfRoute(t, n, r, f)) == NextHop(c, n, f) <==> !RouteLosesOwn(t, n, r, f)
  {
    HopAfterAppend(t, c, n, r, f);
    var back := Arriving(t, n, f);
    RemoveThenHop(NextHop(t, n, f), TurnsCaptureOn(t[n], r) && back.Some? && HasRecord(t[n], f),
                  f == r.faceId && BestRoute(t[n].routes, r), n, if back.Some? then back.value else r, r);
  }

  lemma HopAfterAppend(t: Table, c: Table, n: Name, r: Route, f: nat)
    requires OnlyAt(t, c, n) && n in t && n in c && c[n].routes == t[n].routes + [r]
    ensures NextHop(c, n, f) ==
            if f == r.faceId && BestRoute(t[n].routes, r) then Some(r.cost)
            else if HasFace(t[n].routes, f) then CostOf(Cheapest(t[n].routes, f))
            else if Captures(t[n].routes) || r.IsCapture() then None
            else CostOf(Arriving(t, n, f))
  {
    ArrivingIgnoresSelf(t, c, n, f);
    OwnAfterAppend(t[n].routes, c[n].routes, r, f);
  }

  /** The cheapest route on a face after a route joins the list. */
  lemma OwnAfterAppend(routes: seq<Route>, rs: seq<Route>, r: Route, f: nat)
    requires rs == routes + [r]
    ensures HasFace(rs, f) <==> HasFace(routes, f) || f == r.faceId
    ensures Captures(rs) <==> Captures(routes) || r.IsCapture()
    ensures HasFace(rs, f) ==>
            CostOf(Cheapest(rs, f)) == if f == r.faceId && BestRoute(routes, r) then Some(r.cost) else CostOf(Cheapest(routes, f))
    ensures f == r.faceId && !HasFace(routes, f) ==> BestRoute(routes, r)
  {
    AppendRoute(routes, r, f);
  }

  lemma RemoveThenHop(before: Option<nat>, removes: bool, adds: bool, n: Name, x: Route, r: Route)
    ensures Effect(before, (if removes then [Disinherit(n, x)] else []) +
                           (if adds then [AddHop(n, r.faceId, r.cost)] else [])) ==
            if adds then Some(r.cost) else if removes then None else before
  {
  }

  // ----- a changed route -----

  /** The traversal gives the children the changed route. */
  predicate RenewalOffers(rs: seq<Route>, r: Route, was: Route) {
    BestOffer(rs, r) && (!was.IsChildInherit() || (r.cost != was.cost && r.flags == was.flags))
  }

  /** Child-inherit was turned off. */
  predicate TurnsOfferOff(r: Route, was: Route) { was.IsChildInherit() && !r.IsChildInherit() }

  /** What goes to the children instead of a route that is offered no longer. */
  ghost function Substitute(t: Table, n: Name, rs: seq<Route>, r: Route): (o: Option<Route>)
    requires ParentsExact(t) && n in t
  {
    if HasChildInherit(rs, r.faceId) then CheapestOffer(rs, r.faceId)
    else OnFace(AncestorRoutes(t, t[n].parent), r.faceId)
  }

  ghost function AddedByRenewal(t: Table, n: Name, rs: seq<Route>, r: Route, was: Route): (add: seq<Route>)
    requires ParentsExact(t) && n in t
    ensures IsRouteSet(add)
  {
    if TurnsOfferOff(r, was) then
      var o := Substitute(t, n, rs, r);
      if o.Some? then [o.value] else []
    else if RenewalOffers(rs, r, was) then [r] else []
  }

  function RemovedByRenewal(r: Route, was: Route): (rs: seq<Route>) { if TurnsOfferOff(r, was) then [r] else [] }

  /** `r` in the place of `was`, with the capture flag kept. */
  predicate Renews(r: Route, was: Route) { r.SameFaceAndOrigin(was) && r.IsCapture() == was.IsCapture() }

  lemma RenewalShape(t: Table, n: Name, e: Entry<Name>, r: Route, was: Route)
    requires CopyOf(t, n, e) && r in e.routes && Renews(r, was)
    ensures var own := RenewOwnOps(n, e, r, was);
      UpdatedRouteOps(t, n, e, r, was) ==
      if TurnsOfferOff(r, was) || RenewalOffers(e.routes, r, was)
      then own + ToChildren(t, n, AddedByRenewal(t, n, e.routes, r, was), RemovedByRenewal(r, was)) + []
      else own
  {
    RenewalInherits(t, n, e, r, was);
    var own := RenewOwnOps(n, e, r, was);
    var below := ToChildren(t, n, AddedByRenewal(t, n, e.routes, r, was), RemovedByRenewal(r, was));
    assert own + below + [] == own + below && own + [] == own;
    assert CheapestOffer(e.routes, r.faceId).None? ==> !r.IsChildInherit();
  }

  lemma RenewalInherits(t: Table, n: Name, e: Entry<Name>, r: Route, was: Route)
    requires CopyOf(t, n, e) && r in e.routes && Renews(r, was)
    ensures RenewInheritOps(t, n, e, r, was) ==
            if was.IsChildInherit() != r.IsChildInherit() && (TurnsOfferOff(r, was) || RenewalOffers(e.routes, r, was))
            then ToChildren(t, n, AddedByRenewal(t, n, e.routes, r, was), RemovedByRenewal(r, was)) else []
  {
  }

  /** What is emitted about the name itself. */
  function OwnOfRenewal(n: Name, rs: seq<Route>, r: Route, was: Route, f: nat): (ops: seq<Op>) {
    var prev, lowest := CheapestOffer(rs, f), Cheapest(rs, f);
    if f != r.faceId || r.cost == was.cost || lowest.None? then []
    else if r.cost <= lowest.value.cost then [AddHop(n, f, r.cost)]
    else if was.cost < lowest.value.cost && prev.Some? then [AddHop(n, f, prev.value.cost)]
    else []
  }

  lemma RenewalEmits(t: Table, n: Name, e: Entry<Name>, r: Route, was: Route, f: nat)
    requires CopyOf(t, n, e) && CaptureExact(t) && r in e.routes && Renews(r, was)
    ensures var ops := UpdatedRouteOps(t, n, e, r, was);
      && EmitsUnder(t, n, AddedByRenewal(t, n, e.routes, r, was), RemovedByRenewal(r, was), [], ops, f)
      && Project(ops, n, f) == OwnOfRenewal(n, e.routes, r, was, f)
  {
    RenewalShape(t, n, e, r, was);
    RenewOwnProjects(n, e, r, was, f);
    OneTraversal(t, n, TurnsOfferOff(r, was) || RenewalOffers(e.routes, r, was),
                 AddedByRenewal(t, n, e.routes, r, was), RemovedByRenewal(r, was), RenewOwnOps(n, e, r, was),
                 UpdatedRouteOps(t, n, e, r, was), f);
  }

  lemma RenewOwnProjects(n: Name, e: Entry<Name>, r: Route, was: Route, f: nat)
    ensures Project(RenewOwnOps(n, e, r, was), n, f) == OwnOfRenewal(n, e.routes, r, was, f)
    ensures AllAbout(RenewOwnOps(n, e, r, was), n)
  {
    ProjectSmall(RenewOwnOps(n, e, r, was), n, f);
  }

  /** Emissions about `n`, then a traversal or, if there is nothing to traverse with, none. */
  lemma OneTraversal(t: Table, n: Name, traverses: bool, add: seq<Route>, remove: seq<Route>, own: seq<Op>,
                     ops: seq<Op>, f: nat)
    requires TreeExact(t) && CaptureExact(t) && n in t && IsRouteSet(add) && IsRouteSet(remove) && AllAbout(own, n)
    requires ops == if traverses then own + ToChildren(t, n, add, remove) + [] else own
    requires !traverses ==> add == [] && remove == []
    ensures EmitsUnder(t, n, add, remove, [], ops, f) && Project(ops, n, f) == Project(own, n, f)
  {
    if traverses {
      ToChildrenEmits(t, n, add, remove, own, [], f);
      assert Project(own, n, f) + [] == Project(own, n, f);
    } else {
      EmitsNothingUnder(t, n, own, f);
    }
  }

  /** The cost rose above that of the cheapest other route on the face, and the cheapest one with child-inherit is
      taken for it. */
  predicate RenewalMissesOwn(rs: seq<Route>, r: Route, was: Route, f: nat) {
    var lowest := Cheapest(rs, f);
    f == r.faceId && lowest.Some? && was.cost < lowest.value.cost < r.cost && CostOf(CheapestOffer(rs, f)) != CostOf(lowest)
  }

  /** The names under the changed route get the cheapest offer though they go by the first listed one, keep an
      outdated cost, or get an ancestor's route past another capturing route. */
  ghost predicate RenewalMisdelivers(t: Table, n: Name, i: nat, r: Route, f: nat)
    requires n in t && i < |t[n].routes|
  {
    var routes, was, rs := t[n].routes, t[n].routes[i], t[n].routes[i := r];
    && f == r.faceId
    && if TurnsOfferOff(r, was) then
         if HasChildInherit(rs, f) then CheapestOffer(rs, f).value.cost != OffersOn(rs, f).value.cost
         else Captures(rs) && Arriving(t, n, f).Some?
       else if RenewalOffers(rs, r, was) then CostOf(OffersOn(rs, f)) != Some(r.cost)
       else CostOf(OffersOn(rs, f)) != CostOf(OffersOn(routes, f))
  }

  lemma RenewalOwn(t: Table, c: Table, n: Name, i: nat, r: Route, f: nat)
    requires OnlyAt(t, c, n) && n in t && n in c && i < |t[n].routes| && Renews(r, t[n].routes[i])
    requires c[n].routes == t[n].routes[i := r] && !DereferencesNull(c[n].routes, r, t[n].routes[i])
    ensures Effect(NextHop(t, n, f), OwnOfRenewal(n, c[n].routes, r, t[n].routes[i], f)) == NextHop(c, n, f) <==>
            !RenewalMissesOwn(c[n].routes, r, t[n].routes[i], f)
  {
    ArrivingIgnoresSelf(t, c, n, f);
    CapturesReplaced(t[n].routes, i, r);
    if f != r.faceId {
      ReplaceElsewhere(t[n].routes, i, r, f);
    } else {
      RenewalOwnCost(n, t[n].routes, c[n].routes, i, r);
    }
  }

  /** The next hop on the face of the changed route. */
  lemma RenewalOwnCost(n: Name, routes: seq<Route>, rs: seq<Route>, i: nat, r: Route)
    requires i < |routes| && rs == routes[i := r] && routes[i].faceId == r.faceId && !DereferencesNull(rs, r, routes[i])
    ensures HasFace(routes, r.faceId) && HasFace(rs, r.faceId)
    ensures RenewalMissesOwn(rs, r, routes[i], r.faceId) <==>
            Effect(CostOf(Cheapest(routes, r.faceId)), OwnOfRenewal(n, rs, r, routes[i], r.faceId)) !=
            CostOf(Cheapest(rs, r.faceId))
  {
    CheapestReplaced(routes, i, r);
    var before, lowest, prev := Cheapest(routes, r.faceId).value, Cheapest(rs, r.faceId).value, CheapestOffer(rs, r.faceId);
    OwnCostCases(n, rs, r, routes[i], before, lowest, prev);
  }

  /** The same with the costs at hand. */
  lemma OwnCostCases(n: Name, rs: seq<Route>, r: Route, was: Route, before: Route, lowest: Route, prev: Option<Route>)
    requires Cheapest(rs, r.faceId) == Some(lowest) && CheapestOffer(rs, r.faceId) == prev && lowest.cost <= r.cost
    requires lowest.cost < r.cost && lowest.cost <= was.cost ==> before.cost == lowest.cost
    requires was.cost < lowest.cost ==> before.cost == was.cost
    requires was.cost == r.cost ==> before.cost == lowest.cost
    requires !DereferencesNull(rs, r, was)
    ensures RenewalMissesOwn(rs, r, was, r.faceId) <==>
            Effect(Some(before.cost), OwnOfRenewal(n, rs, r, was, r.faceId)) != Some(lowest.cost)
  {
  }

  /** The cost that the traversal leaves to the children. */
  lemma RenewalBrings(t: Table, n: Name, i: nat, r: Route, f: nat)
    requires TreeExact(t) && CaptureExact(t) && n in t && i < |t[n].routes| && r.SameFaceAndOrigin(t[n].routes[i])
    ensures var was, rs := t[n].routes[i], t[n].routes[i := r];
      Delivered(t, n, AddedByRenewal(t, n, rs, r, was), RemovedByRenewal(r, was), [], f) ==
      if f == r.faceId && TurnsOfferOff(r, was) then
        CostOf(if HasChildInherit(rs, f) then CheapestOffer(rs, f) else Arriving(t, n, f))
      else if f == r.faceId && RenewalOffers(rs, r, was) then Some(r.cost)
      else CostOf(SentDown(t, n, f))
  {
    var was, rs := t[n].routes[i], t[n].routes[i := r];
    AncestorRoutesExact(t, n, f);
    AncestorRoutesExact(t, n, r.faceId);
    SingleRoute(r, f);
    var o := Substitute(t, n, rs, r);
    if o.Some? { SingleRoute(o.value, f); }
  }

  lemma RenewalDelivers(t: Table, c: Table, n: Name, i: nat, r: Route, f: nat)
    requires TreeExact(t) && CaptureExact(t)
    requires OnlyAt(t, c, n) && n in t && n in c && i < |t[n].routes| && Renews(r, t[n].routes[i])
    requires c[n].routes == t[n].routes[i := r]
    ensures var was, rs := t[n].routes[i], t[n].routes[i := r];
      Delivered(t, n, AddedByRenewal(t, n, rs, r, was), RemovedByRenewal(r, was), [], f) == CostOf(SentDown(c, n, f)) <==>
      !RenewalMisdelivers(t, n, i, r, f)
  {
    var routes, was, rs := t[n].routes, t[n].routes[i], t[n].routes[i := r];
    RenewalBrings(t, n, i, r, f);
    ArrivingIgnoresSelf(t, c, n, f);
    CapturesReplaced(routes, i, r);
    MembersReplaced(routes, i, r);
    if f != r.faceId {
      ReplaceElsewhere(routes, i, r, f);
    } else if !was.IsChildInherit() && !r.IsChildInherit() {
      OffersReplaced(routes, i, r, f);
    } else if was.IsChildInherit() && r.IsChildInherit() && was.cost == r.cost {
      OffersRepriced(routes, i, r, f);
    } else if r.IsChildInherit() && !RenewalOffers(rs, r, was) && !was.IsChildInherit() {
      OtherOffer(routes, i, r);
    }
  }

  /** A route that is not the cheapest offer is beside one that was offered before. */
  lemma OtherOffer(routes: seq<Route>, i: nat, r: Route)
    requires i < |routes| && routes[i].faceId == r.faceId && r.IsChildInherit() && !BestOffer(routes[i := r], r)
    ensures HasChildInherit(routes, r.faceId)
  {
    MembersReplaced(routes, i, r);
    var x := CheapestOffer(routes[i := r], r.faceId).value;
    assert x in routes;
  }

  // ----- an erased route -----

  /** The ancestors' routes that a name regains because erasing `gone` turned its capture off. */
  ghost function Regained(t: Table, n: Name, i: nat): (rs: seq<Route>)
    requires ParentsExact(t) && n in t && i < |t[n].routes|
    ensures IsRouteSet(rs)
  {
    var e, temp := t[n], EraseRoute(t[n], i);
    if e.captureCount > 0 && temp.captureCount == 0 && temp.routes != [] then AncestorRoutes(t, e.parent) else []
  }

  /** The ancestors' routes that go to the children again. */
  ghost function AddedByErasure(t: Table, n: Name, i: nat): (rs: seq<Route>)
    requires ParentsExact(t) && n in t && i < |t[n].routes|
    ensures IsRouteSet(rs)
  {
    var e, gone, temp := t[n], t[n].routes[i], EraseRoute(t[n], i);
    if gone.IsCapture() then Regained(t, n, i)
    else if gone.IsChildInherit() && temp.captureCount == 0 then AncestorRoutes(t, e.parent)
    else []
  }

  function RemovedByErasure(gone: Route): (rs: seq<Route>) { if gone.IsChildInherit() then [gone] else [] }

  ghost function PreOfErasure(t: Table, n: Name, i: nat): (ops: seq<Op>)
    requires ParentsExact(t) && n in t && i < |t[n].routes|
  {
    var gone, temp := t[n].routes[i], EraseRoute(t[n], i);
    [RemoveHop(n, gone.faceId)] + AddOps(n, temp, if gone.IsCapture() then Regained(t, n, i) else [])
  }

  ghost function PostOfErasure(t: Table, n: Name, i: nat): (ops: seq<Op>)
    requires ParentsExact(t) && n in t && i < |t[n].routes|
  {
    var e, gone, temp := t[n], t[n].routes[i], EraseRoute(t[n], i);
    var back := OnFace(AncestorRoutes(t, e.parent), gone.faceId);
    (if temp.captureCount == 0 && temp.routes != [] && back.Some? then [Inherit(n, back.value)] else []) +
    (if |e.routes| == 1 then ErasedEntryOps(n, e.inherited) else [])
  }

  ghost function ErasureOps(t: Table, n: Name, i: nat): (ops: seq<Op>)
    requires TreeExact(t) && n in t && i < |t[n].routes|
  {
    var e, temp := t[n], EraseRoute(t[n], i);
    ErasedRouteOps(t, n, temp, e.routes[i], e.captureCount > 0 && temp.captureCount == 0) +
    (if |e.routes| == 1 then ErasedEntryOps(n, e.inherited) else [])
  }

  /** The pieces of `ErasureOps`, regrouped around the traversal. */
  lemma ErasureShape(t: Table, n: Name, i: nat)
    requires TreeExact(t) && n in t && i < |t[n].routes|
    ensures var gone := t[n].routes[i];
      ErasureOps(t, n, i) ==
      if gone.IsChildInherit() || gone.IsCapture()
      then PreOfErasure(t, n, i) + ToChildren(t, n, AddedByErasure(t, n, i), RemovedByErasure(gone)) + PostOfErasure(t, n, i)
      else PreOfErasure(t, n, i) + PostOfErasure(t, n, i)
  {
    var e, gone, temp := t[n], t[n].routes[i], EraseRoute(t[n], i);
    ErasedRouteShape(t, n, temp, gone, e.captureCount > 0 && temp.captureCount == 0,
                     if |e.routes| == 1 then ErasedEntryOps(n, e.inherited) else []);
  }

  lemma ErasedRouteShape(t: Table, n: Name, e: Entry<Name>, r: Route, off: bool, last: seq<Op>)
    requires CopyOf(t, n, e)
    ensures var ancestors := AncestorRoutes(t, e.parent);
      var regained := if off && e.routes != [] then ancestors else [];
      var pre := [RemoveHop(n, r.faceId)] + AddOps(n, e, if r.IsCapture() then regained else []);
      var add := if r.IsCapture() then regained
                 else if r.IsChildInherit() && e.captureCount == 0 then ancestors else [];
      var tail := if e.captureCount == 0 && e.routes != [] && OnFace(ancestors, r.faceId).Some?
                  then [Inherit(n, OnFace(ancestors, r.faceId).value)] else [];
      ErasedRouteOps(t, n, e, r, off) + last ==
      if r.IsChildInherit() || r.IsCapture()
      then pre + ToChildren(t, n, add, RemovedByErasure(r)) + (tail + last)
      else pre + (tail + last)
  {
    var hop, tail := [RemoveHop(n, r.faceId)], UncoverOps(t, n, e, r);
    var ancestors := AncestorRoutes(t, e.parent);
    var regained := if r.IsCapture() && off && e.routes != [] then ancestors else [];
    var add := if r.IsCapture() then regained
               else if r.IsChildInherit() && e.captureCount == 0 then ancestors else [];
    ReleaseShape(t, n, e, r, off);
    Regroup(hop, AddOps(n, e, regained), ToChildren(t, n, add, RemovedByErasure(r)), tail, last);
    Regroup(hop, AddOps(n, e, regained), [], tail, last);
  }

  lemma ReleaseShape(t: Table, n: Name, e: Entry<Name>, r: Route, off: bool)
    requires CopyOf(t, n, e)
    ensures var ancestors := AncestorRoutes(t, e.parent);
      var regained := if r.IsCapture() && off && e.routes != [] then ancestors else [];
      var add := if r.IsCapture() then regained
                 else if r.IsChildInherit() && e.captureCount == 0 then ancestors else [];
      ReleaseOps(t, n, e, r, off) ==
      AddOps(n, e, regained) +
      if r.IsChildInherit() || r.IsCapture() then ToChildren(t, n, add, RemovedByErasure(r)) else []
  {
    assert AddOps(n, e, []) == [];
  }

  lemma Regroup(a: seq<Op>, b: seq<Op>, c: seq<Op>, d: seq<Op>, e: seq<Op>)
    ensures a + (b + c) + d + e == (a + b) + c + (d + e)
  {
  }

  lemma ErasureEmits(t: Table, n: Name, i: nat, f: nat)
    requires TreeExact(t) && CaptureExact(t) && n in t && i < |t[n].routes|
    ensures EmitsUnder(t, n, AddedByErasure(t, n, i), RemovedByErasure(t[n].routes[i]), [], ErasureOps(t, n, i), f)
    ensures Project(ErasureOps(t, n, i), n, f) ==
            Project(PreOfErasure(t, n, i), n, f) + Project(PostOfErasure(t, n, i), n, f)
  {
    var gone, temp := t[n].routes[i], EraseRoute(t[n], i);
    var pre, post := PreOfErasure(t, n, i), PostOfErasure(t, n, i);
    ErasureShape(t, n, i);
    OpsAboutSelf(n, temp, if gone.IsCapture() then Regained(t, n, i) else [], 0);
    OpsAboutSelf(n, temp, t[n].inherited, 0);
    assert AllAbout(pre, n) && AllAbout(post, n);
    if gone.IsChildInherit() || gone.IsCapture() {
      ToChildrenEmits(t, n, AddedByErasure(t, n, i), RemovedByErasure(gone), pre, post, f);
    } else {
      EmitsNothingUnder(t, n, pre + post, f);
      ProjectConcat(pre, post, n, f);
    }
  }

  /** The capture counter of the copy counts, and the ancestor routes are what arrives. */
  lemma ErasureFacts(t: Table, n: Name, i: nat, f: nat)
    requires TreeExact(t) && CaptureExact(t) && n in t && i < |t[n].routes|
    ensures var e, gone, temp := t[n], t[n].routes[i], EraseRoute(t[n], i);
      && (temp.captureCount > 0 <==> Captures(temp.routes))
      && (e.captureCount > 0 <==> Captures(temp.routes) || gone.IsCapture())
      && OnFace(AncestorRoutes(t, e.parent), f) == Arriving(t, n, f)
  {
    CaptureCountWithout(t[n].routes, i);
    AncestorRoutesExact(t, n, f);
  }

  /** What is emitted about the name itself when other routes remain. */
  ghost function OwnOfErasure(t: Table, n: Name, i: nat, f: nat): (ops: seq<Op>)
    requires n in t && i < |t[n].routes|
  {
    var gone, rest, back := t[n].routes[i], WithoutIndex(t[n].routes, i), Arriving(t, n, f);
    var inherits := !Captures(rest) && back.Some?;
    (if f == gone.faceId then [RemoveHop(n, f)] else []) +
    (if gone.IsCapture() && inherits && !HasFace(rest, f) then [Inherit(n, back.value)] else []) +
    (if f == gone.faceId && inherits then [Inherit(n, back.value)] else [])
  }

  lemma ErasurePre(t: Table, n: Name, i: nat, f: nat)
    requires TreeExact(t) && CaptureExact(t) && n in t && i < |t[n].routes|
    ensures var gone, rest := t[n].routes[i], WithoutIndex(t[n].routes, i);
      Project(PreOfErasure(t, n, i), n, f) ==
      (if f == gone.faceId then [RemoveHop(n, f)] else []) +
      (if gone.IsCapture() && rest != [] && !Captures(rest) && Arriving(t, n, f).Some? && !HasFace(rest, f)
       then [Inherit(n, Arriving(t, n, f).value)] else [])
  {
    var gone, temp := t[n].routes[i], EraseRoute(t[n], i);
    var rs := if gone.IsCapture() then Regained(t, n, i) else [];
    RegainedOnFace(t, n, i, f);
    HopThenAdditions(n, temp, gone.faceId, rs, f);
  }

  lemma HopThenAdditions(n: Name, e: Entry<Name>, g: nat, rs: seq<Route>, f: nat)
    requires IsRouteSet(rs)
    ensures Project([RemoveHop(n, g)] + AddOps(n, e, rs), n, f) ==
            (if f == g then [RemoveHop(n, f)] else []) +
            (if OnFace(rs, f).Some? && !HasFace(e.routes, f) then [Inherit(n, OnFace(rs, f).value)] else [])
  {
    ProjectConcat([RemoveHop(n, g)], AddOps(n, e, rs), n, f);
    ProjectSmall([RemoveHop(n, g)], n, f);
    ProjectAddOps(n, e, rs, n, f);
  }

  lemma RegainedOnFace(t: Table, n: Name, i: nat, f: nat)
    requires TreeExact(t) && CaptureExact(t) && n in t && i < |t[n].routes|
    ensures var gone, rest := t[n].routes[i], WithoutIndex(t[n].routes, i);
      OnFace(if gone.IsCapture() then Regained(t, n, i) else [], f) ==
      if gone.IsCapture() && rest != [] && !Captures(rest) then Arriving(t, n, f) else None
  {
    ErasureFacts(t, n, i, f);
  }

  lemma ErasurePost(t: Table, n: Name, i: nat, f: nat)
    requires TreeExact(t) && CaptureExact(t) && n in t && i < |t[n].routes|
    ensures var gone, rest := t[n].routes[i], WithoutIndex(t[n].routes, i);
      Project(PostOfErasure(t, n, i), n, f) ==
      if rest == [] then Project(ErasedEntryOps(n, t[n].inherited), n, f)
      else if f == gone.faceId && !Captures(rest) && Arriving(t, n, f).Some? then [Inherit(n, Arriving(t, n, f).value)]
      else []
  {
    var post := PostOfErasure(t, n, i);
    ErasureFacts(t, n, i, t[n].routes[i].faceId);
    if |t[n].routes| == 1 {
      assert post == ErasedEntryOps(n, t[n].inherited);
    } else {
      assert |post| <= 1;
      ProjectSmall(post, n, f);
    }
  }

  lemma ErasureOwn(t: Table, n: Name, i: nat, f: nat)
    requires TreeExact(t) && CaptureExact(t) && n in t && i < |t[n].routes| && |t[n].routes| > 1
    ensures Project(ErasureOps(t, n, i), n, f) == OwnOfErasure(t, n, i, f)
  {
    ErasureEmits(t, n, i, f);
    ErasurePre(t, n, i, f);
    ErasurePost(t, n, i, f);
  }

  // ----- the second cheapest route comes in -----

  /** The second traversal of an erasure, with the second cheapest route on the face, if there is one. */
  ghost function MoreOps(t: Table, n: Name, i: nat): (ops: seq<Op>)
    requires TreeExact(t) && n in t && i < |t[n].routes|
  {
    var next := SecondCheapest(t[n].routes, t[n].routes[i].faceId);
    if next.Some? then NewRouteOps(t, n, EraseRoute(t[n], i), next.value, false) else []
  }

  function MoreByErasure(routes: seq<Route>, i: nat): (rs: seq<Route>)
    requires i < |routes|
  {
    var next := SecondCheapest(routes, routes[i].faceId);
    if next.Some? then AddedByRoute(WithoutIndex(routes, i), next.value) else []
  }

  function HopByErasure(n: Name, routes: seq<Route>, i: nat): (ops: seq<Op>)
    requires i < |routes|
  {
    var next := SecondCheapest(routes, routes[i].faceId);
    if next.Some? then OwnHop(n, WithoutIndex(routes, i), next.value) else []
  }

  lemma SecondOnFace(routes: seq<Route>, f: nat)
    ensures SecondCheapest(routes, f).Some? ==> SecondCheapest(routes, f).value.faceId == f
  {
  }

  lemma FoundShape(t: Table, n: Name, i: nat)
    requires TreeExact(t) && n in t && i < |t[n].routes|
    ensures UnregisterFoundOps(t, n, t[n], t[n].routes[i].faceId, i) == ErasureOps(t, n, i) + MoreOps(t, n, i)
  {
    var temp := EraseRoute(t[n], i);
    SecondExists(t[n].routes, i);
    Interchange(ErasedRouteOps(t, n, temp, t[n].routes[i], t[n].captureCount > 0 && temp.captureCount == 0),
                MoreOps(t, n, i), if |t[n].routes| == 1 then ErasedEntryOps(n, t[n].inherited) else []);
    if |t[n].routes| == 1 { assert WithoutIndex(t[n].routes, i) == []; }
  }

  lemma Interchange(a: seq<Op>, b: seq<Op>, c: seq<Op>)
    requires b == [] || c == []
    ensures a + b + c == (a + c) + b
  {
  }

  lemma CopyEmits(t: Table, n: Name, e: Entry<Name>, r: Route, f: nat)
    requires CopyOf(t, n, e) && CaptureExact(t)
    ensures EmitsUnder(t, n, AddedByRoute(e.routes, r), [], [], NewRouteOps(t, n, e, r, false), f)
    ensures Project(NewRouteOps(t, n, e, r, false), n, f) == if f == r.faceId then OwnHop(n, e.routes, r) else []
  {
    CopyShape(t, n, e, r);
    CopyOwn(n, e.routes, r, f);
    ToChildrenEmits(t, n, AddedByRoute(e.routes, r), [], [], OwnHop(n, e.routes, r), f);
  }

  lemma CopyShape(t: Table, n: Name, e: Entry<Name>, r: Route)
    requires CopyOf(t, n, e)
    ensures NewRouteOps(t, n, e, r, false) == [] + ToChildren(t, n, AddedByRoute(e.routes, r), []) + OwnHop(n, e.routes, r)
  {
    NewRouteShape(t, n, e, r, false);
  }

  lemma CopyOwn(n: Name, routes: seq<Route>, r: Route, f: nat)
    ensures AllAbout([], n) && AllAbout(OwnHop(n, routes, r), n)
    ensures Project([], n, f) + Project(OwnHop(n, routes, r), n, f) == if f == r.faceId then OwnHop(n, routes, r) else []
  {
    ProjectSmall(OwnHop(n, routes, r), n, f);
  }

  lemma MoreEmits(t: Table, n: Name, i: nat, f: nat)
    requires TreeExact(t) && CaptureExact(t) && n in t && i < |t[n].routes|
    ensures EmitsUnder(t, n, MoreByErasure(t[n].routes, i), [], [], MoreOps(t, n, i), f)
    ensures Project(MoreOps(t, n, i), n, f) ==
            if f == t[n].routes[i].faceId then HopByErasure(n, t[n].routes, i) else []
  {
    var next, temp := SecondCheapest(t[n].routes, t[n].routes[i].faceId), EraseRoute(t[n], i);
    if next.Some? {
      SecondOnFace(t[n].routes, t[n].routes[i].faceId);
      CopyEmits(t, n, temp, next.value, f);
    } else {
      EmitsNothingUnder(t, n, [], f);
    }
  }

  /** Everything that is emitted for an unregistration. */
  lemma FoundEmits(t: Table, n: Name, i: nat, f: nat)
    requires TreeExact(t) && CaptureExact(t) && n in t && i < |t[n].routes|
    ensures var ops := UnregisterFoundOps(t, n, t[n], t[n].routes[i].faceId, i);
      && EmitsUnder(t, n, AddedByErasure(t, n, i), RemovedByErasure(t[n].routes[i]), MoreByErasure(t[n].routes, i), ops, f)
      && Project(ops, n, f) == Project(ErasureOps(t, n, i), n, f) +
                               if f == t[n].routes[i].faceId then HopByErasure(n, t[n].routes, i) else []
  {
    FoundShape(t, n, i);
    ErasureEmits(t, n, i, f);
    MoreEmits(t, n, i, f);
    EmitsJoined(t, n, AddedByErasure(t, n, i), RemovedByErasure(t[n].routes[i]), MoreByErasure(t[n].routes, i),
                ErasureOps(t, n, i), MoreOps(t, n, i), f);
  }

  // ----- one of several routes is erased -----

  /** A dearer route on the face goes, the second cheapest one is dearer than the cheapest, and what takes the place
      of the removed next hop does not cost the same by chance. */
  ghost predicate ErasureMissesOwn(t: Table, n: Name, i: nat, f: nat)
    requires n in t && i < |t[n].routes|
  {
    var gone, rest := t[n].routes[i], WithoutIndex(t[n].routes, i);
    var best := Cheapest(rest, f);
    && f == gone.faceId && best.Some? && best.value.cost < gone.cost
    && CostOf(SecondCheapest(t[n].routes, f)) != CostOf(Cheapest(t[n].routes, f))
    && (if Captures(rest) then None else CostOf(Arriving(t, n, f))) != CostOf(best)
  }

  /** What the names under `n` are to get on `f` when the other routes remain. */
  function Owed(t: Table, n: Name, rest: seq<Route>, f: nat): (c: Option<nat>) {
    if HasChildInherit(rest, f) then CostOf(OffersOn(rest, f))
    else if Captures(rest) then None
    else CostOf(Arriving(t, n, f))
  }

  /** The traversals bring the second cheapest route on the face, or else all ancestor routes, or else nothing, and
      this is not what the remaining routes send down. */
  ghost predicate ErasureMisdelivers(t: Table, n: Name, i: nat, f: nat)
    requires n in t && i < |t[n].routes|
  {
    var gone, rest := t[n].routes[i], WithoutIndex(t[n].routes, i);
    if f == gone.faceId && MoreByErasure(t[n].routes, i) != [] then
      CostOf(SecondCheapest(t[n].routes, f)) != Owed(t, n, rest, f)
    else if !Captures(rest) && (gone.IsChildInherit() || gone.IsCapture()) && Arriving(t, n, f).Some? then
      CostOf(Arriving(t, n, f)) != Owed(t, n, rest, f)
    else f == gone.faceId && gone.IsChildInherit() && Owed(t, n, rest, f).Some?
  }

  lemma AddedByErasureOnFace(t: Table, n: Name, i: nat, f: nat)
    requires TreeExact(t) && CaptureExact(t) && n in t && i < |t[n].routes| && |t[n].routes| > 1
    ensures var gone, rest := t[n].routes[i], WithoutIndex(t[n].routes, i);
      OnFace(AddedByErasure(t, n, i), f) ==
      if !Captures(rest) && (gone.IsChildInherit() || gone.IsCapture()) then Arriving(t, n, f) else None
  {
    ErasureFacts(t, n, i, f);
  }

  lemma MoreByErasureOnFace(routes: seq<Route>, i: nat, f: nat)
    requires i < |routes|
    ensures CostOf(OnFace(MoreByErasure(routes, i), f)) ==
            if f == routes[i].faceId && MoreByErasure(routes, i) != [] then CostOf(SecondCheapest(routes, f)) else None
  {
    SecondOnFace(routes, routes[i].faceId);
    var next := SecondCheapest(routes, routes[i].faceId);
    if next.Some? { SingleRoute(next.value, f); }
  }

  /** The cost that the traversals leave to the children. */
  lemma ErasureBrings(t: Table, n: Name, i: nat, f: nat)
    requires TreeExact(t) && CaptureExact(t) && n in t && i < |t[n].routes| && |t[n].routes| > 1
    ensures var routes, gone, rest := t[n].routes, t[n].routes[i], WithoutIndex(t[n].routes, i);
      Delivered(t, n, AddedByErasure(t, n, i), RemovedByErasure(gone), MoreByErasure(routes, i), f) ==
      if f == gone.faceId && MoreByErasure(routes, i) != [] then CostOf(SecondCheapest(routes, f))
      else if !Captures(rest) && (gone.IsChildInherit() || gone.IsCapture()) && Arriving(t, n, f).Some? then
        CostOf(Arriving(t, n, f))
      else if f == gone.faceId && gone.IsChildInherit() then None
      else CostOf(SentDown(t, n, f))
  {
    AddedByErasureOnFace(t, n, i, f);
    MoreByErasureOnFace(t[n].routes, i, f);
    SingleRoute(t[n].routes[i], f);
    SecondExists(t[n].routes, i);
  }

  lemma ErasureDelivers(t: Table, c: Table, n: Name, i: nat, f: nat)
    requires TreeExact(t) && CaptureExact(t) && OnlyAt(t, c, n) && n in t && i < |t[n].routes| && |t[n].routes| > 1
    requires n in c && c[n].routes == WithoutIndex(t[n].routes, i)
    ensures var brought :=
              Delivered(t, n, AddedByErasure(t, n, i), RemovedByErasure(t[n].routes[i]), MoreByErasure(t[n].routes, i), f);
      brought == CostOf(SentDown(c, n, f)) <==> !ErasureMisdelivers(t, n, i, f)
  {
    var gone, rest := t[n].routes[i], WithoutIndex(t[n].routes, i);
    ErasureBrings(t, n, i, f);
    ArrivingIgnoresSelf(t, c, n, f);
    MembersWithout(t[n].routes, i);
    assert CostOf(SentDown(c, n, f)) == Owed(t, n, rest, f);
    if f != gone.faceId {
      WithoutElsewhere(t[n].routes, i, f);
    } else if !gone.IsChildInherit() {
      OffersWithout(t[n].routes, i, f);
    }
  }

  lemma FoundOwn(t: Table, n: Name, i: nat, f: nat)
    requires TreeExact(t) && CaptureExact(t) && n in t && i < |t[n].routes| && |t[n].routes| > 1
    ensures Project(UnregisterFoundOps(t, n, t[n], t[n].routes[i].faceId, i), n, f) ==
            OwnOfErasure(t, n, i, f) + if f == t[n].routes[i].faceId then HopByErasure(n, t[n].routes, i) else []
  {
    FoundEmits(t, n, i, f);
    ErasureOwn(t, n, i, f);
  }

  lemma ErasureOwnEffect(t: Table, c: Table, n: Name, i: nat, f: nat)
    requires OnlyAt(t, c, n) && n in t && i < |t[n].routes| && |t[n].routes| > 1
    requires n in c && c[n].routes == WithoutIndex(t[n].routes, i)
    ensures Effect(NextHop(t, n, f), OwnOfErasure(t, n, i, f) +
                   if f == t[n].routes[i].faceId then HopByErasure(n, t[n].routes, i) else []) == NextHop(c, n, f) <==>
            !ErasureMissesOwn(t, n, i, f)
  {
    var gone, rest := t[n].routes[i], WithoutIndex(t[n].routes, i);
    SecondExists(t[n].routes, i);
    if f == gone.faceId && HasFace(rest, f) {
      SiblingOwnEffect(t, c, n, i);
    } else {
      AloneOwnEffect(t, c, n, i, f);
      assert OwnOfErasure(t, n, i, f) + [] == OwnOfErasure(t, n, i, f);
    }
  }

  /** On a face of which the name erases its only route, or none, the next hop is right. */
  lemma AloneOwnEffect(t: Table, c: Table, n: Name, i: nat, f: nat)
    requires OnlyAt(t, c, n) && n in t && i < |t[n].routes| && |t[n].routes| > 1
    requires n in c && c[n].routes == WithoutIndex(t[n].routes, i)
    requires f == t[n].routes[i].faceId ==> !HasFace(c[n].routes, f)
    ensures Effect(NextHop(t, n, f), OwnOfErasure(t, n, i, f)) == NextHop(c, n, f)
  {
    ArrivingIgnoresSelf(t, c, n, f);
    MembersWithout(t[n].routes, i);
    if f != t[n].routes[i].faceId { WithoutElsewhere(t[n].routes, i, f); }
  }

  lemma SiblingOwnEffect(t: Table, c: Table, n: Name, i: nat)
    requires OnlyAt(t, c, n) && n in t && i < |t[n].routes| && |t[n].routes| > 1
    requires n in c && c[n].routes == WithoutIndex(t[n].routes, i) && HasFace(c[n].routes, t[n].routes[i].faceId)
    ensures var f := t[n].routes[i].faceId;
      Effect(NextHop(t, n, f), OwnOfErasure(t, n, i, f) + HopByErasure(n, t[n].routes, i)) == NextHop(c, n, f) <==>
      !ErasureMissesOwn(t, n, i, f)
  {
    var f := t[n].routes[i].faceId;
    SecondOnFace(t[n].routes, f);
    SecondAgainstRest(t[n].routes, i);
    SiblingEffect(t, n, i, HopByErasure(n, t[n].routes, i), NextHop(t, n, f));
  }

  lemma SiblingEffect(t: Table, n: Name, i: nat, more: seq<Op>, before: Option<nat>)
    requires n in t && i < |t[n].routes| && HasFace(WithoutIndex(t[n].routes, i), t[n].routes[i].faceId)
    requires |more| <= 1
    ensures var f, rest := t[n].routes[i].faceId, WithoutIndex(t[n].routes, i);
      Effect(before, OwnOfErasure(t, n, i, f) + more) ==
      if more != [] then Effect(None, more)
      else if Captures(rest) then None else CostOf(Arriving(t, n, f))
  {
  }

  // ----- the last route is erased -----

  /** Erasing the last route is wrong on `f` exactly where the name captured a route that arrives on `f`. */
  lemma LastErasureDelivers(t: Table, c: Table, n: Name, f: nat)
    requires TreeExact(t) && CaptureExact(t) && OnlyAt(t, c, n) && n in t && |t[n].routes| == 1 && n !in c
    ensures var gone := t[n].routes[0];
      var brought := Delivered(t, n, AddedByErasure(t, n, 0), RemovedByErasure(gone), MoreByErasure(t[n].routes, 0), f);
      brought == CostOf(SentDown(c, n, f)) <==> !(gone.IsCapture() && Arriving(t, n, f).Some?)
  {
    var gone := t[n].routes[0];
    assert t[n].routes == [gone] && WithoutIndex([gone], 0) == [];
    SecondExists(t[n].routes, 0);
    ErasureFacts(t, n, 0, f);
    ArrivingIgnoresSelf(t, c, n, f);
    SingleRoute(gone, f);
  }

  lemma LastErasureProject(t: Table, n: Name, f: nat)
    requires TreeExact(t) && CaptureExact(t) && n in t && |t[n].routes| == 1
    ensures Project(UnregisterFoundOps(t, n, t[n], t[n].routes[0].faceId, 0), n, f) ==
            (if f == t[n].routes[0].faceId then [RemoveHop(n, f)] else []) +
            Project(ErasedEntryOps(n, t[n].inherited), n, f)
  {
    FoundEmits(t, n, 0, f);
    assert |WithoutIndex(t[n].routes, 0)| == 0;
    SecondExists(t[n].routes, 0);
    assert HopByErasure(n, t[n].routes, 0) == [];
    ErasureEmits(t, n, 0, f);
    ErasurePre(t, n, 0, f);
    ErasurePost(t, n, 0, f);
    var pre: seq<Op> := if f == t[n].routes[0].faceId then [RemoveHop(n, f)] else [];
    var all := pre + Project(ErasedEntryOps(n, t[n].inherited), n, f);
    assert pre + [] == pre && all + [] == all;
  }

  lemma LastErasureOwn(t: Table, n: Name, f: nat)
    requires TreeExact(t) && CaptureExact(t) && n in t && |t[n].routes| == 1 && CoveredAt(t, n, f)
    ensures var ops := UnregisterFoundOps(t, n, t[n], t[n].routes[0].faceId, 0);
      Effect(NextHop(t, n, f), Project(ops, n, f)) == None
  {
    var gone := t[n].routes[0];
    var own: seq<Op> := if f == gone.faceId then [RemoveHop(n, f)] else [];
    var more := Project(ErasedEntryOps(n, t[n].inherited), n, f);
    LastErasureProject(t, n, f);
    EffectErasedEntry(n, t[n].inherited, f, NextHop(t, n, f));
    RemovalsOnly(own, more, NextHop(t, n, f));
    if own + more == [] { NoHopWithoutRecord(t, n, f); }
  }

  lemma NoHopWithoutRecord(t: Table, n: Name, f: nat)
    requires n in t && |t[n].routes| == 1 && CoveredAt(t, n, f) && f != t[n].routes[0].faceId && !HasFace(t[n].inherited, f)
    ensures NextHop(t, n, f) == None
  {
    assert t[n].routes == [t[n].routes[0]];
    SingleRoute(t[n].routes[0], f);
  }

  lemma RemovalsOnly(a: seq<Op>, b: seq<Op>, before: Option<nat>)
    requires forall op | op in a :: op.RemoveHop?
    requires forall op | op in b :: op.RemoveHop?
    ensures Effect(before, a + b) == if a + b == [] then before else None
    ensures forall op | op in a + b :: op.RemoveHop?
  {
    if a + b != [] { assert (a + b)[|a + b| - 1] in a + b; }
  }
}
