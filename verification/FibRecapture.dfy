/**
 A registration that changes the capture flag of a known route: two traversals with additions and removals each, and
 exactly when they leave the forwarding table right. With `UpdateExact` this covers every update that can be computed.
 */
module FibRecapture {
  import opened Wrappers
  import opened Names
  import opened Routes
  import opened RibLinks
  import opened RibTree
  import opened FibSpec
  import opened FibOps
  import opened FibCompute
  import opened FibApply
  import opened FibEdit
  import opened FibSteps
  import opened FibKnown
  import opened FibTheorem
  import opened FibCommit
  import opened RouteLists
  import opened Witnesses

  // ----- two full traversals -----

  /** The emissions about face `f` outside `n` are those of a traversal with `add` and `remove`, and of another one with
      `add2` and `remove2`. */
  ghost predicate EmitsTwiceAt(t: Table, n: Name, add: seq<Route>, remove: seq<Route>, add2: seq<Route>, remove2: seq<Route>,
                               ops: seq<Op>, f: nat, d: Name)
  {
    d == n || Project(ops, d, f) ==
              if Open(t, n, d, f) then VisitOps(d, t[d], add, remove, [], f) + VisitOps(d, t[d], add2, remove2, [], f) else []
  }

  /** What a name in reach without an own route is left with, which depends on whether it has a record. */
  function DeliveredTwice(t: Table, n: Name, add: seq<Route>, remove: seq<Route>, add2: seq<Route>, remove2: seq<Route>,
                          f: nat, recorded: bool): (c: Option<nat>)
  {
    if OnFace(add2, f).Some? then CostOf(OnFace(add2, f))
    else if OnFace(remove2, f).Some? && recorded then None
    else Delivered(t, n, add, remove, [], f)
  }

  ghost predicate TwiceRight(t: Table, u: Table, n: Name, add: seq<Route>, remove: seq<Route>, add2: seq<Route>,
                             remove2: seq<Route>, f: nat, d: Name)
  {
    Open(t, n, d, f) ==>
      if HasFace(t[d].routes, f) then !(HasRecord(t[d], f) && (OnFace(remove, f).Some? || OnFace(remove2, f).Some?))
      else DeliveredTwice(t, n, add, remove, add2, remove2, f, HasRecord(t[d], f)) == CostOf(SentDown(u, n, f))
  }

  lemma EffectConcat(before: Option<nat>, a: seq<Op>, b: seq<Op>)
    ensures Effect(before, a + b) == Effect(Effect(before, a), b)
  {
    if b == [] { assert a + b == a; } else { assert (a + b)[|a + b| - 1] == b[|b| - 1]; }
  }

  /** The next hop of an entry that is visited twice. */
  lemma TwiceEffect(d: Name, e: Entry<Name>, add: seq<Route>, remove: seq<Route>, add2: seq<Route>, remove2: seq<Route>,
                    f: nat, before: Option<nat>)
    ensures Effect(before, VisitOps(d, e, add, remove, [], f) + VisitOps(d, e, add2, remove2, [], f)) ==
            if !HasFace(e.routes, f) && OnFace(add2, f).Some? then CostOf(OnFace(add2, f))
            else if HasRecord(e, f) && OnFace(remove2, f).Some? then None
            else if !HasFace(e.routes, f) && OnFace(add, f).Some? then CostOf(OnFace(add, f))
            else if HasRecord(e, f) && OnFace(remove, f).Some? then None else before
  {
    EffectConcat(before, VisitOps(d, e, add, remove, [], f), VisitOps(d, e, add2, remove2, [], f));
    VisitEffect(d, e, add, remove, [], f, before);
    VisitEffect(d, e, add2, remove2, [], f, Effect(before, VisitOps(d, e, add, remove, [], f)));
  }

  lemma TwiceExactAt(t: Table, u: Table, fib: Fib, n: Name, add: seq<Route>, remove: seq<Route>, add2: seq<Route>,
                     remove2: seq<Route>, ops: seq<Op>, f: nat, d: Name)
    requires OnlyAt(t, u, n) && EmitsTwiceAt(t, n, add, remove, add2, remove2, ops, f, d) && d != n
    requires CoveredAt(t, d, f) && Get(fib, d, f) == NextHop(t, d, f)
    ensures Get(ApplyOps(fib, ops), d, f) == NextHop(u, d, f) <==> TwiceRight(t, u, n, add, remove, add2, remove2, f, d)
  {
    GetAfterOps(fib, ops, d, f);
    if n < d && d in t {
      NextHopBelow(t, u, n, d, f);
      if Open(t, n, d, f) {
        assert PassesAt(t, d, |d|, f) && d[..|d|] == d;
        TwiceEffect(d, t[d], add, remove, add2, remove2, f, NextHop(t, d, f));
      }
    } else if n < d {
      assert SameRoutesAt(t, u, d);
    } else {
      NextHopElsewhere(t, u, n, d, f);
    }
  }

  /** Some name in reach of `n` has no route of its own on `f`, and a record there or none. */
  ghost predicate ReachesWith(t: Table, n: Name, f: nat, recorded: bool) {
    exists d :: Open(t, n, d, f) && !HasFace(t[d].routes, f) && HasRecord(t[d], f) == recorded
  }

  /** The subtree comes out right, in terms of what is in reach. */
  ghost predicate SubtreeTwiceRight(t: Table, n: Name, add: seq<Route>, remove: seq<Route>, add2: seq<Route>,
                                    remove2: seq<Route>, f: nat, needed: Option<nat>)
  {
    && (ReachesWith(t, n, f, true) ==> DeliveredTwice(t, n, add, remove, add2, remove2, f, true) == needed)
    && (ReachesWith(t, n, f, false) ==> DeliveredTwice(t, n, add, remove, add2, remove2, f, false) == needed)
    && !((OnFace(remove, f).Some? || OnFace(remove2, f).Some?) && LeftoverBelow(t, n, f))
  }

  lemma SubtreeTwiceRightIff(t: Table, u: Table, n: Name, add: seq<Route>, remove: seq<Route>, add2: seq<Route>,
                             remove2: seq<Route>, f: nat)
    ensures SubtreeTwiceRight(t, n, add, remove, add2, remove2, f, CostOf(SentDown(u, n, f))) <==>
            forall d :: TwiceRight(t, u, n, add, remove, add2, remove2, f, d)
  {
    if forall d :: TwiceRight(t, u, n, add, remove, add2, remove2, f, d) {
      if ReachesWith(t, n, f, true) {
        var d :| Open(t, n, d, f) && !HasFace(t[d].routes, f) && HasRecord(t[d], f) == true;
        assert TwiceRight(t, u, n, add, remove, add2, remove2, f, d);
      }
      if ReachesWith(t, n, f, false) {
        var d :| Open(t, n, d, f) && !HasFace(t[d].routes, f) && HasRecord(t[d], f) == false;
        assert TwiceRight(t, u, n, add, remove, add2, remove2, f, d);
      }
      if LeftoverBelow(t, n, f) {
        var d :| Open(t, n, d, f) && HasFace(t[d].routes, f) && HasRecord(t[d], f);
        assert TwiceRight(t, u, n, add, remove, add2, remove2, f, d);
      }
    }
  }

  /** Two traversals: exact afterwards if and only if the own next hop and the subtree come out right. */
  lemma TwiceExact(t: Table, u: Table, fib: Fib, n: Name, add: seq<Route>, remove: seq<Route>, add2: seq<Route>,
                   remove2: seq<Route>, ops: seq<Op>, f: nat)
    requires OnlyAt(t, u, n) && Covered(t, f) && ExactOn(t, fib, f)
    requires forall d :: EmitsTwiceAt(t, n, add, remove, add2, remove2, ops, f, d)
    ensures ExactOn(u, ApplyOps(fib, ops), f) <==>
            && Effect(NextHop(t, n, f), Project(ops, n, f)) == NextHop(u, n, f)
            && SubtreeTwiceRight(t, n, add, remove, add2, remove2, f, CostOf(SentDown(u, n, f)))
  {
    var fib' := ApplyOps(fib, ops);
    forall d ensures d != n ==> (Get(fib', d, f) == NextHop(u, d, f) <==> TwiceRight(t, u, n, add, remove, add2, remove2, f, d)) {
      assert EmitsTwiceAt(t, n, add, remove, add2, remove2, ops, f, d) && CoveredAt(t, d, f);
      if d != n { TwiceExactAt(t, u, fib, n, add, remove, add2, remove2, ops, f, d); }
    }
    assert TwiceRight(t, u, n, add, remove, add2, remove2, f, n);
    GetAfterOps(fib, ops, n, f);
    SubtreeTwiceRightIff(t, u, n, add, remove, add2, remove2, f);
  }

  // ----- where the updater is right -----

  /** `r` takes the place of `was` with the other capture flag. */
  predicate Recaptures(r: Route, was: Route) { r.SameFaceAndOrigin(was) && r.IsCapture() != was.IsCapture() }

  /** The own next hop is left wrong: as for any changed route; or capture is turned on and a leftover record is taken
      for the own route; or capture is turned off and another capturing route is overlooked. */
  ghost predicate RecaptureMissesOwn(t: Table, n: Name, i: nat, r: Route, f: nat)
    requires n in t && i < |t[n].routes|
  {
    var rs, was, back := t[n].routes[i := r], t[n].routes[i], Arriving(t, n, f);
    if HasFace(rs, f) then RenewalMissesOwn(rs, r, was, f) || (r.IsCapture() && back.Some? && HasRecord(t[n], f))
    else !r.IsCapture() && Captures(rs) && back.Some?
  }

  /** What a name in reach without an own route is left with. */
  ghost function RecaptureBrings(t: Table, n: Name, i: nat, r: Route, f: nat, recorded: bool): (c: Option<nat>)
    requires n in t && i < |t[n].routes|
  {
    var rs, was, back := t[n].routes[i := r], t[n].routes[i], Arriving(t, n, f);
    if back.Some? && !r.IsCapture() then CostOf(back)
    else if back.Some? && recorded then None
    else if f == r.faceId && TurnsOfferOff(r, was) then CostOf(if HasChildInherit(rs, f) then CheapestOffer(rs, f) else back)
    else if f == r.faceId && RenewalOffers(rs, r, was) then Some(r.cost)
    else CostOf(SentDown(t, n, f))
  }

  /** What it should be left with: the first listed offer, or what arrives unless the name still captures. */
  ghost function RecaptureNeeds(t: Table, n: Name, i: nat, r: Route, f: nat): (c: Option<nat>)
    requires n in t && i < |t[n].routes|
  {
    var rs := t[n].routes[i := r];
    if HasChildInherit(rs, f) then CostOf(OffersOn(rs, f)) else if Captures(rs) then None else CostOf(Arriving(t, n, f))
  }

  /** What a caller can check before a registration that changes a capture flag. */
  ghost predicate RecaptureSound(t: Table, n: Name, i: nat, r: Route, f: nat)
    requires n in t && i < |t[n].routes|
  {
    && !RecaptureMissesOwn(t, n, i, r, f)
    && (ReachesWith(t, n, f, true) ==> RecaptureBrings(t, n, i, r, f, true) == RecaptureNeeds(t, n, i, r, f))
    && (ReachesWith(t, n, f, false) ==> RecaptureBrings(t, n, i, r, f, false) == RecaptureNeeds(t, n, i, r, f))
    && ((f == r.faceId && TurnsOfferOff(r, t[n].routes[i])) || (r.IsCapture() && Arriving(t, n, f).Some?) ==>
        !LeftoverBelow(t, n, f))
  }

  // ----- the emissions -----

  ghost function SecondAdded(t: Table, n: Name, r: Route): (rs: seq<Route>)
    requires ParentsExact(t) && n in t
  {
    if r.IsCapture() then [] else AncestorRoutes(t, t[n].parent)
  }

  ghost function SecondRemoved(t: Table, n: Name, r: Route): (rs: seq<Route>)
    requires ParentsExact(t) && n in t
  {
    if r.IsCapture() then AncestorRoutes(t, t[n].parent) else []
  }

  lemma RecaptureEmits(t: Table, n: Name, e: Entry<Name>, r: Route, was: Route, f: nat, d: Name)
    requires CopyOf(t, n, e) && CaptureExact(t) && r in e.routes && Recaptures(r, was)
    ensures EmitsTwiceAt(t, n, AddedByRenewal(t, n, e.routes, r, was), RemovedByRenewal(r, was), SecondAdded(t, n, r),
                         SecondRemoved(t, n, r), UpdatedRouteOps(t, n, e, r, was), f, d)
  {
    var own := RenewOwnOps(n, e, r, was);
    var first := if TurnsOfferOff(r, was) || RenewalOffers(e.routes, r, was)
                 then own + ToChildren(t, n, AddedByRenewal(t, n, e.routes, r, was), RemovedByRenewal(r, was)) + []
                 else own;
    RecaptureShape(t, n, e, r, was);
    RecaptureFirst(t, n, e, r, was, first, f);
    RecaptureSecond(t, n, e, r, was, f);
    JoinEmits(t, n, AddedByRenewal(t, n, e.routes, r, was), RemovedByRenewal(r, was), SecondAdded(t, n, r),
              SecondRemoved(t, n, r), first, RenewCaptureOps(t, n, e, r, was), f, d);
  }

  lemma JoinEmits(t: Table, n: Name, add: seq<Route>, remove: seq<Route>, add2: seq<Route>, remove2: seq<Route>,
                  first: seq<Op>, second: seq<Op>, f: nat, d: Name)
    requires EmitsUnder(t, n, add, remove, [], first, f) && EmitsUnder(t, n, add2, remove2, [], second, f)
    ensures EmitsTwiceAt(t, n, add, remove, add2, remove2, first + second, f, d)
  {
    assert EmitsAt(t, n, add, remove, [], first, f, d) && EmitsAt(t, n, add2, remove2, [], second, f, d);
    ProjectConcat(first, second, d, f);
  }

  /** The emissions about the name itself. */
  ghost function RecaptureSelfOps(t: Table, n: Name, e: Entry<Name>, r: Route, f: nat): (ops: seq<Op>) {
    var back := Arriving(t, n, f);
    if back.None? then []
    else if r.IsCapture() then if HasRecord(e, f) then [Disinherit(n, back.value)] else []
    else if HasFace(e.routes, f) then [] else [Inherit(n, back.value)]
  }

  lemma RecaptureOwnOps(t: Table, n: Name, e: Entry<Name>, r: Route, was: Route, f: nat)
    requires CopyOf(t, n, e) && CaptureExact(t) && r in e.routes && Recaptures(r, was)
    ensures Project(UpdatedRouteOps(t, n, e, r, was), n, f) ==
            OwnOfRenewal(n, e.routes, r, was, f) + RecaptureSelfOps(t, n, e, r, f)
  {
    var first := RecaptureParts(t, n, e, r, was, f);
    RecaptureSecond(t, n, e, r, was, f);
    AncestorRoutesExact(t, n, f);
    ProjectConcat(first, RenewCaptureOps(t, n, e, r, was), n, f);
  }

  // ----- the own next hop -----

  lemma RecaptureOwn(t: Table, c: Table, n: Name, i: nat, r: Route, f: nat)
    requires OnlyAt(t, c, n) && n in t && n in c && i < |t[n].routes| && Recaptures(r, t[n].routes[i]) && CoveredAt(t, n, f)
    requires c[n].routes == t[n].routes[i := r] && !DereferencesNull(c[n].routes, r, t[n].routes[i])
    ensures var e := t[n].(routes := c[n].routes);
      RecaptureMissesOwn(t, n, i, r, f) <==>
      NextHop(c, n, f) !=
      Effect(NextHop(t, n, f), OwnOfRenewal(n, c[n].routes, r, t[n].routes[i], f) + RecaptureSelfOps(t, n, e, r, f))
  {
    var routes, rs, e := t[n].routes, c[n].routes, t[n].(routes := c[n].routes);
    EffectConcat(NextHop(t, n, f), OwnOfRenewal(n, rs, r, routes[i], f), RecaptureSelfOps(t, n, e, r, f));
    FacesReplaced(routes, i, r, f);
    if HasFace(rs, f) {
      OwnRouteAfter(n, routes, rs, i, r, f);
    } else {
      ArrivingIgnoresSelf(t, c, n, f);
      NoRouteAfter(routes, rs, i, r, f);
    }
  }

  /** With a route of its own on the face: the part about cost. */
  lemma OwnRouteAfter(n: Name, routes: seq<Route>, rs: seq<Route>, i: nat, r: Route, f: nat)
    requires i < |routes| && rs == routes[i := r] && routes[i].faceId == r.faceId && !DereferencesNull(rs, r, routes[i])
    requires HasFace(rs, f) && HasFace(routes, f)
    ensures CostOf(Cheapest(rs, f)).Some?
    ensures RenewalMissesOwn(rs, r, routes[i], f) <==>
            Effect(CostOf(Cheapest(routes, f)), OwnOfRenewal(n, rs, r, routes[i], f)) != CostOf(Cheapest(rs, f))
  {
    if f == r.faceId { RenewalOwnCost(n, routes, rs, i, r); } else { ReplaceElsewhere(routes, i, r, f); }
  }

  /** Without one: what captures, before and after. */
  lemma NoRouteAfter(routes: seq<Route>, rs: seq<Route>, i: nat, r: Route, f: nat)
    requires i < |routes| && rs == routes[i := r] && Recaptures(r, routes[i]) && !HasFace(rs, f)
    ensures f != r.faceId && (r.IsCapture() ==> Captures(rs)) && (!r.IsCapture() ==> Captures(routes))
  {
    MembersReplaced(routes, i, r);
  }

  // ----- the theorem -----

  lemma RecaptureStep(t: Table, c: Table, fib: Fib, n: Name, i: nat, r: Route, f: nat)
    requires TreeExact(t) && CaptureExact(t) && n in t && Covered(t, f) && ExactOn(t, fib, f)
    requires i < |t[n].routes| && Recaptures(r, t[n].routes[i]) && !DereferencesNull(t[n].routes[i := r], r, t[n].routes[i])
    requires OnlyAt(t, c, n) && n in c && c[n].routes == t[n].routes[i := r]
    ensures var ops := UpdatedRouteOps(t, n, t[n].(routes := c[n].routes), r, t[n].routes[i]);
      ExactOn(c, ApplyOps(fib, ops), f) <==> RecaptureSound(t, n, i, r, f)
  {
    assert CoveredAt(t, n, f);
    assert c[n].routes == t[n].routes[i := r];
    RecaptureEdit(t, c, fib, n, i, r, f);
    RecaptureOwn(t, c, n, i, r, f);
    RecaptureSoundIs(t, c, n, i, r, f);
  }

  lemma RecaptureSoundIs(t: Table, c: Table, n: Name, i: nat, r: Route, f: nat)
    requires TreeExact(t) && CaptureExact(t) && n in t && i < |t[n].routes| && Recaptures(r, t[n].routes[i])
    requires OnlyAt(t, c, n) && n in c && c[n].routes == t[n].routes[i := r]
    ensures RecaptureSound(t, n, i, r, f) <==>
            && !RecaptureMissesOwn(t, n, i, r, f)
            && SubtreeTwiceRight(t, n, AddedByRenewal(t, n, c[n].routes, r, t[n].routes[i]),
                                 RemovedByRenewal(r, t[n].routes[i]), SecondAdded(t, n, r), SecondRemoved(t, n, r), f,
                                 CostOf(SentDown(c, n, f)))
  {
    RecaptureTerms(t, c, n, i, r, f);
  }

  lemma RecaptureEdit(t: Table, c: Table, fib: Fib, n: Name, i: nat, r: Route, f: nat)
    requires TreeExact(t) && CaptureExact(t) && n in t && Covered(t, f) && ExactOn(t, fib, f)
    requires i < |t[n].routes| && Recaptures(r, t[n].routes[i])
    requires OnlyAt(t, c, n) && n in c && c[n].routes == t[n].routes[i := r]
    ensures var e, was := t[n].(routes := c[n].routes), t[n].routes[i];
      ExactOn(c, ApplyOps(fib, UpdatedRouteOps(t, n, e, r, was)), f) <==>
      && Effect(NextHop(t, n, f), OwnOfRenewal(n, e.routes, r, was, f) + RecaptureSelfOps(t, n, e, r, f)) == NextHop(c, n, f)
      && SubtreeTwiceRight(t, n, AddedByRenewal(t, n, e.routes, r, was), RemovedByRenewal(r, was), SecondAdded(t, n, r),
                           SecondRemoved(t, n, r), f, CostOf(SentDown(c, n, f)))
  {
    var e, was := t[n].(routes := c[n].routes), t[n].routes[i];
    assert e.routes[i] == r;
    var add, remove, add2, remove2 :=
      AddedByRenewal(t, n, e.routes, r, was), RemovedByRenewal(r, was), SecondAdded(t, n, r), SecondRemoved(t, n, r);
    var ops := UpdatedRouteOps(t, n, e, r, was);
    forall d ensures EmitsTwiceAt(t, n, add, remove, add2, remove2, ops, f, d) { RecaptureEmits(t, n, e, r, was, f, d); }
    TwiceExact(t, c, fib, n, add, remove, add2, remove2, ops, f);
    RecaptureOwnOps(t, n, e, r, was, f);
  }

  /** The terms of the theorem are those of the two traversals. */
  lemma RecaptureTerms(t: Table, c: Table, n: Name, i: nat, r: Route, f: nat)
    requires TreeExact(t) && CaptureExact(t) && n in t && i < |t[n].routes| && Recaptures(r, t[n].routes[i])
    requires OnlyAt(t, c, n) && n in c && c[n].routes == t[n].routes[i := r]
    ensures var rs, was := t[n].routes[i := r], t[n].routes[i];
      var add, remove, add2, remove2 :=
        AddedByRenewal(t, n, rs, r, was), RemovedByRenewal(r, was), SecondAdded(t, n, r), SecondRemoved(t, n, r);
      && (forall recorded: bool ::
            DeliveredTwice(t, n, add, remove, add2, remove2, f, recorded) == RecaptureBrings(t, n, i, r, f, recorded))
      && CostOf(SentDown(c, n, f)) == RecaptureNeeds(t, n, i, r, f)
      && (OnFace(remove, f).Some? <==> f == r.faceId && TurnsOfferOff(r, was))
      && (OnFace(remove2, f).Some? <==> r.IsCapture() && Arriving(t, n, f).Some?)
  {
    RecaptureRemovals(t, n, r, t[n].routes[i], f);
    forall recorded: bool { RecaptureBringsIs(t, n, i, r, f, recorded); }
    ArrivingIgnoresSelf(t, c, n, f);
  }

  lemma RecaptureRemovals(t: Table, n: Name, r: Route, was: Route, f: nat)
    requires TreeExact(t) && CaptureExact(t) && n in t
    ensures OnFace(RemovedByRenewal(r, was), f).Some? <==> f == r.faceId && TurnsOfferOff(r, was)
    ensures OnFace(SecondRemoved(t, n, r), f).Some? <==> r.IsCapture() && Arriving(t, n, f).Some?
  {
    AncestorRoutesExact(t, n, f);
    SingleRoute(r, f);
  }

  lemma RecaptureBringsIs(t: Table, n: Name, i: nat, r: Route, f: nat, recorded: bool)
    requires TreeExact(t) && CaptureExact(t) && n in t && i < |t[n].routes| && Recaptures(r, t[n].routes[i])
    ensures var rs, was := t[n].routes[i := r], t[n].routes[i];
      DeliveredTwice(t, n, AddedByRenewal(t, n, rs, r, was), RemovedByRenewal(r, was), SecondAdded(t, n, r),
                     SecondRemoved(t, n, r), f, recorded) == RecaptureBrings(t, n, i, r, f, recorded)
  {
    AncestorRoutesExact(t, n, f);
    RenewalBrings(t, n, i, r, f);
  }

  /** From an exact RIB and forwarding table, every update that can be computed leads to the exact forwarding table on a
      face if and only if it is sound there. */
  lemma EveryUpdateExact(s: Rib, u: RibUpdate, fib: Fib, f: nat)
    requires Good(s) && Computable(s.table, u) && Covered(s.table, f) && ExactOn(s.table, fib, f)
    ensures ExactOn(Commit(s, u).table, ApplyOps(fib, UpdateOps(s, u)), f) <==>
            if KeepsCapture(s.table, u) then SoundOn(s.table, u, f)
            else RecaptureSound(s.table, u.name, FindRoute(s.table[u.name].routes, u.route), u.route, f)
  {
    if KeepsCapture(s.table, u) {
      UpdateExact(s, u, fib, f);
    } else {
      RenewedTable(s, u.name, u.route);
      var i, c := FindRoute(s.table[u.name].routes, u.route), Insert(s, u.name, u.route).table;
      RecaptureStep(s.table, c, fib, u.name, i, u.route, f);
      forall d ensures NextHop(ApplyRecords(c, UpdateOps(s, u)), d, f) == NextHop(c, d, f) {
        NextHopIgnoresRecords(c, UpdateOps(s, u), d, f);
      }
    }
  }

  // ----- a reachable state -----

  const Wall2 := Route(3, 0, CAPTURE, 30)
  const Opened := Route(2, 0, 0, 20)
  const TwoWallsPlan: seq<Planted> := [Planted([], FromRoot), Planted(A, Wall)]

  /** The state before: right on face 1, with two capturing routes at `A`. */
  ghost predicate HasTwoWalls(w: World) {
    && Good(w.rib) && Covered(w.rib.table, 1) && ExactOn(w.rib.table, w.fib, 1)
    && [] in w.rib.table && w.rib.table[[]].routes == [FromRoot]
    && A in w.rib.table && w.rib.table[A].routes == [Wall, Wall2]
  }

  /** Capture is turned off on one of two capturing routes: the name gets its ancestors' route, though it captures. */
  lemma OtherCaptureIsOverlooked()
    ensures NewNames(TwoWallsPlan)
    ensures var w := After(Grow(TwoWallsPlan), Register(A, Wall2));
      HasTwoWalls(w) && var v := After(w, Register(A, Opened)); !ExactOn(v.rib.table, v.fib, 1)
  {
    NamesDiffer();
    SecondWall(Grow(TwoWallsPlan));
    WallOpens(After(Grow(TwoWallsPlan), Register(A, Wall2)));
  }

  lemma SecondWall(w: World)
    requires Right(w) && Holds(w.rib.table, TwoWallsPlan)
    ensures HasTwoWalls(After(w, Register(A, Wall2)))
  {
    var s := w.rib;
    PlanHolds(s.table, TwoWallsPlan, 0);
    PlanHolds(s.table, TwoWallsPlan, 1);
    assert RightOn(s.table, w.fib, 1);
    WallIsSound(s.table);
    UpdateExact(s, Register(A, Wall2), w.fib, 1);
    CommitKeepsGood(s, Register(A, Wall2));
    WallRoutes(s);
  }

  lemma WallIsSound(t: Table)
    requires A in t && t[A].routes == [Wall]
    ensures SoundOn(t, Register(A, Wall2), 1) && Admissible(t, Register(A, Wall2))
  {
    WallFacts();
  }

  lemma WallRoutes(s: Rib)
    requires Good(s) && A in s.table && s.table[A].routes == [Wall] && [] in s.table && s.table[[]].routes == [FromRoot]
    ensures var t := Commit(s, Register(A, Wall2)).table;
      [] in t && t[[]].routes == [FromRoot] && A in t && t[A].routes == [Wall, Wall2]
  {
    var u := Register(A, Wall2);
    NamesDiffer();
    WallFacts();
    InsertedTable(s, A, Wall2);
    RoutesAfterRecords(Edited(s, u).table, UpdateOps(s, u), A);
    OwnRoutesStay(s, u, []);
  }

  lemma WallFacts()
    ensures FindRoute([Wall], Wall2) == 1 && [Wall] + [Wall2] == [Wall, Wall2] && Captures([Wall])
    ensures !HasChildInherit([Wall], 1) && !HasFace([Wall], 1)
    ensures FindRoute([Wall, Wall2], Opened) == 0 && [Wall, Wall2][0 := Opened] == [Opened, Wall2]
    ensures Captures([Opened, Wall2]) && !HasFace([Opened, Wall2], 1) && Wall.IsCapture() && !Opened.IsCapture()
  {
    SingleRoute(Wall, 1);
    assert Wall2 in [Opened, Wall2] && Wall2.IsCapture();
  }

  lemma WallOpens(w: World)
    requires HasTwoWalls(w)
    ensures var v := After(w, Register(A, Opened)); !ExactOn(v.rib.table, v.fib, 1)
  {
    var t := w.rib.table;
    WallFacts();
    RootArrives(t);
    OpenedIsComputable(t);
    assert RecaptureMissesOwn(t, A, 0, Opened, 1);
    EveryUpdateExact(w.rib, Register(A, Opened), w.fib, 1);
  }

  lemma OpenedIsComputable(t: Table)
    requires A in t && t[A].routes == [Wall, Wall2]
    ensures Computable(t, Register(A, Opened)) && !KeepsCapture(t, Register(A, Opened))
  {
    WallFacts();
    assert Opened.cost == Wall.cost && Cheapest([Opened, Wall2], 2).Some?;
  }
}
