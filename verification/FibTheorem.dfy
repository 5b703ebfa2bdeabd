/**
 The step theorem of the incremental FIB updater: for every RIB with exact counters, every update that keeps the
 capture flags of registered routes, and every face, the emissions followed by the commit leave the forwarding
 table exact if and only if `SoundOn` holds.
 */
module FibTheorem {
  import opened Names
  import opened Routes
  import opened RibTree
  import opened FibSpec
  import opened FibOps
  import opened FibSubtree
  import opened FibCompute
  import opened FibApply
  import opened FibEdit
  import opened FibSteps
  import opened FibKnown
  import opened RouteLists

  // ----- committing an update -----

  /** The RIB after the route change of an update, before the inherited-route records are applied. */
  ghost function Edited(s: Rib, u: RibUpdate): (r: Rib)
    requires RibExact(s)
  {
    match u
    case Register(n, r) => Insert(s, n, r)
    case Unregister(n, r) => Erase(s, n, r)
    case RemoveFace(n, r) => Erase(s, n, r)
  }

  /** `onFibUpdateSuccess` with the records of some emissions: the route change, then `modifyInheritedRoutes`. */
  ghost function CommitWith(s: Rib, u: RibUpdate, ops: seq<Op>): (r: Rib)
    requires RibExact(s)
  {
    var c := Edited(s, u);
    c.(table := ApplyRecords(c.table, ops))
  }

  /** `onFibUpdateSuccess` with the records that were computed for the update. */
  ghost function Commit(s: Rib, u: RibUpdate): (r: Rib)
    requires RibExact(s)
  {
    CommitWith(s, u, UpdateOps(s, u))
  }

  /** An exact RIB with exact capture counters. */
  ghost predicate Good(s: Rib) { RibExact(s) && CaptureExact(s.table) }

  /** A registration of a known route does not change its capture flag. */
  ghost predicate KeepsCapture(t: Table, u: RibUpdate) {
    u.Register? && u.name in t ==>
      var routes, r := t[u.name].routes, u.route;
      var i := FindRoute(routes, r);
      i < |routes| ==> routes[i].IsCapture() == r.IsCapture()
  }

  ghost predicate Admissible(t: Table, u: RibUpdate) { KeepsCapture(t, u) && Computable(t, u) }

  // ----- where the updater is right -----

  /** The next hop of the updated name itself is left wrong on `f`. */
  ghost predicate MissesOwn(t: Table, u: RibUpdate, f: nat) {
    && u.name in t
    && var n, r, routes := u.name, u.route, t[u.name].routes;
       var i := FindRoute(routes, r);
       if u.Register? then
         if i == |routes| then RouteLosesOwn(t, n, r, f) else RenewalMissesOwn(routes[i := r], r, routes[i], f)
       else i < |routes| && |routes| > 1 && ErasureMissesOwn(t, n, i, f)
  }

  /** The traversals bring something else to the names under the updated one than that name now sends down. */
  ghost predicate Misdelivers(t: Table, u: RibUpdate, f: nat) {
    && u.name in t
    && var n, r, routes := u.name, u.route, t[u.name].routes;
       var i := FindRoute(routes, r);
       if u.Register? then
         if i == |routes| then RouteMisdelivers(t, n, r, f) else RenewalMisdelivers(t, n, i, r, f)
       else
         && i < |routes|
         && if |routes| > 1 then ErasureMisdelivers(t, n, i, f)
            // The last route of a capturing name does not give the subtree its ancestors' routes back.
            else routes[i].IsCapture() && Arriving(t, n, f).Some?
  }

  /** The traversals take routes on `f` away from the names under the updated one. */
  ghost predicate TakesAway(t: Table, u: RibUpdate, f: nat) {
    var n, r := u.name, u.route;
    if n !in t then u.Register? && r.IsCapture() && Arriving(t, n, f).Some?
    else
      var routes := t[n].routes;
      var i := FindRoute(routes, r);
      if !u.Register? then i < |routes| && f == r.faceId && routes[i].IsChildInherit()
      else if i < |routes| then f == r.faceId && TurnsOfferOff(r, routes[i])
      else TurnsCaptureOn(t[n], r) && Arriving(t, n, f).Some?
  }

  /** What a caller can check before the update: the name's own next hop comes out right on `f`, nothing is
      misdelivered or it would not get anywhere, and nothing is taken away where a leftover record stands beside
      an own route. */
  ghost predicate SoundOn(t: Table, u: RibUpdate, f: nat) {
    && !MissesOwn(t, u, f)
    && (Misdelivers(t, u, f) ==> !Reaches(t, u.name, f))
    && (TakesAway(t, u, f) ==> !LeftoverBelow(t, u.name, f))
  }

  /** The update leaves no inherited-route record beside an own route of the name: a further route finds none on its
      face, and erasing one of several routes on a face uncovers nothing. */
  ghost predicate NoLeftover(t: Table, u: RibUpdate, f: nat) {
    u.name in t && f == u.route.faceId ==>
      var e, r := t[u.name], u.route;
      var i, count, back := FindRoute(e.routes, r), CountOn(e.inherited, f), Arriving(t, u.name, f);
      if u.Register? then
        i == |e.routes| ==> count == 0 || (count == 1 && TurnsCaptureOn(e, r) && back.Some?)
      else
        i < |e.routes| && HasFace(WithoutIndex(e.routes, i), f) ==> Captures(WithoutIndex(e.routes, i)) || back.None?
  }

  /** After the route change to `c` and the emissions: exact on `f` if and only if `sound`, and then covered. */
  ghost predicate RightAfter(c: Table, ops: seq<Op>, fib: Fib, f: nat, sound: bool) {
    && (ExactOn(ApplyRecords(c, ops), ApplyOps(fib, ops), f) <==> sound)
    && (sound ==> Covered(ApplyRecords(c, ops), f))
  }

  // ----- a new name -----

  ghost predicate NewNameSound(t: Table, n: Name, r: Route, f: nat) {
    r.IsCapture() && Arriving(t, n, f).Some? ==> !LeftoverBelow(t, n, f)
  }

  lemma NewNameStep(t: Table, c: Table, fib: Fib, n: Name, r: Route, cs: seq<Name>, f: nat)
    requires TreeExact(t) && CaptureExact(t) && Tops(t, n, cs) && n !in t && Covered(t, f) && ExactOn(t, fib, f)
    requires OnlyAt(t, c, n) && SameRecords(t, c, n) && n in c && c[n].routes == [r] && c[n].inherited == []
    ensures Roots(t, n, cs) && RightAfter(c, NewEntryOps(t, n, r, cs), fib, f, NewNameSound(t, n, r, f))
  {
    NewNameEmits(t, n, r, cs, f);
    var ops := NewEntryOps(t, n, r, cs);
    NewNameDelivers(t, c, n, r, f);
    StepFromEdit(t, c, fib, n, AddedByNew(t, n, r), RemovedByNew(t, n, r), [], ops, f);
    AncestorRoutesExact(t, n, f);
    NewNameRecords(t, c, n, r, ops, f);
  }

  /** Registering under a new name, with any flags and in any tree, is exact unless a capturing route takes a face
      away from a name that keeps a leftover record on it; without leftover records it is always exact. */
  lemma RegisterNewName(s: Rib, n: Name, r: Route, fib: Fib, f: nat)
    requires Good(s) && n !in s.table && Covered(s.table, f) && ExactOn(s.table, fib, f)
    ensures RightAfter(Edited(s, Register(n, r)).table, UpdateOps(s, Register(n, r)), fib, f,
                       NewNameSound(s.table, n, r, f))
    ensures Tidy(s.table, f) ==>
            ExactOn(Commit(s, Register(n, r)).table, ApplyOps(fib, UpdateOps(s, Register(n, r))), f)
  {
    FutureChildrenAreTops(s, n);
    InsertedTable(s, n, r);
    NewNameStep(s.table, Insert(s, n, r).table, fib, n, r,
                FutureChildren(s.table, ParentOf(s.table.Keys, n), Under(s.order, n)), f);
    if LeftoverBelow(s.table, n, f) { LeftoverIsUntidy(s.table, n, f); }
  }

  lemma LeftoverIsUntidy(t: Table, n: Name, f: nat)
    requires LeftoverBelow(t, n, f)
    ensures !Tidy(t, f)
  {
    var d :| Open(t, n, d, f) && HasFace(t[d].routes, f) && HasRecord(t[d], f);
    assert !TidyAt(t, d, f);
  }

  lemma NewNameCount(t: Table, n: Name, r: Route, f: nat)
    ensures CountEffect(0, OwnOfNew(t, n, r, f)) ==
            if f != r.faceId && !r.IsCapture() && Arriving(t, n, f).Some? then 1 else 0
  {
    var ops := OwnOfNew(t, n, r, f);
    if ops != [] { assert ops[..|ops| - 1] == []; }
  }

  lemma NewNameRecords(t: Table, c: Table, n: Name, r: Route, ops: seq<Op>, f: nat)
    requires OnlyAt(t, c, n) && n in c && c[n].routes == [r] && c[n].inherited == []
    requires Project(ops, n, f) == OwnOfNew(t, n, r, f)
    ensures CoveredAt(ApplyRecords(c, ops), n, f) && TidyAt(ApplyRecords(c, ops), n, f)
  {
    RecordsAtSelf(t, c, n, ops, f);
    NewNameCount(t, n, r, f);
    SingleRoute(r, f);
  }

  // ----- a further route -----

  ghost predicate FurtherRouteSound(t: Table, n: Name, r: Route, f: nat)
    requires n in t
  {
    && !RouteLosesOwn(t, n, r, f)
    && (RouteMisdelivers(t, n, r, f) ==> !Reaches(t, n, f))
    && (TurnsCaptureOn(t[n], r) && Arriving(t, n, f).Some? ==> !LeftoverBelow(t, n, f))
  }

  lemma FurtherRouteStep(t: Table, c: Table, fib: Fib, n: Name, r: Route, f: nat)
    requires TreeExact(t) && CaptureExact(t) && n in t && Covered(t, f) && ExactOn(t, fib, f)
    requires FindRoute(t[n].routes, r) == |t[n].routes| && OnlyAt(t, c, n) && SameRecords(t, c, n)
    requires n in c && c[n].routes == t[n].routes + [r] && c[n].inherited == t[n].inherited
    ensures RightAfter(c, NewRouteOps(t, n, t[n], r, t[n].captureCount == 0 && r.IsCapture()), fib, f,
                       FurtherRouteSound(t, n, r, f))
  {
    var ops := NewRouteOps(t, n, t[n], r, t[n].captureCount == 0 && r.IsCapture());
    assert CoveredAt(t, n, f);
    NewRouteEmits(t, n, r, f);
    NewRouteDelivers(t, c, n, r, f);
    NewRouteOwn(t, c, n, r, f);
    StepFromEdit(t, c, fib, n, AddedByRoute(t[n].routes, r), RemovedByRoute(t, n, r), [], ops, f);
    AncestorRoutesExact(t, n, f);
    FurtherRouteRecords(t, c, n, r, ops, f);
  }

  lemma RegisterFurtherRoute(s: Rib, n: Name, r: Route, fib: Fib, f: nat)
    requires Good(s) && n in s.table && Covered(s.table, f) && ExactOn(s.table, fib, f)
    requires FindRoute(s.table[n].routes, r) == |s.table[n].routes|
    ensures RightAfter(Edited(s, Register(n, r)).table, UpdateOps(s, Register(n, r)), fib, f,
                       FurtherRouteSound(s.table, n, r, f))
  {
    InsertedTable(s, n, r);
    FurtherRouteStep(s.table, Insert(s, n, r).table, fib, n, r, f);
  }

  lemma FurtherRouteRecords(t: Table, c: Table, n: Name, r: Route, ops: seq<Op>, f: nat)
    requires OnlyAt(t, c, n) && n in t && n in c
    requires c[n].routes == t[n].routes + [r] && c[n].inherited == t[n].inherited
    requires FindRoute(t[n].routes, r) == |t[n].routes| && Project(ops, n, f) == OwnOfRoute(t, n, r, f)
    ensures CoveredAt(t, n, f) ==> CoveredAt(ApplyRecords(c, ops), n, f)
    ensures TidyAt(t, n, f) ==> (TidyAt(ApplyRecords(c, ops), n, f) <==> NoLeftover(t, Register(n, r), f))
  {
    RecordsAtSelf(t, c, n, ops, f);
    OwnAfterAppend(t[n].routes, c[n].routes, r, f);
    CountOfRoute(t, n, r, f);
  }

  lemma CountOfRoute(t: Table, n: Name, r: Route, f: nat)
    requires n in t
    ensures var count := CountOn(t[n].inherited, f);
      CountEffect(count, OwnOfRoute(t, n, r, f)) ==
      if TurnsCaptureOn(t[n], r) && Arriving(t, n, f).Some? && count > 0 then count - 1 else count
  {
    var disinherits := TurnsCaptureOn(t[n], r) && Arriving(t, n, f).Some? && HasRecord(t[n], f);
    var x := if Arriving(t, n, f).Some? then Arriving(t, n, f).value else r;
    CountThenAdd(disinherits, f == r.faceId && BestRoute(t[n].routes, r), n, x, r, CountOn(t[n].inherited, f));
  }

  lemma CountThenAdd(removes: bool, adds: bool, n: Name, x: Route, r: Route, before: nat)
    ensures CountEffect(before, (if removes then [Disinherit(n, x)] else []) +
                                (if adds then [AddHop(n, r.faceId, r.cost)] else [])) ==
            if removes && before > 0 then before - 1 else before
  {
    var a: seq<Op> := if removes then [Disinherit(n, x)] else [];
    assert CountEffect(before, []) == before;
    CountMaybe(before, [], removes, Disinherit(n, x));
    assert [] + a == a;
    CountMaybe(before, a, adds, AddHop(n, r.faceId, r.cost));
  }

  // ----- a changed route -----

  ghost predicate RenewalSound(t: Table, n: Name, i: nat, r: Route, f: nat)
    requires n in t && i < |t[n].routes|
  {
    && !RenewalMissesOwn(t[n].routes[i := r], r, t[n].routes[i], f)
    && (RenewalMisdelivers(t, n, i, r, f) ==> !Reaches(t, n, f))
    && (f == r.faceId && TurnsOfferOff(r, t[n].routes[i]) ==> !LeftoverBelow(t, n, f))
  }

  lemma RenewRoute(s: Rib, n: Name, r: Route, fib: Fib, f: nat)
    requires Good(s) && n in s.table && Covered(s.table, f) && ExactOn(s.table, fib, f)
    requires Admissible(s.table, Register(n, r)) && FindRoute(s.table[n].routes, r) < |s.table[n].routes|
    ensures RightAfter(Edited(s, Register(n, r)).table, UpdateOps(s, Register(n, r)), fib, f,
                       RenewalSound(s.table, n, FindRoute(s.table[n].routes, r), r, f))
  {
    RenewedTable(s, n, r);
    RenewalStep(s.table, Insert(s, n, r).table, fib, n, FindRoute(s.table[n].routes, r), r, f);
  }

  lemma RenewedTable(s: Rib, n: Name, r: Route)
    requires RibExact(s) && n in s.table && FindRoute(s.table[n].routes, r) < |s.table[n].routes|
    ensures var t, c, i := s.table, Insert(s, n, r).table, FindRoute(s.table[n].routes, r);
      && OnlyAt(t, c, n) && SameRecords(t, c, n) && n in c
      && c[n].routes == t[n].routes[i := r] && c[n].inherited == t[n].inherited
      && CopyOf(t, n, t[n].(routes := t[n].routes[i := r]))
      && RegisterOps(s, n, r) == UpdatedRouteOps(t, n, t[n].(routes := t[n].routes[i := r]), r, t[n].routes[i])
  {
    var i := FindRoute(s.table[n].routes, r);
    assert s.table[n].routes[i].(flags := r.flags, cost := r.cost) == r;
    InsertedTable(s, n, r);
  }

  lemma RenewalStep(t: Table, c: Table, fib: Fib, n: Name, i: nat, r: Route, f: nat)
    requires TreeExact(t) && CaptureExact(t) && n in t && Covered(t, f) && ExactOn(t, fib, f)
    requires i < |t[n].routes| && Renews(r, t[n].routes[i]) && !DereferencesNull(t[n].routes[i := r], r, t[n].routes[i])
    requires OnlyAt(t, c, n) && SameRecords(t, c, n)
    requires n in c && c[n].routes == t[n].routes[i := r] && c[n].inherited == t[n].inherited
    ensures RightAfter(c, UpdatedRouteOps(t, n, t[n].(routes := t[n].routes[i := r]), r, t[n].routes[i]), fib, f,
                       RenewalSound(t, n, i, r, f))
  {
    var was, e := t[n].routes[i], t[n].(routes := t[n].routes[i := r]);
    var ops := UpdatedRouteOps(t, n, e, r, was);
    assert CoveredAt(t, n, f) && e.routes[i] == r;
    RenewalEmits(t, n, e, r, was, f);
    RenewalDelivers(t, c, n, i, r, f);
    RenewalOwn(t, c, n, i, r, f);
    StepFromEdit(t, c, fib, n, AddedByRenewal(t, n, e.routes, r, was), RemovedByRenewal(r, was), [], ops, f);
    SingleRoute(r, f);
    RenewalRecords(t, c, n, i, r, ops, f);
  }

  lemma RenewalRecords(t: Table, c: Table, n: Name, i: nat, r: Route, ops: seq<Op>, f: nat)
    requires OnlyAt(t, c, n) && n in t && n in c && c[n].inherited == t[n].inherited
    requires i < |t[n].routes| && Renews(r, t[n].routes[i]) && c[n].routes == t[n].routes[i := r]
    requires Project(ops, n, f) == OwnOfRenewal(n, c[n].routes, r, t[n].routes[i], f)
    ensures CoveredAt(t, n, f) ==> CoveredAt(ApplyRecords(c, ops), n, f)
    ensures TidyAt(t, n, f) ==> TidyAt(ApplyRecords(c, ops), n, f)
  {
    RecordsAtSelf(t, c, n, ops, f);
    CapturesReplaced(t[n].routes, i, r);
    FacesReplaced(t[n].routes, i, r, f);
    OwnIsOneHop(n, c[n].routes, r, t[n].routes[i], f);
    HopCountsNothing(CountOn(t[n].inherited, f), Project(ops, n, f));
  }

  lemma OwnIsOneHop(n: Name, rs: seq<Route>, r: Route, was: Route, f: nat)
    ensures var a := OwnOfRenewal(n, rs, r, was, f); |a| <= 1 && forall op | op in a :: op.AddHop?
  {
  }

  lemma HopCountsNothing(before: nat, ops: seq<Op>)
    requires |ops| <= 1 && forall op | op in ops :: op.AddHop?
    ensures CountEffect(before, ops) == before
  {
    if ops != [] { assert ops[..0] == [] && ops[0] in ops; }
  }

  // ----- an erased route -----

  ghost predicate ErasureSound(t: Table, n: Name, i: nat, f: nat)
    requires n in t && i < |t[n].routes|
  {
    && !ErasureMissesOwn(t, n, i, f)
    && (ErasureMisdelivers(t, n, i, f) ==> !Reaches(t, n, f))
    && (f == t[n].routes[i].faceId && t[n].routes[i].IsChildInherit() ==> !LeftoverBelow(t, n, f))
  }

  lemma EraseOneOfSeveral(s: Rib, n: Name, r: Route, fib: Fib, f: nat)
    requires Good(s) && n in s.table && Covered(s.table, f) && ExactOn(s.table, fib, f)
    requires FindRoute(s.table[n].routes, r) < |s.table[n].routes| && |s.table[n].routes| > 1
    ensures RightAfter(Erase(s, n, r).table, UnregisterOps(s, n, r), fib, f,
                       ErasureSound(s.table, n, FindRoute(s.table[n].routes, r), f))
  {
    ErasedTable(s, n, r);
    ErasureStep(s.table, Erase(s, n, r).table, fib, n, FindRoute(s.table[n].routes, r), f);
  }

  lemma ErasureStep(t: Table, c: Table, fib: Fib, n: Name, i: nat, f: nat)
    requires TreeExact(t) && CaptureExact(t) && n in t && Covered(t, f) && ExactOn(t, fib, f)
    requires i < |t[n].routes| && |t[n].routes| > 1
    requires OnlyAt(t, c, n) && SameRecords(t, c, n)
    requires n in c && c[n].routes == WithoutIndex(t[n].routes, i) && c[n].inherited == t[n].inherited
    ensures RightAfter(c, UnregisterFoundOps(t, n, t[n], t[n].routes[i].faceId, i), fib, f, ErasureSound(t, n, i, f))
  {
    var ops, gone := UnregisterFoundOps(t, n, t[n], t[n].routes[i].faceId, i), t[n].routes[i];
    assert CoveredAt(t, n, f);
    FoundEmits(t, n, i, f);
    FoundOwn(t, n, i, f);
    ErasureDelivers(t, c, n, i, f);
    ErasureOwnEffect(t, c, n, i, f);
    StepFromEdit(t, c, fib, n, AddedByErasure(t, n, i), RemovedByErasure(gone), MoreByErasure(t[n].routes, i), ops, f);
    SingleRoute(gone, f);
    ErasureRecords(t, c, n, i, ops, f);
  }

  lemma ErasureRecords(t: Table, c: Table, n: Name, i: nat, ops: seq<Op>, f: nat)
    requires OnlyAt(t, c, n) && n in t && n in c && c[n].inherited == t[n].inherited
    requires i < |t[n].routes| && c[n].routes == WithoutIndex(t[n].routes, i)
    requires Project(ops, n, f) ==
             OwnOfErasure(t, n, i, f) + if f == t[n].routes[i].faceId then HopByErasure(n, t[n].routes, i) else []
    ensures CoveredAt(t, n, f) ==> CoveredAt(ApplyRecords(c, ops), n, f)
    ensures TidyAt(t, n, f) ==> (TidyAt(ApplyRecords(c, ops), n, f) <==>
              (f == t[n].routes[i].faceId && HasFace(c[n].routes, f) ==> Captures(c[n].routes) || Arriving(t, n, f).None?))
  {
    FacesWithout(t[n].routes, i, f);
    RecordsAtSelf(t, c, n, ops, f);
    CountOfErasure(t, n, i, f);
  }

  lemma FacesWithout(routes: seq<Route>, i: nat, f: nat)
    requires i < |routes|
    ensures HasFace(routes, f) <==> HasFace(WithoutIndex(routes, i), f) || f == routes[i].faceId
    ensures Captures(routes) <==> Captures(WithoutIndex(routes, i)) || routes[i].IsCapture()
  {
    MembersWithout(routes, i);
    assert routes[i] in routes;
  }

  lemma CountOfErasure(t: Table, n: Name, i: nat, f: nat)
    requires n in t && i < |t[n].routes|
    ensures var gone, rest, back := t[n].routes[i], WithoutIndex(t[n].routes, i), Arriving(t, n, f);
      var inherits, count := !Captures(rest) && back.Some?, CountOn(t[n].inherited, f);
      CountEffect(count, OwnOfErasure(t, n, i, f) + if f == gone.faceId then HopByErasure(n, t[n].routes, i) else []) ==
      count + (if gone.IsCapture() && inherits && !HasFace(rest, f) then 1 else 0) +
      (if f == gone.faceId && inherits then 1 else 0)
  {
    var gone, rest, back := t[n].routes[i], WithoutIndex(t[n].routes, i), Arriving(t, n, f);
    var inherits := !Captures(rest) && back.Some?;
    CountThree(f == gone.faceId, gone.IsCapture() && inherits && !HasFace(rest, f), f == gone.faceId && inherits,
               n, f, if back.Some? then back.value else gone, CountOn(t[n].inherited, f),
               if f == gone.faceId then HopByErasure(n, t[n].routes, i) else []);
  }

  lemma CountThree(a: bool, b: bool, c: bool, n: Name, f: nat, x: Route, before: nat, hop: seq<Op>)
    requires |hop| <= 1 && forall op | op in hop :: op.AddHop?
    ensures CountEffect(before, (if a then [RemoveHop(n, f)] else []) + (if b then [Inherit(n, x)] else []) +
                                (if c then [Inherit(n, x)] else []) + hop) ==
            before + (if b then 1 else 0) + (if c then 1 else 0)
  {
    var p: seq<Op> := if a then [RemoveHop(n, f)] else [];
    var q: seq<Op> := p + if b then [Inherit(n, x)] else [];
    var r: seq<Op> := q + if c then [Inherit(n, x)] else [];
    assert CountEffect(before, []) == before && [] + p == p;
    CountMaybe(before, [], a, RemoveHop(n, f));
    CountMaybe(before, p, b, Inherit(n, x));
    CountMaybe(before, q, c, Inherit(n, x));
    HopAfterCounts(before, r, hop);
  }

  lemma HopAfterCounts(before: nat, a: seq<Op>, hop: seq<Op>)
    requires |hop| <= 1 && forall op | op in hop :: op.AddHop?
    ensures CountEffect(before, a + hop) == CountEffect(before, a)
  {
    if hop == [] {
      assert a + hop == a;
    } else {
      assert hop[0] in hop && (a + hop)[..|a + hop| - 1] == a;
    }
  }

  ghost predicate LastRouteSound(t: Table, n: Name, gone: Route, f: nat) {
    && (gone.IsCapture() && Arriving(t, n, f).Some? ==> !Reaches(t, n, f))
    && (f == gone.faceId && gone.IsChildInherit() ==> !LeftoverBelow(t, n, f))
  }

  lemma EraseLastRoute(s: Rib, n: Name, r: Route, fib: Fib, f: nat)
    requires Good(s) && n in s.table && Covered(s.table, f) && ExactOn(s.table, fib, f)
    requires FindRoute(s.table[n].routes, r) < |s.table[n].routes| == 1
    ensures RightAfter(Erase(s, n, r).table, UnregisterOps(s, n, r), fib, f,
                       LastRouteSound(s.table, n, s.table[n].routes[0], f))
  {
    ErasedTable(s, n, r);
    LastRouteStep(s.table, Erase(s, n, r).table, n, fib, f);
  }

  lemma LastRouteStep(t: Table, c: Table, n: Name, fib: Fib, f: nat)
    requires TreeExact(t) && CaptureExact(t) && n in t && |t[n].routes| == 1 && Covered(t, f) && ExactOn(t, fib, f)
    requires OnlyAt(t, c, n) && SameRecords(t, c, n) && n !in c
    ensures RightAfter(c, UnregisterFoundOps(t, n, t[n], t[n].routes[0].faceId, 0), fib, f,
                       LastRouteSound(t, n, t[n].routes[0], f))
  {
    var ops, gone := UnregisterFoundOps(t, n, t[n], t[n].routes[0].faceId, 0), t[n].routes[0];
    assert CoveredAt(t, n, f);
    FoundEmits(t, n, 0, f);
    LastErasureOwn(t, n, f);
    LastErasureDelivers(t, c, n, f);
    SingleRoute(gone, f);
    StepFromEdit(t, c, fib, n, AddedByErasure(t, n, 0), RemovedByErasure(gone), MoreByErasure(t[n].routes, 0), ops, f);
  }

  // ----- the step theorem -----

  /** `SoundOn`, case by case. */
  lemma SoundCases(t: Table, u: RibUpdate, f: nat)
    ensures var n, r := u.name, u.route;
      if n !in t then SoundOn(t, u, f) == (u.Register? ==> NewNameSound(t, n, r, f))
      else
        var routes, i := t[n].routes, FindRoute(t[n].routes, r);
        SoundOn(t, u, f) ==
        if u.Register? then if i < |routes| then RenewalSound(t, n, i, r, f) else FurtherRouteSound(t, n, r, f)
        else if i == |routes| then true
        else if |routes| > 1 then ErasureSound(t, n, i, f) else LastRouteSound(t, n, routes[0], f)
  {
  }

  /** For every face the step is exact if and only if it is sound there; then the records still cover what is
      inherited. */
  lemma UpdateExact(s: Rib, u: RibUpdate, fib: Fib, f: nat)
    requires Good(s) && Admissible(s.table, u)
    requires Covered(s.table, f) && ExactOn(s.table, fib, f)
    ensures ExactOn(Commit(s, u).table, ApplyOps(fib, UpdateOps(s, u)), f) <==> SoundOn(s.table, u, f)
    ensures SoundOn(s.table, u, f) ==> Covered(Commit(s, u).table, f)
  {
    SoundCases(s.table, u, f);
    if u.Register? {
      RegisterExact(s, u.name, u.route, fib, f);
    } else {
      UnregisterExact(s, u, fib, f);
    }
  }

  lemma RegisterExact(s: Rib, n: Name, r: Route, fib: Fib, f: nat)
    requires Good(s) && Admissible(s.table, Register(n, r))
    requires Covered(s.table, f) && ExactOn(s.table, fib, f)
    ensures RightAfter(Insert(s, n, r).table, RegisterOps(s, n, r), fib, f, SoundOn(s.table, Register(n, r), f))
  {
    SoundCases(s.table, Register(n, r), f);
    if n !in s.table {
      RegisterNewName(s, n, r, fib, f);
    } else if FindRoute(s.table[n].routes, r) == |s.table[n].routes| {
      RegisterFurtherRoute(s, n, r, fib, f);
    } else {
      RenewRoute(s, n, r, fib, f);
    }
  }

  lemma UnregisterExact(s: Rib, u: RibUpdate, fib: Fib, f: nat)
    requires Good(s) && Covered(s.table, f) && ExactOn(s.table, fib, f) && !u.Register?
    ensures RightAfter(Erase(s, u.name, u.route).table, UnregisterOps(s, u.name, u.route), fib, f, SoundOn(s.table, u, f))
  {
    var n, r := u.name, u.route;
    SoundCases(s.table, u, f);
    if n in s.table && FindRoute(s.table[n].routes, r) < |s.table[n].routes| {
      if |s.table[n].routes| == 1 {
        EraseLastRoute(s, n, r, fib, f);
      } else {
        EraseOneOfSeveral(s, n, r, fib, f);
      }
    }
  }

  // ----- the traversals of an update -----

  /** What an update emits under its name, whatever it is: the traversals with some routes to add and to remove on
      each face. */
  lemma Traversals(s: Rib, u: RibUpdate, f: nat) returns (add: seq<Route>, remove: seq<Route>, more: seq<Route>)
    requires Good(s) && KeepsCapture(s.table, u)
    ensures EmitsUnder(s.table, u.name, add, remove, more, UpdateOps(s, u), f)
    ensures OnlyAt(s.table, Edited(s, u).table, u.name)
    ensures OnFace(remove, f).Some? <==> TakesAway(s.table, u, f)
  {
    if u.Register? {
      add, remove := RegisterTraversal(s, u.name, u.route, f);
      more := [];
    } else {
      add, remove, more := UnregisterTraversals(s, u, f);
    }
  }

  lemma RegisterTraversal(s: Rib, n: Name, r: Route, f: nat) returns (add: seq<Route>, remove: seq<Route>)
    requires Good(s) && KeepsCapture(s.table, Register(n, r))
    ensures EmitsUnder(s.table, n, add, remove, [], RegisterOps(s, n, r), f)
    ensures OnlyAt(s.table, Insert(s, n, r).table, n)
    ensures OnFace(remove, f).Some? <==> TakesAway(s.table, Register(n, r), f)
  {
    InsertedTable(s, n, r);
    if n !in s.table {
      add, remove := NewNameTraversal(s, n, r, f);
    } else {
      add, remove := KnownNameTraversal(s, n, r, f);
    }
  }

  lemma NewNameTraversal(s: Rib, n: Name, r: Route, f: nat) returns (add: seq<Route>, remove: seq<Route>)
    requires Good(s) && n !in s.table
    ensures EmitsUnder(s.table, n, add, remove, [], RegisterOps(s, n, r), f)
    ensures OnFace(remove, f).Some? <==> TakesAway(s.table, Register(n, r), f)
  {
    var t := s.table;
    AncestorRoutesExact(t, n, f);
    FutureChildrenAreTops(s, n);
    NewNameEmits(t, n, r, FutureChildren(t, ParentOf(t.Keys, n), Under(s.order, n)), f);
    add, remove := AddedByNew(t, n, r), RemovedByNew(t, n, r);
  }

  lemma KnownNameTraversal(s: Rib, n: Name, r: Route, f: nat) returns (add: seq<Route>, remove: seq<Route>)
    requires Good(s) && KeepsCapture(s.table, Register(n, r)) && n in s.table
    ensures EmitsUnder(s.table, n, add, remove, [], RegisterOps(s, n, r), f)
    ensures OnFace(remove, f).Some? <==> TakesAway(s.table, Register(n, r), f)
  {
    var t := s.table;
    if FindRoute(t[n].routes, r) == |t[n].routes| {
      AncestorRoutesExact(t, n, f);
      NewRouteEmits(t, n, r, f);
      add, remove := AddedByRoute(t[n].routes, r), RemovedByRoute(t, n, r);
    } else {
      var i := FindRoute(t[n].routes, r);
      RenewedTable(s, n, r);
      RenewalTraversal(t, n, i, r, f);
      add, remove := AddedByRenewal(t, n, t[n].routes[i := r], r, t[n].routes[i]), RemovedByRenewal(r, t[n].routes[i]);
    }
  }

  lemma RenewalTraversal(t: Table, n: Name, i: nat, r: Route, f: nat)
    requires TreeExact(t) && CaptureExact(t) && n in t && i < |t[n].routes| && Renews(r, t[n].routes[i])
    ensures var e, was := t[n].(routes := t[n].routes[i := r]), t[n].routes[i];
      && EmitsUnder(t, n, AddedByRenewal(t, n, e.routes, r, was), RemovedByRenewal(r, was), [],
                    UpdatedRouteOps(t, n, e, r, was), f)
      && (OnFace(RemovedByRenewal(r, was), f).Some? <==> f == r.faceId && TurnsOfferOff(r, was))
  {
    var e := t[n].(routes := t[n].routes[i := r]);
    assert e.routes[i] == r;
    RenewalEmits(t, n, e, r, t[n].routes[i], f);
    SingleRoute(r, f);
  }

  lemma UnregisterTraversals(s: Rib, u: RibUpdate, f: nat) returns (add: seq<Route>, remove: seq<Route>, more: seq<Route>)
    requires Good(s) && !u.Register?
    ensures EmitsUnder(s.table, u.name, add, remove, more, UnregisterOps(s, u.name, u.route), f)
    ensures OnlyAt(s.table, Erase(s, u.name, u.route).table, u.name)
    ensures OnFace(remove, f).Some? <==> TakesAway(s.table, u, f)
  {
    var t, n, r := s.table, u.name, u.route;
    if n in t && FindRoute(t[n].routes, r) < |t[n].routes| {
      var i := FindRoute(t[n].routes, r);
      ErasedTable(s, n, r);
      FoundEmits(t, n, i, f);
      SingleRoute(t[n].routes[i], f);
      add, remove, more := AddedByErasure(t, n, i), RemovedByErasure(t[n].routes[i]), MoreByErasure(t[n].routes, i);
    } else {
      add, remove, more := [], [], [];
      EmitsNothingUnder(t, n, [], f);
      forall m | m != n ensures SameRoutesAt(t, t, m) {}
    }
  }
}
