/**
 The RIB after a committed update, for every update: links, index and count stay exact; when the capture counters
 stay exact, when the inherited-route updates are well defined, and when they leave no record beside an own route.
 */
module FibCommit {
  import opened Wrappers
  import opened Names
  import opened Routes
  import opened RibLinks
  import opened RibTree
  import opened FibSpec
  import opened FibOps
  import opened FibSubtree
  import opened FibCompute
  import opened FibApply
  import opened FibRecords
  import opened FibEdit
  import opened FibSteps
  import opened FibKnown
  import opened FibTheorem
  import opened RouteLists

  // ----- links, index, count and counters -----

  lemma RecordsKeepRib(s: Rib, ops: seq<Op>)
    requires RibExact(s)
    ensures RibExact(s.(table := ApplyRecords(s.table, ops)))
    ensures CaptureExact(ApplyRecords(s.table, ops)) <==> CaptureExact(s.table)
  {
    var t, u := s.table, ApplyRecords(s.table, ops);
    forall m | m in t ensures u[m] == t[m].(inherited := u[m].inherited) { RecordsAfterOps(t, ops, m, 0); }
    TreeIgnoresRoutes(t, u);
    TotalAgrees(s.order, t, u);
    forall f, x ensures OnFaceInTable(u, f, x) <==> OnFaceInTable(t, f, x) {}
    IndexUnaffected(s.faceMap, t, u);
  }

  /** Every update, with the records of any emissions, keeps links, index and count. */
  lemma CommitKeepsExact(s: Rib, u: RibUpdate, ops: seq<Op>)
    requires RibExact(s)
    ensures RibExact(CommitWith(s, u, ops))
  {
    if u.Register? { InsertKeepsExact(s, u.name, u.route); } else { EraseKeepsExact(s, u.name, u.route); }
    RecordsKeepRib(Edited(s, u), ops);
  }

  /** `insert` keeps the counters exact if and only if it does not change the capture flag of a known route. */
  lemma CounterExactIff(s: Rib, n: Name, r: Route)
    requires Good(s)
    ensures CaptureExact(Insert(s, n, r).table) <==> KeepsCapture(s.table, Register(n, r))
  {
    if n !in s.table {
      CounterOfNew(s, n, r);
    } else {
      CounterAtKnown(s.table, n, r);
    }
  }

  lemma CounterAtKnown(t: Table, n: Name, r: Route)
    requires CaptureExact(t) && n in t
    ensures CaptureExact(t[n := EntryWithRoute(t[n], r)]) <==> KeepsCapture(t, Register(n, r))
  {
    CounterOfKnown(t[n], r);
    CountersAgree(t, t[n := EntryWithRoute(t[n], r)], n);
  }

  lemma CounterOfNew(s: Rib, n: Name, r: Route)
    requires OrderExact(s) && Sorted(s.order) && TreeExact(s.table) && CaptureExact(s.table) && n !in s.table
    ensures CaptureExact(Insert(s, n, r).table)
  {
    AttachExact(s, n, r);
    assert [r][..0] == [];
    CountersAgree(s.table, Insert(s, n, r).table, n);
  }

  lemma CountersAgree(t: Table, u: Table, n: Name)
    requires CaptureExact(t) && n in u && u.Keys == t.Keys + {n}
    requires forall m | m in t && m != n :: SameContent(u[m], t[m])
    ensures CaptureExact(u) <==> u[n].captureCount == CaptureCount(u[n].routes)
  {
  }

  lemma CounterOfKnown(e: Entry<Name>, r: Route)
    requires e.captureCount == CaptureCount(e.routes)
    ensures var d, i := EntryWithRoute(e, r), FindRoute(e.routes, r);
      d.captureCount == CaptureCount(d.routes) <==> !(i < |e.routes| && e.routes[i].IsCapture() != r.IsCapture())
  {
    var routes, i := e.routes, FindRoute(e.routes, r);
    if i < |routes| {
      CaptureCountReplace(routes, i, routes[i].(flags := r.flags, cost := r.cost));
    } else {
      CaptureCountSnoc(routes, r);
    }
  }

  /** After capture is turned on by re-registration, erasing the route wraps the counter around: the entry claims
      to capture, for good, although no route of it does. */
  lemma CounterWraps(e: Entry<Name>, r: Route)
    requires e.captureCount == CaptureCount(e.routes) == 0 && r.IsCapture()
    requires FindRoute(e.routes, r) < |e.routes|
    ensures var i := FindRoute(e.routes, r);
      var left := EraseRoute(EntryWithRoute(e, r), i);
      left.captureCount == 0xFFFF_FFFF_FFFF_FFFF && !Captures(left.routes)
  {
    var i := FindRoute(e.routes, r);
    var left := EraseRoute(EntryWithRoute(e, r), i);
    CaptureCountWithout(e.routes, i);
    assert left.routes == WithoutIndex(e.routes, i);
    assert CaptureCount(left.routes) == 0;
  }

  lemma CountersAfterEdit(t: Table, c: Table, n: Name)
    requires CaptureExact(t) && (n in c ==> c[n].captureCount == CaptureCount(c[n].routes))
    requires forall m | m in c && m != n :: m in t && SameContent(c[m], t[m])
    ensures CaptureExact(c)
  {
  }

  lemma CountersAfterErase(t: Table, n: Name, i: nat)
    requires TreeExact(t) && CaptureExact(t) && n in t && i < |t[n].routes|
    ensures var c := t[n := EraseRoute(t[n], i)];
      TreeExact(c) && CaptureExact(c) && CanDetach(c, n) && CaptureExact(Detach(c, n))
  {
    var c := t[n := EraseRoute(t[n], i)];
    CaptureCountWithout(t[n].routes, i);
    CountersAfterEdit(t, c, n);
    TreeIgnoresRoutes(t, c);
    DetachExact(c, n);
    CountersAfterEdit(c, Detach(c, n), n);
  }

  lemma EraseKeepsCounters(s: Rib, n: Name, r: Route)
    requires Good(s)
    ensures CaptureExact(Erase(s, n, r).table)
  {
    if n in s.table && FindRoute(s.table[n].routes, r) < |s.table[n].routes| {
      CountersAfterErase(s.table, n, FindRoute(s.table[n].routes, r));
    }
  }

  /** Every update keeps links, index and count; the capture counters stay exact if and only if no capture flag of
      a known route changes. */
  lemma CommitKeepsGood(s: Rib, u: RibUpdate)
    requires Good(s)
    ensures RibExact(Commit(s, u))
    ensures Good(Commit(s, u)) <==> KeepsCapture(s.table, u)
  {
    var c := Edited(s, u);
    if u.Register? {
      InsertKeepsExact(s, u.name, u.route);
      CounterExactIff(s, u.name, u.route);
    } else {
      EraseKeepsExact(s, u.name, u.route);
      EraseKeepsCounters(s, u.name, u.route);
    }
    RecordsKeepRib(c, UpdateOps(s, u));
  }

  // ----- the whole list is clean exactly when every pair is -----

  lemma {:induction false} OpInProject(ops: seq<Op>, op: Op)
    requires op in ops
    ensures op in Project(ops, op.name, op.Face())
  {
    var front, last := ops[..|ops| - 1], ops[|ops| - 1];
    assert ops == front + [last];
    if op in front { OpInProject(front, op); }
  }

  lemma {:induction false} CleanPairs(t: Table, ops: seq<Op>, d: Name, f: nat)
    requires Clean(t, ops)
    ensures CleanAt(Records(t, d, f), Project(ops, d, f))
  {
    if ops != [] {
      var front, last := ops[..|ops| - 1], ops[|ops| - 1];
      CleanPairs(t, front, d, f);
      var p := Project(front, d, f);
      if last.On(d, f) {
        assert (p + [last])[..|p + [last]| - 1] == p;
        if last.Disinherit? { RecordsAfterOps(t, front, d, f); }
      } else {
        assert p + [] == p;
      }
    }
  }

  /** The record updates about `n` itself are clean and find it in the table. */
  ghost predicate CleanSelf(c: Table, n: Name, ops: seq<Op>, f: nat) {
    && CleanAt(Records(c, n, f), Project(ops, n, f))
    && forall op | op in Project(ops, n, f) && (op.Inherit? || op.Disinherit?) :: n in c
  }

  /** Emissions about a pair outside `n` are about a name of the table, and clean. */
  ghost predicate CleanElsewhere(c: Table, n: Name, ops: seq<Op>, d: Name, f: nat) {
    d != n ==> (Project(ops, d, f) != [] ==> d in c) && CleanAt(Records(c, d, f), Project(ops, d, f))
  }

  lemma CleanFromParts(c: Table, n: Name, ops: seq<Op>)
    requires forall f :: CleanSelf(c, n, ops, f)
    requires forall d, f :: CleanElsewhere(c, n, ops, d, f)
    ensures Clean(c, ops)
  {
    forall op | op in ops && (op.Inherit? || op.Disinherit?) ensures op.name in c {
      OpInProject(ops, op);
      assert CleanSelf(c, n, ops, op.Face()) && CleanElsewhere(c, n, ops, op.name, op.Face());
    }
    forall d, f ensures CleanAt(Records(c, d, f), Project(ops, d, f)) {
      assert CleanSelf(c, n, ops, f) && CleanElsewhere(c, n, ops, d, f);
    }
    CleanFromPairs(c, ops);
  }

  lemma CleanFromEdit(t: Table, c: Table, n: Name, add: seq<Route>, remove: seq<Route>, more: seq<Route>, ops: seq<Op>)
    requires OnlyAt(t, c, n) && SameRecords(t, c, n)
    requires forall f :: EmitsUnder(t, n, add, remove, more, ops, f)
    requires forall f :: CleanSelf(c, n, ops, f)
    ensures Clean(c, ops)
  {
    forall d, f ensures CleanElsewhere(c, n, ops, d, f) {
      assert EmitsUnder(t, n, add, remove, more, ops, f);
      assert EmitsAt(t, n, add, remove, more, ops, f, d);
      if d != n {
        EditClean(t, c, n, add, remove, more, ops, f, d);
        assert SameRoutesAt(t, c, d);
      }
    }
    CleanFromParts(c, n, ops);
  }

  lemma {:induction false} NoDisinheritIsClean(before: nat, ops: seq<Op>)
    requires forall op | op in ops :: !op.Disinherit?
    ensures CleanAt(before, ops)
  {
    if ops != [] { NoDisinheritIsClean(before, ops[..|ops| - 1]); }
  }

  // ----- registrations -----

  lemma NewNameClean(t: Table, c: Table, n: Name, r: Route, cs: seq<Name>)
    requires TreeExact(t) && CaptureExact(t) && Tops(t, n, cs) && OnlyAt(t, c, n) && SameRecords(t, c, n) && n in c
    ensures Roots(t, n, cs) && Clean(c, NewEntryOps(t, n, r, cs))
  {
    forall f ensures Roots(t, n, cs)
      ensures EmitsUnder(t, n, AddedByNew(t, n, r), RemovedByNew(t, n, r), [], NewEntryOps(t, n, r, cs), f)
      ensures CleanSelf(c, n, NewEntryOps(t, n, r, cs), f)
    {
      NewNameEmits(t, n, r, cs, f);
      NoDisinheritIsClean(Records(c, n, f), OwnOfNew(t, n, r, f));
    }
    CleanFromEdit(t, c, n, AddedByNew(t, n, r), RemovedByNew(t, n, r), [], NewEntryOps(t, n, r, cs));
  }

  lemma NewRouteClean(t: Table, c: Table, n: Name, r: Route)
    requires TreeExact(t) && CaptureExact(t) && OnlyAt(t, c, n) && SameRecords(t, c, n) && n in t && n in c
    requires c[n].inherited == t[n].inherited
    ensures Clean(c, NewRouteOps(t, n, t[n], r, t[n].captureCount == 0 && r.IsCapture()))
  {
    var ops := NewRouteOps(t, n, t[n], r, t[n].captureCount == 0 && r.IsCapture());
    forall f ensures EmitsUnder(t, n, AddedByRoute(t[n].routes, r), RemovedByRoute(t, n, r), [], ops, f)
      ensures CleanSelf(c, n, ops, f)
    {
      NewRouteEmits(t, n, r, f);
      FurtherRouteClean(t, n, r, f);
    }
    CleanFromEdit(t, c, n, AddedByRoute(t[n].routes, r), RemovedByRoute(t, n, r), [], ops);
  }

  lemma FurtherRouteClean(t: Table, n: Name, r: Route, f: nat)
    requires n in t
    ensures CleanAt(CountOn(t[n].inherited, f), OwnOfRoute(t, n, r, f))
  {
    var before, back := CountOn(t[n].inherited, f), Arriving(t, n, f);
    var removes := TurnsCaptureOn(t[n], r) && back.Some? && HasRecord(t[n], f);
    var x := if back.Some? then back.value else r;
    var a: seq<Op> := if removes then [Disinherit(n, x)] else [];
    assert CleanAt(before, []) && CountEffect(before, []) == before && [] + a == a;
    CountMaybe(before, [], removes, Disinherit(n, x));
    CountMaybe(before, a, f == r.faceId && BestRoute(t[n].routes, r), AddHop(n, r.faceId, r.cost));
  }

  lemma RenewalClean(t: Table, c: Table, n: Name, e: Entry<Name>, r: Route, was: Route)
    requires CopyOf(t, n, e) && CaptureExact(t) && OnlyAt(t, c, n) && SameRecords(t, c, n) && n in c
    requires r in e.routes && Renews(r, was)
    ensures Clean(c, UpdatedRouteOps(t, n, e, r, was))
  {
    var ops := UpdatedRouteOps(t, n, e, r, was);
    var add, remove := AddedByRenewal(t, n, e.routes, r, was), RemovedByRenewal(r, was);
    forall f ensures EmitsUnder(t, n, add, remove, [], ops, f) && CleanSelf(c, n, ops, f) {
      RenewalCleanAt(t, c, n, e, r, was, f);
    }
    CleanFromEdit(t, c, n, add, remove, [], ops);
  }

  lemma RenewalCleanAt(t: Table, c: Table, n: Name, e: Entry<Name>, r: Route, was: Route, f: nat)
    requires CopyOf(t, n, e) && CaptureExact(t) && n in c && r in e.routes && Renews(r, was)
    ensures var ops := UpdatedRouteOps(t, n, e, r, was);
      && EmitsUnder(t, n, AddedByRenewal(t, n, e.routes, r, was), RemovedByRenewal(r, was), [], ops, f)
      && CleanSelf(c, n, ops, f)
  {
    RenewalEmits(t, n, e, r, was, f);
    NoDisinheritIsClean(Records(c, n, f), OwnOfRenewal(n, e.routes, r, was, f));
  }

  // ----- the capture flag of a known route changes -----

  /** The emissions of a changed route whose capture flag changes: those about its cost and its child-inherit flag,
      then those about capture. */
  lemma RecaptureShape(t: Table, n: Name, e: Entry<Name>, r: Route, was: Route)
    requires CopyOf(t, n, e) && r in e.routes && r.SameFaceAndOrigin(was) && r.IsCapture() != was.IsCapture()
    ensures var own := RenewOwnOps(n, e, r, was);
      var first := if TurnsOfferOff(r, was) || RenewalOffers(e.routes, r, was)
                   then own + ToChildren(t, n, AddedByRenewal(t, n, e.routes, r, was), RemovedByRenewal(r, was)) + []
                   else own;
      UpdatedRouteOps(t, n, e, r, was) == first + RenewCaptureOps(t, n, e, r, was)
  {
    var own := RenewOwnOps(n, e, r, was);
    var below := ToChildren(t, n, AddedByRenewal(t, n, e.routes, r, was), RemovedByRenewal(r, was));
    assert r.flags != was.flags;
    RecaptureInherits(t, n, e, r, was);
    assert own + below + [] == own + below && own + [] == own;
  }

  lemma RecaptureInherits(t: Table, n: Name, e: Entry<Name>, r: Route, was: Route)
    requires CopyOf(t, n, e) && r in e.routes && r.SameFaceAndOrigin(was) && r.flags != was.flags
    ensures RenewInheritOps(t, n, e, r, was) ==
            if TurnsOfferOff(r, was) || RenewalOffers(e.routes, r, was)
            then ToChildren(t, n, AddedByRenewal(t, n, e.routes, r, was), RemovedByRenewal(r, was)) else []
  {
    assert CheapestOffer(e.routes, r.faceId).None? ==> !r.IsChildInherit();
  }

  /** The first part of these emissions. */
  lemma RecaptureFirst(t: Table, n: Name, e: Entry<Name>, r: Route, was: Route, first: seq<Op>, f: nat)
    requires CopyOf(t, n, e) && CaptureExact(t) && r in e.routes && r.SameFaceAndOrigin(was)
    requires first == if TurnsOfferOff(r, was) || RenewalOffers(e.routes, r, was)
                      then RenewOwnOps(n, e, r, was) +
                           ToChildren(t, n, AddedByRenewal(t, n, e.routes, r, was), RemovedByRenewal(r, was)) + []
                      else RenewOwnOps(n, e, r, was)
    ensures EmitsUnder(t, n, AddedByRenewal(t, n, e.routes, r, was), RemovedByRenewal(r, was), [], first, f)
    ensures Project(first, n, f) == OwnOfRenewal(n, e.routes, r, was, f)
  {
    RenewOwnProjects(n, e, r, was, f);
    OneTraversal(t, n, TurnsOfferOff(r, was) || RenewalOffers(e.routes, r, was),
                 AddedByRenewal(t, n, e.routes, r, was), RemovedByRenewal(r, was), RenewOwnOps(n, e, r, was), first, f);
  }

  /** The part about capture, turned on or off. */
  lemma RecaptureSecond(t: Table, n: Name, e: Entry<Name>, r: Route, was: Route, f: nat)
    requires CopyOf(t, n, e) && CaptureExact(t) && r.IsCapture() != was.IsCapture()
    ensures var ancestors, ops := AncestorRoutes(t, e.parent), RenewCaptureOps(t, n, e, r, was);
      && EmitsUnder(t, n, if r.IsCapture() then [] else ancestors, if r.IsCapture() then ancestors else [], [], ops, f)
      && Project(ops, n, f) == if OnFace(ancestors, f).None? then []
                               else if r.IsCapture() then
                                 if HasRecord(e, f) then [Disinherit(n, OnFace(ancestors, f).value)] else []
                               else if HasFace(e.routes, f) then [] else [Inherit(n, OnFace(ancestors, f).value)]
  {
    var ancestors, ops := AncestorRoutes(t, e.parent), RenewCaptureOps(t, n, e, r, was);
    OpsAboutSelf(n, e, ancestors, 0);
    ProjectRemoveOps(n, e, ancestors, n, f);
    ProjectAddOps(n, e, ancestors, n, f);
    if r.IsCapture() {
      ToChildrenEmits(t, n, [], ancestors, RemoveOps(n, e, ancestors), [], f);
      assert ops == RemoveOps(n, e, ancestors) + ToChildren(t, n, [], ancestors) + [];
    } else {
      ToChildrenEmits(t, n, ancestors, [], AddOps(n, e, ancestors), [], f);
      assert ops == AddOps(n, e, ancestors) + ToChildren(t, n, ancestors, []) + [];
    }
  }

  /** Two removals of one record, with or without an addition between them. */
  lemma CountTwice(removes: bool, adds: bool, again: bool, d: Name, x: Route, y: Route, z: Route, before: nat)
    ensures var ops := (if removes then [Disinherit(d, x)] else []) + (if adds then [Inherit(d, y)] else []) +
                       (if again then [Disinherit(d, z)] else []);
      CleanAt(before, ops) <==>
      && (removes ==> before > 0)
      && (again ==> (if removes && before > 0 then before - 1 else before) + (if adds then 1 else 0) > 0)
  {
    var a: seq<Op> := if removes then [Disinherit(d, x)] else [];
    var b: seq<Op> := a + if adds then [Inherit(d, y)] else [];
    assert CleanAt(before, []) && CountEffect(before, []) == before && [] + a == a;
    CountMaybe(before, [], removes, Disinherit(d, x));
    CountMaybe(before, a, adds, Inherit(d, y));
    CountMaybe(before, b, again, Disinherit(d, z));
  }

  /** One registration turns child-inherit off and capture on; a name in reach has an own route on the face and one
      leftover record, and both traversals erase it. */
  ghost predicate ErasesTwiceAt(t: Table, n: Name, f: nat, d: Name) {
    Open(t, n, d, f) && HasFace(t[d].routes, f) && CountOn(t[d].inherited, f) == 1
  }

  ghost predicate ErasesTwice(t: Table, u: RibUpdate) {
    && u.Register? && u.name in t
    && var n, r, routes := u.name, u.route, t[u.name].routes;
       var i := FindRoute(routes, r);
       && i < |routes| && TurnsOfferOff(r, routes[i]) && r.IsCapture() && !routes[i].IsCapture()
       && Arriving(t, n, r.faceId).Some? && exists d :: ErasesTwiceAt(t, n, r.faceId, d)
  }

  /** Capture turned on, at a name outside `n`: when its record updates are clean. */
  lemma RecaptureCleanAt(t: Table, c: Table, n: Name, e: Entry<Name>, r: Route, was: Route, d: Name, f: nat)
    requires CopyOf(t, n, e) && CaptureExact(t) && OnlyAt(t, c, n) && SameRecords(t, c, n) && d != n
    requires r in e.routes && r.SameFaceAndOrigin(was) && r.IsCapture() && !was.IsCapture()
    ensures var ops := UpdatedRouteOps(t, n, e, r, was);
      && (Project(ops, d, f) != [] ==> d in c)
      && (CleanAt(Records(c, d, f), Project(ops, d, f)) <==>
          !(TurnsOfferOff(r, was) && f == r.faceId && Arriving(t, n, f).Some? && ErasesTwiceAt(t, n, f, d)))
  {
    var own := RenewOwnOps(n, e, r, was);
    var first := if TurnsOfferOff(r, was) || RenewalOffers(e.routes, r, was)
                 then own + ToChildren(t, n, AddedByRenewal(t, n, e.routes, r, was), RemovedByRenewal(r, was)) + []
                 else own;
    RecaptureShape(t, n, e, r, was);
    RecaptureFirst(t, n, e, r, was, first, f);
    RecaptureSecond(t, n, e, r, was, f);
    RecaptureJoined(t, n, AddedByRenewal(t, n, e.routes, r, was), RemovedByRenewal(r, was), AncestorRoutes(t, e.parent),
                    first, RenewCaptureOps(t, n, e, r, was), d, f);
    assert SameRoutesAt(t, c, d);
    if Open(t, n, d, f) { RecaptureCounts(t, n, e, r, was, d, f); }
  }

  /** The emissions of both traversals about one pair. */
  function TwiceOps(d: Name, e: Entry<Name>, add: seq<Route>, remove: seq<Route>, again: seq<Route>, f: nat): (ops: seq<Op>) {
    OpsAt(d, e, add, remove, f) +
    if OnFace(again, f).Some? && HasRecord(e, f) then [Disinherit(d, OnFace(again, f).value)] else []
  }

  lemma RecaptureJoined(t: Table, n: Name, add: seq<Route>, remove: seq<Route>, again: seq<Route>, a: seq<Op>, b: seq<Op>,
                        d: Name, f: nat)
    requires d != n && EmitsUnder(t, n, add, remove, [], a, f) && EmitsUnder(t, n, [], again, [], b, f)
    ensures Project(a + b, d, f) == if Open(t, n, d, f) then TwiceOps(d, t[d], add, remove, again, f) else []
  {
    assert EmitsAt(t, n, add, remove, [], a, f, d) && EmitsAt(t, n, [], again, [], b, f, d);
    ProjectConcat(a, b, d, f);
    if Open(t, n, d, f) { JoinedVisits(d, t[d], add, remove, again, f); }
  }

  lemma JoinedVisits(d: Name, e: Entry<Name>, add: seq<Route>, remove: seq<Route>, again: seq<Route>, f: nat)
    ensures VisitOps(d, e, add, remove, [], f) + VisitOps(d, e, [], again, [], f) == TwiceOps(d, e, add, remove, again, f)
  {
    assert OpsAt(d, e, add, remove, f) + [] == OpsAt(d, e, add, remove, f);
  }

  lemma RecaptureCounts(t: Table, n: Name, e: Entry<Name>, r: Route, was: Route, d: Name, f: nat)
    requires CopyOf(t, n, e) && CaptureExact(t) && Open(t, n, d, f)
    ensures var ops := TwiceOps(d, t[d], AddedByRenewal(t, n, e.routes, r, was), RemovedByRenewal(r, was),
                                AncestorRoutes(t, e.parent), f);
      CleanAt(CountOn(t[d].inherited, f), ops) <==>
      !(TurnsOfferOff(r, was) && f == r.faceId && Arriving(t, n, f).Some? && ErasesTwiceAt(t, n, f, d))
  {
    var x, y, z := OnFace(RemovedByRenewal(r, was), f), OnFace(AddedByRenewal(t, n, e.routes, r, was), f),
                   OnFace(AncestorRoutes(t, e.parent), f);
    AncestorRoutesExact(t, n, f);
    SingleRoute(r, f);
    SubstituteOnFace(t, n, e, r, was, f);
    CountTwice(x.Some? && HasRecord(t[d], f), y.Some? && !HasFace(t[d].routes, f), z.Some? && HasRecord(t[d], f), d,
               if x.Some? then x.value else r, if y.Some? then y.value else r, if z.Some? then z.value else r,
               CountOn(t[d].inherited, f));
  }

  /** Where the ancestors offer the face, something goes to the children in place of the route. */
  lemma SubstituteOnFace(t: Table, n: Name, e: Entry<Name>, r: Route, was: Route, f: nat)
    requires CopyOf(t, n, e) && CaptureExact(t)
    ensures TurnsOfferOff(r, was) && f == r.faceId && Arriving(t, n, f).Some? ==>
            OnFace(AddedByRenewal(t, n, e.routes, r, was), f).Some?
  {
    AncestorRoutesExact(t, n, f);
    var o := Substitute(t, n, e.routes, r);
    if o.Some? { SingleRoute(o.value, f); }
  }

  lemma RecaptureSelf(t: Table, c: Table, n: Name, e: Entry<Name>, r: Route, was: Route, f: nat)
    requires CopyOf(t, n, e) && CaptureExact(t) && n in c && c[n].inherited == e.inherited
    requires r in e.routes && r.SameFaceAndOrigin(was) && r.IsCapture() != was.IsCapture()
    ensures CleanSelf(c, n, UpdatedRouteOps(t, n, e, r, was), f)
  {
    var first := RecaptureParts(t, n, e, r, was, f);
    OwnIsOneHop(n, e.routes, r, was, f);
    RecaptureSecondSelf(t, n, e, r, was, f);
    assert Records(c, n, f) == CountOn(e.inherited, f);
    JoinedSelf(c, n, first, RenewCaptureOps(t, n, e, r, was), f);
  }

  /** The emissions in two parts, the first of which has at most a next hop about the name itself. */
  lemma RecaptureParts(t: Table, n: Name, e: Entry<Name>, r: Route, was: Route, f: nat) returns (first: seq<Op>)
    requires CopyOf(t, n, e) && CaptureExact(t)
    requires r in e.routes && r.SameFaceAndOrigin(was) && r.IsCapture() != was.IsCapture()
    ensures UpdatedRouteOps(t, n, e, r, was) == first + RenewCaptureOps(t, n, e, r, was)
    ensures Project(first, n, f) == OwnOfRenewal(n, e.routes, r, was, f)
  {
    var own := RenewOwnOps(n, e, r, was);
    first := if TurnsOfferOff(r, was) || RenewalOffers(e.routes, r, was)
             then own + ToChildren(t, n, AddedByRenewal(t, n, e.routes, r, was), RemovedByRenewal(r, was)) + []
             else own;
    RecaptureShape(t, n, e, r, was);
    RecaptureFirst(t, n, e, r, was, first, f);
  }

  lemma RecaptureSecondSelf(t: Table, n: Name, e: Entry<Name>, r: Route, was: Route, f: nat)
    requires CopyOf(t, n, e) && CaptureExact(t) && r.IsCapture() != was.IsCapture()
    ensures var b := Project(RenewCaptureOps(t, n, e, r, was), n, f);
      |b| <= 1 && (b != [] && b[0].Disinherit? ==> CountOn(e.inherited, f) > 0)
  {
    RecaptureSecond(t, n, e, r, was, f);
  }

  /** A next hop, then at most one record update. */
  lemma JoinedSelf(c: Table, n: Name, first: seq<Op>, second: seq<Op>, f: nat)
    requires n in c && |Project(first, n, f)| <= 1 && (forall op | op in Project(first, n, f) :: op.AddHop?)
    requires var b := Project(second, n, f); |b| <= 1 && (b != [] && b[0].Disinherit? ==> Records(c, n, f) > 0)
    ensures CleanSelf(c, n, first + second, f)
  {
    ProjectConcat(first, second, n, f);
    HopThenRecord(Records(c, n, f), Project(first, n, f), Project(second, n, f));
  }

  lemma HopThenRecord(before: nat, a: seq<Op>, b: seq<Op>)
    requires |a| <= 1 && |b| <= 1 && (forall op | op in a :: op.AddHop?)
    requires b != [] && b[0].Disinherit? ==> before > 0
    ensures CleanAt(before, a + b)
  {
    assert CleanAt(before, []) && CountEffect(before, []) == before;
    if a != [] { assert a[..0] == [] && a[0] in a && [] + [a[0]] == a; CountSnoc(before, [], a[0]); }
    if b != [] { assert b == [b[0]]; CountSnoc(before, a, b[0]); } else { assert a + b == a; }
  }

  /** Capture turned on: clean exactly when nothing is erased twice. */
  lemma CaptureOnClean(t: Table, c: Table, n: Name, i: nat, r: Route)
    requires TreeExact(t) && CaptureExact(t) && OnlyAt(t, c, n) && SameRecords(t, c, n) && n in t && n in c
    requires i == FindRoute(t[n].routes, r) < |t[n].routes| && c[n].inherited == t[n].inherited
    requires r.IsCapture() && !t[n].routes[i].IsCapture()
    ensures Clean(c, UpdatedRouteOps(t, n, t[n].(routes := t[n].routes[i := r]), r, t[n].routes[i])) <==>
            !ErasesTwice(t, Register(n, r))
  {
    var e, was := t[n].(routes := t[n].routes[i := r]), t[n].routes[i];
    var ops := UpdatedRouteOps(t, n, e, r, was);
    assert e.routes[i] == r;
    forall d, f ensures d != n ==>
      && (Project(ops, d, f) != [] ==> d in c)
      && (CleanAt(Records(c, d, f), Project(ops, d, f)) <==>
          !(TurnsOfferOff(r, was) && f == r.faceId && Arriving(t, n, f).Some? && ErasesTwiceAt(t, n, f, d)))
    {
      if d != n { RecaptureCleanAt(t, c, n, e, r, was, d, f); }
    }
    if ErasesTwice(t, Register(n, r)) {
      var d :| ErasesTwiceAt(t, n, r.faceId, d);
      if Clean(c, ops) { CleanPairs(c, ops, d, r.faceId); }
    } else {
      forall f ensures CleanSelf(c, n, ops, f) { RecaptureSelf(t, c, n, e, r, was, f); }
      forall d, f ensures CleanElsewhere(c, n, ops, d, f) {}
      CleanFromParts(c, n, ops);
    }
  }

  /** Capture turned off: always clean. */
  lemma CaptureOffClean(t: Table, c: Table, n: Name, i: nat, r: Route)
    requires TreeExact(t) && CaptureExact(t) && OnlyAt(t, c, n) && SameRecords(t, c, n) && n in t && n in c
    requires i == FindRoute(t[n].routes, r) < |t[n].routes| && c[n].inherited == t[n].inherited
    requires !r.IsCapture() && t[n].routes[i].IsCapture()
    ensures Clean(c, UpdatedRouteOps(t, n, t[n].(routes := t[n].routes[i := r]), r, t[n].routes[i]))
  {
    var e, was := t[n].(routes := t[n].routes[i := r]), t[n].routes[i];
    assert e.routes[i] == r;
    var ops := UpdatedRouteOps(t, n, e, r, was);
    var add, remove, more := AddedByRenewal(t, n, e.routes, r, was), RemovedByRenewal(r, was), AncestorRoutes(t, e.parent);
    forall f ensures EmitsUnder(t, n, add, remove, more, ops, f) && CleanSelf(c, n, ops, f) {
      CaptureOffEmits(t, n, e, r, was, f);
      RecaptureSelf(t, c, n, e, r, was, f);
    }
    CleanFromEdit(t, c, n, add, remove, more, ops);
  }

  lemma CaptureOffEmits(t: Table, n: Name, e: Entry<Name>, r: Route, was: Route, f: nat)
    requires CopyOf(t, n, e) && CaptureExact(t)
    requires r in e.routes && r.SameFaceAndOrigin(was) && !r.IsCapture() && was.IsCapture()
    ensures EmitsUnder(t, n, AddedByRenewal(t, n, e.routes, r, was), RemovedByRenewal(r, was), AncestorRoutes(t, e.parent),
                       UpdatedRouteOps(t, n, e, r, was), f)
  {
    var own := RenewOwnOps(n, e, r, was);
    var first := if TurnsOfferOff(r, was) || RenewalOffers(e.routes, r, was)
                 then own + ToChildren(t, n, AddedByRenewal(t, n, e.routes, r, was), RemovedByRenewal(r, was)) + []
                 else own;
    RecaptureShape(t, n, e, r, was);
    RecaptureFirst(t, n, e, r, was, first, f);
    RecaptureSecond(t, n, e, r, was, f);
    EmitsJoined(t, n, AddedByRenewal(t, n, e.routes, r, was), RemovedByRenewal(r, was), AncestorRoutes(t, e.parent),
                first, RenewCaptureOps(t, n, e, r, was), f);
  }

  // ----- all updates -----

  lemma KnownRouteClean(s: Rib, n: Name, r: Route)
    requires Good(s) && n in s.table && FindRoute(s.table[n].routes, r) < |s.table[n].routes|
    ensures Clean(Insert(s, n, r).table, RegisterOps(s, n, r)) <==> !ErasesTwice(s.table, Register(n, r))
  {
    var t, c, i := s.table, Insert(s, n, r).table, FindRoute(s.table[n].routes, r);
    RenewedTable(s, n, r);
    var e, was := t[n].(routes := t[n].routes[i := r]), t[n].routes[i];
    assert e.routes[i] == r;
    if r.IsCapture() == was.IsCapture() {
      RenewalClean(t, c, n, e, r, was);
    } else if r.IsCapture() {
      CaptureOnClean(t, c, n, i, r);
    } else {
      CaptureOffClean(t, c, n, i, r);
    }
  }

  lemma RegisterClean(s: Rib, n: Name, r: Route)
    requires Good(s)
    ensures Clean(Insert(s, n, r).table, RegisterOps(s, n, r)) <==> !ErasesTwice(s.table, Register(n, r))
  {
    if n in s.table && FindRoute(s.table[n].routes, r) < |s.table[n].routes| {
      KnownRouteClean(s, n, r);
    } else if n in s.table {
      InsertedTable(s, n, r);
      NewRouteClean(s.table, Insert(s, n, r).table, n, r);
    } else {
      InsertedTable(s, n, r);
      FutureChildrenAreTops(s, n);
      NewNameClean(s.table, Insert(s, n, r).table, n, r,
                   FutureChildren(s.table, ParentOf(s.table.Keys, n), Under(s.order, n)));
    }
  }

  lemma ErasureClean(t: Table, c: Table, n: Name, i: nat)
    requires TreeExact(t) && CaptureExact(t) && n in t && i < |t[n].routes|
    requires OnlyAt(t, c, n) && SameRecords(t, c, n) && (n in c <==> |t[n].routes| > 1)
    ensures Clean(c, UnregisterFoundOps(t, n, t[n], t[n].routes[i].faceId, i))
  {
    var ops := UnregisterFoundOps(t, n, t[n], t[n].routes[i].faceId, i);
    forall f ensures EmitsUnder(t, n, AddedByErasure(t, n, i), RemovedByErasure(t[n].routes[i]),
                                MoreByErasure(t[n].routes, i), ops, f)
      ensures CleanSelf(c, n, ops, f)
    {
      FoundEmits(t, n, i, f);
      ErasureSelfClean(t, c, n, i, f);
    }
    CleanFromEdit(t, c, n, AddedByErasure(t, n, i), RemovedByErasure(t[n].routes[i]), MoreByErasure(t[n].routes, i), ops);
  }

  lemma ErasureSelfClean(t: Table, c: Table, n: Name, i: nat, f: nat)
    requires TreeExact(t) && CaptureExact(t) && n in t && i < |t[n].routes|
    requires n in c <==> |t[n].routes| > 1
    ensures CleanSelf(c, n, UnregisterFoundOps(t, n, t[n], t[n].routes[i].faceId, i), f)
  {
    var ops := Project(UnregisterFoundOps(t, n, t[n], t[n].routes[i].faceId, i), n, f);
    if |t[n].routes| == 1 { LastErasureHops(t, n, f); } else { FoundDropsNoRecord(t, n, i, f); }
    NoDisinheritIsClean(Records(c, n, f), ops);
  }

  lemma LastErasureHops(t: Table, n: Name, f: nat)
    requires TreeExact(t) && CaptureExact(t) && n in t && |t[n].routes| == 1
    ensures forall op | op in Project(UnregisterFoundOps(t, n, t[n], t[n].routes[0].faceId, 0), n, f) :: op.RemoveHop?
  {
    var own: seq<Op> := if f == t[n].routes[0].faceId then [RemoveHop(n, f)] else [];
    LastErasureProject(t, n, f);
    EffectErasedEntry(n, t[n].inherited, f, None);
    RemovalsOnly(own, Project(ErasedEntryOps(n, t[n].inherited), n, f), None);
  }

  lemma FoundDropsNoRecord(t: Table, n: Name, i: nat, f: nat)
    requires TreeExact(t) && CaptureExact(t) && n in t && i < |t[n].routes| && |t[n].routes| > 1
    ensures forall op | op in Project(UnregisterFoundOps(t, n, t[n], t[n].routes[i].faceId, i), n, f) :: !op.Disinherit?
  {
    FoundOwn(t, n, i, f);
    ErasureDropsNone(t, n, i, f);
    NoDisinheritIn(OwnOfErasure(t, n, i, f), if f == t[n].routes[i].faceId then HopByErasure(n, t[n].routes, i) else []);
  }

  lemma ErasureDropsNone(t: Table, n: Name, i: nat, f: nat)
    requires n in t && i < |t[n].routes|
    ensures forall op | op in OwnOfErasure(t, n, i, f) :: !op.Disinherit?
    ensures forall op | op in HopByErasure(n, t[n].routes, i) :: !op.Disinherit?
  {
    var gone, rest, back := t[n].routes[i], WithoutIndex(t[n].routes, i), Arriving(t, n, f);
    var x := if back.Some? then back.value else gone;
    ThreeDropNone(f == gone.faceId, gone.IsCapture() && !Captures(rest) && back.Some? && !HasFace(rest, f),
                  f == gone.faceId && !Captures(rest) && back.Some?, n, f, x);
  }

  lemma ThreeDropNone(a: bool, b: bool, c: bool, n: Name, f: nat, x: Route)
    ensures forall op | op in (if a then [RemoveHop(n, f)] else []) + (if b then [Inherit(n, x)] else []) +
                              (if c then [Inherit(n, x)] else []) :: !op.Disinherit?
  {
  }

  lemma NoDisinheritIn(a: seq<Op>, b: seq<Op>)
    requires forall op | op in a :: !op.Disinherit?
    requires forall op | op in b :: !op.Disinherit?
    ensures forall op | op in a + b :: !op.Disinherit?
  {
  }

  lemma UnregisterClean(s: Rib, n: Name, r: Route)
    requires Good(s)
    ensures Clean(Erase(s, n, r).table, UnregisterOps(s, n, r))
  {
    if n in s.table && FindRoute(s.table[n].routes, r) < |s.table[n].routes| {
      ErasedTable(s, n, r);
      ErasureClean(s.table, Erase(s, n, r).table, n, FindRoute(s.table[n].routes, r));
    }
  }

  /** Every inherited-route record names an entry that exists when it is applied, and every removal of a record finds
      one, for every update but the one that erases a record twice: otherwise neither the assertion nor the erasure
      past the end of `modifyInheritedRoutes` can happen. */
  lemma CommitIsClean(s: Rib, u: RibUpdate)
    requires Good(s)
    ensures Clean(Edited(s, u).table, UpdateOps(s, u)) <==> !ErasesTwice(s.table, u)
  {
    if u.Register? { RegisterClean(s, u.name, u.route); } else { UnregisterClean(s, u.name, u.route); }
  }

  /** The inherited-route updates computed for an update, applied after its route change, give its commit. */
  lemma CommitAppliesRecords(s: Rib, u: RibUpdate)
    requires Good(s) && !ErasesTwice(s.table, u)
    ensures var c := Edited(s, u);
      && CanModifyAll(c.table, RecordsOf(UpdateOps(s, u)))
      && c.(table := ModifyAll(c.table, RecordsOf(UpdateOps(s, u)))) == Commit(s, u)
  {
    CommitIsClean(s, u);
    RecordsAreApplied(Edited(s, u).table, UpdateOps(s, u));
  }

  // ----- records beside own routes -----

  /** The records stay tidy on a face if and only if the update leaves no record beside an own route there. */
  lemma TidyIff(s: Rib, u: RibUpdate, f: nat)
    requires Good(s) && KeepsCapture(s.table, u) && Tidy(s.table, f)
    ensures Tidy(Commit(s, u).table, f) <==> NoLeftover(s.table, u, f)
  {
    if u.Register? { RegisterTidy(s, u.name, u.route, f); } else { UnregisterTidy(s, u, f); }
  }

  lemma RegisterTidy(s: Rib, n: Name, r: Route, f: nat)
    requires Good(s) && KeepsCapture(s.table, Register(n, r)) && Tidy(s.table, f)
    ensures Tidy(ApplyRecords(Insert(s, n, r).table, RegisterOps(s, n, r)), f) <==>
            NoLeftover(s.table, Register(n, r), f)
  {
    var t, c := s.table, Insert(s, n, r).table;
    if n !in t {
      FutureChildrenAreTops(s, n);
      InsertedTable(s, n, r);
      NewNameTidy(t, c, n, r, FutureChildren(t, ParentOf(t.Keys, n), Under(s.order, n)), f);
    } else if FindRoute(t[n].routes, r) == |t[n].routes| {
      InsertedTable(s, n, r);
      FurtherRouteTidy(t, c, n, r, f);
    } else {
      RenewedTable(s, n, r);
      RenewalTidy(t, c, n, FindRoute(t[n].routes, r), r, f);
    }
  }

  lemma NewNameTidy(t: Table, c: Table, n: Name, r: Route, cs: seq<Name>, f: nat)
    requires TreeExact(t) && CaptureExact(t) && Tops(t, n, cs) && Tidy(t, f)
    requires OnlyAt(t, c, n) && SameRecords(t, c, n) && n in c && c[n].routes == [r] && c[n].inherited == []
    ensures Roots(t, n, cs) && Tidy(ApplyRecords(c, NewEntryOps(t, n, r, cs)), f)
  {
    NewNameEmits(t, n, r, cs, f);
    NewNameRecords(t, c, n, r, NewEntryOps(t, n, r, cs), f);
    TidyFromEdit(t, c, n, AddedByNew(t, n, r), RemovedByNew(t, n, r), [], NewEntryOps(t, n, r, cs), f);
  }

  lemma FurtherRouteTidy(t: Table, c: Table, n: Name, r: Route, f: nat)
    requires TreeExact(t) && CaptureExact(t) && n in t && Tidy(t, f)
    requires FindRoute(t[n].routes, r) == |t[n].routes| && OnlyAt(t, c, n) && SameRecords(t, c, n)
    requires n in c && c[n].routes == t[n].routes + [r] && c[n].inherited == t[n].inherited
    ensures Tidy(ApplyRecords(c, NewRouteOps(t, n, t[n], r, t[n].captureCount == 0 && r.IsCapture())), f) <==>
            NoLeftover(t, Register(n, r), f)
  {
    var ops := NewRouteOps(t, n, t[n], r, t[n].captureCount == 0 && r.IsCapture());
    assert TidyAt(t, n, f);
    NewRouteEmits(t, n, r, f);
    FurtherRouteRecords(t, c, n, r, ops, f);
    TidyFromEdit(t, c, n, AddedByRoute(t[n].routes, r), RemovedByRoute(t, n, r), [], ops, f);
  }

  lemma RenewalTidy(t: Table, c: Table, n: Name, i: nat, r: Route, f: nat)
    requires TreeExact(t) && CaptureExact(t) && n in t && Tidy(t, f)
    requires i < |t[n].routes| && Renews(r, t[n].routes[i]) && OnlyAt(t, c, n) && SameRecords(t, c, n)
    requires n in c && c[n].routes == t[n].routes[i := r] && c[n].inherited == t[n].inherited
    ensures Tidy(ApplyRecords(c, UpdatedRouteOps(t, n, t[n].(routes := t[n].routes[i := r]), r, t[n].routes[i])), f)
  {
    var e, was := t[n].(routes := t[n].routes[i := r]), t[n].routes[i];
    var ops := UpdatedRouteOps(t, n, e, r, was);
    assert TidyAt(t, n, f) && e.routes[i] == r;
    RenewalEmits(t, n, e, r, was, f);
    RenewalRecords(t, c, n, i, r, ops, f);
    TidyFromEdit(t, c, n, AddedByRenewal(t, n, e.routes, r, was), RemovedByRenewal(r, was), [], ops, f);
  }

  lemma UnregisterTidy(s: Rib, u: RibUpdate, f: nat)
    requires Good(s) && !u.Register? && Tidy(s.table, f)
    ensures Tidy(ApplyRecords(Erase(s, u.name, u.route).table, UnregisterOps(s, u.name, u.route)), f) <==>
            NoLeftover(s.table, u, f)
  {
    var t, n, r := s.table, u.name, u.route;
    if n in t && FindRoute(t[n].routes, r) < |t[n].routes| {
      ErasedTable(s, n, r);
      ErasureTidy(t, Erase(s, n, r).table, n, FindRoute(t[n].routes, r), f);
    }
  }

  lemma ErasureTidy(t: Table, c: Table, n: Name, i: nat, f: nat)
    requires TreeExact(t) && CaptureExact(t) && n in t && Tidy(t, f) && i < |t[n].routes|
    requires OnlyAt(t, c, n) && SameRecords(t, c, n) && (n in c <==> WithoutIndex(t[n].routes, i) != [])
    requires n in c ==> c[n].routes == WithoutIndex(t[n].routes, i) && c[n].inherited == t[n].inherited
    ensures var rest := WithoutIndex(t[n].routes, i);
      Tidy(ApplyRecords(c, UnregisterFoundOps(t, n, t[n], t[n].routes[i].faceId, i)), f) <==>
      (f == t[n].routes[i].faceId && HasFace(rest, f) ==> Captures(rest) || Arriving(t, n, f).None?)
  {
    var ops := UnregisterFoundOps(t, n, t[n], t[n].routes[i].faceId, i);
    assert TidyAt(t, n, f);
    FoundEmits(t, n, i, f);
    TidyFromEdit(t, c, n, AddedByErasure(t, n, i), RemovedByErasure(t[n].routes[i]), MoreByErasure(t[n].routes, i), ops, f);
    if n in c {
      FoundOwn(t, n, i, f);
      ErasureRecords(t, c, n, i, ops, f);
    }
  }
}
