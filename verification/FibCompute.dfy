/**
 What the FIB updater computes for one RIB update: ancestor routes, and the emissions for a new name, a new
 route, a changed route and an erased route.
 */
module FibCompute {
  import opened Wrappers
  import opened Names
  import opened Routes
  import opened RibLinks
  import opened RibTree
  import opened FibSpec
  import opened FibOps
  import opened RouteLists

  datatype RibUpdate =
    | Register(name: Name, route: Route)
    | Unregister(name: Name, route: Route)
    | RemoveFace(name: Name, route: Route)

  // ----- ancestor routes -----

  /** The child-inherit routes of one entry join a route set in list order. */
  function InsertOffers(acc: seq<Route>, routes: seq<Route>): (rs: seq<Route>)
    requires IsRouteSet(acc)
    ensures IsRouteSet(rs)
  {
    if routes == [] then acc
    else
      var front, last := routes[..|routes| - 1], routes[|routes| - 1];
      var rs := InsertOffers(acc, front);
      if last.IsChildInherit() then InsertRoute(rs, last) else rs
  }

  /** The walk up the parent links, stopping after a capturing entry. */
  ghost function Collect(t: Table, p: Option<Name>, acc: seq<Route>): (rs: seq<Route>)
    requires ParentsExact(t) && (p.Some? ==> p.value in t) && IsRouteSet(acc)
    ensures IsRouteSet(rs)
    decreases if p.Some? then |p.value| + 1 else 0
  {
    if p.None? then acc
    else
      var e := t[p.value];
      var rs := InsertOffers(acc, e.routes);
      if e.captureCount > 0 then rs else Collect(t, e.parent, rs)
  }

  /** `getAncestorRoutes`, for an entry with parent `p` and for a name whose found parent is `p`. */
  ghost function AncestorRoutes(t: Table, p: Option<Name>): (rs: seq<Route>)
    requires ParentsExact(t) && (p.Some? ==> p.value in t)
    ensures IsRouteSet(rs)
  {
    Collect(t, p, [])
  }

  /** One round of the loop of `getAncestorRoutes`. */
  lemma CollectStep(t: Table, p: Name, acc: seq<Route>)
    requires ParentsExact(t) && p in t && IsRouteSet(acc)
    ensures var rs, e := InsertOffers(acc, t[p].routes), t[p];
      && (e.parent.Some? ==> e.parent.value in t && |e.parent.value| < |p|)
      && Collect(t, Some(p), acc) == if e.captureCount > 0 then rs else Collect(t, e.parent, rs)
  {
  }

  lemma {:induction false} InsertOffersAt(acc: seq<Route>, routes: seq<Route>, f: nat)
    requires IsRouteSet(acc)
    ensures OnFace(InsertOffers(acc, routes), f) ==
            if OnFace(acc, f).Some? then OnFace(acc, f) else OffersOn(routes, f)
  {
    if routes != [] {
      var front, last := routes[..|routes| - 1], routes[|routes| - 1];
      assert routes == front + [last];
      InsertOffersAt(acc, front, f);
      OffersAppend(front, last, f);
      if last.IsChildInherit() { OnFaceAfterInsert(InsertOffers(acc, front), last, f); }
    }
  }

  lemma {:induction false} CollectAt(t: Table, p: Option<Name>, acc: seq<Route>, f: nat)
    requires ParentsExact(t) && CaptureExact(t) && (p.Some? ==> p.value in t) && IsRouteSet(acc)
    ensures OnFace(Collect(t, p, acc), f) ==
            if OnFace(acc, f).Some? then OnFace(acc, f)
            else if p.Some? then SentDown(t, p.value, f) else None
    decreases if p.Some? then |p.value| + 1 else 0
  {
    if p.Some? {
      var e := t[p.value];
      InsertOffersAt(acc, e.routes, f);
      if e.captureCount == 0 {
        CollectAt(t, e.parent, InsertOffers(acc, e.routes), f);
        ArrivingFromParent(t, p.value, f);
      }
    }
  }

  /** Per face, the ancestor routes are the nearest offer, cut after the first capturing ancestor. */
  lemma AncestorRoutesExact(t: Table, n: Name, f: nat)
    requires ParentsExact(t) && CaptureExact(t)
    ensures OnFace(AncestorRoutes(t, ParentOf(t.Keys, n)), f) == Arriving(t, n, f)
  {
    CollectAt(t, ParentOf(t.Keys, n), [], f);
    ArrivingFromParent(t, n, f);
  }

  // ----- emissions of the four kinds of change -----

  /** `addInheritedRoutes` for a name that is about to own a route on face `ignore`. */
  function InheritOps(n: Name, rs: seq<Route>, ignore: nat): (ops: seq<Op>) {
    if rs == [] then []
    else
      var front, last := rs[..|rs| - 1], rs[|rs| - 1];
      InheritOps(n, front, ignore) + if last.faceId != ignore then [Inherit(n, last)] else []
  }

  /** The names that will be children of a name that is not in the table yet. */
  ghost function FutureChildren(t: Table, p: Option<Name>, ds: seq<Name>): (cs: seq<Name>)
    ensures forall c :: c in cs <==> c in ds && c in t && t[c].parent == p
  {
    if ds == [] then []
    else
      var front, last := ds[..|ds| - 1], ds[|ds| - 1];
      assert ds == front + [last];
      FutureChildren(t, p, front) + if last in t && t[last].parent == p then [last] else []
  }

  /** `createFibUpdatesForNewRibEntry` after the next hop of the new name itself. */
  ghost function ArriveOps(t: Table, n: Name, r: Route, cs: seq<Name>, ancestors: seq<Route>): (ops: seq<Op>)
    requires TreeExact(t) && Roots(t, n, cs) && IsRouteSet(ancestors)
  {
    if !r.IsChildInherit() && !r.IsCapture() then InheritOps(n, ancestors, r.faceId)
    else if r.IsChildInherit() && r.IsCapture() then TraverseAll(t, n, cs, [r], ancestors)
    else if r.IsChildInherit() then
      InheritOps(n, ancestors, r.faceId) +
      TraverseAll(t, n, cs, InsertRoute(EraseFace(ancestors, r.faceId), r), [])
    else TraverseAll(t, n, cs, [], ancestors)
  }

  /** `createFibUpdatesForNewRibEntry`. */
  ghost function NewEntryOps(t: Table, n: Name, r: Route, cs: seq<Name>): (ops: seq<Op>)
    requires TreeExact(t) && Roots(t, n, cs)
  {
    [AddHop(n, r.faceId, r.cost)] + ArriveOps(t, n, r, cs, AncestorRoutes(t, ParentOf(t.Keys, n)))
  }

  /** The emissions below concern an entry of the table, or a copy of it with other routes. */
  ghost predicate CopyOf(t: Table, n: Name, e: Entry<Name>) {
    TreeExact(t) && n in t && e.parent == t[n].parent && e.children == t[n].children
  }

  ghost function ToChildren(t: Table, n: Name, add: seq<Route>, remove: seq<Route>): (ops: seq<Op>)
    requires TreeExact(t) && n in t
  {
    ChildrenAreBelow(t, n);
    TraverseAll(t, n, t[n].children, add, remove)
  }

  /** `createFibUpdatesForNewRoute`. */
  ghost function NewRouteOps(t: Table, n: Name, e: Entry<Name>, r: Route, captureOn: bool): (ops: seq<Op>)
    requires CopyOf(t, n, e)
  {
    var prev := CheapestOffer(e.routes, r.faceId);
    var other := Cheapest(e.routes, r.faceId);
    var add := if r.IsChildInherit() && (prev.None? || r.cost <= prev.value.cost) then [r] else [];
    var remove := if captureOn then AncestorRoutes(t, e.parent) else [];
    RemoveOps(n, e, remove) + ToChildren(t, n, add, remove) +
    if other.None? || r.cost <= other.value.cost then [AddHop(n, r.faceId, r.cost)] else []
  }

  /** The cost of a route rose from below to above the cheapest other route on its face, and no route of the list
      on the face has child-inherit: `createFibUpdatesForUpdatedRoute` dereferences a null pointer there. */
  predicate DereferencesNull(routes: seq<Route>, r: Route, was: Route) {
    var lowest := Cheapest(routes, r.faceId);
    lowest.Some? && was.cost < lowest.value.cost < r.cost && !HasChildInherit(routes, r.faceId)
  }

  /** The next hop of the name itself after a change of cost; nothing where the source dereferences null. */
  function RenewOwnOps(n: Name, e: Entry<Name>, r: Route, was: Route): (ops: seq<Op>) {
    var prev := CheapestOffer(e.routes, r.faceId);
    var lowest := Cheapest(e.routes, r.faceId);
    if r.cost == was.cost || lowest.None? then []
    else if r.cost <= lowest.value.cost then [AddHop(n, r.faceId, r.cost)]
    else if was.cost < lowest.value.cost && prev.Some? then [AddHop(n, prev.value.faceId, prev.value.cost)]
    else []
  }

  /** The child-inherit flag was turned on or off. */
  ghost function RenewInheritOps(t: Table, n: Name, e: Entry<Name>, r: Route, was: Route): (ops: seq<Op>)
    requires CopyOf(t, n, e)
  {
    var prev := CheapestOffer(e.routes, r.faceId);
    if !was.IsChildInherit() && r.IsChildInherit() then
      if prev.None? || r.cost <= prev.value.cost then ToChildren(t, n, [r], []) else []
    else if was.IsChildInherit() && !r.IsChildInherit() then
      var blocked := OnFace(AncestorRoutes(t, e.parent), r.faceId);
      ToChildren(t, n, if prev.Some? then [prev.value] else if blocked.Some? then [blocked.value] else [], [r])
    else []
  }

  /** The capture flag was turned on or off. */
  ghost function RenewCaptureOps(t: Table, n: Name, e: Entry<Name>, r: Route, was: Route): (ops: seq<Op>)
    requires CopyOf(t, n, e)
  {
    var ancestors := AncestorRoutes(t, e.parent);
    if !was.IsCapture() && r.IsCapture() then RemoveOps(n, e, ancestors) + ToChildren(t, n, [], ancestors)
    else if was.IsCapture() && !r.IsCapture() then AddOps(n, e, ancestors) + ToChildren(t, n, ancestors, [])
    else []
  }

  /** `createFibUpdatesForUpdatedRoute`; `e` already holds the changed route. */
  ghost function UpdatedRouteOps(t: Table, n: Name, e: Entry<Name>, r: Route, was: Route): (ops: seq<Op>)
    requires CopyOf(t, n, e)
  {
    var prev := CheapestOffer(e.routes, r.faceId);
    if r.flags == was.flags && r.cost == was.cost then []
    else if r.cost != was.cost && (prev.None? || r.cost <= prev.value.cost) && r.flags == was.flags && r.IsChildInherit() then
      RenewOwnOps(n, e, r, was) + ToChildren(t, n, [r], [])
    else
      RenewOwnOps(n, e, r, was) + RenewInheritOps(t, n, e, r, was) + RenewCaptureOps(t, n, e, r, was)
  }

  /** A route with capture is gone: the entry regains its ancestors' routes, unless it is left empty. */
  ghost function ReleasedOps(t: Table, n: Name, e: Entry<Name>, remove: seq<Route>, captureOff: bool): (ops: seq<Op>)
    requires CopyOf(t, n, e)
  {
    var regained := if captureOff && e.routes != [] then AncestorRoutes(t, e.parent) else [];
    AddOps(n, e, regained) + ToChildren(t, n, regained, remove)
  }

  /** The part of `createFibUpdatesForErasedRoute` that looks at the flags of the route. */
  ghost function ReleaseOps(t: Table, n: Name, e: Entry<Name>, r: Route, captureOff: bool): (ops: seq<Op>)
    requires CopyOf(t, n, e)
  {
    if r.IsChildInherit() && r.IsCapture() then ReleasedOps(t, n, e, [r], captureOff)
    else if r.IsChildInherit() then ToChildren(t, n, if e.captureCount > 0 then [] else AncestorRoutes(t, e.parent), [r])
    else if r.IsCapture() then ReleasedOps(t, n, e, [], captureOff)
    else []
  }

  /** The part that uncovers an inherited route on the same face. */
  ghost function UncoverOps(t: Table, n: Name, e: Entry<Name>, r: Route): (ops: seq<Op>)
    requires CopyOf(t, n, e)
  {
    var uncovered := OnFace(AncestorRoutes(t, e.parent), r.faceId);
    if e.captureCount == 0 && e.routes != [] && uncovered.Some? then [Inherit(n, uncovered.value)] else []
  }

  /** `createFibUpdatesForErasedRoute`; `e` no longer holds the route. */
  ghost function ErasedRouteOps(t: Table, n: Name, e: Entry<Name>, r: Route, captureOff: bool): (ops: seq<Op>)
    requires CopyOf(t, n, e)
  {
    [RemoveHop(n, r.faceId)] + ReleaseOps(t, n, e, r, captureOff) + UncoverOps(t, n, e, r)
  }

  /** `createFibUpdatesForErasedRibEntry`. */
  function ErasedEntryOps(n: Name, inherited: seq<Route>): (ops: seq<Op>) {
    if inherited == [] then []
    else
      ErasedEntryOps(n, inherited[..|inherited| - 1]) + [RemoveHop(n, inherited[|inherited| - 1].faceId)]
  }

  // ----- one RIB update -----

  /** `computeUpdatesForRegistration` of a name in the table. */
  ghost function RegisterKnownOps(t: Table, n: Name, e: Entry<Name>, r: Route): (ops: seq<Op>)
    requires CopyOf(t, n, e)
  {
    var i := FindRoute(e.routes, r);
    if i == |e.routes| then NewRouteOps(t, n, e, r, e.captureCount == 0 && r.IsCapture())
    else
      var changed := e.routes[i].(flags := r.flags, cost := r.cost);
      UpdatedRouteOps(t, n, e.(routes := e.routes[i := changed]), r, e.routes[i])
  }

  /** `computeUpdatesForRegistration`. */
  ghost function RegisterOps(s: Rib, n: Name, r: Route): (ops: seq<Op>)
    requires RibExact(s)
  {
    var t := s.table;
    if n in t then RegisterKnownOps(t, n, t[n], r)
    else NewEntryOps(t, n, r, FutureChildren(t, ParentOf(t.Keys, n), Under(s.order, n)))
  }

  /** `computeUpdatesForUnregistration` of a route that was found. */
  ghost function UnregisterFoundOps(t: Table, n: Name, e: Entry<Name>, f: nat, i: nat): (ops: seq<Op>)
    requires CopyOf(t, n, e) && i < |e.routes|
  {
    var temp := EraseRoute(e, i);
    var next := SecondCheapest(e.routes, f);
    ErasedRouteOps(t, n, temp, e.routes[i], e.captureCount > 0 && temp.captureCount == 0) +
    (if next.Some? then NewRouteOps(t, n, temp, next.value, false) else []) +
    (if |e.routes| == 1 then ErasedEntryOps(n, e.inherited) else [])
  }

  /** `computeUpdatesForUnregistration`. */
  ghost function UnregisterOps(s: Rib, n: Name, r: Route): (ops: seq<Op>)
    requires RibExact(s)
  {
    var t := s.table;
    if n !in t then []
    else
      var i := FindRoute(t[n].routes, r);
      if i == |t[n].routes| then [] else UnregisterFoundOps(t, n, t[n], r.faceId, i)
  }

  /** The computation for an update does not dereference null: only a registration of a known route may. */
  ghost predicate Computable(t: Table, u: RibUpdate) {
    u.Register? && u.name in t ==>
      var routes, r := t[u.name].routes, u.route;
      var i := FindRoute(routes, r);
      i < |routes| ==> !DereferencesNull(routes[i := r], r, routes[i])
  }

  /** `computeUpdates` on a batch of one update. */
  ghost function UpdateOps(s: Rib, u: RibUpdate): (ops: seq<Op>)
    requires RibExact(s)
  {
    match u
    case Register(n, r) => RegisterOps(s, n, r)
    case Unregister(n, r) => UnregisterOps(s, n, r)
    case RemoveFace(n, r) => UnregisterOps(s, n, r)
  }
}
