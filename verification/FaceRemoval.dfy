/**
 Removing a destroyed face: the search for its routes through the face index is complete, and when the
 removals have been carried out, in any order and among any other updates, no route on the face is left.
 */
module FaceRemoval {
  import opened Names
  import opened Routes
  import opened RibLinks
  import opened RibTree
  import opened FibSteps
  import opened FibOps
  import opened FibCompute
  import opened FibApply
  import opened FibTheorem
  import opened FibCommit
  import opened FibSpec
  import opened FibUpdates
  import opened UpdateProtocol
  import opened DestroyedFaces
  import opened FibRuns

  /** The routes of a list that are on a face, in list order. */
  function RoutesOn(routes: seq<Route>, f: nat): (rs: seq<Route>)
    ensures forall r :: r in rs <==> r in routes && r.faceId == f
  {
    if routes == [] then []
    else
      var front, last := routes[..|routes| - 1], routes[|routes| - 1];
      assert routes == front + [last];
      if last.faceId == f then RoutesOn(front, f) + [last] else RoutesOn(front, f)
  }

  /** The updates `beginRemoveFace` enqueues for the routes of one entry. */
  function RemovalsAt(n: Name, rs: seq<Route>): (us: seq<RibUpdate>)
    ensures forall u :: u in us <==> u.RemoveFace? && u.name == n && u.route in rs
  {
    if rs == [] then []
    else
      var front, last := rs[..|rs| - 1], rs[|rs| - 1];
      assert rs == front + [last];
      RemovalsAt(n, front) + [RemoveFace(n, last)]
  }

  lemma RemovalsGrow(n: Name, routes: seq<Route>, i: nat, f: nat)
    requires i < |routes|
    ensures RemovalsAt(n, RoutesOn(routes[..i + 1], f)) ==
            RemovalsAt(n, RoutesOn(routes[..i], f)) + if routes[i].faceId == f then [RemoveFace(n, routes[i])] else []
  {
    assert routes[..i + 1][..i] == routes[..i];
    var on := RoutesOn(routes[..i], f);
    assert (on + [routes[i]])[..|on|] == on;
  }

  /** The updates for the entries under listed names. */
  ghost function RemovalsFor(t: Table, ns: seq<Name>, f: nat): (us: seq<RibUpdate>)
    ensures forall u :: u in us <==>
      u.RemoveFace? && u.name in ns && u.name in t && u.route in t[u.name].routes && u.route.faceId == f
  {
    if ns == [] then []
    else
      var front, last := ns[..|ns| - 1], ns[|ns| - 1];
      assert ns == front + [last];
      RemovalsFor(t, front, f) + if last in t then RemovalsAt(last, RoutesOn(t[last].routes, f)) else []
  }

  /** `beginRemoveFace`, through `findRoutesWithFaceId`. */
  ghost function FaceRemovals(s: Rib, f: nat): (us: seq<RibUpdate>) {
    if f in s.faceMap then RemovalsFor(s.table, s.faceMap[f], f) else []
  }

  /** The index leads to every route on the face and to no other. */
  lemma FaceRemovalsComplete(s: Rib, f: nat, n: Name, r: Route)
    requires RibExact(s)
    ensures RemoveFace(n, r) in FaceRemovals(s, f) <==> n in s.table && r in s.table[n].routes && r.faceId == f
  {
    assert Listed(s.faceMap, f, n) <==> OnFaceInTable(s.table, f, n);
  }

  /** Every route on the face is asked to be removed as often as the index lists its name. */
  lemma RemovedAsOftenAsListed(s: Rib, f: nat, n: Name, r: Route)
    requires RibExact(s) && n in s.table && r in s.table[n].routes && r.faceId == f
    ensures f in s.faceMap && multiset(s.faceMap[f])[n] > 0
    ensures multiset(FaceRemovals(s, f))[RemoveFace(n, r)] == multiset(s.faceMap[f])[n]
  {
    assert OnFaceInTable(s.table, f, n);
    assert Listed(s.faceMap, f, n);
    CountFor(s.table, s.faceMap[f], f, n, r);
  }

  predicate NoneTwice<T(==)>(xs: seq<T>) { forall i, j | 0 <= i < j < |xs| :: xs[i] != xs[j] }

  lemma {:induction false} CountOfDistinct<T>(xs: seq<T>, x: T)
    requires NoneTwice(xs)
    ensures multiset(xs)[x] == if x in xs then 1 else 0
  {
    if xs != [] {
      var front, last := xs[..|xs| - 1], xs[|xs| - 1];
      assert xs == front + [last];
      CountOfDistinct(front, x);
    }
  }

  lemma DistinctOn(routes: seq<Route>, f: nat)
    requires Distinct(routes)
    ensures Distinct(RoutesOn(routes, f))
  {
    if routes != [] { DistinctOn(routes[..|routes| - 1], f); }
  }

  lemma {:induction false} DistinctAt(n: Name, rs: seq<Route>)
    requires Distinct(rs)
    ensures NoneTwice(RemovalsAt(n, rs))
  {
    if rs != [] {
      var front, last := rs[..|rs| - 1], rs[|rs| - 1];
      DistinctAt(n, front);
      forall u | u in RemovalsAt(n, front) ensures u != RemoveFace(n, last) { assert u.route in front; }
    }
  }

  lemma {:induction false} CountFor(t: Table, ns: seq<Name>, f: nat, n: Name, r: Route)
    requires n in t && r in t[n].routes && r.faceId == f && forall m | m in t :: Distinct(t[m].routes)
    ensures multiset(RemovalsFor(t, ns, f))[RemoveFace(n, r)] == multiset(ns)[n]
  {
    if ns != [] {
      var front, last := ns[..|ns| - 1], ns[|ns| - 1];
      assert ns == front + [last];
      CountFor(t, front, f, n, r);
      if last in t {
        DistinctOn(t[last].routes, f);
        DistinctAt(last, RoutesOn(t[last].routes, f));
        CountOfDistinct(RemovalsAt(last, RoutesOn(t[last].routes, f)), RemoveFace(n, r));
      }
    }
  }

  /** The index lists a name once more for every route that joins it, also on a face it is listed for: with a second route on
      a face, each of the two is asked to be removed at least twice. */
  lemma SiblingIsRemovedTwice(s: Rib, n: Name, r: Route, x: Route)
    requires RibExact(s) && n in s.table && FindRoute(s.table[n].routes, r) == |s.table[n].routes|
    requires x in s.table[n].routes && x.faceId == r.faceId
    ensures multiset(FaceRemovals(Insert(s, n, r), r.faceId))[RemoveFace(n, x)] >= 2
  {
    var u, f := Insert(s, n, r), r.faceId;
    InsertKeepsExact(s, n, r);
    RemovedAsOftenAsListed(s, f, n, x);
    assert u.table[n].routes == s.table[n].routes + [r] && u.faceMap[f] == s.faceMap[f] + [n];
    RemovedAsOftenAsListed(u, f, n, x);
  }

  // ----- draining -----

  predicate HasOrigin(routes: seq<Route>, f: nat, o: nat) { exists r :: r in routes && r.faceId == f && r.origin == o }

  /** The name has the route with this face and origin. */
  ghost predicate Has(t: Table, n: Name, f: nat, o: nat) { n in t && HasOrigin(t[n].routes, f, o) }

  lemma CommitRoutes(s: Rib, u: RibUpdate, ops: seq<Op>, n: Name, f: nat, o: nat)
    requires RibExact(s)
    ensures Has(CommitWith(s, u, ops).table, n, f, o) <==> Has(Edited(s, u).table, n, f, o)
  {
    var t := Edited(s, u).table;
    if n in t { RecordsAfterOps(t, ops, n, 0); }
  }

  lemma RoutesAfterPut(e: Entry<Name>, r: Route, f: nat, o: nat)
    ensures HasOrigin(EntryWithRoute(e, r).routes, f, o) <==> HasOrigin(e.routes, f, o) || (f == r.faceId && o == r.origin)
  {
    var i := FindRoute(e.routes, r);
    var routes := EntryWithRoute(e, r).routes;
    if i < |e.routes| {
      assert routes[i].SameFaceAndOrigin(r) && e.routes[i].SameFaceAndOrigin(r);
      forall j | 0 <= j < |routes| ensures routes[j].SameFaceAndOrigin(e.routes[j]) && routes[j] in routes {}
    } else {
      assert routes[i] == r && r in routes;
    }
  }

  lemma RoutesAfterDrop(routes: seq<Route>, i: nat, f: nat, o: nat)
    requires Distinct(routes) && i < |routes|
    ensures HasOrigin(WithoutIndex(routes, i), f, o) <==>
            HasOrigin(routes, f, o) && !(f == routes[i].faceId && o == routes[i].origin)
  {
    var rest := WithoutIndex(routes, i);
    assert forall j | 0 <= j < |routes| && j != i :: routes[j] == if j < i then rest[j] else rest[j - 1];
    assert forall j | 0 <= j < |rest| :: rest[j] == if j < i then routes[j] else routes[j + 1];
    if HasOrigin(routes, f, o) && !(f == routes[i].faceId && o == routes[i].origin) {
      var r :| r in routes && r.faceId == f && r.origin == o;
      var j :| 0 <= j < |routes| && routes[j] == r;
      assert routes[j] in rest;
    }
  }

  /** What a commit does to the routes of the RIB, whatever records come with it: one appears or one disappears. */
  lemma RoutesAfterCommit(s: Rib, u: RibUpdate, ops: seq<Op>, n: Name, f: nat, o: nat)
    requires RibExact(s)
    ensures var itself := n == u.name && f == u.route.faceId && o == u.route.origin;
      Has(CommitWith(s, u, ops).table, n, f, o) <==>
      if u.Register? then Has(s.table, n, f, o) || itself else Has(s.table, n, f, o) && !itself
  {
    CommitRoutes(s, u, ops, n, f, o);
    if u.Register? {
      RoutesAfterInsert(s, u.name, u.route, n, f, o);
    } else {
      RoutesAfterErase(s, u.name, u.route, n, f, o);
    }
  }

  lemma RoutesAfterInsert(s: Rib, m: Name, r: Route, n: Name, f: nat, o: nat)
    requires RibExact(s)
    ensures Has(Insert(s, m, r).table, n, f, o) <==> Has(s.table, n, f, o) || (n == m && f == r.faceId && o == r.origin)
  {
    var c := Insert(s, m, r).table;
    InsertedTable(s, m, r);
    if n != m {
      assert SameRoutesAt(s.table, c, n);
    } else if m in s.table {
      RoutesAfterPut(s.table[m], r, f, o);
    } else {
      assert r in c[m].routes;
    }
  }

  lemma RoutesAfterErase(s: Rib, m: Name, r: Route, n: Name, f: nat, o: nat)
    requires RibExact(s)
    ensures Has(Erase(s, m, r).table, n, f, o) <==> Has(s.table, n, f, o) && !(n == m && f == r.faceId && o == r.origin)
  {
    if m in s.table {
      var routes := s.table[m].routes;
      var i := FindRoute(routes, r);
      if i < |routes| {
        var c := Erase(s, m, r).table;
        ErasedTable(s, m, r);
        if n != m { assert SameRoutesAt(s.table, c, n); } else { RoutesAfterDrop(routes, i, f, o); }
      }
    }
  }

  ghost predicate Holds(t: Table, n: Name, x: Route) { n in t && x in t[n].routes }

  /** The same with flags and cost: a registration leaves the route as it was asked for, also where its face and origin were
      known; an erasure leaves none with its face and origin; every other route is as before. */
  lemma ExactRoutesAfterCommit(s: Rib, u: RibUpdate, ops: seq<Op>, n: Name, x: Route)
    requires RibExact(s)
    ensures Holds(CommitWith(s, u, ops).table, n, x) <==>
            if n == u.name && x.faceId == u.route.faceId && x.origin == u.route.origin
            then u.Register? && x == u.route
            else Holds(s.table, n, x)
  {
    var t := Edited(s, u).table;
    if n in t { RecordsAfterOps(t, ops, n, 0); }
    if u.Register? { HoldsAfterInsert(s, u.name, u.route, n, x); } else { HoldsAfterErase(s, u.name, u.route, n, x); }
  }

  lemma HoldsAfterInsert(s: Rib, m: Name, r: Route, n: Name, x: Route)
    requires RibExact(s)
    ensures Holds(Insert(s, m, r).table, n, x) <==>
            if n == m && x.SameFaceAndOrigin(r) then x == r else Holds(s.table, n, x)
  {
    var c := Insert(s, m, r).table;
    InsertedTable(s, m, r);
    if n != m {
      assert SameRoutesAt(s.table, c, n);
    } else if m in s.table {
      HoldsAfterPut(s.table[m], r, x);
    }
  }

  lemma HoldsAfterPut(e: Entry<Name>, r: Route, x: Route)
    requires Distinct(e.routes)
    ensures x in EntryWithRoute(e, r).routes <==> if x.SameFaceAndOrigin(r) then x == r else x in e.routes
  {
    var i := FindRoute(e.routes, r);
    var routes := EntryWithRoute(e, r).routes;
    assert routes[i] == r && r in routes;
    assert forall j | 0 <= j < |e.routes| && j != i :: routes[j] == e.routes[j];
    if x in e.routes && !x.SameFaceAndOrigin(r) {
      var j :| 0 <= j < |e.routes| && e.routes[j] == x;
      assert routes[j] == x;
    }
    if x in routes {
      var j :| 0 <= j < |routes| && routes[j] == x;
      if j != i { assert x in e.routes && !x.SameFaceAndOrigin(r); }
    }
  }

  lemma HoldsAfterErase(s: Rib, m: Name, r: Route, n: Name, x: Route)
    requires RibExact(s)
    ensures Holds(Erase(s, m, r).table, n, x) <==> Holds(s.table, n, x) && !(n == m && x.SameFaceAndOrigin(r))
  {
    if m in s.table {
      var routes := s.table[m].routes;
      var i := FindRoute(routes, r);
      if i < |routes| {
        var c := Erase(s, m, r).table;
        ErasedTable(s, m, r);
        if n != m { assert SameRoutesAt(s.table, c, n); } else { HoldsAfterDrop(routes, i, x); }
      }
    }
  }

  lemma HoldsAfterDrop(routes: seq<Route>, i: nat, x: Route)
    requires Distinct(routes) && i < |routes|
    ensures x in WithoutIndex(routes, i) <==> x in routes && !x.SameFaceAndOrigin(routes[i])
  {
    var rest := WithoutIndex(routes, i);
    assert forall j | 0 <= j < |routes| && j != i :: routes[j] == if j < i then rest[j] else rest[j - 1];
    assert forall j | 0 <= j < |rest| :: rest[j] == if j < i then routes[j] else routes[j + 1];
    if x in routes && !x.SameFaceAndOrigin(routes[i]) {
      var j :| 0 <= j < |routes| && routes[j] == x;
      assert routes[j] in rest;
    }
  }

  /** The RIB after updates are committed in order. */
  ghost function CommitAll(s: Rib, us: seq<RibUpdate>): (r: Rib)
    requires RibExact(s)
    ensures RibExact(r)
  {
    if us == [] then s
    else
      var r := CommitAll(s, us[..|us| - 1]);
      CommitKeepsExact(r, us[|us| - 1], UpdateOps(r, us[|us| - 1]));
      Commit(r, us[|us| - 1])
  }

  /** Some update removes the route. */
  predicate Removes(us: seq<RibUpdate>, n: Name, f: nat, o: nat) {
    exists u :: u in us && Drops(u, n, f, o)
  }

  predicate NoRegistrationOn(us: seq<RibUpdate>, f: nat) { forall u | u in us && u.Register? :: u.route.faceId != f }

  predicate Drops(u: RibUpdate, n: Name, f: nat, o: nat) {
    !u.Register? && u.name == n && u.route.faceId == f && u.route.origin == o
  }

  lemma RemovesSnoc(us: seq<RibUpdate>, n: Name, f: nat, o: nat)
    requires us != [] && NoRegistrationOn(us, f)
    ensures var front, last := us[..|us| - 1], us[|us| - 1];
      && NoRegistrationOn(front, f) && (last.Register? ==> last.route.faceId != f)
      && (Removes(us, n, f, o) <==> Removes(front, n, f, o) || Drops(last, n, f, o))
  {
    var front, last := us[..|us| - 1], us[|us| - 1];
    assert us == front + [last] && last in us;
  }

  /** With no registration on the face, a route on it is there afterwards if it was there and nobody removed it. */
  lemma {:induction false} RoutesAfterAll(s: Rib, us: seq<RibUpdate>, n: Name, f: nat, o: nat)
    requires RibExact(s) && NoRegistrationOn(us, f)
    ensures Has(CommitAll(s, us).table, n, f, o) <==> Has(s.table, n, f, o) && !Removes(us, n, f, o)
  {
    if us != [] {
      RemovesSnoc(us, n, f, o);
      var r := CommitAll(s, us[..|us| - 1]);
      RoutesAfterAll(s, us[..|us| - 1], n, f, o);
      RoutesAfterCommit(r, us[|us| - 1], UpdateOps(r, us[|us| - 1]), n, f, o);
    }
  }

  /** Draining `beginRemoveFace(f)`, with no new registration on `f` in between, leaves no route on `f`. */
  lemma FaceIsDrained(s: Rib, us: seq<RibUpdate>, f: nat, n: Name)
    requires RibExact(s) && NoRegistrationOn(us, f)
    requires forall u | u in FaceRemovals(s, f) :: u in us
    ensures var t := CommitAll(s, us).table; n in t ==> !HasFace(t[n].routes, f)
  {
    var t := CommitAll(s, us).table;
    if n in t && HasFace(t[n].routes, f) {
      var r := OnFace(t[n].routes, f).value;
      assert Has(t, n, f, r.origin);
      RoutesAfterAll(s, us, n, f, r.origin);
      var was :| was in s.table[n].routes && was.faceId == f && was.origin == r.origin;
      FaceRemovalsComplete(s, f, n, was);
    }
  }

  // ----- in runs -----

  /** Any run, orderly or not. */
  ghost predicate IsAnyRun(states: seq<State<Rib>>, events: seq<Event>) {
    && |states| == |events| + 1
    && states[0] == Init(Empty)
    && forall i | 0 <= i < |events| :: Enabled(states[i], events[i]) && states[i + 1] == Next(OfRib(), states[i], events[i])
  }

  /** A step leaves the history and the RIB alone, records a failure, or commits an update with the records that the
      updater holds. */
  lemma StepHistory<R>(c: Computations<R>, s: State<R>, e: Event)
    requires Enabled(s, e)
    ensures Recorded(c, s, Next(c, s, e))
  {
    match e
    case Start =>
      var t := Computed(c, s.(queue := s.queue[1..]), s.queue[0]);
      SendRecorded(c, t, s.queue[0]);
    case Ack(i) =>
      var m := s.outstanding[i];
      SettleRecorded(c, s.(fib := Execute(s.fib, s.dead, m), outstanding := UpdateProtocol.Without(s.outstanding, i)),
                     m.update, m.batch);
    case Gone(i) =>
      var m := s.outstanding[i];
      SettleRecorded(c, s.(outstanding := UpdateProtocol.Without(s.outstanding, i)), m.update, m.batch);
    case _ =>
  }

  ghost predicate Recorded<R>(c: Computations<R>, s: State<R>, r: State<R>) {
    || (r.log == s.log && r.rib == s.rib)
    || (exists x :: r.log == s.log + [x] && r.rib == if x.applied then c.commit(s.rib, x.update, r.ops) else s.rib)
  }

  lemma SendRecorded<R>(c: Computations<R>, s: State<R>, batch: RibUpdate)
    ensures Recorded(c, s, SendBatch(c, s, batch)) && Recorded(c, s, SendOther(c, s, batch))
  {
    assert Complete(c, s, batch).log == s.log + [Finished(batch, true)];
  }

  lemma SettleRecorded<R>(c: Computations<R>, s: State<R>, u: FibUpdate, batch: RibUpdate)
    ensures Recorded(c, s, Settle(c, s, u, batch))
  {
    SendRecorded(c, s.(forBatch := Remove(s.forBatch, u)), batch);
    SendRecorded(c, s.(forOther := Remove(s.forOther, u)), batch);
  }

  /** What was finished after `before`. */
  function Since(before: seq<Finished>, after: seq<Finished>): (xs: seq<Finished>) {
    if before <= after then after[|before|..] else []
  }

  /** With no registration on the face applied since, a route on it is there if it was there and nobody removed it. */
  ghost predicate RouteKept(s: State<Rib>, r: State<Rib>, n: Name, f: nat, o: nat) {
    && s.log <= r.log && RibExact(r.rib)
    && var us := Applied(Since(s.log, r.log));
       NoRegistrationOn(us, f) ==>
         (Has(r.rib.table, n, f, o) <==> Has(s.rib.table, n, f, o) && !Removes(us, n, f, o))
  }

  /** One more finished update. */
  lemma SinceSnoc(before: seq<Finished>, log: seq<Finished>, x: Finished)
    requires before <= log
    ensures before <= log + [x]
    ensures Applied(Since(before, log + [x])) == Applied(Since(before, log)) + if x.applied then [x.update] else []
  {
    assert (log + [x])[|before|..] == log[|before|..] + [x];
    LogSnoc(Since(before, log), x);
  }

  lemma KeptByStep(s: State<Rib>, r: State<Rib>, e: Event, n: Name, f: nat, o: nat)
    requires RouteKept(s, r, n, f, o) && Enabled(r, e)
    ensures RouteKept(s, Next(OfRib(), r, e), n, f, o)
  {
    StepHistory(OfRib(), r, e);
    KeptIfRecorded(s, r, Next(OfRib(), r, e), n, f, o);
  }

  lemma KeptIfRecorded(s: State<Rib>, r: State<Rib>, t: State<Rib>, n: Name, f: nat, o: nat)
    requires RouteKept(s, r, n, f, o) && Recorded(OfRib(), r, t)
    ensures RouteKept(s, t, n, f, o)
  {
    if t.log != r.log {
      var x :| t.log == r.log + [x] && t.rib == if x.applied then OfRib().commit(r.rib, x.update, t.ops) else r.rib;
      SinceSnoc(s.log, r.log, x);
      if x.applied {
        CommitKeepsExact(r.rib, x.update, t.ops);
        RoutesAfterCommit(r.rib, x.update, t.ops, n, f, o);
        AppliedSnoc(Applied(Since(s.log, r.log)), x.update, n, f, o);
      } else {
        assert Applied(Since(s.log, r.log)) + [] == Applied(Since(s.log, r.log));
      }
    }
  }

  lemma AppliedSnoc(us: seq<RibUpdate>, u: RibUpdate, n: Name, f: nat, o: nat)
    ensures NoRegistrationOn(us + [u], f) <==> NoRegistrationOn(us, f) && (u.Register? ==> u.route.faceId != f)
    ensures Removes(us + [u], n, f, o) <==> Removes(us, n, f, o) || Drops(u, n, f, o)
  {
    assert u in us + [u];
  }

  lemma RecordedKeepsExact(s: State<Rib>, r: State<Rib>)
    requires RibExact(s.rib) && Recorded(OfRib(), s, r)
    ensures RibExact(r.rib)
  {
    if r.log != s.log {
      var x :| r.log == s.log + [x] && r.rib == if x.applied then OfRib().commit(s.rib, x.update, r.ops) else s.rib;
      CommitKeepsExact(s.rib, x.update, r.ops);
    }
  }

  lemma {:induction false} RunKeepsExact(states: seq<State<Rib>>, events: seq<Event>, k: nat)
    requires IsAnyRun(states, events) && k < |states|
    ensures RibExact(states[k].rib)
  {
    if k == 0 {
      EmptyIsExact();
    } else {
      RunKeepsExact(states, events, k - 1);
      var s, r := states[k - 1], states[k];
      assert Enabled(s, events[k - 1]);
      StepHistory(OfRib(), s, events[k - 1]);
      RecordedKeepsExact(s, r);
    }
  }

  lemma {:induction false} RunKeepsRoute(states: seq<State<Rib>>, events: seq<Event>, i: nat, k: nat, n: Name, f: nat, o: nat)
    requires IsAnyRun(states, events) && i <= k < |states|
    ensures RouteKept(states[i], states[k], n, f, o)
  {
    if i == k {
      RunKeepsExact(states, events, i);
      assert Since(states[i].log, states[i].log) == [];
    } else {
      RunKeepsRoute(states, events, i, k - 1, n, f, o);
      assert Enabled(states[k - 1], events[k - 1]);
      KeptByStep(states[i], states[k - 1], events[k - 1], n, f, o);
    }
  }

  /** In every run, also one in which batches overlap: once the removals that the index called for at some moment have
      been applied, with no registration on the face applied since, the RIB holds no route on the face. */
  lemma AppliedRemovalsDrainFace(states: seq<State<Rib>>, events: seq<Event>, i: nat, k: nat, f: nat, n: Name)
    requires IsAnyRun(states, events) && i <= k < |states|
    requires NoRegistrationOn(Applied(Since(states[i].log, states[k].log)), f)
    requires forall u | u in FaceRemovals(states[i].rib, f) :: u in Applied(Since(states[i].log, states[k].log))
    ensures n in states[k].rib.table ==> !HasFace(states[k].rib.table[n].routes, f)
  {
    var t, us := states[k].rib.table, Applied(Since(states[i].log, states[k].log));
    RunKeepsExact(states, events, i);
    if n in t && HasFace(t[n].routes, f) {
      var r := OnFace(t[n].routes, f).value;
      assert Has(t, n, f, r.origin);
      RunKeepsRoute(states, events, i, k, n, f, r.origin);
      var was :| was in states[i].rib.table[n].routes && was.faceId == f && was.origin == r.origin;
      FaceRemovalsComplete(states[i].rib, f, n, was);
      assert Drops(RemoveFace(n, was), n, f, r.origin);
    }
  }

  lemma {:induction false} TakenMember(log: seq<Finished>, u: RibUpdate)
    requires u in Taken(log)
    ensures exists x :: x in log && x.update == u
    ensures (forall x | x in log && x.update == u :: x.applied) ==> u in Applied(log)
  {
    var front, last := log[..|log| - 1], log[|log| - 1];
    assert log == front + [last];
    if u in Taken(front) { TakenMember(front, u); }
  }

  lemma OrderlyIsRun(states: seq<State<Rib>>, events: seq<Event>)
    requires IsOrderlyRun(OfRib(), Empty, states, events)
    ensures IsAnyRun(states, events)
  {
    forall i | 0 <= i < |events| ensures Enabled(states[i], events[i]) && states[i + 1] == Next(OfRib(), states[i], events[i]) {
      assert Orderly(states[i], events[i]);
    }
  }

  /** In every orderly run: once the removals that the index called for at some moment have been taken up and finished, with
      no registration on the face applied since, the RIB holds no route on the face. None of them can have failed. */
  lemma RunDrainsFace(states: seq<State<Rib>>, events: seq<Event>, i: nat, k: nat, f: nat, n: Name)
    requires IsOrderlyRun(OfRib(), Empty, states, events) && i <= k < |states|
    requires NoRegistrationOn(Applied(Since(states[i].log, states[k].log)), f)
    requires forall u | u in FaceRemovals(states[i].rib, f) :: u in Taken(Since(states[i].log, states[k].log))
    ensures n in states[k].rib.table ==> !HasFace(states[k].rib.table[n].routes, f)
  {
    var since := Since(states[i].log, states[k].log);
    RemovalsNeverFail(OfRib(), Empty, states, events, k);
    forall u | u in FaceRemovals(states[i].rib, f) ensures u in Applied(since) {
      assert u.RemoveFace?;
      TakenMember(since, u);
    }
    OrderlyIsRun(states, events);
    AppliedRemovalsDrainFace(states, events, i, k, f, n);
  }

  lemma {:induction false} TakenConcat(a: seq<Finished>, b: seq<Finished>)
    ensures Taken(a + b) == Taken(a) + Taken(b) && |Taken(a)| == |a|
  {
    if b == [] {
      assert a + b == a;
      if a != [] { TakenConcat(a[..|a| - 1], []); }
    } else {
      TakenConcat(a, b[..|b| - 1]);
      assert (a + b)[..|a + b| - 1] == a + b[..|b| - 1];
    }
  }

  /** The updates that were not finished at moment `i`: those in progress, queued or yet to come, up to moment `k`. */
  function Unfinished(states: seq<State<Rib>>, i: nat, k: nat): (us: seq<RibUpdate>)
    requires i <= k < |states|
  {
    if |states[i].log| <= |states[k].enqueued| then states[k].enqueued[|states[i].log|..] else []
  }

  /** The updates that are in progress or queued are taken up in their turn, before any that comes later. */
  lemma QueueIsTaken(states: seq<State<Rib>>, events: seq<Event>, i: nat, k: nat)
    requires IsOrderlyRun(OfRib(), Empty, states, events) && i <= k < |states|
    ensures states[i].log <= states[k].log && states[i].enqueued <= states[k].enqueued
    ensures states[k].current.None? && states[k].queue == [] ==>
              |states[i].log| <= |states[k].enqueued| &&
              Taken(Since(states[i].log, states[k].log)) == Unfinished(states, i, k)
  {
    var s, r := states[i], states[k];
    OrderlyIsRun(states, events);
    forall j | i <= j < k ensures Grows(states[j], states[j + 1]) { StepOfRunGrows(states, events, j); }
    GrowsOn(states, i, k);
    OrderlyRuns(OfRib(), Empty, states, events, k);
    var since := Since(s.log, r.log);
    assert r.log == s.log + since;
    TakenConcat(s.log, since);
    if r.current.None? && r.queue == [] { assert r.enqueued == Taken(r.log) == Taken(s.log) + Taken(since); }
  }

  predicate Grows<R>(s: State<R>, r: State<R>) { s.log <= r.log && s.enqueued <= r.enqueued }

  lemma StepGrows<R>(c: Computations<R>, s: State<R>, e: Event, r: State<R>)
    requires Enabled(s, e) && r == Next(c, s, e)
    ensures Grows(s, r)
  {
    StepHistory(c, s, e);
    StepEnqueued(c, s, e, r);
  }

  lemma StepEnqueued<R>(c: Computations<R>, s: State<R>, e: Event, r: State<R>)
    requires Enabled(s, e) && r == Next(c, s, e)
    ensures s.enqueued <= r.enqueued
  {
  }

  lemma StepOfRunGrows(states: seq<State<Rib>>, events: seq<Event>, j: nat)
    requires IsAnyRun(states, events) && j < |events|
    ensures Grows(states[j], states[j + 1])
  {
    assert Enabled(states[j], events[j]);
    StepGrows(OfRib(), states[j], events[j], states[j + 1]);
  }

  lemma {:induction false} GrowsOn<R>(states: seq<State<R>>, i: nat, k: nat)
    requires i <= k < |states| && forall j | i <= j < k :: Grows(states[j], states[j + 1])
    ensures Grows(states[i], states[k])
  {
    if i < k { GrowsOn(states, i, k - 1); }
  }

  lemma QueuedIsUnfinished(states: seq<State<Rib>>, events: seq<Event>, i: nat, k: nat, u: RibUpdate)
    requires IsOrderlyRun(OfRib(), Empty, states, events) && i <= k < |states| && u in states[i].queue
    requires states[i].enqueued <= states[k].enqueued && |states[i].log| <= |states[k].enqueued|
    ensures u in Unfinished(states, i, k)
  {
    OrderlyRuns(OfRib(), Empty, states, events, i);
    var s, all := states[i], states[k].enqueued;
    TakenConcat(s.log, []);
    var before := Taken(s.log) + if s.current.Some? then [s.current.value] else [];
    InTheRest(|s.log|, before, s.queue, all, u);
  }

  lemma InTheRest<T>(n: nat, before: seq<T>, queue: seq<T>, all: seq<T>, u: T)
    requires n <= |before| && before + queue <= all && u in queue
    ensures u in all[n..]
  {
    var j :| 0 <= j < |queue| && queue[j] == u;
    assert all[|before| + j] == (before + queue)[|before| + j] == u;
    assert all[n..][|before| + j - n] == u;
  }

  /** A face that is destroyed is drained: if the removals that the index calls for at some moment are queued then, and no
      registration on the face is in progress, queued or to come, the RIB holds no route on the face as soon as the queue is
      empty and no batch is in flight, in every orderly run. */
  lemma QueuedRemovalsDrainFace(states: seq<State<Rib>>, events: seq<Event>, i: nat, k: nat, f: nat, n: Name)
    requires IsOrderlyRun(OfRib(), Empty, states, events) && i <= k < |states|
    requires forall u | u in FaceRemovals(states[i].rib, f) :: u in states[i].queue
    requires NoRegistrationOn(Unfinished(states, i, k), f)
    requires states[k].current.None? && states[k].queue == []
    ensures n in states[k].rib.table ==> !HasFace(states[k].rib.table[n].routes, f)
  {
    var since := Since(states[i].log, states[k].log);
    QueueIsTaken(states, events, i, k);
    AppliedAreTaken(since);
    forall u | u in FaceRemovals(states[i].rib, f) ensures u in Taken(since) { QueuedIsUnfinished(states, events, i, k, u); }
    RunDrainsFace(states, events, i, k, f, n);
  }

  lemma {:induction false} AppliedAreTaken(log: seq<Finished>)
    ensures forall u | u in Applied(log) :: u in Taken(log)
  {
    if log != [] { AppliedAreTaken(log[..|log| - 1]); }
  }
}
