/** How appending, replacing and taking out a route changes what the lookups of a route list find. */
module RouteLists {
  import opened Wrappers
  import opened Routes
  import opened FibSpec

  // ----- members -----

  lemma MembersWithout(routes: seq<Route>, i: nat)
    requires i < |routes|
    ensures forall x :: x in routes <==> x in WithoutIndex(routes, i) || x == routes[i]
    ensures Captures(routes) <==> Captures(WithoutIndex(routes, i)) || routes[i].IsCapture()
  {
    assert routes == routes[..i] + [routes[i]] + routes[i + 1..];
  }

  lemma MembersReplaced(routes: seq<Route>, i: nat, r: Route)
    requires i < |routes|
    ensures var rs := routes[i := r];
      && r in rs && routes[i] in routes
      && (forall x | x in rs :: x in routes || x == r)
      && (forall x | x in routes :: x in rs || x == routes[i])
  {
    var rs := routes[i := r];
    assert rs[i] == r;
    forall x | x in routes && x != routes[i] ensures x in rs {
      var j :| 0 <= j < |routes| && routes[j] == x;
      assert rs[j] == x;
    }
  }

  lemma MoreRoutesOnFace(a: seq<Route>, b: seq<Route>, f: nat)
    requires forall x | x in a && x.faceId == f :: x in b
    ensures HasFace(a, f) ==> HasFace(b, f) && Cheapest(b, f).value.cost <= Cheapest(a, f).value.cost
    ensures HasChildInherit(a, f) ==> HasChildInherit(b, f)
  {
    var x, y := Cheapest(a, f), OffersOn(a, f);
    if x.Some? { assert x.value in b; }
    if y.Some? { assert y.value in b; }
  }

  /** Lists with the same routes on a face agree in the costs found there. */
  lemma SameCosts(a: seq<Route>, b: seq<Route>, f: nat)
    requires forall x | x in a && x.faceId == f :: x in b
    requires forall x | x in b && x.faceId == f :: x in a
    ensures HasFace(a, f) <==> HasFace(b, f)
    ensures HasChildInherit(a, f) <==> HasChildInherit(b, f)
    ensures CostOf(Cheapest(a, f)) == CostOf(Cheapest(b, f))
  {
    MoreRoutesOnFace(a, b, f);
    MoreRoutesOnFace(b, a, f);
  }

  // ----- a route is appended -----

  lemma AppendRoute(routes: seq<Route>, r: Route, f: nat)
    ensures var rs := routes + [r];
      && (HasFace(rs, f) <==> HasFace(routes, f) || f == r.faceId)
      && (Captures(rs) <==> Captures(routes) || r.IsCapture())
      && OffersOn(rs, f) == (if HasChildInherit(routes, f) then OffersOn(routes, f)
                             else if f == r.faceId && r.IsChildInherit() then Some(r) else None)
      && Cheapest(rs, f) == (if f == r.faceId && (Cheapest(routes, f).None? || r.cost < Cheapest(routes, f).value.cost)
                             then Some(r) else Cheapest(routes, f))
  {
    var rs := routes + [r];
    assert r in rs && rs[..|rs| - 1] == routes;
    assert forall x :: x in rs <==> x in routes || x == r;
    OffersAppend(routes, r, f);
  }

  lemma {:induction false} OffersAppend(rs: seq<Route>, r: Route, f: nat)
    ensures OffersOn(rs + [r], f) ==
            if OffersOn(rs, f).Some? then OffersOn(rs, f)
            else if r.faceId == f && r.IsChildInherit() then Some(r) else None
  {
    if rs == [] {
      assert (rs + [r])[1..] == [];
    } else {
      assert (rs + [r])[1..] == rs[1..] + [r];
      OffersAppend(rs[1..], r, f);
    }
  }

  // ----- a route is replaced by one with the same face -----

  /** A route that is not among the offers on `f` may change. */
  lemma {:induction false} OffersReplaced(routes: seq<Route>, i: nat, r: Route, f: nat)
    requires i < |routes| && routes[i].faceId == r.faceId
    requires f != r.faceId || (!routes[i].IsChildInherit() && !r.IsChildInherit())
    ensures OffersOn(routes[i := r], f) == OffersOn(routes, f)
  {
    var rs := routes[i := r];
    if i == 0 {
      assert rs[1..] == routes[1..];
    } else {
      OffersReplaced(routes[1..], i - 1, r, f);
      assert rs[1..] == routes[1..][i - 1 := r];
    }
  }

  /** A change that keeps cost and child-inherit keeps the cost of the offer. */
  lemma {:induction false} OffersRepriced(routes: seq<Route>, i: nat, r: Route, f: nat)
    requires i < |routes| && routes[i].faceId == r.faceId
    requires routes[i].IsChildInherit() == r.IsChildInherit() && routes[i].cost == r.cost
    ensures CostOf(OffersOn(routes[i := r], f)) == CostOf(OffersOn(routes, f))
  {
    var rs := routes[i := r];
    if i == 0 {
      assert rs[1..] == routes[1..];
    } else {
      OffersRepriced(routes[1..], i - 1, r, f);
      assert rs[1..] == routes[1..][i - 1 := r];
    }
  }

  lemma ReplaceElsewhere(routes: seq<Route>, i: nat, r: Route, f: nat)
    requires i < |routes| && routes[i].faceId == r.faceId != f
    ensures var rs := routes[i := r];
      && (HasFace(rs, f) <==> HasFace(routes, f)) && CostOf(Cheapest(rs, f)) == CostOf(Cheapest(routes, f))
      && (HasChildInherit(rs, f) <==> HasChildInherit(routes, f)) && OffersOn(rs, f) == OffersOn(routes, f)
  {
    MembersReplaced(routes, i, r);
    SameCosts(routes[i := r], routes, f);
    OffersReplaced(routes, i, r, f);
  }

  lemma CapturesReplaced(routes: seq<Route>, i: nat, r: Route)
    requires i < |routes| && routes[i].IsCapture() == r.IsCapture()
    ensures Captures(routes[i := r]) <==> Captures(routes)
  {
    MembersReplaced(routes, i, r);
  }

  /** A changed route stays on its face. */
  lemma FacesReplaced(routes: seq<Route>, i: nat, r: Route, f: nat)
    requires i < |routes| && routes[i].faceId == r.faceId
    ensures HasFace(routes[i := r], f) <==> HasFace(routes, f)
  {
    MembersReplaced(routes, i, r);
  }

  /** The cheapest route on the face before a change, from the list after it. */
  lemma CheapestReplaced(routes: seq<Route>, i: nat, r: Route)
    requires i < |routes| && routes[i].faceId == r.faceId
    ensures var f, rs := r.faceId, routes[i := r];
      && Cheapest(rs, f).Some? && Cheapest(routes, f).Some? && Cheapest(rs, f).value.cost <= r.cost
      && (Cheapest(rs, f).value.cost < r.cost && Cheapest(rs, f).value.cost <= routes[i].cost ==>
          Cheapest(routes, f).value.cost == Cheapest(rs, f).value.cost)
      && (routes[i].cost < Cheapest(rs, f).value.cost ==> Cheapest(routes, f).value.cost == routes[i].cost)
      && (routes[i].cost == r.cost ==> Cheapest(routes, f).value.cost == Cheapest(rs, f).value.cost)
  {
    MembersReplaced(routes, i, r);
    assert r in routes[i := r] && routes[i] in routes;
  }

  // ----- a route is taken out -----

  lemma {:induction false} OffersWithout(routes: seq<Route>, i: nat, f: nat)
    requires i < |routes| && (routes[i].faceId != f || !routes[i].IsChildInherit())
    ensures OffersOn(WithoutIndex(routes, i), f) == OffersOn(routes, f)
  {
    if i == 0 {
      assert WithoutIndex(routes, i) == routes[1..];
    } else {
      OffersWithout(routes[1..], i - 1, f);
      assert WithoutIndex(routes, i)[1..] == WithoutIndex(routes[1..], i - 1);
    }
  }

  lemma WithoutElsewhere(routes: seq<Route>, i: nat, f: nat)
    requires i < |routes| && routes[i].faceId != f
    ensures var rest := WithoutIndex(routes, i);
      && (HasFace(rest, f) <==> HasFace(routes, f)) && CostOf(Cheapest(rest, f)) == CostOf(Cheapest(routes, f))
      && (HasChildInherit(rest, f) <==> HasChildInherit(routes, f)) && OffersOn(rest, f) == OffersOn(routes, f)
  {
    MembersWithout(routes, i);
    SameCosts(WithoutIndex(routes, i), routes, f);
    OffersWithout(routes, i, f);
  }

  lemma {:induction false} CaptureCountWithout(routes: seq<Route>, i: nat)
    requires i < |routes|
    ensures CaptureCount(routes) == CaptureCount(WithoutIndex(routes, i)) + if routes[i].IsCapture() then 1 else 0
  {
    var front, last := routes[..|routes| - 1], routes[|routes| - 1];
    if i == |routes| - 1 {
      assert WithoutIndex(routes, i) == front;
    } else {
      CaptureCountWithout(front, i);
      assert WithoutIndex(routes, i) == WithoutIndex(front, i) + [last];
      CaptureCountSnoc(WithoutIndex(front, i), last);
    }
  }

  lemma CaptureCountSnoc(routes: seq<Route>, r: Route)
    ensures CaptureCount(routes + [r]) == CaptureCount(routes) + if r.IsCapture() then 1 else 0
  {
    assert (routes + [r])[..|routes|] == routes;
  }

  lemma {:induction false} CaptureCountReplace(routes: seq<Route>, i: nat, r: Route)
    requires i < |routes|
    ensures CaptureCount(routes[i := r]) + (if routes[i].IsCapture() then 1 else 0) ==
            CaptureCount(routes) + if r.IsCapture() then 1 else 0
  {
    var front := routes[..|routes| - 1];
    var rs := routes[i := r];
    if i == |routes| - 1 {
      assert rs[..|rs| - 1] == front;
    } else {
      CaptureCountReplace(front, i, r);
      assert rs[..|rs| - 1] == front[i := r];
    }
  }

  lemma SingleRoute(r: Route, f: nat)
    ensures HasFace([r], f) <==> f == r.faceId
    ensures HasChildInherit([r], f) <==> f == r.faceId && r.IsChildInherit()
    ensures Captures([r]) <==> r.IsCapture()
    ensures f == r.faceId ==> Cheapest([r], f) == Some(r) && OnFace([r], f) == Some(r)
    ensures f == r.faceId && r.IsChildInherit() ==> OffersOn([r], f) == Some(r)
  {
    assert r in [r];
    assert [r][..0] == [];
  }

  // ----- the second cheapest route -----

  lemma {:induction false} WithoutRouteIndex(routes: seq<Route>, x: Route) returns (k: nat)
    requires x in routes
    ensures k < |routes| && routes[k] == x && WithoutRoute(routes, x) == WithoutIndex(routes, k)
  {
    if routes[0] == x {
      k := 0;
    } else {
      var j := WithoutRouteIndex(routes[1..], x);
      k := j + 1;
      assert WithoutIndex(routes, k) == [routes[0]] + WithoutIndex(routes[1..], j);
    }
  }

  /** There is a second cheapest route on a face exactly when one remains after any of them is taken out. */
  lemma SecondExists(routes: seq<Route>, i: nat)
    requires i < |routes|
    ensures SecondCheapest(routes, routes[i].faceId).Some? <==> HasFace(WithoutIndex(routes, i), routes[i].faceId)
  {
    var f := routes[i].faceId;
    assert routes[i] in routes;
    var k := WithoutRouteIndex(routes, Cheapest(routes, f).value);
    if k != i {
      StaysIn(routes, i, k);
      StaysIn(routes, k, i);
    }
  }

  /** Taking out a route other than the cheapest one leaves the cheapest; the second cheapest is then as cheap
      only in a tie. */
  lemma SecondAgainstRest(routes: seq<Route>, i: nat)
    requires i < |routes| && HasFace(WithoutIndex(routes, i), routes[i].faceId)
    ensures var f, rest := routes[i].faceId, WithoutIndex(routes, i);
      && Cheapest(rest, f).Some? && Cheapest(routes, f).Some? && SecondCheapest(routes, f).Some?
      && Cheapest(rest, f).value.cost <= SecondCheapest(routes, f).value.cost
      && (SecondCheapest(routes, f).value.cost == Cheapest(rest, f).value.cost <==>
          || routes[i].cost <= Cheapest(rest, f).value.cost
          || SecondCheapest(routes, f).value.cost == Cheapest(routes, f).value.cost)
  {
    var f, rest := routes[i].faceId, WithoutIndex(routes, i);
    assert routes[i] in routes;
    var first := Cheapest(routes, f).value;
    var k := WithoutRouteIndex(routes, first);
    assert SecondCheapest(routes, f) == Cheapest(WithoutIndex(routes, k), f);
    if k == i { CheapestTakenOut(routes, i, f); } else { TwoTakenOut(routes, i, k, f); }
  }

  lemma CheapestTakenOut(routes: seq<Route>, i: nat, f: nat)
    requires i < |routes| && Cheapest(routes, f) == Some(routes[i]) && HasFace(WithoutIndex(routes, i), f)
    ensures var a := Cheapest(WithoutIndex(routes, i), f); a.Some? && routes[i].cost <= a.value.cost
  {
    MembersWithout(routes, i);
  }

  /** The cheapest of `routes` is at `k`. */
  lemma TwoTakenOut(routes: seq<Route>, i: nat, k: nat, f: nat)
    requires i < |routes| && k < |routes| && i != k && routes[i].faceId == f
    requires Cheapest(routes, f) == Some(routes[k])
    ensures var a, b := Cheapest(WithoutIndex(routes, i), f), Cheapest(WithoutIndex(routes, k), f);
      && a.Some? && a.value.cost == routes[k].cost
      && b.Some? && routes[k].cost <= b.value.cost <= routes[i].cost
  {
    StaysIn(routes, i, k);
    StaysIn(routes, k, i);
  }

  lemma StaysIn(routes: seq<Route>, i: nat, k: nat)
    requires i < |routes| && k < |routes| && i != k
    ensures routes[k] in WithoutIndex(routes, i)
    ensures forall x | x in WithoutIndex(routes, i) :: x in routes
  {
    assert routes[k] == WithoutIndex(routes, i)[if k < i then k else k - 1];
  }
}
