/** Routes, the route list of a RIB entry, and the lookups an entry offers on it. */
module Routes {
  import opened Wrappers

  const CHILD_INHERIT: nat := 1
  const CAPTURE: nat := 2

  /** A route; the expiration time and its event are not part of this model. */
  datatype Route = Route(faceId: nat, origin: nat, flags: nat, cost: nat) {
    predicate IsChildInherit() { flags / CHILD_INHERIT % 2 == 1 }

    predicate IsCapture() { flags / CAPTURE % 2 == 1 }

    predicate SameFaceAndOrigin(other: Route) { faceId == other.faceId && origin == other.origin }
  }

  /** The two flags are the two lowest bits: child-inherit counts 1, capture counts 2. */
  lemma FlagBits(r: Route)
    ensures r.IsChildInherit() <==> r.flags % 2 == 1
    ensures r.IsCapture() <==> r.flags % 4 >= 2
  {
    assert r.flags / 2 % 2 == r.flags % 4 / 2;
  }

  /** The position of the first route with the face and origin of `r`, or the length. */
  function FindRoute(routes: seq<Route>, r: Route): (i: nat)
    ensures i <= |routes|
    ensures i < |routes| ==> routes[i].SameFaceAndOrigin(r)
    ensures forall j | 0 <= j < i :: !routes[j].SameFaceAndOrigin(r)
  {
    if routes == [] || routes[0].SameFaceAndOrigin(r) then 0 else 1 + FindRoute(routes[1..], r)
  }

  /** The first listed route on a face. */
  function OnFace(routes: seq<Route>, f: nat): (r: Option<Route>)
    ensures r.Some? <==> HasFace(routes, f)
    ensures r.Some? ==> r.value in routes && r.value.faceId == f
  {
    if routes == [] then None
    else if routes[0].faceId == f then Some(routes[0])
    else OnFace(routes[1..], f)
  }

  predicate HasFace(routes: seq<Route>, f: nat) { exists r :: r in routes && r.faceId == f }

  /** The first listed child-inherit route on a face. */
  function OffersOn(routes: seq<Route>, f: nat): (r: Option<Route>)
    ensures r.Some? <==> HasChildInherit(routes, f)
    ensures r.Some? ==> r.value in routes && r.value.faceId == f && r.value.IsChildInherit()
  {
    if routes == [] then None
    else if routes[0].faceId == f && routes[0].IsChildInherit() then Some(routes[0])
    else OffersOn(routes[1..], f)
  }

  predicate HasChildInherit(routes: seq<Route>, f: nat) {
    exists r :: r in routes && r.faceId == f && r.IsChildInherit()
  }

  /** Some route of the list captures its namespace. */
  predicate Captures(routes: seq<Route>) { exists r :: r in routes && r.IsCapture() }

  function CaptureCount(routes: seq<Route>): (n: nat)
    ensures n > 0 <==> Captures(routes)
  {
    if routes == [] then 0
    else CaptureCount(routes[..|routes| - 1]) + if routes[|routes| - 1].IsCapture() then 1 else 0
  }

  /** The first of the cheapest routes on a face. */
  function Cheapest(routes: seq<Route>, f: nat): (r: Option<Route>)
    ensures r.Some? <==> HasFace(routes, f)
    ensures r.Some? ==> r.value in routes && r.value.faceId == f
    ensures forall x | x in routes && x.faceId == f :: r.Some? && r.value.cost <= x.cost
  {
    if routes == [] then None
    else
      var front, last := routes[..|routes| - 1], routes[|routes| - 1];
      var best := Cheapest(front, f);
      if last.faceId == f && (best.None? || last.cost < best.value.cost) then Some(last) else best
  }

  function CheapestOffer(routes: seq<Route>, f: nat): (r: Option<Route>)
    ensures r.Some? <==> HasChildInherit(routes, f)
    ensures r.Some? ==> r.value in routes && r.value.faceId == f && r.value.IsChildInherit()
    ensures forall x | x in routes && x.faceId == f && x.IsChildInherit() :: r.Some? && r.value.cost <= x.cost
  {
    if routes == [] then None
    else
      var front, last := routes[..|routes| - 1], routes[|routes| - 1];
      var best := CheapestOffer(front, f);
      if last.faceId == f && last.IsChildInherit() && (best.None? || last.cost < best.value.cost)
      then Some(last) else best
  }

  /** Among equally cheap routes the one listed first is chosen. */
  lemma {:induction false} CheapestIsFirst(routes: seq<Route>, f: nat) returns (i: nat)
    requires HasFace(routes, f)
    ensures i < |routes| && Cheapest(routes, f) == Some(routes[i]) && routes[i].faceId == f
    ensures forall j | 0 <= j < |routes| && routes[j].faceId == f ::
              routes[i].cost <= routes[j].cost && (j < i ==> routes[i].cost < routes[j].cost)
  {
    var front, last := routes[..|routes| - 1], routes[|routes| - 1];
    assert routes == front + [last];
    i := |front|;
    if HasFace(front, f) {
      var k := CheapestIsFirst(front, f);
      if !(last.faceId == f && last.cost < front[k].cost) { i := k; }
    } else {
      assert forall j | 0 <= j < |front| :: front[j] in front && front[j].faceId != f;
    }
  }

  lemma {:induction false} CheapestOfferIsFirst(routes: seq<Route>, f: nat) returns (i: nat)
    requires HasChildInherit(routes, f)
    ensures i < |routes| && CheapestOffer(routes, f) == Some(routes[i]) && routes[i].faceId == f && routes[i].IsChildInherit()
    ensures forall j | 0 <= j < |routes| && routes[j].faceId == f && routes[j].IsChildInherit() ::
              routes[i].cost <= routes[j].cost && (j < i ==> routes[i].cost < routes[j].cost)
  {
    var front, last := routes[..|routes| - 1], routes[|routes| - 1];
    assert routes == front + [last];
    i := |front|;
    if HasChildInherit(front, f) {
      var k := CheapestOfferIsFirst(front, f);
      if !(last.faceId == f && last.IsChildInherit() && last.cost < front[k].cost) { i := k; }
    } else {
      assert forall j | 0 <= j < |front| :: front[j] in front && !(front[j].faceId == f && front[j].IsChildInherit());
    }
  }

  /** An offer is the child-inherit route on the face that is listed first, whatever it costs. */
  lemma {:induction false} OfferIsFirst(routes: seq<Route>, f: nat) returns (i: nat)
    requires HasChildInherit(routes, f)
    ensures i < |routes| && OffersOn(routes, f) == Some(routes[i]) && routes[i].faceId == f && routes[i].IsChildInherit()
    ensures forall j | 0 <= j < i :: !(routes[j].faceId == f && routes[j].IsChildInherit())
  {
    if routes[0].faceId == f && routes[0].IsChildInherit() {
      i := 0;
    } else {
      assert routes == [routes[0]] + routes[1..];
      i := OfferIsFirst(routes[1..], f);
      i := i + 1;
    }
  }

  /** The first route on the face is taken out, and nothing else; without one the list stays. */
  lemma {:induction false} RemoveFirstTakesOne(routes: seq<Route>, f: nat, i: nat)
    requires i <= |routes| && (forall j | 0 <= j < i :: routes[j].faceId != f)
    requires i < |routes| ==> routes[i].faceId == f
    ensures RemoveFirst(routes, f) == if i < |routes| then routes[..i] + routes[i + 1..] else routes
  {
    if i > 0 {
      RemoveFirstTakesOne(routes[1..], f, i - 1);
      assert routes == [routes[0]] + routes[1..];
    }
  }

  /** No two routes agree in face and origin. */
  predicate Distinct(routes: seq<Route>) {
    forall i, j | 0 <= i < j < |routes| :: !routes[i].SameFaceAndOrigin(routes[j])
  }

  function WithoutIndex(routes: seq<Route>, i: nat): (r: seq<Route>)
    requires i < |routes|
    ensures |r| == |routes| - 1
  {
    routes[..i] + routes[i + 1..]
  }

  /** The list after the first route on face `f` is taken out. */
  function RemoveFirst(routes: seq<Route>, f: nat): (r: seq<Route>) {
    if routes == [] then []
    else if routes[0].faceId == f then routes[1..]
    else [routes[0]] + RemoveFirst(routes[1..], f)
  }

  /** The second cheapest route on a face; among equals the earlier listed one comes first. */
  function SecondCheapest(routes: seq<Route>, f: nat): (r: Option<Route>) {
    var first := Cheapest(routes, f);
    if first.None? then None else Cheapest(WithoutRoute(routes, first.value), f)
  }

  /** The list without its first element equal to `r`. */
  function WithoutRoute(routes: seq<Route>, r: Route): (s: seq<Route>) {
    if routes == [] then []
    else if routes[0] == r then routes[1..]
    else [routes[0]] + WithoutRoute(routes[1..], r)
  }
}
