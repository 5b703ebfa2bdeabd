/**
 The forwarding table that a RIB stands for, defined from the routes alone: a name forwards on its own routes
 and, unless it captures, on what arrives from its ancestors, nearest first, cut after a capturing ancestor.
 */
module FibSpec {
  import opened Wrappers
  import opened Names
  import opened Routes
  import opened RibLinks
  import opened RibTree

  function CostOf(r: Option<Route>): (c: Option<nat>) {
    if r.Some? then Some(r.value.cost) else None
  }

  /** The route on face `f` that the prefixes of `n` with fewer than `k` components send down. */
  function Offered(t: Table, n: Name, k: nat, f: nat): (r: Option<Route>)
    requires k <= |n|
  {
    if k == 0 then None
    else
      var p := n[..k - 1];
      if p !in t then Offered(t, n, k - 1, f)
      else if HasChildInherit(t[p].routes, f) then OffersOn(t[p].routes, f)
      else if Captures(t[p].routes) then None
      else Offered(t, n, k - 1, f)
  }

  /** The route that reaches `n` from its ancestors. */
  function Arriving(t: Table, n: Name, f: nat): (r: Option<Route>) { Offered(t, n, |n|, f) }

  /** The route that `n` sends down to the names under it. */
  function SentDown(t: Table, n: Name, f: nat): (r: Option<Route>) {
    if n !in t then Arriving(t, n, f)
    else if HasChildInherit(t[n].routes, f) then OffersOn(t[n].routes, f)
    else if Captures(t[n].routes) then None
    else Arriving(t, n, f)
  }

  /** The cost of the next hop of `n` on face `f`, if it has one. */
  function NextHop(t: Table, n: Name, f: nat): (c: Option<nat>) {
    if n !in t then None
    else if HasFace(t[n].routes, f) then CostOf(Cheapest(t[n].routes, f))
    else if Captures(t[n].routes) then None
    else CostOf(Arriving(t, n, f))
  }

  // ----- what this says -----

  /** The prefix of `n` with `j` components captures, or has an offer of its own on face `f`. */
  predicate BlocksAt(t: Table, n: Name, j: nat, f: nat)
    requires j <= |n|
  {
    n[..j] in t && exists r :: r in t[n[..j]].routes && (r.IsCapture() || (r.faceId == f && r.IsChildInherit()))
  }

  /** The prefix of `n` with `k` components offers a route on face `f`, which costs `c`, and no longer one of fewer than `m`
      components captures or offers one. */
  predicate OfferedFrom(t: Table, n: Name, k: nat, m: nat, f: nat, c: nat)
    requires m <= |n|
  {
    && k < m && n[..k] in t && HasChildInherit(t[n[..k]].routes, f) && OffersOn(t[n[..k]].routes, f).value.cost == c
    && forall j | k < j < m :: !BlocksAt(t, n, j, f)
  }

  /** A name has a next hop exactly for the least cost of its own routes on the face or, if it has none there and captures
      nothing, for the cost of what the nearest ancestor offers past which nothing captures. */
  lemma NextHopMeans(t: Table, n: Name, f: nat, c: nat)
    ensures NextHop(t, n, f) == Some(c) <==>
            n in t && var own := t[n].routes;
            if exists r :: r in own && r.faceId == f
            then (exists r :: r in own && r.faceId == f && r.cost == c) && forall r | r in own && r.faceId == f :: c <= r.cost
            else (forall r | r in own :: !r.IsCapture()) && exists k :: 0 <= k < |n| && OfferedFrom(t, n, k, |n|, f, c)
  {
    if n in t {
      if HasFace(t[n].routes, f) {
        var best := Cheapest(t[n].routes, f).value;
        assert best in t[n].routes;
      } else {
        OfferedMeans(t, n, |n|, f, c);
      }
    }
  }

  lemma {:induction false} OfferedMeans(t: Table, n: Name, m: nat, f: nat, c: nat)
    requires m <= |n|
    ensures CostOf(Offered(t, n, m, f)) == Some(c) <==> exists k :: 0 <= k < m && OfferedFrom(t, n, k, m, f, c)
  {
    if m > 0 {
      var p := n[..m - 1];
      OfferedMeans(t, n, m - 1, f, c);
      if p in t && HasChildInherit(t[p].routes, f) {
        forall k | 0 <= k < m - 1 ensures !OfferedFrom(t, n, k, m, f, c) {
          assert BlocksAt(t, n, m - 1, f);
        }
        assert OfferedFrom(t, n, m - 1, m, f, c) <==> OffersOn(t[p].routes, f).value.cost == c;
      } else if p in t && Captures(t[p].routes) {
        assert BlocksAt(t, n, m - 1, f);
      } else {
        NotFromHere(t, n, m - 1, m, f, c);
      }
    }
  }

  /** A prefix that neither captures nor offers changes nothing. */
  lemma NotFromHere(t: Table, n: Name, l: nat, m: nat, f: nat, c: nat)
    requires m == l + 1 <= |n| && !BlocksAt(t, n, l, f)
    ensures Offered(t, n, m, f) == Offered(t, n, l, f)
    ensures (exists k :: 0 <= k < m && OfferedFrom(t, n, k, m, f, c)) <==>
            (exists k :: 0 <= k < l && OfferedFrom(t, n, k, l, f, c))
  {
    if k :| 0 <= k < m && OfferedFrom(t, n, k, m, f, c) { assert k < l && OfferedFrom(t, n, k, l, f, c); }
    if k :| 0 <= k < l && OfferedFrom(t, n, k, l, f, c) { assert OfferedFrom(t, n, k, m, f, c); }
  }

  // ----- the shape of what arrives -----

  /** An entry lets a route on face `f` pass to the names under it. */
  predicate Passes(e: Entry<Name>, f: nat) {
    !Captures(e.routes) && !HasChildInherit(e.routes, f)
  }

  /** The prefix of `d` with `k` components, if it is in the table, lets face `f` pass. */
  predicate PassesAt(t: Table, d: Name, k: nat, f: nat) {
    k <= |d| && (d[..k] in t ==> Passes(t[d[..k]], f))
  }

  /** Face `f` passes every prefix of `d` of `lo` to `hi - 1` components. */
  ghost predicate Clear(t: Table, d: Name, lo: nat, hi: nat, f: nat) {
    forall k: nat | lo <= k < hi :: PassesAt(t, d, k, f)
  }

  lemma {:induction false} OfferedOnPrefix(t: Table, d: Name, n: Name, k: nat, f: nat)
    requires n <= d && k <= |n|
    ensures Offered(t, d, k, f) == Offered(t, n, k, f)
  {
    if k > 0 {
      assert d[..k - 1] == n[..k - 1];
      OfferedOnPrefix(t, d, n, k - 1, f);
    }
  }

  lemma OfferedBelow(t: Table, d: Name, n: Name, f: nat)
    requires n < d
    ensures Offered(t, d, |n| + 1, f) == SentDown(t, n, f)
  {
    assert d[..|n|] == n;
    OfferedOnPrefix(t, d, n, |n|, f);
  }

  lemma {:induction false} OfferedThroughClear(t: Table, d: Name, lo: nat, hi: nat, f: nat)
    requires lo <= hi <= |d| && Clear(t, d, lo, hi, f)
    ensures Offered(t, d, hi, f) == Offered(t, d, lo, f)
  {
    if lo < hi {
      assert PassesAt(t, d, hi - 1, f);
      OfferedThroughClear(t, d, lo, hi - 1, f);
    }
  }

  predicate SameRoutesAt(t: Table, u: Table, m: Name) {
    (m in t <==> m in u) && (m in t ==> t[m].routes == u[m].routes)
  }

  /** What stops between two lengths hides every change above them. */
  lemma {:induction false} OfferedAboveBlock(t: Table, u: Table, d: Name, lo: nat, hi: nat, f: nat)
    requires lo <= hi <= |d| && !Clear(t, d, lo, hi, f)
    requires forall k: nat | lo <= k < hi :: SameRoutesAt(t, u, d[..k])
    ensures Offered(t, d, hi, f) == Offered(u, d, hi, f)
  {
    assert SameRoutesAt(t, u, d[..hi - 1]);
    if PassesAt(t, d, hi - 1, f) {
      assert !Clear(t, d, lo, hi - 1, f);
      OfferedAboveBlock(t, u, d, lo, hi - 1, f);
    }
  }

  lemma {:induction false} OfferedUnchanged(t: Table, u: Table, d: Name, k: nat, f: nat)
    requires k <= |d|
    requires forall j: nat | 0 <= j < k :: SameRoutesAt(t, u, d[..j])
    ensures Offered(t, d, k, f) == Offered(u, d, k, f)
  {
    if k > 0 {
      assert SameRoutesAt(t, u, d[..k - 1]);
      OfferedUnchanged(t, u, d, k - 1, f);
    }
  }

  /** A change at one name is not seen by names that do not extend it. */
  lemma NextHopElsewhere(t: Table, u: Table, n: Name, d: Name, f: nat)
    requires !(n <= d) && forall m | m != n :: SameRoutesAt(t, u, m)
    ensures NextHop(t, d, f) == NextHop(u, d, f)
  {
    assert SameRoutesAt(t, u, d);
    forall j: nat | 0 <= j < |d| ensures SameRoutesAt(t, u, d[..j]) {
      assert d[..j] <= d;
    }
    OfferedUnchanged(t, u, d, |d|, f);
  }

  /** What arrives at a name does not depend on the name itself. */
  lemma ArrivingIgnoresSelf(t: Table, u: Table, n: Name, f: nat)
    requires forall m | m != n :: SameRoutesAt(t, u, m)
    ensures Arriving(t, n, f) == Arriving(u, n, f)
  {
    forall j: nat | 0 <= j < |n| ensures SameRoutesAt(t, u, n[..j]) {
      assert |n[..j]| != |n|;
    }
    OfferedUnchanged(t, u, n, |n|, f);
  }

  /** With an exact parent link, what arrives is what the parent sends down. */
  lemma ArrivingFromParent(t: Table, n: Name, f: nat)
    ensures var p := ParentOf(t.Keys, n);
      Arriving(t, n, f) == if p.Some? then SentDown(t, p.value, f) else None
  {
    var p := ParentOf(t.Keys, n);
    var lo := if p.Some? then |p.value| + 1 else 0;
    ParentOfIff(t.Keys, n, if p.Some? then p.value else []);
    forall k: nat | lo <= k < |n| ensures PassesAt(t, n, k, f) {
      assert n[..k] < n;
    }
    OfferedThroughClear(t, n, lo, |n|, f);
    if p.Some? { OfferedBelow(t, n, p.value, f); }
  }

  // ----- an edit at one name, seen from under it -----

  /** Face `f` has a free way from `n` (exclusive) down to `d` (inclusive). */
  ghost predicate Open(t: Table, n: Name, d: Name, f: nat) {
    n < d && d in t && Clear(t, d, |n| + 1, |d| + 1, f)
  }

  /** Some name under `n` would use a route on face `f` that `n` sends down. */
  ghost predicate Reaches(t: Table, n: Name, f: nat) {
    exists d :: Open(t, n, d, f) && !HasFace(t[d].routes, f)
  }

  /** Under an open way the next hop is what `n` sends down; elsewhere it ignores `n`. */
  lemma NextHopBelow(t: Table, u: Table, n: Name, d: Name, f: nat)
    requires n < d && d in t && forall m | m != n :: SameRoutesAt(t, u, m)
    ensures Open(t, n, d, f) && !HasFace(t[d].routes, f) ==>
              NextHop(t, d, f) == CostOf(SentDown(t, n, f)) && NextHop(u, d, f) == CostOf(SentDown(u, n, f))
    ensures !(Open(t, n, d, f) && !HasFace(t[d].routes, f)) ==> NextHop(t, d, f) == NextHop(u, d, f)
  {
    var lo := |n| + 1;
    assert SameRoutesAt(t, u, d);
    forall k: nat | lo <= k <= |d| ensures SameRoutesAt(t, u, d[..k]) {
      assert |d[..k]| != |n|;
    }
    assert d[..|d|] == d;
    if Clear(t, d, lo, |d|, f) {
      forall k: nat | lo <= k < |d| ensures PassesAt(u, d, k, f) {
        assert PassesAt(t, d, k, f) && SameRoutesAt(t, u, d[..k]);
      }
      OfferedThroughClear(t, d, lo, |d|, f);
      OfferedThroughClear(u, d, lo, |d|, f);
      OfferedBelow(t, d, n, f);
      OfferedBelow(u, d, n, f);
      if !Open(t, n, d, f) { assert !PassesAt(t, d, |d|, f); }
      if Open(t, n, d, f) { assert PassesAt(t, d, |d|, f); }
    } else {
      OfferedAboveBlock(t, u, d, lo, |d|, f);
    }
  }
}
