/**
 The subtree traversal is a correct delta: what it emits about a (name, face) pair depends only on whether the
 way down to the name is open, and it turns the forwarding entry for what used to be sent down into the entry
 for what is sent down after the edit.
 */
module FibSubtree {
  import opened Wrappers
  import opened Names
  import opened Routes
  import opened RibLinks
  import opened RibTree
  import opened FibSpec
  import opened FibOps

  // ----- the topmost names under a name -----

  /** `c` is under `n` with no name of the table strictly between. */
  ghost predicate Topmost(t: Table, n: Name, c: Name) {
    c in t && n < c && forall k: nat | |n| < k < |c| :: c[..k] !in t
  }

  ghost predicate Tops(t: Table, n: Name, cs: seq<Name>) {
    NoDuplicates(cs) && forall c :: c in cs <==> Topmost(t, n, c)
  }

  lemma TopmostIsParent(t: Table, n: Name, c: Name)
    requires n in t && c in t
    ensures Topmost(t, n, c) <==> ParentOf(t.Keys, c) == Some(n)
  {
    ParentOfIff(t.Keys, c, n);
    if Topmost(t, n, c) {
      forall q | q in t && q < c ensures |q| <= |n| {
        assert q == c[..|q|];
      }
    }
    if ParentOf(t.Keys, c) == Some(n) {
      forall k: nat | |n| < k < |c| ensures c[..k] !in t {
        assert c[..k] < c;
      }
    }
  }

  lemma ChildrenAreTops(t: Table, n: Name)
    requires TreeExact(t) && n in t
    ensures Tops(t, n, t[n].children)
  {
    assert LinkExact(t, n, n);
    forall c ensures c in t[n].children <==> Topmost(t, n, c) {
      assert LinkExact(t, n, c);
      if c in t { TopmostIsParent(t, n, c); }
    }
  }

  /** Two topmost names do not share an extension. */
  lemma TopmostUnique(t: Table, n: Name, a: Name, b: Name, d: Name)
    requires Topmost(t, n, a) && Topmost(t, n, b) && a <= d && b <= d
    ensures a == b
  {
    assert a == d[..|a|] && b == d[..|b|];
    assert |a| <= |b| ==> b[..|a|] == a;
    assert |b| <= |a| ==> a[..|b|] == b;
  }

  /** The topmost name under `n` on the way to `d`. */
  lemma {:induction false} TopmostOnTheWay(t: Table, n: Name, d: Name, k: nat) returns (c: Name)
    requires n < d && d in t && |n| < k <= |d|
    requires forall j: nat | |n| < j < k :: d[..j] !in t
    ensures Topmost(t, n, c) && c <= d
    decreases |d| - k
  {
    if d[..k] in t {
      c := d[..k];
      forall j: nat | |n| < j < |c| ensures c[..j] !in t { assert c[..j] == d[..j]; }
    } else {
      assert d[..|d|] == d;
      c := TopmostOnTheWay(t, n, d, k + 1);
    }
  }

  /** The way from `n` to `d` is the way from the topmost name on it. */
  lemma OpenFromTop(t: Table, n: Name, c: Name, d: Name, f: nat)
    requires Topmost(t, n, c) && c <= d && d in t
    ensures Open(t, n, d, f) <==> Clear(t, d, |c|, |d| + 1, f)
  {
    assert n == c[..|n|] == d[..|n|];
    forall k: nat | |n| < k < |c| ensures PassesAt(t, d, k, f) {
      assert d[..k] == c[..k];
    }
  }

  /** From an entry on: the entry itself, and from it on. */
  lemma ClearFromEntry(t: Table, c: Name, d: Name, f: nat)
    requires c in t && d in t
    ensures c < d ==> (Clear(t, d, |c|, |d| + 1, f) <==> Passes(t[c], f) && Open(t, c, d, f))
    ensures c == d ==> (Clear(t, d, |c|, |d| + 1, f) <==> Passes(t[c], f))
  {
    if c <= d {
      assert d[..|c|] == c;
      assert PassesAt(t, d, |c|, f) <==> Passes(t[c], f);
    }
  }

  // ----- what the traversal emits about one pair -----

  lemma {:induction false} ProjectTraverse(t: Table, n: Name, add: seq<Route>, remove: seq<Route>, d: Name, f: nat)
    requires TreeExact(t) && CaptureExact(t) && n in t && IsRouteSet(add) && IsRouteSet(remove)
    ensures Project(Traverse(t, n, add, remove), d, f) ==
            if n <= d && d in t && Clear(t, d, |n|, |d| + 1, f) then OpsAt(d, t[d], add, remove, f) else []
    decreases AtOrUnder(t, n), 0
  {
    var e := t[n];
    if d in t { ClearFromEntry(t, n, d, f); }
    if e.captureCount > 0 {
      assert Captures(e.routes);
    } else {
      var remove', add' := DropOffered(e, remove), DropOffered(e, add);
      ChildrenAreBelow(t, n);
      ChildrenAreTops(t, n);
      UnderShrinks(t, n);
      DropOfferedIsSet(e, add);
      DropOfferedIsSet(e, remove);
      OnFaceAfterDrop(e, add, f);
      OnFaceAfterDrop(e, remove, f);
      ProjectConcat3(RemoveOps(n, e, remove'), AddOps(n, e, add'), TraverseAll(t, n, e.children, add', remove'), d, f);
      ProjectRemoveOps(n, e, remove', d, f);
      ProjectAddOps(n, e, add', d, f);
      ProjectTraverseAll(t, n, e.children, add', remove', d, f);
      AllTops(t, n, e.children, d, f);
    }
  }

  /** Over a list of topmost names: at most one of them leads to `d`. */
  lemma {:induction false} ProjectTraverseAll(t: Table, n: Name, cs: seq<Name>, add: seq<Route>, remove: seq<Route>,
                                              d: Name, f: nat)
    requires TreeExact(t) && CaptureExact(t) && Roots(t, n, cs) && IsRouteSet(add) && IsRouteSet(remove)
    requires NoDuplicates(cs) && forall c | c in cs :: Topmost(t, n, c)
    ensures Project(TraverseAll(t, n, cs, add, remove), d, f) ==
            if Leads(cs, d) && Open(t, n, d, f) then OpsAt(d, t[d], add, remove, f) else []
    decreases StrictlyUnder(t, n), |cs| + 1
  {
    if cs != [] {
      var front, last := cs[..|cs| - 1], cs[|cs| - 1];
      TopmostPrefix(t, n, cs);
      UnderNests(t, n, last);
      ProjectTraverseAll(t, n, front, add, remove, d, f);
      ProjectTraverse(t, last, add, remove, d, f);
      ProjectConcat(TraverseAll(t, n, front, add, remove), Traverse(t, last, add, remove), d, f);
      OneLeads(t, n, front, last, d, f);
    }
  }

  lemma TopmostPrefix(t: Table, n: Name, cs: seq<Name>)
    requires cs != [] && NoDuplicates(cs) && forall c | c in cs :: Topmost(t, n, c)
    ensures var front, last := cs[..|cs| - 1], cs[|cs| - 1];
      && cs == front + [last] && last in t && n < last && Roots(t, n, front) && NoDuplicates(front) && last !in front
      && Topmost(t, n, last) && forall c | c in front :: Topmost(t, n, c)
  {
    var front, last := cs[..|cs| - 1], cs[|cs| - 1];
    assert last in cs && cs == front + [last];
    forall c | c in front ensures Topmost(t, n, c) { assert c in cs; }
  }

  /** If the last of some topmost names leads to `d` then no other does, and the way from `n` is the way from it. */
  lemma OneLeads(t: Table, n: Name, front: seq<Name>, last: Name, d: Name, f: nat)
    requires last !in front && Topmost(t, n, last) && forall c | c in front :: Topmost(t, n, c)
    ensures Leads(front + [last], d) <==> Leads(front, d) || last <= d
    ensures last <= d ==> !Leads(front, d)
    ensures last <= d && d in t ==> (Open(t, n, d, f) <==> Clear(t, d, |last|, |d| + 1, f))
  {
    LeadsSnoc(front, last, d);
    if last <= d {
      forall c | c in front ensures !(c <= d) {
        if c <= d { TopmostUnique(t, n, c, last, d); }
      }
      if d in t { OpenFromTop(t, n, last, d, f); }
    }
  }

  ghost predicate Leads(cs: seq<Name>, d: Name) { exists c :: c in cs && c <= d }

  lemma LeadsSnoc(front: seq<Name>, last: Name, d: Name)
    ensures Leads(front + [last], d) <==> Leads(front, d) || last <= d
  {
    if last <= d { assert last in front + [last]; }
    if Leads(front, d) {
      var c :| c in front && c <= d;
      assert c in front + [last];
    }
  }

  /** The topmost names lead to everything under `n`. */
  lemma AllTops(t: Table, n: Name, cs: seq<Name>, d: Name, f: nat)
    requires Tops(t, n, cs)
    ensures Open(t, n, d, f) ==> Leads(cs, d)
    ensures Leads(cs, d) ==> n < d
  {
    if n < d && d in t {
      var c := TopmostOnTheWay(t, n, d, |n| + 1);
      assert c in cs;
    }
    if Leads(cs, d) {
      var c :| c in cs && c <= d;
      assert n == c[..|n|] == d[..|n|];
    }
  }

  /** The traversal of everything under `n` emits at `d` exactly when the way from `n` to `d` is open. */
  lemma ProjectUnder(t: Table, n: Name, cs: seq<Name>, add: seq<Route>, remove: seq<Route>, d: Name, f: nat)
    requires TreeExact(t) && CaptureExact(t) && Tops(t, n, cs) && IsRouteSet(add) && IsRouteSet(remove)
    ensures Roots(t, n, cs)
    ensures Project(TraverseAll(t, n, cs, add, remove), d, f) ==
            if Open(t, n, d, f) then OpsAt(d, t[d], add, remove, f) else []
  {
    ProjectTraverseAll(t, n, cs, add, remove, d, f);
    AllTops(t, n, cs, d, f);
  }
}
