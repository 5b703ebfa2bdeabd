/**
 What the FIB updater emits for a subtree: the traversal that adds and removes inherited routes, and exactly
 what it says about each (name, face) pair.
 */
module FibOps {
  import opened Wrappers
  import opened Names
  import opened Routes
  import opened RibLinks
  import opened RibTree

  /** One emission: a plain next-hop update, or a next-hop update with its inherited-route record. */
  datatype Op =
    | AddHop(name: Name, faceId: nat, cost: nat)
    | RemoveHop(name: Name, faceId: nat)
    | Inherit(name: Name, route: Route)
    | Disinherit(name: Name, route: Route)
  {
    function Face(): (f: nat) {
      match this
      case AddHop(_, f, _) => f
      case RemoveHop(_, f) => f
      case Inherit(_, r) => r.faceId
      case Disinherit(_, r) => r.faceId
    }

    predicate On(n: Name, f: nat) { name == n && Face() == f }
  }

  // ----- route sets: ordered by face, one route per face -----

  predicate IsRouteSet(rs: seq<Route>) {
    forall i, j | 0 <= i < j < |rs| :: rs[i].faceId < rs[j].faceId
  }

  /** Set insertion: a route on a face that is already there changes nothing. */
  function InsertRoute(rs: seq<Route>, r: Route): (s: seq<Route>)
    requires IsRouteSet(rs)
    ensures IsRouteSet(s)
    ensures forall x :: x in s ==> x in rs || x == r
  {
    if rs == [] then [r]
    else if r.faceId < rs[0].faceId then [r] + rs
    else if r.faceId == rs[0].faceId then rs
    else
      var tail := InsertRoute(rs[1..], r);
      assert forall i | 0 <= i < |tail| :: tail[i] in rs[1..] || tail[i] == r;
      [rs[0]] + tail
  }

  lemma {:induction false} OnFaceAfterInsert(rs: seq<Route>, r: Route, f: nat)
    requires IsRouteSet(rs)
    ensures OnFace(InsertRoute(rs, r), f) ==
            if f == r.faceId && OnFace(rs, f).None? then Some(r) else OnFace(rs, f)
  {
    if rs == [] {
      assert [r][1..] == [];
    } else if r.faceId < rs[0].faceId {
      assert ([r] + rs)[1..] == rs;
      if HasFace(rs, r.faceId) { assert false; }
    } else if r.faceId > rs[0].faceId {
      OnFaceAfterInsert(rs[1..], r, f);
      assert ([rs[0]] + InsertRoute(rs[1..], r))[1..] == InsertRoute(rs[1..], r);
    }
  }

  /** Set erasure by face. */
  function EraseFace(rs: seq<Route>, f: nat): (s: seq<Route>)
    requires IsRouteSet(rs)
    ensures IsRouteSet(s)
    ensures forall x :: x in s ==> x in rs
  {
    if rs == [] then []
    else if rs[0].faceId == f then rs[1..]
    else
      var tail := EraseFace(rs[1..], f);
      assert forall i | 0 <= i < |tail| :: tail[i] in rs[1..];
      [rs[0]] + tail
  }

  lemma {:induction false} OnFaceAfterErase(rs: seq<Route>, f: nat, g: nat)
    requires IsRouteSet(rs)
    ensures OnFace(EraseFace(rs, f), g) == if g == f then None else OnFace(rs, g)
  {
    if rs != [] {
      if rs[0].faceId == f {
        if HasFace(rs[1..], f) { assert false; }
      } else {
        OnFaceAfterErase(rs[1..], f, g);
        assert ([rs[0]] + EraseFace(rs[1..], f))[1..] == EraseFace(rs[1..], f);
      }
    }
  }

  /** The routes on faces for which the entry offers no child-inherit route itself. */
  function DropOffered(e: Entry<Name>, rs: seq<Route>): (s: seq<Route>)
    ensures forall x :: x in s <==> x in rs && !HasChildInherit(e.routes, x.faceId)
  {
    if rs == [] then []
    else
      var front, last := rs[..|rs| - 1], rs[|rs| - 1];
      assert rs == front + [last];
      if HasChildInherit(e.routes, last.faceId) then DropOffered(e, front) else DropOffered(e, front) + [last]
  }

  lemma {:induction false} DropOfferedIsSet(e: Entry<Name>, rs: seq<Route>)
    requires IsRouteSet(rs)
    ensures IsRouteSet(DropOffered(e, rs))
  {
    if rs != [] {
      var front, last := rs[..|rs| - 1], rs[|rs| - 1];
      DropOfferedIsSet(e, front);
      var s := DropOffered(e, front);
      forall i | 0 <= i < |s| ensures s[i].faceId < last.faceId { assert s[i] in front; }
    }
  }

  /** In a route set the route on a face is the member on that face. */
  lemma OnFaceInSet(rs: seq<Route>, r: Route)
    requires IsRouteSet(rs) && r in rs
    ensures OnFace(rs, r.faceId) == Some(r)
  {
    var x := OnFace(rs, r.faceId).value;
    var i :| 0 <= i < |rs| && rs[i] == r;
    var j :| 0 <= j < |rs| && rs[j] == x;
    assert i == j;
  }

  lemma OnFaceAfterDrop(e: Entry<Name>, rs: seq<Route>, f: nat)
    requires IsRouteSet(rs)
    ensures OnFace(DropOffered(e, rs), f) == if HasChildInherit(e.routes, f) then None else OnFace(rs, f)
  {
    DropOfferedIsSet(e, rs);
    var s := DropOffered(e, rs);
    if OnFace(rs, f).Some? && !HasChildInherit(e.routes, f) {
      OnFaceInSet(s, OnFace(rs, f).value);
    }
  }

  // ----- emissions at one entry -----

  /** A record of an inherited route on face `f`. */
  predicate HasRecord(e: Entry<Name>, f: nat) { HasFace(e.inherited, f) }

  /** Removals for those routes of which the entry has a record. */
  function RemoveOps(n: Name, e: Entry<Name>, rs: seq<Route>): (ops: seq<Op>) {
    if rs == [] then []
    else
      var front, last := rs[..|rs| - 1], rs[|rs| - 1];
      RemoveOps(n, e, front) + if HasRecord(e, last.faceId) then [Disinherit(n, last)] else []
  }

  /** Additions for those routes on whose face the entry has no route of its own. */
  function AddOps(n: Name, e: Entry<Name>, rs: seq<Route>): (ops: seq<Op>) {
    if rs == [] then []
    else
      var front, last := rs[..|rs| - 1], rs[|rs| - 1];
      AddOps(n, e, front) + if HasFace(e.routes, last.faceId) then [] else [Inherit(n, last)]
  }

  // ----- emissions for a subtree -----

  ghost predicate Roots(t: Table, n: Name, cs: seq<Name>) {
    forall c | c in cs :: c in t && n < c
  }

  lemma ChildrenAreBelow(t: Table, n: Name)
    requires TreeExact(t) && n in t
    ensures Roots(t, n, t[n].children)
  {
    forall c | c in t[n].children ensures c in t && n < c {
      assert LinkExact(t, n, c);
    }
  }

  lemma RootsOfPrefix(t: Table, n: Name, cs: seq<Name>, k: nat)
    requires Roots(t, n, cs) && k <= |cs|
    ensures Roots(t, n, cs[..k])
  {
    forall c | c in cs[..k] ensures c in t && n < c {
      var j :| 0 <= j < k && cs[..k][j] == c;
      assert cs[j] in cs;
    }
  }

  ghost function AtOrUnder(t: Table, n: Name): (s: set<Name>) { set m | m in t && n <= m }

  ghost function StrictlyUnder(t: Table, n: Name): (s: set<Name>) { set m | m in t && n < m }

  lemma UnderShrinks(t: Table, n: Name)
    requires n in t
    ensures StrictlyUnder(t, n) < AtOrUnder(t, n)
  {
    assert n in AtOrUnder(t, n) && n !in StrictlyUnder(t, n);
  }

  lemma UnderNests(t: Table, n: Name, c: Name)
    requires n < c
    ensures AtOrUnder(t, c) <= StrictlyUnder(t, n)
  {
    forall m | m in AtOrUnder(t, c) ensures m in StrictlyUnder(t, n) {
      assert n == c[..|n|] == m[..|n|];
    }
  }

  /** `traverseSubTree`. */
  ghost function Traverse(t: Table, n: Name, add: seq<Route>, remove: seq<Route>): (ops: seq<Op>)
    requires TreeExact(t) && n in t
    decreases AtOrUnder(t, n), 0
  {
    var e := t[n];
    if e.captureCount > 0 then []
    else
      var remove', add' := DropOffered(e, remove), DropOffered(e, add);
      ChildrenAreBelow(t, n);
      UnderShrinks(t, n);
      RemoveOps(n, e, remove') + AddOps(n, e, add') + TraverseAll(t, n, e.children, add', remove')
  }

  /** `modifyChildrensInheritedRoutes` on names under `n`. */
  ghost function TraverseAll(t: Table, n: Name, cs: seq<Name>, add: seq<Route>, remove: seq<Route>): (ops: seq<Op>)
    requires TreeExact(t) && Roots(t, n, cs)
    decreases StrictlyUnder(t, n), |cs| + 1
  {
    if cs == [] then []
    else
      var front, last := cs[..|cs| - 1], cs[|cs| - 1];
      assert last in cs;
      RootsOfPrefix(t, n, cs, |cs| - 1);
      UnderNests(t, n, last);
      TraverseAll(t, n, front, add, remove) + Traverse(t, last, add, remove)
  }

  // ----- emissions about one (name, face) pair -----

  function Project(ops: seq<Op>, d: Name, f: nat): (r: seq<Op>) {
    if ops == [] then []
    else
      var last := ops[|ops| - 1];
      Project(ops[..|ops| - 1], d, f) + if last.On(d, f) then [last] else []
  }

  lemma {:induction false} ProjectConcat(a: seq<Op>, b: seq<Op>, d: Name, f: nat)
    ensures Project(a + b, d, f) == Project(a, d, f) + Project(b, d, f)
  {
    if b == [] {
      assert a + b == a;
    } else {
      assert (a + b)[..|a + b| - 1] == a + b[..|b| - 1];
      ProjectConcat(a, b[..|b| - 1], d, f);
    }
  }

  lemma ProjectConcat3(a: seq<Op>, b: seq<Op>, c: seq<Op>, d: Name, f: nat)
    ensures Project(a + b + c, d, f) == Project(a, d, f) + Project(b, d, f) + Project(c, d, f)
  {
    ProjectConcat(a + b, c, d, f);
    ProjectConcat(a, b, d, f);
  }

  /** What the traversal emits about face `f` at an entry it gets to. */
  function OpsAt(n: Name, e: Entry<Name>, add: seq<Route>, remove: seq<Route>, f: nat): (ops: seq<Op>) {
    (if OnFace(remove, f).Some? && HasRecord(e, f) then [Disinherit(n, OnFace(remove, f).value)] else []) +
    (if OnFace(add, f).Some? && !HasFace(e.routes, f) then [Inherit(n, OnFace(add, f).value)] else [])
  }

  lemma {:induction false} ProjectRemoveOps(n: Name, e: Entry<Name>, rs: seq<Route>, d: Name, f: nat)
    requires IsRouteSet(rs)
    ensures Project(RemoveOps(n, e, rs), d, f) ==
            if d == n && OnFace(rs, f).Some? && HasRecord(e, f) then [Disinherit(n, OnFace(rs, f).value)] else []
  {
    if rs != [] {
      var front, last := rs[..|rs| - 1], rs[|rs| - 1];
      ProjectRemoveOps(n, e, front, d, f);
      OnFaceSnoc(rs, f);
      ProjectStep(RemoveOps(n, e, front), HasRecord(e, last.faceId), Disinherit(n, last), d, f);
    }
  }

  lemma {:induction false} ProjectAddOps(n: Name, e: Entry<Name>, rs: seq<Route>, d: Name, f: nat)
    requires IsRouteSet(rs)
    ensures Project(AddOps(n, e, rs), d, f) ==
            if d == n && OnFace(rs, f).Some? && !HasFace(e.routes, f) then [Inherit(n, OnFace(rs, f).value)] else []
  {
    if rs != [] {
      ProjectAddOps(n, e, rs[..|rs| - 1], d, f) by { OnFaceSnoc(rs, f); }
      OnFaceSnoc(rs, f);
      AddStep(n, e, rs, d, f);
    }
  }

  lemma AddStep(n: Name, e: Entry<Name>, rs: seq<Route>, d: Name, f: nat)
    requires rs != []
    ensures var front, last := rs[..|rs| - 1], rs[|rs| - 1];
      (last.faceId == f ==> Project(AddOps(n, e, front), d, f) == []) ==>
      Project(AddOps(n, e, rs), d, f) ==
      if d == n && last.faceId == f && !HasFace(e.routes, f) then [Inherit(n, last)]
      else Project(AddOps(n, e, front), d, f)
  {
    var front, last := rs[..|rs| - 1], rs[|rs| - 1];
    assert AddOps(n, e, rs) == AddOps(n, e, front) + (if !HasFace(e.routes, last.faceId) then [Inherit(n, last)] else []);
    if last.faceId == f ==> Project(AddOps(n, e, front), d, f) == [] {
      ProjectStep(AddOps(n, e, front), !HasFace(e.routes, last.faceId), Inherit(n, last), d, f);
    }
  }

  lemma ProjectStep(a: seq<Op>, emits: bool, op: Op, d: Name, f: nat)
    requires op.On(d, f) ==> Project(a, d, f) == []
    ensures Project(a + (if emits then [op] else []), d, f) == if emits && op.On(d, f) then [op] else Project(a, d, f)
  {
    if emits {
      assert (a + [op])[..|a|] == a;
    } else {
      assert a + [] == a;
    }
  }

  lemma ProjectSmall(ops: seq<Op>, d: Name, f: nat)
    requires |ops| <= 1
    ensures Project(ops, d, f) == if ops != [] && ops[0].On(d, f) then ops else []
  {
    if ops != [] { assert ops[..0] == []; }
  }

  lemma OnFaceSnoc(rs: seq<Route>, f: nat)
    requires IsRouteSet(rs) && rs != []
    ensures var front, last := rs[..|rs| - 1], rs[|rs| - 1];
      && IsRouteSet(front)
      && OnFace(rs, f) == (if last.faceId == f then Some(last) else OnFace(front, f))
      && (last.faceId == f ==> OnFace(front, f) == None)
  {
    var front, last := rs[..|rs| - 1], rs[|rs| - 1];
    assert rs == front + [last];
    OnFaceAppend(front, last, f);
  }

  lemma {:induction false} OnFaceAppend(rs: seq<Route>, r: Route, f: nat)
    ensures OnFace(rs + [r], f) ==
            if OnFace(rs, f).Some? then OnFace(rs, f) else if r.faceId == f then Some(r) else None
  {
    if rs == [] {
      assert (rs + [r])[1..] == [];
    } else {
      assert (rs + [r])[1..] == rs[1..] + [r];
      OnFaceAppend(rs[1..], r, f);
    }
  }
}
