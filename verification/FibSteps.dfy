/**
 Each RIB update against the declarative forwarding table: for every face, the incremental emissions leave the
 forwarding table exact if and only if a condition on the state before the update holds.
 */
module FibSteps {
  import opened Wrappers
  import opened Names
  import opened Routes
  import opened RibLinks
  import opened RibTree
  import opened FibSpec
  import opened FibOps
  import opened FibSubtree
  import opened FibCompute
  import opened FibApply
  import opened FibEdit
  import opened RouteLists

  // ----- emissions about the edited name -----

  ghost predicate AllAbout(ops: seq<Op>, n: Name) { forall op | op in ops :: op.name == n }

  lemma {:induction false} ProjectElsewhere(ops: seq<Op>, n: Name, d: Name, f: nat)
    requires AllAbout(ops, n) && d != n
    ensures Project(ops, d, f) == []
  {
    if ops != [] { ProjectElsewhere(ops[..|ops| - 1], n, d, f); }
  }

  lemma {:induction false} OpsAboutSelf(n: Name, e: Entry<Name>, rs: seq<Route>, ignore: nat)
    ensures AllAbout(RemoveOps(n, e, rs), n) && AllAbout(AddOps(n, e, rs), n)
    ensures AllAbout(InheritOps(n, rs, ignore), n) && AllAbout(ErasedEntryOps(n, rs), n)
  {
    if rs != [] { OpsAboutSelf(n, e, rs[..|rs| - 1], ignore); }
  }

  lemma {:induction false} ProjectInheritOps(n: Name, rs: seq<Route>, ignore: nat, f: nat)
    requires IsRouteSet(rs)
    ensures Project(InheritOps(n, rs, ignore), n, f) ==
            if OnFace(rs, f).Some? && f != ignore then [Inherit(n, OnFace(rs, f).value)] else []
  {
    if rs != [] {
      var front, last := rs[..|rs| - 1], rs[|rs| - 1];
      ProjectInheritOps(n, front, ignore, f);
      OnFaceSnoc(rs, f);
      ProjectStep(InheritOps(n, front, ignore), last.faceId != ignore, Inherit(n, last), n, f);
    }
  }

  /** Erasing an entry removes the next hop of every record. */
  lemma {:induction false} EffectErasedEntry(n: Name, rs: seq<Route>, f: nat, before: Option<nat>)
    ensures Effect(before, Project(ErasedEntryOps(n, rs), n, f)) == if HasFace(rs, f) then None else before
    ensures HasFace(rs, f) <==> Project(ErasedEntryOps(n, rs), n, f) != []
    ensures forall op | op in Project(ErasedEntryOps(n, rs), n, f) :: op.RemoveHop?
  {
    if rs != [] {
      var front, last := rs[..|rs| - 1], rs[|rs| - 1];
      assert rs == front + [last];
      EffectErasedEntry(n, front, f, before);
      RemovalSnoc(n, front, last, f);
      HasFaceSnoc(front, last, f);
    }
  }

  lemma RemovalSnoc(n: Name, front: seq<Route>, last: Route, f: nat)
    ensures Project(ErasedEntryOps(n, front + [last]), n, f) ==
            Project(ErasedEntryOps(n, front), n, f) + if last.faceId == f then [RemoveHop(n, f)] else []
  {
    var rs := front + [last];
    assert rs[..|rs| - 1] == front;
    ProjectConcat(ErasedEntryOps(n, front), [RemoveHop(n, last.faceId)], n, f);
    ProjectSmall([RemoveHop(n, last.faceId)], n, f);
  }

  lemma HasFaceSnoc(front: seq<Route>, last: Route, f: nat)
    ensures HasFace(front + [last], f) <==> HasFace(front, f) || last.faceId == f
  {
    var rs := front + [last];
    assert last in rs && forall x :: x in rs <==> x in front || x == last;
  }

  /** Emissions about `n`, then the traversal under it, then emissions about `n`. */
  lemma EmitsFromParts(t: Table, n: Name, cs: seq<Name>, add: seq<Route>, remove: seq<Route>,
                       pre: seq<Op>, post: seq<Op>, f: nat)
    requires TreeExact(t) && CaptureExact(t) && Tops(t, n, cs) && IsRouteSet(add) && IsRouteSet(remove)
    requires AllAbout(pre, n) && AllAbout(post, n)
    ensures Roots(t, n, cs)
    ensures var ops := pre + TraverseAll(t, n, cs, add, remove) + post;
      EmitsUnder(t, n, add, remove, [], ops, f) && Project(ops, n, f) == Project(pre, n, f) + Project(post, n, f)
  {
    PartsAt(t, n, cs, add, remove, pre, post, f, n);
    forall d ensures EmitsAt(t, n, add, remove, [], pre + TraverseAll(t, n, cs, add, remove) + post, f, d) {
      PartsAt(t, n, cs, add, remove, pre, post, f, d);
    }
  }

  lemma PartsAt(t: Table, n: Name, cs: seq<Name>, add: seq<Route>, remove: seq<Route>,
                pre: seq<Op>, post: seq<Op>, f: nat, d: Name)
    requires TreeExact(t) && CaptureExact(t) && Tops(t, n, cs) && IsRouteSet(add) && IsRouteSet(remove)
    requires AllAbout(pre, n) && AllAbout(post, n)
    ensures Roots(t, n, cs)
    ensures var ops := pre + TraverseAll(t, n, cs, add, remove) + post;
      && EmitsAt(t, n, add, remove, [], ops, f, d)
      && (d == n ==> Project(ops, n, f) == Project(pre, n, f) + Project(post, n, f))
  {
    ProjectUnder(t, n, cs, add, remove, d, f);
    ProjectConcat3(pre, TraverseAll(t, n, cs, add, remove), post, d, f);
    if d != n {
      ProjectElsewhere(pre, n, d, f);
      ProjectElsewhere(post, n, d, f);
    }
  }

  lemma EmitsNothingUnder(t: Table, n: Name, ops: seq<Op>, f: nat)
    requires AllAbout(ops, n)
    ensures EmitsUnder(t, n, [], [], [], ops, f)
  {
    forall d ensures EmitsAt(t, n, [], [], [], ops, f, d) {
      if d != n { ProjectElsewhere(ops, n, d, f); }
    }
  }

  /** A traversal with `add` and `remove`, and then one that only adds. */
  lemma EmitsJoined(t: Table, n: Name, add: seq<Route>, remove: seq<Route>, more: seq<Route>, a: seq<Op>, b: seq<Op>, f: nat)
    requires EmitsUnder(t, n, add, remove, [], a, f) && EmitsUnder(t, n, more, [], [], b, f)
    ensures EmitsUnder(t, n, add, remove, more, a + b, f)
    ensures Project(a + b, n, f) == Project(a, n, f) + Project(b, n, f)
  {
    ProjectConcat(a, b, n, f);
    forall d ensures EmitsAt(t, n, add, remove, more, a + b, f, d) {
      assert EmitsAt(t, n, add, remove, [], a, f, d) && EmitsAt(t, n, more, [], [], b, f, d);
      ProjectConcat(a, b, d, f);
      if Open(t, n, d, f) { VisitsJoined(d, t[d], add, remove, more, f); }
    }
  }

  lemma VisitsJoined(d: Name, e: Entry<Name>, add: seq<Route>, remove: seq<Route>, more: seq<Route>, f: nat)
    ensures VisitOps(d, e, add, remove, [], f) + VisitOps(d, e, more, [], [], f) == VisitOps(d, e, add, remove, more, f)
  {
    assert OpsAt(d, e, add, remove, f) + [] == OpsAt(d, e, add, remove, f);
  }

  // ----- the table after a commit -----

  lemma EditedOnlyAt(t: Table, c: Table, n: Name)
    requires forall m | m != n :: m in t <==> m in c
    requires forall m | m != n && m in t :: SameContent(c[m], t[m])
    ensures OnlyAt(t, c, n) && SameRecords(t, c, n)
  {
    forall m | m != n ensures SameRoutesAt(t, c, m) {}
  }

  lemma InsertedTable(s: Rib, n: Name, r: Route)
    requires OrderExact(s) && Sorted(s.order) && TreeExact(s.table)
    ensures var c := Insert(s, n, r).table;
      && OnlyAt(s.table, c, n) && SameRecords(s.table, c, n) && n in c
      && (n !in s.table ==> c[n].routes == [r] && c[n].inherited == [])
      && (n in s.table ==> c[n].inherited == s.table[n].inherited)
  {
    if n !in s.table { AttachExact(s, n, r); }
    EditedOnlyAt(s.table, Insert(s, n, r).table, n);
  }

  lemma ErasedTable(s: Rib, n: Name, r: Route)
    requires RibExact(s) && n in s.table
    requires FindRoute(s.table[n].routes, r) < |s.table[n].routes|
    ensures var c := Erase(s, n, r).table;
      var rest := WithoutIndex(s.table[n].routes, FindRoute(s.table[n].routes, r));
      && OnlyAt(s.table, c, n) && SameRecords(s.table, c, n)
      && (n in c <==> rest != [])
      && (n in c ==> c[n].routes == rest && c[n].inherited == s.table[n].inherited)
  {
    var t := s.table[n := EraseRoute(s.table[n], FindRoute(s.table[n].routes, r))];
    TreeIgnoresRoutes(s.table, t);
    DetachExact(t, n);
    EditedByErasure(s.table, t, n, Erase(s, n, r).table);
  }

  lemma EditedByErasure(t0: Table, t: Table, n: Name, c: Table)
    requires TreeExact(t) && n in t0 && n in t && t == t0[n := t[n]] && t[n].inherited == t0[n].inherited
    requires CanDetach(t, n) && c == if t[n].routes == [] then Detach(t, n) else t
    ensures OnlyAt(t0, c, n) && SameRecords(t0, c, n) && (n in c <==> t[n].routes != [])
    ensures n in c ==> c[n].routes == t[n].routes && c[n].inherited == t0[n].inherited
  {
    DetachExact(t, n);
    EditedOnlyAt(t0, c, n);
  }

  // ----- a new name -----

  lemma {:induction false} FutureChildrenDistinct(t: Table, p: Option<Name>, ds: seq<Name>)
    requires NoDuplicates(ds)
    ensures NoDuplicates(FutureChildren(t, p, ds))
  {
    if ds != [] {
      var front, last := ds[..|ds| - 1], ds[|ds| - 1];
      assert ds == front + [last] && last !in front;
      FutureChildrenDistinct(t, p, front);
    }
  }

  lemma FutureChildrenAreTops(s: Rib, n: Name)
    requires OrderExact(s) && Sorted(s.order) && ParentsExact(s.table) && n !in s.table
    ensures Tops(s.table, n, FutureChildren(s.table, ParentOf(s.table.Keys, n), Under(s.order, n)))
  {
    var t, p := s.table, ParentOf(s.table.Keys, n);
    var cs := FutureChildren(t, p, Under(s.order, n));
    UnderKeepsDistinct(s.order, n);
    FutureChildrenDistinct(t, p, Under(s.order, n));
    var with := t[n := NewEntry(Route(0, 0, 0, 0))];
    forall c ensures c in cs <==> Topmost(t, n, c) {
      if c in t && n < c {
        ParentAfterInsert(t.Keys, n, c);
        assert with.Keys == t.Keys + {n};
        TopmostIsParent(with, n, c);
        forall k: nat | |n| < k < |c| ensures c[..k] in t <==> c[..k] in with {}
        ParentOfIff(t.Keys, c, n);
      }
    }
  }

  ghost function AddedByNew(t: Table, n: Name, r: Route): (rs: seq<Route>)
    requires ParentsExact(t)
    ensures IsRouteSet(rs)
  {
    if !r.IsChildInherit() then []
    else if r.IsCapture() then [r]
    else InsertRoute(EraseFace(AncestorRoutes(t, ParentOf(t.Keys, n)), r.faceId), r)
  }

  ghost function RemovedByNew(t: Table, n: Name, r: Route): (rs: seq<Route>)
    requires ParentsExact(t)
    ensures IsRouteSet(rs)
  {
    if r.IsCapture() then AncestorRoutes(t, ParentOf(t.Keys, n)) else []
  }

  /** What is emitted about the new name itself. */
  function OwnOfNew(t: Table, n: Name, r: Route, f: nat): (ops: seq<Op>) {
    if f == r.faceId then [AddHop(n, r.faceId, r.cost)]
    else if !r.IsCapture() && Arriving(t, n, f).Some? then [Inherit(n, Arriving(t, n, f).value)]
    else []
  }

  ghost function OpsOnNew(t: Table, n: Name, r: Route): (ops: seq<Op>)
    requires ParentsExact(t)
  {
    [AddHop(n, r.faceId, r.cost)] +
    if r.IsCapture() then [] else InheritOps(n, AncestorRoutes(t, ParentOf(t.Keys, n)), r.faceId)
  }

  lemma OpsOnNewAre(t: Table, n: Name, r: Route, f: nat)
    requires ParentsExact(t) && CaptureExact(t)
    ensures AllAbout(OpsOnNew(t, n, r), n)
    ensures Project(OpsOnNew(t, n, r), n, f) == OwnOfNew(t, n, r, f)
  {
    var ancestors := AncestorRoutes(t, ParentOf(t.Keys, n));
    AncestorRoutesExact(t, n, f);
    OpsAboutSelf(n, NewEntry(r), ancestors, r.faceId);
    ProjectInheritOps(n, ancestors, r.faceId, f);
    OwnThenInherited(n, r, if r.IsCapture() then [] else InheritOps(n, ancestors, r.faceId), Arriving(t, n, f), f);
  }

  lemma OwnThenInherited(n: Name, r: Route, more: seq<Op>, back: Option<Route>, f: nat)
    requires Project(more, n, f) == if back.Some? && f != r.faceId && !r.IsCapture() then [Inherit(n, back.value)] else []
    ensures Project([AddHop(n, r.faceId, r.cost)] + more, n, f) ==
            if f == r.faceId then [AddHop(n, r.faceId, r.cost)]
            else if !r.IsCapture() && back.Some? then [Inherit(n, back.value)] else []
  {
    var own := [AddHop(n, r.faceId, r.cost)];
    ProjectSmall(own, n, f);
    ProjectConcat(own, more, n, f);
  }

  lemma NewEntryShape(t: Table, n: Name, r: Route, cs: seq<Name>)
    requires TreeExact(t) && Roots(t, n, cs)
    ensures NewEntryOps(t, n, r, cs) ==
            if r.IsChildInherit() || r.IsCapture()
            then OpsOnNew(t, n, r) + TraverseAll(t, n, cs, AddedByNew(t, n, r), RemovedByNew(t, n, r)) + []
            else OpsOnNew(t, n, r)
  {
    var hop := [AddHop(n, r.faceId, r.cost)];
    var ancestors := AncestorRoutes(t, ParentOf(t.Keys, n));
    var below := TraverseAll(t, n, cs, AddedByNew(t, n, r), RemovedByNew(t, n, r));
    JoinShape(hop, if r.IsCapture() then [] else InheritOps(n, ancestors, r.faceId), below);
  }

  lemma JoinShape(a: seq<Op>, b: seq<Op>, c: seq<Op>)
    ensures a + (b + c) == (a + b) + c + [] && (b == [] ==> a + c == (a + b) + c + [])
  {
  }

  lemma NewNameEmits(t: Table, n: Name, r: Route, cs: seq<Name>, f: nat)
    requires TreeExact(t) && CaptureExact(t) && Tops(t, n, cs)
    ensures Roots(t, n, cs)
    ensures var ops := NewEntryOps(t, n, r, cs);
      && EmitsUnder(t, n, AddedByNew(t, n, r), RemovedByNew(t, n, r), [], ops, f)
      && Project(ops, n, f) == OwnOfNew(t, n, r, f)
  {
    OpsOnNewAre(t, n, r, f);
    EmitsFromParts(t, n, cs, AddedByNew(t, n, r), RemovedByNew(t, n, r), OpsOnNew(t, n, r), [], f);
    EmitsNothingUnder(t, n, OpsOnNew(t, n, r), f);
    NewEntryShape(t, n, r, cs);
  }

  /** Registering a route under a new name, with any flags, delivers exactly what the name sends down. */
  lemma NewNameDelivers(t: Table, c: Table, n: Name, r: Route, f: nat)
    requires TreeExact(t) && CaptureExact(t) && OnlyAt(t, c, n) && n !in t && n in c && c[n].routes == [r]
    ensures Delivered(t, n, AddedByNew(t, n, r), RemovedByNew(t, n, r), [], f) == CostOf(SentDown(c, n, f))
    ensures Effect(NextHop(t, n, f), OwnOfNew(t, n, r, f)) == NextHop(c, n, f)
  {
    NewNameOwn(t, c, n, r, f);
    NewNameSends(t, c, n, r, f);
  }

  lemma NewNameOwn(t: Table, c: Table, n: Name, r: Route, f: nat)
    requires OnlyAt(t, c, n) && n !in t && n in c && c[n].routes == [r]
    ensures Effect(NextHop(t, n, f), OwnOfNew(t, n, r, f)) == NextHop(c, n, f)
  {
    ArrivingIgnoresSelf(t, c, n, f);
    SingleRoute(r, f);
  }

  lemma NewNameSends(t: Table, c: Table, n: Name, r: Route, f: nat)
    requires TreeExact(t) && CaptureExact(t) && OnlyAt(t, c, n) && n !in t && n in c && c[n].routes == [r]
    ensures Delivered(t, n, AddedByNew(t, n, r), RemovedByNew(t, n, r), [], f) == CostOf(SentDown(c, n, f))
  {
    var ancestors := AncestorRoutes(t, ParentOf(t.Keys, n));
    AncestorRoutesExact(t, n, f);
    ArrivingIgnoresSelf(t, c, n, f);
    SingleRoute(r, f);
    OnFaceAfterErase(ancestors, r.faceId, f);
    OnFaceAfterInsert(EraseFace(ancestors, r.faceId), r, f);
  }
}
