/**
 The FIB updater as an object that fills its update lists and its list of inherited routes while it walks the
 RIB. Every method is proved to emit what the value-level computation says.
 */
module FibUpdaterObject {
  import opened Wrappers
  import opened Names
  import opened Routes
  import opened FibOps
  import opened FibUpdates
  import opened FibRecords
  import Compute = FibCompute
  import Links = RibLinks
  import Tree = RibTree
  import Rib = RibObjects

  lemma OpsSnoc(ops: seq<Op>, op: Op)
    ensures UpdatesOf(ops + [op]) == UpdatesOf(ops) + [UpdateOf(op)]
    ensures RecordsOf(ops + [op]) == RecordsOf(ops) + RecordOf(op)
  {
    assert (ops + [op])[..|ops|] == ops;
  }

  lemma ListOfSnoc(f: nat, us: seq<FibUpdate>, u: FibUpdate, batch: bool)
    ensures ListOf(f, us + [u], batch) == if (u.faceId == f) == batch then Put(ListOf(f, us, batch), u) else ListOf(f, us, batch)
  {
    assert (us + [u])[..|us|] == us;
  }

  // ----- one step of the loops that drop routes while they walk -----

  lemma DropStep(e: Links.Entry<Name>, rs: seq<Route>, i: nat)
    requires i < |rs|
    ensures DropOffered(e, rs[..i + 1]) ==
            if HasChildInherit(e.routes, rs[i].faceId) then DropOffered(e, rs[..i]) else DropOffered(e, rs[..i]) + [rs[i]]
  {
    assert rs[..i + 1][..i] == rs[..i];
  }

  lemma RouteStep(n: Name, e: Links.Entry<Name>, kept: seq<Route>, r: Route)
    ensures RemoveOps(n, e, kept + [r]) == RemoveOps(n, e, kept) + if HasRecord(e, r.faceId) then [Disinherit(n, r)] else []
    ensures AddOps(n, e, kept + [r]) == AddOps(n, e, kept) + if HasFace(e.routes, r.faceId) then [] else [Inherit(n, r)]
  {
    assert (kept + [r])[..|kept|] == kept;
  }

  /** A loop that has walked over the first `done` routes: it has kept some, and the others are still to come. */
  ghost predicate Walked(e: Links.Entry<Name>, rs: seq<Route>, done: nat, kept: seq<Route>, left: seq<Route>) {
    done <= |rs| && kept == DropOffered(e, rs[..done]) && left == kept + rs[done..]
  }

  /** One route of such a loop: it is dropped, or it is kept and emitted. */
  lemma WalkStep(n: Name, e: Links.Entry<Name>, rs: seq<Route>, done: nat, kept: seq<Route>, left: seq<Route>)
    requires Walked(e, rs, done, kept, left) && |kept| < |left|
    ensures var r := left[|kept|];
      && (HasChildInherit(e.routes, r.faceId) ==>
          Walked(e, rs, done + 1, kept, left[..|kept|] + left[|kept| + 1..]))
      && (!HasChildInherit(e.routes, r.faceId) ==> Walked(e, rs, done + 1, kept + [r], left))
      && RemoveOps(n, e, kept + [r]) == RemoveOps(n, e, kept) + (if HasRecord(e, r.faceId) then [Disinherit(n, r)] else [])
      && AddOps(n, e, kept + [r]) == AddOps(n, e, kept) + (if HasFace(e.routes, r.faceId) then [] else [Inherit(n, r)])
  {
    CutStep(kept, rs, done, left);
    DropStep(e, rs, done);
    RouteStep(n, e, kept, rs[done]);
  }

  lemma WalkStarts(e: Links.Entry<Name>, rs: seq<Route>)
    ensures Walked(e, rs, 0, [], rs)
  {
    assert rs[..0] == [] && rs[0..] == rs && [] + rs == rs;
  }

  lemma WalkEnds(e: Links.Entry<Name>, rs: seq<Route>, done: nat, kept: seq<Route>, left: seq<Route>)
    requires Walked(e, rs, done, kept, left) && |kept| >= |left|
    ensures left == kept == DropOffered(e, rs)
  {
    assert rs[..done] == rs;
  }

  lemma CutStep(kept: seq<Route>, rs: seq<Route>, i: nat, left: seq<Route>)
    requires i < |rs| && left == kept + rs[i..]
    ensures |kept| < |left| && left[|kept|] == rs[i]
    ensures left[..|kept|] + left[|kept| + 1..] == kept + rs[i + 1..]
    ensures left == (kept + [rs[i]]) + rs[i + 1..]
  {
  }

  lemma NothingBefore(a: seq<Op>)
    ensures [] + a == a
  {
  }

  lemma Associates(a: seq<Op>, b: seq<Op>, c: seq<Op>)
    ensures (a + b) + c == a + (b + c)
  {
  }

  lemma AssociatesFour(a: seq<Op>, b: seq<Op>, c: seq<Op>, d: seq<Op>)
    ensures a + b + c + d == a + (b + c + d)
  {
  }

  lemma FoundParts(t: Tree.Table, n: Name, e: Links.Entry<Name>, f: nat, i: nat, a: seq<Op>, b: seq<Op>, c: seq<Op>)
    requires Compute.CopyOf(t, n, e) && i < |e.routes|
    requires var temp, next := Tree.EraseRoute(e, i), SecondCheapest(e.routes, f);
      && a == Compute.ErasedRouteOps(t, n, temp, e.routes[i], e.captureCount > 0 && temp.captureCount == 0)
      && b == (if next.Some? then Compute.NewRouteOps(t, n, temp, next.value, false) else [])
    requires c == if |e.routes| == 1 then Compute.ErasedEntryOps(n, e.inherited) else []
    ensures Compute.UnregisterFoundOps(t, n, e, f, i) == a + b + c
  {
  }

  lemma {:induction false} FirstOnFace(rs: seq<Route>, i: nat, f: nat)
    requires i <= |rs| && (forall j | 0 <= j < i :: rs[j].faceId != f) && (i < |rs| ==> rs[i].faceId == f)
    ensures OnFace(rs, f) == if i < |rs| then Some(rs[i]) else None
  {
    if i > 0 {
      assert forall j | 0 <= j < i - 1 :: rs[1..][j] == rs[j + 1];
      FirstOnFace(rs[1..], i - 1, f);
    }
  }

  lemma InheritStep(o: seq<Op>, n: Name, rs: seq<Route>, i: nat, ignore: nat)
    requires i < |rs|
    ensures o + Compute.InheritOps(n, rs[..i + 1], ignore) ==
            o + Compute.InheritOps(n, rs[..i], ignore) + if rs[i].faceId != ignore then [Inherit(n, rs[i])] else []
  {
    assert rs[..i + 1][..i] == rs[..i];
  }

  /** The next hop after a change of cost, with the cheapest route and the cheapest offer at hand. */
  lemma RenewOwnCases(n: Name, e: Links.Entry<Name>, r: Route, was: Route, lowest: Route, prev: Option<Route>)
    requires Cheapest(e.routes, r.faceId) == Some(lowest) && prev == CheapestOffer(e.routes, r.faceId)
    requires !Compute.DereferencesNull(e.routes, r, was)
    ensures r.cost > lowest.cost > was.cost ==> prev.Some?
    ensures Compute.RenewOwnOps(n, e, r, was) ==
            if r.cost == was.cost then []
            else if r.cost <= lowest.cost then [AddHop(n, r.faceId, r.cost)]
            else if was.cost < lowest.cost then [AddHop(n, prev.value.faceId, prev.value.cost)] else []
  {
  }

  lemma ErasedEntryStep(o: seq<Op>, n: Name, rs: seq<Route>, i: nat)
    requires i < |rs|
    ensures o + Compute.ErasedEntryOps(n, rs[..i + 1]) == o + Compute.ErasedEntryOps(n, rs[..i]) + [RemoveHop(n, rs[i].faceId)]
  {
    assert rs[..i + 1][..i] == rs[..i];
  }

  lemma NewEntryParts(o: seq<Op>, t: Tree.Table, n: Name, r: Route, cs: seq<Name>, ancestors: seq<Route>)
    requires Tree.TreeExact(t) && Roots(t, n, cs) && ancestors == Compute.AncestorRoutes(t, ParentOf(t.Keys, n))
    ensures o + [AddHop(n, r.faceId, r.cost)] + Compute.ArriveOps(t, n, r, cs, ancestors) == o + Compute.NewEntryOps(t, n, r, cs)
  {
    Associates(o, [AddHop(n, r.faceId, r.cost)], Compute.ArriveOps(t, n, r, cs, ancestors));
  }

  lemma UpdatedCost(o: seq<Op>, t: Tree.Table, n: Name, e: Links.Entry<Name>, r: Route, was: Route)
    requires Compute.CopyOf(t, n, e)
    requires var prev := CheapestOffer(e.routes, r.faceId);
      r.cost != was.cost && (prev.None? || r.cost <= prev.value.cost) && r.flags == was.flags && r.IsChildInherit()
    ensures o + Compute.RenewOwnOps(n, e, r, was) + Compute.ToChildren(t, n, [r], []) ==
            o + Compute.UpdatedRouteOps(t, n, e, r, was)
  {
    Associates(o, Compute.RenewOwnOps(n, e, r, was), Compute.ToChildren(t, n, [r], []));
  }

  lemma UpdatedFlags(o: seq<Op>, t: Tree.Table, n: Name, e: Links.Entry<Name>, r: Route, was: Route)
    requires Compute.CopyOf(t, n, e) && !(r.flags == was.flags && r.cost == was.cost)
    requires var prev := CheapestOffer(e.routes, r.faceId);
      !(r.cost != was.cost && (prev.None? || r.cost <= prev.value.cost) && r.flags == was.flags && r.IsChildInherit())
    ensures (o + Compute.RenewOwnOps(n, e, r, was)) +
            (Compute.RenewInheritOps(t, n, e, r, was) + Compute.RenewCaptureOps(t, n, e, r, was)) ==
            o + Compute.UpdatedRouteOps(t, n, e, r, was)
  {
    RenewParts(o, Compute.RenewOwnOps(n, e, r, was), Compute.RenewInheritOps(t, n, e, r, was),
               Compute.RenewCaptureOps(t, n, e, r, was));
  }

  lemma RenewParts(a: seq<Op>, b: seq<Op>, c: seq<Op>, d: seq<Op>)
    ensures (a + b) + (c + d) == a + (b + c + d)
  {
  }

  /** The emissions for the first `k` children. */
  ghost function TraverseFirst(t: Tree.Table, n: Name, cs: seq<Name>, k: nat, add: seq<Route>, remove: seq<Route>): (ops: seq<Op>)
    requires Tree.TreeExact(t) && Roots(t, n, cs) && k <= |cs|
  {
    RootsOfPrefix(t, n, cs, k);
    TraverseAll(t, n, cs[..k], add, remove)
  }

  /** One step of the loop over children. */
  lemma TraverseFirstStep(t: Tree.Table, n: Name, cs: seq<Name>, i: nat, add: seq<Route>, remove: seq<Route>)
    requires Tree.TreeExact(t) && Roots(t, n, cs) && i < |cs|
    ensures cs[i] in t && AtOrUnder(t, cs[i]) <= StrictlyUnder(t, n)
    ensures TraverseFirst(t, n, cs, i + 1, add, remove) ==
            TraverseFirst(t, n, cs, i, add, remove) + Traverse(t, cs[i], add, remove)
  {
    assert cs[i] in cs;
    RootsOfPrefix(t, n, cs, i);
    RootsOfPrefix(t, n, cs, i + 1);
    UnderNests(t, n, cs[i]);
    assert cs[..i + 1][..i] == cs[..i];
  }

  /** The parts of a traversal, appended one after the other. */
  lemma TraverseParts(t: Tree.Table, n: Name, add: seq<Route>, remove: seq<Route>, before: seq<Op>)
    requires Tree.TreeExact(t) && n in t && t[n].captureCount == 0
    ensures Roots(t, n, t[n].children) && StrictlyUnder(t, n) < AtOrUnder(t, n)
    ensures var e := t[n];
      var remove', add' := DropOffered(e, remove), DropOffered(e, add);
      before + RemoveOps(n, e, remove') + AddOps(n, e, add') + TraverseAll(t, n, e.children, add', remove') ==
      before + Traverse(t, n, add, remove)
  {
    ChildrenAreBelow(t, n);
    UnderShrinks(t, n);
    var e := t[n];
    var remove', add' := DropOffered(e, remove), DropOffered(e, add);
    AssociatesFour(before, RemoveOps(n, e, remove'), AddOps(n, e, add'), TraverseAll(t, n, e.children, add', remove'));
  }

  ghost predicate MirrorsAt(rib: Rib.Rib, t: Tree.Table, n: Name)
    requires n in rib.table
    reads rib, rib.table[n]
  {
    && n in t && t[n] == rib.table[n].Abs()
    && rib.table[n].name == n && forall c | c in rib.table[n].children :: rib.Owns(c)
  }

  /** `t` is the table of the RIB as a value. */
  ghost predicate Mirrors(rib: Rib.Rib, t: Tree.Table)
    reads rib, rib.table.Values
  {
    forall n | n in rib.table :: MirrorsAt(rib, t, n)
  }

  /** What the updater relies on while it walks. */
  ghost predicate Sees(rib: Rib.Rib, t: Tree.Table)
    reads rib, rib.table.Values
  {
    rib.Linked() && t == rib.TableView() && Tree.TreeExact(t)
  }

  lemma SeesMirrors(rib: Rib.Rib, t: Tree.Table)
    requires Sees(rib, t)
    ensures Mirrors(rib, t)
  {
    forall n | n in rib.table ensures MirrorsAt(rib, t, n) { assert rib.LinkedAt(n); }
  }

  /** An entry of the table, or a copy of one with other routes. */
  ghost predicate Stands(rib: Rib.Rib, t: Tree.Table, entry: Rib.RibEntry)
    reads rib, rib.table.Values, entry
  {
    && Sees(rib, t) && Compute.CopyOf(t, entry.name, entry.Abs())
    && (entry.parent != null ==> rib.Owns(entry.parent))
    && forall c | c in entry.children :: rib.Owns(c)
  }

  lemma OwnedStands(rib: Rib.Rib, t: Tree.Table, entry: Rib.RibEntry)
    requires Sees(rib, t) && rib.Owns(entry)
    ensures Stands(rib, t, entry)
  {
    assert rib.LinkedAt(entry.name);
  }

  lemma FutureChildStep(t: Tree.Table, p: Option<Name>, ds: seq<Name>, i: nat)
    requires i < |ds| && ds[i] in t
    ensures Compute.FutureChildren(t, p, ds[..i + 1]) ==
            if t[ds[i]].parent == p then Compute.FutureChildren(t, p, ds[..i]) + [ds[i]]
            else Compute.FutureChildren(t, p, ds[..i])
  {
    assert ds[..i + 1][..i] == ds[..i];
  }

  /** Parents are the same object exactly when they have the same name. */
  lemma ParentByName(rib: Rib.Rib, t: Tree.Table, e: Rib.RibEntry, p: Rib.RibEntry?)
    requires Mirrors(rib, t) && rib.Linked() && rib.Owns(e) && (p != null ==> rib.Owns(p))
    ensures e.name in t && (e.parent == p <==> t[e.name].parent == Rib.NameOf(p))
  {
    assert rib.LinkedAt(e.name) && MirrorsAt(rib, t, e.name);
  }

  /** One round of the loop that finds the children of a name that is not in the table yet. */
  lemma ChildStep(rib: Rib.Rib, t: Tree.Table, p: Rib.RibEntry?, ds: seq<Rib.RibEntry>, i: nat, cs: seq<Rib.RibEntry>)
    requires Mirrors(rib, t) && rib.Linked() && i < |ds| && rib.Owns(ds[i]) && (p != null ==> rib.Owns(p))
    requires Rib.NamesOf(cs) == Compute.FutureChildren(t, Rib.NameOf(p), Rib.NamesOf(ds)[..i])
    ensures Compute.FutureChildren(t, Rib.NameOf(p), Rib.NamesOf(ds)[..i + 1]) ==
            Rib.NamesOf(if ds[i].parent == p then cs + [ds[i]] else cs)
  {
    ParentByName(rib, t, ds[i], p);
    FutureChildStep(t, Rib.NameOf(p), Rib.NamesOf(ds), i);
    Rib.NamesSnoc(cs, ds[i]);
  }

  lemma NewRouteParts(t: Tree.Table, n: Name, e: Links.Entry<Name>, r: Route, captureOn: bool, add: seq<Route>,
                      a: seq<Op>, b: seq<Op>, x: seq<Op>)
    requires Compute.CopyOf(t, n, e)
    requires var prev := CheapestOffer(e.routes, r.faceId);
      add == if r.IsChildInherit() && (prev.None? || r.cost <= prev.value.cost) then [r] else []
    requires var remove := if captureOn then Compute.AncestorRoutes(t, e.parent) else [];
      a == RemoveOps(n, e, remove) && b == Compute.ToChildren(t, n, add, remove)
    requires var other := Cheapest(e.routes, r.faceId);
      x == if other.None? || r.cost <= other.value.cost then [AddHop(n, r.faceId, r.cost)] else []
    ensures Compute.NewRouteOps(t, n, e, r, captureOn) == a + b + x
  {
  }

  class FibUpdater {
    const rib: Rib.Rib
    var batchFaceId: nat
    var updatesForBatchFaceId: seq<FibUpdate>
    var updatesForNonBatchFaceId: seq<FibUpdate>
    var inheritedRoutes: seq<Compute.RibUpdate>
    /** Everything emitted for the batch, in order. */
    ghost var ops: seq<Op>

    /** The lists are those of what was emitted. */
    ghost predicate Valid()
      reads this
    {
      && updatesForBatchFaceId == ListOf(batchFaceId, UpdatesOf(ops), true)
      && updatesForNonBatchFaceId == ListOf(batchFaceId, UpdatesOf(ops), false)
      && inheritedRoutes == RecordsOf(ops)
    }

    constructor (r: Rib.Rib)
      ensures Valid() && ops == [] && rib == r
    {
      rib := r;
      batchFaceId, updatesForBatchFaceId, updatesForNonBatchFaceId, inheritedRoutes := 0, [], [], [];
      ops := [];
    }

    /** The lists are emptied for a new batch. */
    method Begin(faceId: nat)
      modifies this
      ensures Valid() && ops == [] && batchFaceId == faceId
    {
      batchFaceId, inheritedRoutes := faceId, [];
      updatesForBatchFaceId, updatesForNonBatchFaceId := [], [];
      ops := [];
    }

    /** The position of the update of a pair in a list. */
    static method FindUpdate(us: seq<FibUpdate>, n: Name, f: nat) returns (i: nat)
      ensures i == Find(us, n, f)
    {
      i := 0;
      while i < |us| && !us[i].On(n, f)
        invariant 0 <= i <= |us|
        invariant i + Find(us[i..], n, f) == Find(us, n, f)
      {
        assert us[i..][1..] == us[i + 1..];
        i := i + 1;
      }
    }

    /** `addFibUpdate`: an earlier update of the pair is replaced in place. */
    method AddFibUpdate(u: FibUpdate)
      modifies this`updatesForBatchFaceId, this`updatesForNonBatchFaceId
      ensures updatesForBatchFaceId ==
              if u.faceId == batchFaceId then Put(old(updatesForBatchFaceId), u) else old(updatesForBatchFaceId)
      ensures updatesForNonBatchFaceId ==
              if u.faceId == batchFaceId then old(updatesForNonBatchFaceId) else Put(old(updatesForNonBatchFaceId), u)
    {
      var us := if u.faceId == batchFaceId then updatesForBatchFaceId else updatesForNonBatchFaceId;
      var i := FindUpdate(us, u.name, u.faceId);
      if i < |us| {
        us := us[i := us[i].(action := u.action, cost := u.cost)];
      } else {
        us := us + [u];
      }
      if u.faceId == batchFaceId { updatesForBatchFaceId := us; } else { updatesForNonBatchFaceId := us; }
    }

    /** One emission: its FIB update, and its inherited-route record if it has one. */
    method Emit(op: Op)
      requires Valid()
      modifies this
      ensures Valid() && ops == old(ops) + [op] && unchanged(`batchFaceId)
    {
      OpsSnoc(ops, op);
      Append(op, UpdateOf(op), RecordOf(op));
    }

    /** A FIB update and the records that go with it; `op` is their emission. */
    method Append(ghost op: Op, u: FibUpdate, records: seq<Compute.RibUpdate>)
      requires Valid() && UpdatesOf(ops + [op]) == UpdatesOf(ops) + [u] && RecordsOf(ops + [op]) == RecordsOf(ops) + records
      modifies this
      ensures Valid() && ops == old(ops) + [op] && unchanged(`batchFaceId)
    {
      inheritedRoutes := inheritedRoutes + records;
      AddListed(u, UpdatesOf(ops));
      ops := ops + [op];
    }

    /** `addFibUpdate`, with the updates so far. */
    method AddListed(u: FibUpdate, ghost us: seq<FibUpdate>)
      requires updatesForBatchFaceId == ListOf(batchFaceId, us, true)
      requires updatesForNonBatchFaceId == ListOf(batchFaceId, us, false)
      modifies this`updatesForBatchFaceId, this`updatesForNonBatchFaceId
      ensures updatesForBatchFaceId == ListOf(batchFaceId, us + [u], true)
      ensures updatesForNonBatchFaceId == ListOf(batchFaceId, us + [u], false)
    {
      ListOfSnoc(batchFaceId, us, u, true);
      ListOfSnoc(batchFaceId, us, u, false);
      AddFibUpdate(u);
    }

    /** `removeInheritedRoutes`. */
    method RemoveInheritedRoutes(entry: Rib.RibEntry, rs: seq<Route>)
      requires Valid()
      modifies this
      ensures Valid() && unchanged(`batchFaceId)
      ensures ops == old(ops) + RemoveOps(entry.name, entry.Abs(), rs)
    {
      ghost var emitted: seq<Op> := [];
      var i := 0;
      while i < |rs|
        invariant 0 <= i <= |rs| && Valid() && batchFaceId == old(batchFaceId)
        invariant emitted == RemoveOps(entry.name, entry.Abs(), rs[..i]) && ops == old(ops) + emitted
      {
        assert rs[..i + 1] == rs[..i] + [rs[i]];
        RouteStep(entry.name, entry.Abs(), rs[..i], rs[i]);
        var has := entry.HasInheritedRoute(rs[i].faceId);
        if has {
          Emit(Disinherit(entry.name, rs[i]));
          Associates(old(ops), emitted, [Disinherit(entry.name, rs[i])]);
          emitted := emitted + [Disinherit(entry.name, rs[i])];
        }
        i := i + 1;
      }
      assert rs[..i] == rs;
    }

    /** `addInheritedRoutes` for an entry. */
    method AddInheritedRoutes(entry: Rib.RibEntry, rs: seq<Route>)
      requires Valid()
      modifies this
      ensures Valid() && unchanged(`batchFaceId)
      ensures ops == old(ops) + AddOps(entry.name, entry.Abs(), rs)
    {
      ghost var emitted: seq<Op> := [];
      var i := 0;
      while i < |rs|
        invariant 0 <= i <= |rs| && Valid() && batchFaceId == old(batchFaceId)
        invariant emitted == AddOps(entry.name, entry.Abs(), rs[..i]) && ops == old(ops) + emitted
      {
        assert rs[..i + 1] == rs[..i] + [rs[i]];
        RouteStep(entry.name, entry.Abs(), rs[..i], rs[i]);
        var has := entry.HasFaceId(rs[i].faceId);
        if !has {
          Emit(Inherit(entry.name, rs[i]));
          Associates(old(ops), emitted, [Inherit(entry.name, rs[i])]);
          emitted := emitted + [Inherit(entry.name, rs[i])];
        }
        i := i + 1;
      }
      assert rs[..i] == rs;
    }

    /** `addInheritedRoutes` for a name that is about to own a route on face `ignore`. */
    method AddInheritedRoutesExcept(n: Name, rs: seq<Route>, ignore: nat)
      requires Valid()
      modifies this
      ensures Valid() && unchanged(`batchFaceId)
      ensures ops == old(ops) + Compute.InheritOps(n, rs, ignore)
    {
      ghost var o := ops;
      var i := 0;
      while i < |rs|
        invariant 0 <= i <= |rs| && Valid() && batchFaceId == old(batchFaceId)
        invariant ops == o + Compute.InheritOps(n, rs[..i], ignore)
      {
        var r := rs[i];
        InheritStep(o, n, rs, i, ignore);
        i := i + 1;
        if r.faceId != ignore { Emit(Inherit(n, r)); }
      }
      assert rs[..i] == rs;
    }

    /** One route of the removal loop of `traverseSubTree`. */
    method RemoveOne(entry: Rib.RibEntry, r: Route) returns (offered: bool, ghost x: seq<Op>)
      requires Valid()
      modifies this
      ensures Valid() && unchanged(`batchFaceId)
      ensures offered == HasChildInherit(entry.routes, r.faceId) && ops == old(ops) + x
      ensures !offered ==> x == if HasRecord(entry.Abs(), r.faceId) then [Disinherit(entry.name, r)] else []
      ensures offered ==> x == []
    {
      x := [];
      offered := entry.HasChildInheritOnFaceId(r.faceId);
      if !offered {
        var has := entry.HasInheritedRoute(r.faceId);
        if has {
          Emit(Disinherit(entry.name, r));
          x := [Disinherit(entry.name, r)];
        }
      }
    }

    /** One route of the addition loop of `traverseSubTree`. */
    method AddOne(entry: Rib.RibEntry, r: Route) returns (offered: bool, ghost x: seq<Op>)
      requires Valid()
      modifies this
      ensures Valid() && unchanged(`batchFaceId)
      ensures offered == HasChildInherit(entry.routes, r.faceId) && ops == old(ops) + x
      ensures !offered ==> x == if HasFace(entry.routes, r.faceId) then [] else [Inherit(entry.name, r)]
      ensures offered ==> x == []
    {
      x := [];
      offered := entry.HasChildInheritOnFaceId(r.faceId);
      if !offered {
        var owns := entry.HasFaceId(r.faceId);
        if !owns {
          Emit(Inherit(entry.name, r));
          x := [Inherit(entry.name, r)];
        }
      }
    }

    /** One round of the removal loop of `traverseSubTree`. */
    method RemoveNext(entry: Rib.RibEntry, ghost rs: seq<Route>, ghost done: nat, ghost kept: seq<Route>, left: seq<Route>,
                      i: nat)
      returns (rest: seq<Route>, next: nat, ghost kept': seq<Route>, ghost x: seq<Op>)
      requires Valid() && Walked(entry.Abs(), rs, done, kept, left) && i == |kept| < |left|
      modifies this
      ensures Valid() && unchanged(`batchFaceId) && ops == old(ops) + x
      ensures Walked(entry.Abs(), rs, done + 1, kept', rest) && next == |kept'|
      ensures RemoveOps(entry.name, entry.Abs(), kept') == RemoveOps(entry.name, entry.Abs(), kept) + x
    {
      WalkStep(entry.name, entry.Abs(), rs, done, kept, left);
      rest, next, kept' := left, i, kept;
      var offered;
      offered, x := RemoveOne(entry, left[i]);
      if offered {
        rest := left[..i] + left[i + 1..];
      } else {
        next, kept' := i + 1, kept + [left[i]];
      }
    }

    /** The removal loop of `traverseSubTree`, which drops routes from the set while it walks it. */
    method RemoveFromEntry(entry: Rib.RibEntry, routesToRemove: seq<Route>) returns (left: seq<Route>)
      requires Valid()
      modifies this
      ensures Valid() && unchanged(`batchFaceId)
      ensures left == DropOffered(entry.Abs(), routesToRemove)
      ensures ops == old(ops) + RemoveOps(entry.name, entry.Abs(), left)
    {
      left := routesToRemove;
      ghost var o, done := ops, 0;
      WalkStarts(entry.Abs(), routesToRemove);
      ghost var kept: seq<Route>, emitted: seq<Op> := [], [];
      var i := 0;
      while i < |left|
        invariant Valid() && batchFaceId == old(batchFaceId)
        invariant Walked(entry.Abs(), routesToRemove, done, kept, left) && i == |kept|
        invariant emitted == RemoveOps(entry.name, entry.Abs(), kept) && ops == o + emitted
        decreases |routesToRemove| - done
      {
        ghost var x;
        left, i, kept, x := RemoveNext(entry, routesToRemove, done, kept, left, i);
        Associates(o, emitted, x);
        emitted := emitted + x;
        done := done + 1;
      }
      WalkEnds(entry.Abs(), routesToRemove, done, kept, left);
    }

    /** One round of the addition loop of `traverseSubTree`. */
    method AddNext(entry: Rib.RibEntry, ghost rs: seq<Route>, ghost done: nat, ghost kept: seq<Route>, left: seq<Route>, i: nat)
      returns (rest: seq<Route>, next: nat, ghost kept': seq<Route>, ghost x: seq<Op>)
      requires Valid() && Walked(entry.Abs(), rs, done, kept, left) && i == |kept| < |left|
      modifies this
      ensures Valid() && unchanged(`batchFaceId) && ops == old(ops) + x
      ensures Walked(entry.Abs(), rs, done + 1, kept', rest) && next == |kept'|
      ensures AddOps(entry.name, entry.Abs(), kept') == AddOps(entry.name, entry.Abs(), kept) + x
    {
      WalkStep(entry.name, entry.Abs(), rs, done, kept, left);
      rest, next, kept' := left, i, kept;
      var offered;
      offered, x := AddOne(entry, left[i]);
      if offered {
        rest := left[..i] + left[i + 1..];
      } else {
        next, kept' := i + 1, kept + [left[i]];
      }
    }

    /** The addition loop of `traverseSubTree`. */
    method AddToEntry(entry: Rib.RibEntry, routesToAdd: seq<Route>) returns (left: seq<Route>)
      requires Valid()
      modifies this
      ensures Valid() && unchanged(`batchFaceId)
      ensures left == DropOffered(entry.Abs(), routesToAdd)
      ensures ops == old(ops) + AddOps(entry.name, entry.Abs(), left)
    {
      left := routesToAdd;
      ghost var o, done := ops, 0;
      WalkStarts(entry.Abs(), routesToAdd);
      ghost var kept: seq<Route>, emitted: seq<Op> := [], [];
      var i := 0;
      while i < |left|
        invariant Valid() && batchFaceId == old(batchFaceId)
        invariant Walked(entry.Abs(), routesToAdd, done, kept, left) && i == |kept|
        invariant emitted == AddOps(entry.name, entry.Abs(), kept) && ops == o + emitted
        decreases |routesToAdd| - done
      {
        ghost var x;
        left, i, kept, x := AddNext(entry, routesToAdd, done, kept, left, i);
        Associates(o, emitted, x);
        emitted := emitted + x;
        done := done + 1;
      }
      WalkEnds(entry.Abs(), routesToAdd, done, kept, left);
    }

    /** `traverseSubTree` at one entry. */
    method EditEntry(entry: Rib.RibEntry, routesToAdd: seq<Route>, routesToRemove: seq<Route>)
      returns (add: seq<Route>, remove: seq<Route>)
      requires Valid()
      modifies this
      ensures Valid() && unchanged(`batchFaceId)
      ensures remove == DropOffered(entry.Abs(), routesToRemove) && add == DropOffered(entry.Abs(), routesToAdd)
      ensures ops == old(ops) + RemoveOps(entry.name, entry.Abs(), remove) + AddOps(entry.name, entry.Abs(), add)
    {
      remove := RemoveFromEntry(entry, routesToRemove);
      add := AddToEntry(entry, routesToAdd);
    }

    /** `traverseSubTree`. */
    method TraverseSubTree(ghost t: Tree.Table, entry: Rib.RibEntry,
                           routesToAdd: seq<Route>, routesToRemove: seq<Route>)
      requires Valid() && Mirrors(rib, t) && Tree.TreeExact(t) && rib.Owns(entry)
      modifies this
      ensures Valid() && unchanged(`batchFaceId)
      ensures ops == old(ops) + Traverse(t, entry.name, routesToAdd, routesToRemove)
      decreases AtOrUnder(t, entry.name), 0
    {
      assert MirrorsAt(rib, t, entry.name);
      if entry.captureCount > 0 { return; }
      TraverseParts(t, entry.name, routesToAdd, routesToRemove, ops);
      var add, remove := EditEntry(entry, routesToAdd, routesToRemove);
      ModifyChildren(t, entry.name, entry.children, add, remove);
    }

    /** `modifyChildrensInheritedRoutes` on entries under the name `n`. */
    method ModifyChildren(ghost t: Tree.Table, ghost n: Name, children: seq<Rib.RibEntry>,
                          routesToAdd: seq<Route>, routesToRemove: seq<Route>)
      requires Valid() && Mirrors(rib, t) && Tree.TreeExact(t)
      requires (forall c | c in children :: rib.Owns(c)) && Roots(t, n, Rib.NamesOf(children))
      modifies this
      ensures Valid() && unchanged(`batchFaceId)
      ensures ops == old(ops) + TraverseAll(t, n, Rib.NamesOf(children), routesToAdd, routesToRemove)
      decreases StrictlyUnder(t, n), |children| + 1
    {
      ghost var names := Rib.NamesOf(children);
      ghost var emitted: seq<Op> := [];
      var i := 0;
      while i < |children|
        invariant 0 <= i <= |children| && Valid() && batchFaceId == old(batchFaceId)
        invariant emitted == TraverseFirst(t, n, names, i, routesToAdd, routesToRemove) && ops == old(ops) + emitted
      {
        TraverseFirstStep(t, n, names, i, routesToAdd, routesToRemove);
        assert children[i] in children && children[i].name == names[i];
        ghost var more := Traverse(t, names[i], routesToAdd, routesToRemove);
        Associates(old(ops), emitted, more);
        emitted := emitted + more;
        TraverseSubTree(t, children[i], routesToAdd, routesToRemove);
        i := i + 1;
      }
      assert names[..i] == names;
    }

    /** `getAncestorRoutes` of an entry. */
    method Ancestors(ghost t: Tree.Table, entry: Rib.RibEntry) returns (rs: seq<Route>)
      requires Stands(rib, t, entry)
      ensures rs == Compute.AncestorRoutes(t, entry.Abs().parent)
    {
      rs := rib.GetAncestorRoutes(entry.parent);
    }

    /** `modifyChildrensInheritedRoutes` on the children of an entry. */
    method ToChildren(ghost t: Tree.Table, entry: Rib.RibEntry, add: seq<Route>, remove: seq<Route>)
      requires Valid() && Stands(rib, t, entry)
      modifies this
      ensures Valid() && unchanged(`batchFaceId)
      ensures ops == old(ops) + Compute.ToChildren(t, entry.name, add, remove)
    {
      SeesMirrors(rib, t);
      ChildrenAreBelow(t, entry.name);
      ModifyChildren(t, entry.name, entry.children, add, remove);
    }

    /** The capture part of `createFibUpdatesForNewRoute`. */
    method Block(ghost t: Tree.Table, entry: Rib.RibEntry, on: bool) returns (remove: seq<Route>)
      requires Valid() && Stands(rib, t, entry)
      modifies this
      ensures Valid() && unchanged(`batchFaceId)
      ensures remove == if on then Compute.AncestorRoutes(t, entry.Abs().parent) else []
      ensures ops == old(ops) + RemoveOps(entry.name, entry.Abs(), remove)
    {
      remove := [];
      if on {
        remove := Ancestors(t, entry);
        RemoveInheritedRoutes(entry, remove);
      }
    }

    /** Emits an added next hop unless the entry has a cheaper route on the face. */
    method EmitIfCheapest(entry: Rib.RibEntry, r: Route) returns (ghost x: seq<Op>)
      requires Valid()
      modifies this
      ensures Valid() && unchanged(`batchFaceId) && ops == old(ops) + x
      ensures var other := Cheapest(entry.routes, r.faceId);
        x == if other.None? || r.cost <= other.value.cost then [AddHop(entry.name, r.faceId, r.cost)] else []
    {
      x := [];
      var other := entry.LowestCost(r.faceId);
      if other.None? || r.cost <= other.value.cost {
        x := [AddHop(entry.name, r.faceId, r.cost)];
        Emit(AddHop(entry.name, r.faceId, r.cost));
      }
    }

    /** The updates of `createFibUpdatesForNewRoute` before that of the entry itself. */
    method PassDown(ghost t: Tree.Table, entry: Rib.RibEntry, add: seq<Route>, captureOn: bool)
      returns (ghost a: seq<Op>, ghost b: seq<Op>)
      requires Valid() && Stands(rib, t, entry)
      modifies this
      ensures Valid() && unchanged(`batchFaceId) && ops == old(ops) + a + b
      ensures var remove := if captureOn then Compute.AncestorRoutes(t, entry.Abs().parent) else [];
        a == RemoveOps(entry.name, entry.Abs(), remove) && b == Compute.ToChildren(t, entry.name, add, remove)
    {
      var remove := Block(t, entry, captureOn);
      a := RemoveOps(entry.name, entry.Abs(), remove);
      ToChildren(t, entry, add, remove);
      b := Compute.ToChildren(t, entry.name, add, remove);
    }

    /** `createFibUpdatesForNewRoute`. */
    method CreateForNewRoute(ghost t: Tree.Table, entry: Rib.RibEntry, r: Route, captureOn: bool)
      requires Valid() && Stands(rib, t, entry)
      modifies this
      ensures Valid() && unchanged(`batchFaceId)
      ensures ops == old(ops) + Compute.NewRouteOps(t, entry.name, entry.Abs(), r, captureOn)
    {
      ghost var o := ops;
      var prev := entry.LowestCostOffer(r.faceId);
      var add := if r.IsChildInherit() && (prev.None? || r.cost <= prev.value.cost) then [r] else [];
      ghost var a, b, x;
      a, b := PassDown(t, entry, add, captureOn);
      x := EmitIfCheapest(entry, r);
      NewRouteParts(t, entry.name, entry.Abs(), r, captureOn, add, a, b, x);
      AssociatesFour(o, a, b, x);
    }

    /** What an entry regains when its capture is turned off: its ancestors' routes, unless it is left empty. */
    method Regain(ghost t: Tree.Table, entry: Rib.RibEntry, captureOff: bool) returns (add: seq<Route>)
      requires Valid() && Stands(rib, t, entry)
      modifies this
      ensures Valid() && unchanged(`batchFaceId)
      ensures add == if captureOff && entry.routes != [] then Compute.AncestorRoutes(t, entry.Abs().parent) else []
      ensures ops == old(ops) + AddOps(entry.name, entry.Abs(), add)
    {
      add := [];
      if captureOff && entry.routes != [] {
        add := Ancestors(t, entry);
        AddInheritedRoutes(entry, add);
      }
    }

    /** `createFibUpdatesForErasedRoute` when the route had capture. */
    method ReleaseCapture(ghost t: Tree.Table, entry: Rib.RibEntry, remove: seq<Route>, captureOff: bool)
      requires Valid() && Stands(rib, t, entry)
      modifies this
      ensures Valid() && unchanged(`batchFaceId)
      ensures ops == old(ops) + Compute.ReleasedOps(t, entry.name, entry.Abs(), remove, captureOff)
    {
      ghost var o := ops;
      var add := Regain(t, entry, captureOff);
      ToChildren(t, entry, add, remove);
      Associates(o, AddOps(entry.name, entry.Abs(), add), Compute.ToChildren(t, entry.name, add, remove));
    }

    /** The part of `createFibUpdatesForErasedRoute` that looks at the flags of the route. */
    method Release(ghost t: Tree.Table, entry: Rib.RibEntry, r: Route, captureOff: bool)
      requires Valid() && Stands(rib, t, entry)
      modifies this
      ensures Valid() && unchanged(`batchFaceId)
      ensures ops == old(ops) + Compute.ReleaseOps(t, entry.name, entry.Abs(), r, captureOff)
    {
      if r.IsChildInherit() && r.IsCapture() {
        ReleaseCapture(t, entry, [r], captureOff);
      } else if r.IsChildInherit() {
        var add := [];
        if entry.captureCount == 0 { add := Ancestors(t, entry); }
        ToChildren(t, entry, add, [r]);
      } else if r.IsCapture() {
        ReleaseCapture(t, entry, [], captureOff);
      }
    }

    /** `find` in a route set, by face. */
    static method FindOnFace(rs: seq<Route>, f: nat) returns (r: Option<Route>)
      ensures r == OnFace(rs, f)
    {
      var i := 0;
      while i < |rs| && rs[i].faceId != f
        invariant 0 <= i <= |rs| && forall j | 0 <= j < i :: rs[j].faceId != f
      {
        i := i + 1;
      }
      FirstOnFace(rs, i, f);
      r := if i < |rs| then Some(rs[i]) else None;
    }

    /** The part of `createFibUpdatesForErasedRoute` that uncovers an inherited route on the same face. */
    method Uncover(ghost t: Tree.Table, entry: Rib.RibEntry, r: Route)
      requires Valid() && Stands(rib, t, entry)
      modifies this
      ensures Valid() && unchanged(`batchFaceId)
      ensures ops == old(ops) + Compute.UncoverOps(t, entry.name, entry.Abs(), r)
    {
      var ancestors := Ancestors(t, entry);
      if entry.captureCount == 0 && entry.routes != [] {
        var found := FindOnFace(ancestors, r.faceId);
        if found.Some? { Emit(Inherit(entry.name, found.value)); }
      }
    }

    /** `createFibUpdatesForErasedRoute`. */
    method CreateForErasedRoute(ghost t: Tree.Table, entry: Rib.RibEntry, r: Route, captureOff: bool)
      requires Valid() && Stands(rib, t, entry)
      modifies this
      ensures Valid() && unchanged(`batchFaceId)
      ensures ops == old(ops) + Compute.ErasedRouteOps(t, entry.name, entry.Abs(), r, captureOff)
    {
      ghost var o := ops;
      Emit(RemoveHop(entry.name, r.faceId));
      Release(t, entry, r, captureOff);
      Uncover(t, entry, r);
      AssociatesFour(o, [RemoveHop(entry.name, r.faceId)], Compute.ReleaseOps(t, entry.name, entry.Abs(), r, captureOff),
                     Compute.UncoverOps(t, entry.name, entry.Abs(), r));
    }

    /** `createFibUpdatesForErasedRibEntry`. */
    method CreateForErasedRibEntry(entry: Rib.RibEntry)
      requires Valid()
      modifies this
      ensures Valid() && unchanged(`batchFaceId)
      ensures ops == old(ops) + Compute.ErasedEntryOps(entry.name, entry.inherited)
    {
      ghost var o := ops;
      var rs := entry.inherited;
      var i := 0;
      while i < |rs|
        invariant 0 <= i <= |rs| && Valid() && batchFaceId == old(batchFaceId)
        invariant ops == o + Compute.ErasedEntryOps(entry.name, rs[..i])
      {
        ErasedEntryStep(o, entry.name, rs, i);
        Emit(RemoveHop(entry.name, rs[i].faceId));
        i := i + 1;
      }
      assert rs[..i] == rs;
    }

    /** `createFibUpdatesForNewRibEntry` after the next hop of the new name itself. */
    method Arrive(ghost t: Tree.Table, n: Name, r: Route, children: seq<Rib.RibEntry>, ancestors: seq<Route>)
      requires Valid() && Sees(rib, t) && IsRouteSet(ancestors)
      requires (forall c | c in children :: rib.Owns(c)) && Roots(t, n, Rib.NamesOf(children))
      modifies this
      ensures Valid() && unchanged(`batchFaceId)
      ensures ops == old(ops) + Compute.ArriveOps(t, n, r, Rib.NamesOf(children), ancestors)
    {
      SeesMirrors(rib, t);
      if !r.IsChildInherit() && !r.IsCapture() {
        AddInheritedRoutesExcept(n, ancestors, r.faceId);
      } else if r.IsChildInherit() && r.IsCapture() {
        ModifyChildren(t, n, children, [r], ancestors);
      } else if r.IsChildInherit() {
        ghost var o := ops;
        AddInheritedRoutesExcept(n, ancestors, r.faceId);
        var add := InsertRoute(EraseFace(ancestors, r.faceId), r);
        ModifyChildren(t, n, children, add, []);
        Associates(o, Compute.InheritOps(n, ancestors, r.faceId), TraverseAll(t, n, Rib.NamesOf(children), add, []));
      } else {
        ModifyChildren(t, n, children, [], ancestors);
      }
    }

    /** `getAncestorRoutes` of a name that is not in the table. */
    method AncestorsOfName(ghost t: Tree.Table, n: Name) returns (rs: seq<Route>)
      requires Sees(rib, t)
      ensures rs == Compute.AncestorRoutes(t, ParentOf(t.Keys, n))
    {
      assert rib.table.Keys == t.Keys;
      var parent := rib.FindParent(n);
      rs := rib.GetAncestorRoutes(parent);
    }

    /** `createFibUpdatesForNewRibEntry`. */
    method CreateForNewRibEntry(ghost t: Tree.Table, n: Name, r: Route, children: seq<Rib.RibEntry>)
      requires Valid() && Sees(rib, t)
      requires (forall c | c in children :: rib.Owns(c)) && Roots(t, n, Rib.NamesOf(children))
      modifies this
      ensures Valid() && unchanged(`batchFaceId)
      ensures ops == old(ops) + Compute.NewEntryOps(t, n, r, Rib.NamesOf(children))
    {
      ghost var o := ops;
      var ancestors := AncestorsOfName(t, n);
      Emit(AddHop(n, r.faceId, r.cost));
      Arrive(t, n, r, children, ancestors);
      NewEntryParts(o, t, n, r, Rib.NamesOf(children), ancestors);
    }

    /** The next hop of the name itself in `createFibUpdatesForUpdatedRoute`. */
    method RenewOwn(entry: Rib.RibEntry, r: Route, was: Route, prev: Option<Route>)
      requires Valid() && prev == CheapestOffer(entry.routes, r.faceId)
      requires HasFace(entry.routes, r.faceId) && !Compute.DereferencesNull(entry.routes, r, was)
      modifies this
      ensures Valid() && unchanged(`batchFaceId)
      ensures ops == old(ops) + Compute.RenewOwnOps(entry.name, entry.Abs(), r, was)
    {
      if r.cost == was.cost { return; }
      var lowest := entry.LowestCost(r.faceId);
      RenewOwnCases(entry.name, entry.Abs(), r, was, lowest.value, prev);
      if r.cost <= lowest.value.cost {
        Emit(AddHop(entry.name, r.faceId, r.cost));
      } else if was.cost < lowest.value.cost {
        Emit(AddHop(entry.name, prev.value.faceId, prev.value.cost));
      }
    }

    /** The child-inherit part of `createFibUpdatesForUpdatedRoute`. */
    method RenewInherit(ghost t: Tree.Table, entry: Rib.RibEntry, r: Route, was: Route, prev: Option<Route>)
      requires Valid() && Stands(rib, t, entry) && prev == CheapestOffer(entry.routes, r.faceId)
      modifies this
      ensures Valid() && unchanged(`batchFaceId)
      ensures ops == old(ops) + Compute.RenewInheritOps(t, entry.name, entry.Abs(), r, was)
    {
      if !was.IsChildInherit() && r.IsChildInherit() {
        if prev.None? || r.cost <= prev.value.cost { ToChildren(t, entry, [r], []); }
      } else if was.IsChildInherit() && !r.IsChildInherit() {
        var add := prev;
        if prev.None? {
          var ancestors := Ancestors(t, entry);
          add := FindOnFace(ancestors, r.faceId);
        }
        ToChildren(t, entry, if add.Some? then [add.value] else [], [r]);
      }
    }

    /** Capture was turned on. */
    method CaptureOn(ghost t: Tree.Table, entry: Rib.RibEntry, ancestors: seq<Route>)
      requires Valid() && Stands(rib, t, entry)
      modifies this
      ensures Valid() && unchanged(`batchFaceId)
      ensures ops == old(ops) + (RemoveOps(entry.name, entry.Abs(), ancestors) +
                                 Compute.ToChildren(t, entry.name, [], ancestors))
    {
      ghost var o := ops;
      RemoveInheritedRoutes(entry, ancestors);
      ToChildren(t, entry, [], ancestors);
      Associates(o, RemoveOps(entry.name, entry.Abs(), ancestors), Compute.ToChildren(t, entry.name, [], ancestors));
    }

    /** Capture was turned off. */
    method CaptureOff(ghost t: Tree.Table, entry: Rib.RibEntry, ancestors: seq<Route>)
      requires Valid() && Stands(rib, t, entry)
      modifies this
      ensures Valid() && unchanged(`batchFaceId)
      ensures ops == old(ops) + (AddOps(entry.name, entry.Abs(), ancestors) +
                                 Compute.ToChildren(t, entry.name, ancestors, []))
    {
      ghost var o := ops;
      AddInheritedRoutes(entry, ancestors);
      ToChildren(t, entry, ancestors, []);
      Associates(o, AddOps(entry.name, entry.Abs(), ancestors), Compute.ToChildren(t, entry.name, ancestors, []));
    }

    /** The capture part of `createFibUpdatesForUpdatedRoute`. */
    method RenewCapture(ghost t: Tree.Table, entry: Rib.RibEntry, r: Route, was: Route)
      requires Valid() && Stands(rib, t, entry)
      modifies this
      ensures Valid() && unchanged(`batchFaceId)
      ensures ops == old(ops) + Compute.RenewCaptureOps(t, entry.name, entry.Abs(), r, was)
    {
      if r.IsCapture() != was.IsCapture() {
        var ancestors := Ancestors(t, entry);
        if r.IsCapture() { CaptureOn(t, entry, ancestors); } else { CaptureOff(t, entry, ancestors); }
      }
    }

    /** The two flag parts, one after the other. */
    method RenewFlags(ghost t: Tree.Table, entry: Rib.RibEntry, r: Route, was: Route, prev: Option<Route>)
      requires Valid() && Stands(rib, t, entry) && prev == CheapestOffer(entry.routes, r.faceId)
      modifies this
      ensures Valid() && unchanged(`batchFaceId)
      ensures ops == old(ops) + (Compute.RenewInheritOps(t, entry.name, entry.Abs(), r, was) +
                                 Compute.RenewCaptureOps(t, entry.name, entry.Abs(), r, was))
    {
      ghost var o, n, e := ops, entry.name, entry.Abs();
      RenewInherit(t, entry, r, was, prev);
      RenewCapture(t, entry, r, was);
      Associates(o, Compute.RenewInheritOps(t, n, e, r, was), Compute.RenewCaptureOps(t, n, e, r, was));
    }

    /** `createFibUpdatesForUpdatedRoute`; the pointers that it dereferences are not null. */
    method CreateForUpdatedRoute(ghost t: Tree.Table, entry: Rib.RibEntry, r: Route, was: Route)
      requires Valid() && Stands(rib, t, entry)
      requires HasFace(entry.routes, r.faceId) && !Compute.DereferencesNull(entry.routes, r, was)
      modifies this
      ensures Valid() && unchanged(`batchFaceId)
      ensures ops == old(ops) + Compute.UpdatedRouteOps(t, entry.name, entry.Abs(), r, was)
    {
      var prev := entry.LowestCostOffer(r.faceId);
      if r.flags == was.flags && r.cost == was.cost { return; }
      ghost var o := ops;
      RenewOwn(entry, r, was, prev);
      RenewBelow(t, entry, r, was, prev, o);
    }

    /** What follows the next hop of the name itself; `o` was emitted before. */
    method RenewBelow(ghost t: Tree.Table, entry: Rib.RibEntry, r: Route, was: Route, prev: Option<Route>, ghost o: seq<Op>)
      requires Valid() && Stands(rib, t, entry) && prev == CheapestOffer(entry.routes, r.faceId)
      requires !(r.flags == was.flags && r.cost == was.cost)
      requires ops == o + Compute.RenewOwnOps(entry.name, entry.Abs(), r, was)
      modifies this
      ensures Valid() && unchanged(`batchFaceId)
      ensures ops == o + Compute.UpdatedRouteOps(t, entry.name, entry.Abs(), r, was)
    {
      if r.cost != was.cost && (prev.None? || r.cost <= prev.value.cost) && r.flags == was.flags && r.IsChildInherit() {
        ToChildren(t, entry, [r], []);
        UpdatedCost(o, t, entry.name, entry.Abs(), r, was);
      } else {
        RenewFlags(t, entry, r, was, prev);
        UpdatedFlags(o, t, entry.name, entry.Abs(), r, was);
      }
    }

    /** The loop that finds the children of a name that is not in the table yet. */
    method FindChildren(ghost t: Tree.Table, parent: Rib.RibEntry?, ds: seq<Rib.RibEntry>) returns (cs: seq<Rib.RibEntry>)
      requires Mirrors(rib, t) && rib.Linked() && (parent != null ==> rib.Owns(parent))
      requires forall d | d in ds :: rib.Owns(d)
      ensures Rib.NamesOf(cs) == Compute.FutureChildren(t, Rib.NameOf(parent), Rib.NamesOf(ds))
      ensures forall c | c in cs :: rib.Owns(c)
    {
      ghost var names, p := Rib.NamesOf(ds), Rib.NameOf(parent);
      cs := [];
      var i := 0;
      while i < |ds|
        invariant 0 <= i <= |ds| && forall c | c in cs :: rib.Owns(c)
        invariant Rib.NamesOf(cs) == Compute.FutureChildren(t, p, names[..i])
      {
        assert ds[i] in ds;
        ChildStep(rib, t, parent, ds, i, cs);
        if ds[i].parent == parent { cs := cs + [ds[i]]; }
        i := i + 1;
      }
      assert names[..i] == names;
    }

    /** The search for those children. */
    method FutureChildren(ghost s: Tree.Rib, n: Name) returns (cs: seq<Rib.RibEntry>)
      requires Sees(rib, s.table) && s.order == rib.order && Tree.OrderExact(s) && n !in rib.table
      ensures forall c | c in cs :: rib.Owns(c)
      ensures Rib.NamesOf(cs) == Compute.FutureChildren(s.table, ParentOf(s.table.Keys, n), Tree.Under(s.order, n))
    {
      SeesMirrors(rib, s.table);
      assert rib.table.Keys == s.table.Keys;
      var parent := rib.FindParent(n);
      var ds := rib.FindDescendantsForNonInsertedName(n);
      cs := FindChildren(s.table, parent, ds);
    }

    /** `computeUpdatesForRegistration` of a name that is not in the table. */
    method ComputeForNewName(ghost s: Tree.Rib, n: Name, r: Route)
      requires Valid() && Sees(rib, s.table) && s.order == rib.order && Tree.OrderExact(s) && n !in rib.table
      modifies this
      ensures Valid() && unchanged(`batchFaceId)
      ensures ops == old(ops) +
        Compute.NewEntryOps(s.table, n, r, Compute.FutureChildren(s.table, ParentOf(s.table.Keys, n), Tree.Under(s.order, n)))
    {
      var cs := FutureChildren(s, n);
      CreateForNewRibEntry(s.table, n, r, cs);
    }

    /** `computeUpdatesForRegistration` of a route that the entry already has. */
    method ComputeForKnownRoute(ghost t: Tree.Table, entry: Rib.RibEntry, r: Route, i: nat)
      requires Valid() && Stands(rib, t, entry) && i < |entry.routes| && entry.routes[i].SameFaceAndOrigin(r)
      requires !Compute.DereferencesNull(entry.routes[i := r], r, entry.routes[i])
      modifies this
      ensures Valid() && unchanged(`batchFaceId)
      ensures var e := entry.Abs();
        ops == old(ops) + Compute.UpdatedRouteOps(t, entry.name,
                e.(routes := e.routes[i := e.routes[i].(flags := r.flags, cost := r.cost)]), r, e.routes[i])
    {
      var copy := new Rib.RibEntry.Copy(entry);
      copy.routes := copy.routes[i := copy.routes[i].(flags := r.flags, cost := r.cost)];
      assert copy.routes[i] == r && r in copy.routes;
      CreateForUpdatedRoute(t, copy, r, entry.routes[i]);
    }

    /** `computeUpdatesForRegistration` of a name in the table. */
    method ComputeForKnownName(ghost t: Tree.Table, entry: Rib.RibEntry, r: Route)
      requires Valid() && Stands(rib, t, entry)
      requires var i := FindRoute(entry.routes, r);
        i < |entry.routes| ==> !Compute.DereferencesNull(entry.routes[i := r], r, entry.routes[i])
      modifies this
      ensures Valid() && unchanged(`batchFaceId)
      ensures ops == old(ops) + Compute.RegisterKnownOps(t, entry.name, entry.Abs(), r)
    {
      var i := entry.FindRouteIndex(r);
      if i == |entry.routes| {
        CreateForNewRoute(t, entry, r, entry.captureCount == 0 && r.IsCapture());
      } else {
        ComputeForKnownRoute(t, entry, r, i);
      }
    }

    /** The emissions for a route that goes and for the one that takes its place. */
    method ComputeForReplacement(ghost t: Tree.Table, temp: Rib.RibEntry, gone: Route, off: bool, next: Option<Route>)
      returns (ghost a: seq<Op>, ghost b: seq<Op>)
      requires Valid() && Stands(rib, t, temp)
      modifies this
      ensures Valid() && unchanged(`batchFaceId) && ops == old(ops) + a + b
      ensures a == Compute.ErasedRouteOps(t, temp.name, temp.Abs(), gone, off)
      ensures b == if next.Some? then Compute.NewRouteOps(t, temp.name, temp.Abs(), next.value, false) else []
    {
      CreateForErasedRoute(t, temp, gone, off);
      a, b := Compute.ErasedRouteOps(t, temp.name, temp.Abs(), gone, off), [];
      if next.Some? {
        CreateForNewRoute(t, temp, next.value, false);
        b := Compute.NewRouteOps(t, temp.name, temp.Abs(), next.value, false);
      }
    }

    /** A copy of the entry without one route. */
    method CopyWithout(ghost t: Tree.Table, entry: Rib.RibEntry, i: nat) returns (temp: Rib.RibEntry)
      requires Stands(rib, t, entry) && i < |entry.routes|
      ensures fresh(temp) && temp.name == entry.name && temp.Abs() == Tree.EraseRoute(entry.Abs(), i)
      ensures Stands(rib, t, temp)
    {
      temp := new Rib.RibEntry.Copy(entry);
      temp.EraseRouteAt(i);
    }

    /** `computeUpdatesForUnregistration` of a route that was found. */
    method ComputeForFoundRoute(ghost t: Tree.Table, entry: Rib.RibEntry, f: nat, i: nat)
      requires Valid() && Stands(rib, t, entry) && i < |entry.routes|
      modifies this
      ensures Valid() && unchanged(`batchFaceId)
      ensures ops == old(ops) + Compute.UnregisterFoundOps(t, entry.name, entry.Abs(), f, i)
    {
      ghost var o := ops;
      var temp := CopyWithout(t, entry, i);
      var off := entry.captureCount > 0 && temp.captureCount == 0;
      ghost var a, b;
      a, b := ComputeForReplacement(t, temp, entry.routes[i], off, SecondCheapest(entry.routes, f));
      ghost var c := ComputeForEmptied(entry);
      AssociatesFour(o, a, b, c);
      FoundParts(t, entry.name, entry.Abs(), f, i, a, b, c);
    }

    /** The last part of `computeUpdatesForUnregistration`: the entry is about to go. */
    method ComputeForEmptied(entry: Rib.RibEntry) returns (ghost c: seq<Op>)
      requires Valid()
      modifies this
      ensures Valid() && unchanged(`batchFaceId) && ops == old(ops) + c
      ensures c == if |entry.routes| == 1 then Compute.ErasedEntryOps(entry.name, entry.inherited) else []
    {
      c := [];
      if |entry.routes| == 1 {
        CreateForErasedRibEntry(entry);
        c := Compute.ErasedEntryOps(entry.name, entry.inherited);
      }
    }

    /** `computeUpdatesForRegistration`. */
    method ComputeForRegistration(ghost s: Tree.Rib, n: Name, r: Route)
      requires Valid() && Sees(rib, s.table) && s.order == rib.order && Tree.RibExact(s)
      requires Compute.Computable(s.table, Compute.Register(n, r))
      modifies this
      ensures Valid() && unchanged(`batchFaceId)
      ensures ops == old(ops) + Compute.RegisterOps(s, n, r)
    {
      if n in rib.table {
        assert rib.LinkedAt(n);
        OwnedStands(rib, s.table, rib.table[n]);
        ComputeForKnownName(s.table, rib.table[n], r);
      } else {
        ComputeForNewName(s, n, r);
      }
    }

    /** `computeUpdatesForUnregistration`. */
    method ComputeForUnregistration(ghost s: Tree.Rib, n: Name, r: Route)
      requires Valid() && Sees(rib, s.table) && s.order == rib.order && Tree.RibExact(s)
      modifies this
      ensures Valid() && unchanged(`batchFaceId)
      ensures ops == old(ops) + Compute.UnregisterOps(s, n, r)
    {
      if n in rib.table {
        assert rib.LinkedAt(n);
        OwnedStands(rib, s.table, rib.table[n]);
        var i := rib.table[n].FindRouteIndex(r);
        if i < |rib.table[n].routes| { ComputeForFoundRoute(s.table, rib.table[n], r.faceId, i); }
      }
    }

    /** `computeUpdates` before the list for a face that is gone is cleared. */
    method Dispatch(ghost s: Tree.Rib, u: Compute.RibUpdate)
      requires Valid() && Sees(rib, s.table) && s.order == rib.order && Tree.RibExact(s) && ops == []
      requires Compute.Computable(s.table, u)
      modifies this
      ensures Valid() && unchanged(`batchFaceId) && ops == Compute.UpdateOps(s, u)
    {
      NothingBefore(Compute.UpdateOps(s, u));
      match u {
        case Register(n, r) => ComputeForRegistration(s, n, r);
        case Unregister(n, r) => ComputeForUnregistration(s, n, r);
        case RemoveFace(n, r) => ComputeForUnregistration(s, n, r);
      }
    }

    /** `computeAndSendFibUpdates` up to the sending, for a batch of one update. Nothing is sent about a face
        that is gone. */
    method ComputeUpdates(ghost s: Tree.Rib, u: Compute.RibUpdate)
      requires rib.Linked() && s == rib.View() && Tree.RibExact(s) && Compute.Computable(s.table, u)
      modifies this
      ensures batchFaceId == u.route.faceId && ops == Compute.UpdateOps(s, u)
      ensures updatesForBatchFaceId == if u.RemoveFace? then [] else ListOf(batchFaceId, UpdatesOf(ops), true)
      ensures updatesForNonBatchFaceId == ListOf(batchFaceId, UpdatesOf(ops), false)
      ensures inheritedRoutes == RecordsOf(ops)
    {
      assert Sees(rib, s.table);
      Begin(u.route.faceId);
      Dispatch(s, u);
      if u.RemoveFace? { updatesForBatchFaceId := []; }
    }
  }
}
