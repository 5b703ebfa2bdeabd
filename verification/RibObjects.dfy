/**
 The RIB as linked objects that are changed in place: entries with parent and children references, and the
 table with its key order, face index and route count. Every method is proved against the value-level RIB.
 */
module RibObjects {
  import opened Wrappers
  import opened Names
  import opened Routes
  import Links = RibLinks
  import Tree = RibTree
  import Ops = FibOps
  import Compute = FibCompute
  import Records = FibRecords
  import Theorem = FibTheorem
  import Effects = FibCommit
  import Faces = FaceRemoval

  function NamesOf(es: seq<RibEntry>): (ns: seq<Name>)
    ensures |ns| == |es|
    ensures forall i | 0 <= i < |es| :: ns[i] == es[i].name
  {
    seq(|es|, i requires 0 <= i < |es| => es[i].name)
  }

  lemma NamesSnoc(es: seq<RibEntry>, e: RibEntry)
    ensures NamesOf(es + [e]) == NamesOf(es) + [e.name]
  {
  }

  lemma {:induction false} RemoveFirstAt(rs: seq<Route>, i: nat, f: nat)
    requires i < |rs| && rs[i].faceId == f && forall j | 0 <= j < i :: rs[j].faceId != f
    ensures RemoveFirst(rs, f) == rs[..i] + rs[i + 1..]
  {
    if i > 0 {
      RemoveFirstAt(rs[1..], i - 1, f);
      assert rs[..i] == [rs[0]] + rs[1..][..i - 1] && rs[1..][i..] == rs[i + 1..];
    }
  }

  class RibEntry {
    const name: Name
    var parent: RibEntry?
    var children: seq<RibEntry>
    var routes: seq<Route>
    var inherited: seq<Route>
    var captureCount: nat

    constructor (n: Name)
      ensures name == n && parent == null && children == []
      ensures routes == [] && inherited == [] && captureCount == 0
    {
      name := n;
      parent := null;
      children, routes, inherited := [], [], [];
      captureCount := 0;
    }

    /** A copy of an entry: the same links and routes, in no table. */
    constructor Copy(e: RibEntry)
      ensures name == e.name && parent == e.parent && children == e.children
      ensures Abs() == e.Abs()
    {
      name, parent, children := e.name, e.parent, e.children;
      routes, inherited, captureCount := e.routes, e.inherited, e.captureCount;
    }

    /** The entry as a value: links by name. */
    ghost function Abs(): (e: Links.Entry<Name>)
      reads this
    {
      Links.Entry(routes, inherited, if parent == null then None else Some(parent.name), NamesOf(children), captureCount)
    }

    /** `findRoute`: the first route with the same face and origin. */
    method FindRouteIndex(r: Route) returns (i: nat)
      ensures i == FindRoute(routes, r)
    {
      i := 0;
      while i < |routes| && !routes[i].SameFaceAndOrigin(r)
        invariant i <= |routes|
        invariant i + FindRoute(routes[i..], r) == FindRoute(routes, r)
      {
        assert routes[i..][1..] == routes[i + 1..];
        i := i + 1;
      }
    }

    /** `insertRoute`: a route with a known face and origin is not inserted. */
    method InsertRoute(r: Route) returns (i: nat, inserted: bool)
      modifies this`routes, this`captureCount
      ensures i == FindRoute(old(routes), r) && inserted == (i == |old(routes)|)
      ensures !inserted ==> routes == old(routes) && captureCount == old(captureCount)
      ensures inserted ==> routes == old(routes) + [r]
      ensures inserted ==> captureCount == old(captureCount) + if r.IsCapture() then 1 else 0
    {
      i := FindRouteIndex(r);
      inserted := i == |routes|;
      if inserted {
        if r.IsCapture() { captureCount := captureCount + 1; }
        routes := routes + [r];
      }
    }

    /** The route list as `insert` changes it: a new route, or new flags and cost of a known one. */
    method PutRoute(r: Route) returns (inserted: bool)
      modifies this`routes, this`captureCount
      ensures inserted == (FindRoute(old(routes), r) == |old(routes)|)
      ensures Abs() == Tree.EntryWithRoute(old(Abs()), r)
      ensures inserted ==> routes == old(routes) + [r]
      ensures inserted ==> captureCount == old(captureCount) + if r.IsCapture() then 1 else 0
      ensures !inserted ==> routes == old(routes)[FindRoute(old(routes), r) := r] && captureCount == old(captureCount)
    {
      var i;
      i, inserted := InsertRoute(r);
      if !inserted {
        // The counter is not touched, also when the capture flag changes.
        routes := routes[i := routes[i].(flags := r.flags, cost := r.cost)];
      }
    }

    /** `eraseRoute` at a position; the counter is a 64-bit unsigned number. */
    method EraseRouteAt(i: nat)
      requires i < |routes|
      modifies this`routes, this`captureCount
      ensures Abs() == Tree.EraseRoute(old(Abs()), i)
      ensures routes == old(routes)[..i] + old(routes)[i + 1..]
      ensures captureCount == if !old(routes)[i].IsCapture() then old(captureCount)
                              else if old(captureCount) == 0 then 0xFFFF_FFFF_FFFF_FFFF else old(captureCount) - 1
    {
      if routes[i].IsCapture() { captureCount := Tree.Decrement(captureCount); }
      routes := routes[..i] + routes[i + 1..];
    }

    method HasFaceId(f: nat) returns (b: bool)
      ensures b == HasFace(routes, f)
    {
      b := false;
      var i := 0;
      while i < |routes|
        invariant i <= |routes|
        invariant b == HasFace(routes[..i], f)
      {
        assert routes[..i + 1] == routes[..i] + [routes[i]];
        b := b || routes[i].faceId == f;
        i := i + 1;
      }
      assert routes[..i] == routes;
    }

    /** `hasInheritedRoute`: a record on the face. */
    method HasInheritedRoute(f: nat) returns (b: bool)
      ensures b == HasFace(inherited, f)
    {
      b := false;
      var i := 0;
      while i < |inherited|
        invariant 0 <= i <= |inherited|
        invariant b == HasFace(inherited[..i], f)
      {
        assert inherited[..i + 1] == inherited[..i] + [inherited[i]];
        b := b || inherited[i].faceId == f;
        i := i + 1;
      }
      assert inherited[..i] == inherited;
    }

    method HasChildInheritOnFaceId(f: nat) returns (b: bool)
      ensures b == HasChildInherit(routes, f)
    {
      b := false;
      var i := 0;
      while i < |routes| && !b
        invariant 0 <= i <= |routes|
        invariant b == HasChildInherit(routes[..i], f)
      {
        assert routes[..i + 1] == routes[..i] + [routes[i]];
        b := routes[i].faceId == f && routes[i].IsChildInherit();
        i := i + 1;
      }
      assert b ==> HasChildInherit(routes, f);
      assert !b ==> routes[..i] == routes;
    }

    /** `getRouteWithLowestCostByFaceId`. */
    method LowestCost(f: nat) returns (best: Option<Route>)
      ensures best == Cheapest(routes, f)
    {
      best := None;
      var i := 0;
      while i < |routes|
        invariant 0 <= i <= |routes|
        invariant best == Cheapest(routes[..i], f)
      {
        assert routes[..i + 1][..i] == routes[..i];
        if routes[i].faceId == f && (best.None? || routes[i].cost < best.value.cost) { best := Some(routes[i]); }
        i := i + 1;
      }
      assert routes[..i] == routes;
    }

    /** `getRouteWithLowestCostAndChildInheritByFaceId`. */
    method LowestCostOffer(f: nat) returns (best: Option<Route>)
      ensures best == CheapestOffer(routes, f)
    {
      best := None;
      var i := 0;
      while i < |routes|
        invariant 0 <= i <= |routes|
        invariant best == CheapestOffer(routes[..i], f)
      {
        assert routes[..i + 1][..i] == routes[..i];
        if routes[i].faceId == f && routes[i].IsChildInherit() && (best.None? || routes[i].cost < best.value.cost) {
          best := Some(routes[i]);
        }
        i := i + 1;
      }
      assert routes[..i] == routes;
    }

    /** The inner loop of `getAncestorRoutes`: child-inherit routes join a route set in list order. */
    method CollectOffers(acc: seq<Route>) returns (rs: seq<Route>)
      requires Ops.IsRouteSet(acc)
      ensures rs == Compute.InsertOffers(acc, routes)
    {
      rs := acc;
      var i := 0;
      while i < |routes|
        invariant 0 <= i <= |routes|
        invariant rs == Compute.InsertOffers(acc, routes[..i])
      {
        assert routes[..i + 1][..i] == routes[..i];
        if routes[i].IsChildInherit() { rs := Ops.InsertRoute(rs, routes[i]); }
        i := i + 1;
      }
      assert routes[..i] == routes;
    }

    /** `removeInheritedRoute`: the first record on the face. */
    method RemoveInherited(r: Route)
      requires HasFace(inherited, r.faceId)
      modifies this`inherited
      ensures inherited == RemoveFirst(old(inherited), r.faceId)
    {
      var i := 0;
      ghost var x :| x in inherited && x.faceId == r.faceId;
      ghost var k :| 0 <= k < |inherited| && inherited[k] == x;
      while inherited[i].faceId != r.faceId
        invariant 0 <= i <= k
        invariant forall j | 0 <= j < i :: inherited[j].faceId != r.faceId
        decreases |inherited| - i
      {
        i := i + 1;
      }
      RemoveFirstAt(inherited, i, r.faceId);
      inherited := inherited[..i] + inherited[i + 1..];
    }

    /** `addChild`; the assertion of the source is the first precondition. */
    method AddChild(child: RibEntry)
      requires child.parent == null && child != this
      modifies this`children, child`parent
      ensures children == old(children) + [child] && child.parent == this
    {
      child.parent := this;
      children := children + [child];
    }

    /** `removeChild`; the assertion of the source is the first precondition. */
    method RemoveChild(child: RibEntry)
      requires child.parent == this && child != this
      modifies this`children, child`parent
      ensures child.parent == null
      ensures children == WithoutEntry(old(children), child)
      ensures forall x :: x in children <==> x in old(children) && x != child
    {
      forall x ensures x in WithoutEntry(children, child) <==> x in children && x != child {
        WithoutEntryMembers(children, child, x);
      }
      child.parent := null;
      children := WithoutEntry(children, child);
    }
  }

  /** `std::list::remove` on a list of entries. */
  function WithoutEntry(es: seq<RibEntry>, e: RibEntry): (r: seq<RibEntry>)
    ensures forall x :: x in r ==> x in es
  {
    if es == [] then []
    else
      var front, last := es[..|es| - 1], es[|es| - 1];
      if last == e then WithoutEntry(front, e) else WithoutEntry(front, e) + [last]
  }

  lemma {:induction false} WithoutEntryMembers(es: seq<RibEntry>, e: RibEntry, x: RibEntry)
    ensures x in WithoutEntry(es, e) <==> x in es && x != e
  {
    if es != [] {
      assert es == es[..|es| - 1] + [es[|es| - 1]];
      WithoutEntryMembers(es[..|es| - 1], e, x);
    }
  }

  /** Where names identify entries, removal by reference is removal by name. */
  lemma {:induction false} WithoutEntryNames(es: seq<RibEntry>, e: RibEntry)
    requires forall x | x in es :: x.name == e.name ==> x == e
    ensures NamesOf(WithoutEntry(es, e)) == Links.Without(NamesOf(es), e.name)
  {
    if es != [] {
      var front, last := es[..|es| - 1], es[|es| - 1];
      assert es == front + [last];
      WithoutEntryNames(front, e);
      NamesOfSnoc(front, last);
      NamesOfSnoc(WithoutEntry(front, e), last);
      WithoutSnoc(NamesOf(front), last.name, e.name);
      assert last.name == e.name <==> last == e;
    }
  }

  lemma NamesOfSnoc(es: seq<RibEntry>, last: RibEntry)
    ensures NamesOf(es + [last]) == NamesOf(es) + [last.name]
  {
  }

  lemma WithoutSnoc(ns: seq<Name>, last: Name, n: Name)
    ensures Links.Without(ns + [last], n) == Links.Without(ns, n) + if last == n then [] else [last]
  {
    assert (ns + [last])[..|ns|] == ns;
  }

  function WithoutName(ns: seq<Name>, n: Name): (r: seq<Name>)
    ensures r == Links.Without(ns, n)
  {
    if ns == [] then []
    else
      var front, last := ns[..|ns| - 1], ns[|ns| - 1];
      if last == n then WithoutName(front, n) else WithoutName(front, n) + [last]
  }

  /** In an exact tree the links of an entry name entries of the table. */
  lemma LinksStay(t: Tree.Table, n: Name, e: RibEntry)
    requires Tree.TreeExact(t) && n in t
    requires t[n].parent == NameOf(e.parent) && t[n].children == NamesOf(e.children)
    ensures e.parent != null ==> e.parent.name in t
    ensures forall c | c in e.children :: c.name in t
  {
    forall c | c in e.children ensures c.name in t {
      var i :| 0 <= i < |e.children| && e.children[i] == c;
      assert NamesOf(e.children)[i] == c.name;
      assert Links.LinkExact(t, n, c.name);
    }
  }

  // ----- the face index by reference and by name -----

  function IndexNames(m: map<nat, seq<RibEntry>>): (r: map<nat, seq<Name>>) {
    map f | f in m :: NamesOf(m[f])
  }

  function ListedOn(m: map<nat, seq<RibEntry>>, f: nat): (es: seq<RibEntry>) { if f in m then m[f] else [] }

  lemma IndexAddNames(m: map<nat, seq<RibEntry>>, f: nat, e: RibEntry)
    ensures IndexNames(m[f := ListedOn(m, f) + [e]]) == Tree.IndexAdd(IndexNames(m), f, e.name)
  {
    assert NamesOf(ListedOn(m, f) + [e]) == NamesOf(ListedOn(m, f)) + [e.name];
    assert f !in m ==> NamesOf([]) == [];
  }

  lemma IndexRemoveNames(m: map<nat, seq<RibEntry>>, f: nat, e: RibEntry)
    requires forall x | x in ListedOn(m, f) :: x.name == e.name ==> x == e
    ensures IndexNames(m[f := WithoutEntry(ListedOn(m, f), e)]) == Tree.IndexRemove(IndexNames(m), f, e.name)
  {
    WithoutEntryNames(ListedOn(m, f), e);
    assert f !in m ==> NamesOf([]) == [];
  }

  function NameOf(e: RibEntry?): (n: Option<Name>) { if e == null then None else Some(e.name) }

  lemma ValuesAfterPut(m: map<Name, RibEntry>, n: Name, e: RibEntry)
    ensures m[n := e].Values <= m.Values + {e}
  {
  }

  lemma RemovalsStep(t: Tree.Table, ns: seq<Name>, i: nat, f: nat)
    requires i < |ns| && ns[i] in t
    ensures Faces.RemovalsFor(t, ns[..i + 1], f) ==
            Faces.RemovalsFor(t, ns[..i], f) + Faces.RemovalsAt(ns[i], Faces.RoutesOn(t[ns[i]].routes, f))
  {
    assert ns[..i + 1][..i] == ns[..i];
  }

  /** The queue after batches joined it and, unless one is in progress, the oldest was taken. */
  predicate Advanced(all: seq<Compute.RibUpdate>, inProgress: bool, q: seq<Compute.RibUpdate>, p: bool,
                     batch: Option<Compute.RibUpdate>)
  {
    if all == [] || inProgress then batch == None && q == all && p == inProgress
    else batch == Some(all[0]) && q == all[1..] && p
  }

  /** No batch is lost, and they are taken in the order they joined: exactly when none is in progress and one waits, the
      oldest is taken, and then one is in progress. */
  lemma AdvancedIff(all: seq<Compute.RibUpdate>, inProgress: bool, q: seq<Compute.RibUpdate>, p: bool,
                    batch: Option<Compute.RibUpdate>)
    ensures Advanced(all, inProgress, q, p, batch) <==>
            && all == (if batch.Some? then [batch.value] else []) + q
            && (batch.Some? <==> all != [] && !inProgress) && (p <==> inProgress || batch.Some?)
  {
    if batch.Some? { assert ([batch.value] + q)[1..] == q; } else { assert [] + q == q; }
    if all != [] { assert [all[0]] + all[1..] == all; }
  }

  /** The batches of the RIB that wait, each of one update, and whether one is with the FIB updater. */
  class UpdateQueue {
    var updateBatches: seq<Compute.RibUpdate>
    var isUpdateInProgress: bool

    constructor ()
      ensures updateBatches == [] && !isUpdateInProgress
    {
      updateBatches, isUpdateInProgress := [], false;
    }

    /** `sendBatchFromQueue`: the batch that goes to the FIB updater, if any. */
    method SendBatchFromQueue() returns (batch: Option<Compute.RibUpdate>)
      modifies this
      ensures Advanced(old(updateBatches), old(isUpdateInProgress), updateBatches, isUpdateInProgress, batch)
    {
      if updateBatches == [] || isUpdateInProgress { return None; }
      isUpdateInProgress := true;
      batch := Some(updateBatches[0]);
      updateBatches := updateBatches[1..];
    }

    /** `beginApplyUpdate`. */
    method BeginApplyUpdate(u: Compute.RibUpdate) returns (batch: Option<Compute.RibUpdate>)
      modifies this
      ensures Advanced(old(updateBatches) + [u], old(isUpdateInProgress), updateBatches, isUpdateInProgress, batch)
    {
      updateBatches := updateBatches + [u];
      batch := SendBatchFromQueue();
    }

    /** `addUpdateToQueue` for several updates, and `sendBatchFromQueue`. */
    method AddAll(us: seq<Compute.RibUpdate>) returns (batch: Option<Compute.RibUpdate>)
      modifies this
      ensures Advanced(old(updateBatches) + us, old(isUpdateInProgress), updateBatches, isUpdateInProgress, batch)
    {
      updateBatches := updateBatches + us;
      batch := SendBatchFromQueue();
    }

    /** The end of a batch, applied or failed: the slot is free, and the next batch starts. */
    method Advance() returns (batch: Option<Compute.RibUpdate>)
      modifies this
      ensures Advanced(old(updateBatches), false, updateBatches, isUpdateInProgress, batch)
    {
      isUpdateInProgress := false;
      batch := SendBatchFromQueue();
    }
  }

  class Rib {
    var table: map<Name, RibEntry>
    var order: seq<Name>
    var faceMap: map<nat, seq<RibEntry>>
    var nItems: nat
    const queue: UpdateQueue

    constructor ()
      ensures Valid() && View() == Tree.Empty
      ensures fresh(queue) && queue.updateBatches == [] && !queue.isUpdateInProgress
    {
      table, order, faceMap, nItems := map[], [], map[], 0;
      queue := new UpdateQueue();
      new;
      Tree.EmptyIsExact();
    }

    ghost predicate Owns(e: RibEntry)
      reads this`table
    {
      e.name in table && table[e.name] == e
    }

    ghost predicate LinkedAt(n: Name)
      requires n in table
      reads this`table, table[n]
    {
      var e := table[n];
      && e.name == n
      && (e.parent != null ==> Owns(e.parent))
      && (forall c | c in e.children :: Owns(c))
    }

    /** Every link of an entry leads to an entry of the table. */
    ghost predicate Linked()
      reads this`table, table.Values
    {
      forall n | n in table :: LinkedAt(n)
    }

    /** The sorted keys are the names of the table. */
    ghost predicate Ordered()
      reads this`table, this`order
    {
      (forall n :: n in order <==> n in table) && Tree.Sorted(order)
    }

    ghost predicate IndexedAt(f: nat)
      reads this`table, this`faceMap
    {
      forall e | e in ListedOn(faceMap, f) :: Owns(e)
    }

    /** Every reference in the face index leads to an entry of the table. */
    ghost predicate Indexed()
      reads this`table, this`faceMap
    {
      forall f :: IndexedAt(f)
    }

    ghost function TableView(): (t: Tree.Table)
      reads this`table, table.Values
    {
      map n | n in table :: table[n].Abs()
    }

    /** The RIB as a value. */
    ghost function View(): (s: Tree.Rib)
      reads this, table.Values
    {
      Tree.Rib(TableView(), order, IndexNames(faceMap), nItems)
    }

    ghost predicate Valid()
      reads this, table.Values
    {
      Linked() && Indexed() && Tree.RibExact(View())
    }

    /** `findParent`. */
    method FindParent(prefix: Name) returns (e: RibEntry?)
      requires Linked()
      ensures NameOf(e) == ParentOf(table.Keys, prefix)
      ensures e != null ==> Owns(e)
    {
      var i := |prefix|;
      while i > 0
        invariant 0 <= i <= |prefix|
        invariant Longest(table.Keys, prefix, |prefix|) == Longest(table.Keys, prefix, i)
      {
        i := i - 1;
        if prefix[..i] in table {
          assert LinkedAt(prefix[..i]);
          return table[prefix[..i]];
        }
      }
      return null;
    }

    /** Where a name is in the key order. */
    method Locate(prefix: Name) returns (i: nat)
      requires prefix in order
      ensures i < |order| && order[i] == prefix
    {
      i := 0;
      while order[i] != prefix
        invariant 0 <= i < |order|
        invariant prefix in order[i..]
        decreases |order| - i
      {
        i := i + 1;
      }
    }

    /** The loop of `findDescendants` from a position in the key order. */
    method ScanFrom(prefix: Name, start: nat) returns (ds: seq<RibEntry>)
      requires Linked() && start <= |order| && forall n | n in order :: n in table
      ensures NamesOf(ds) == Tree.Scan(order, prefix, start)
      ensures forall d | d in ds :: Owns(d)
    {
      ds := [];
      var i := start;
      while i < |order| && prefix <= order[i]
        invariant start <= i <= |order|
        invariant NamesOf(ds) + Tree.Scan(order, prefix, i) == Tree.Scan(order, prefix, start)
        invariant forall d | d in ds :: Owns(d)
      {
        assert order[i] in order && LinkedAt(order[i]);
        NamesSnoc(ds, table[order[i]]);
        Tree.ScanStep(NamesOf(ds), order, prefix, i);
        ds := ds + [table[order[i]]];
        i := i + 1;
      }
      Tree.ScanEnds(NamesOf(ds), order, prefix, i);
    }

    /** `findDescendants`: the entries after a name of the table while they still extend it; none for another name. */
    method FindDescendants(prefix: Name) returns (ds: seq<RibEntry>)
      requires Linked() && Ordered()
      ensures NamesOf(ds) == if prefix in table then Tree.Under(order, prefix) else []
      ensures forall d | d in ds :: Owns(d)
      ensures forall i | 0 <= i < |ds| :: Owns(ds[i])
    {
      if prefix !in table { return []; }
      var i := Locate(prefix);
      Tree.AfterInOrder(order, i);
      Tree.ScanIsUnder(order, prefix, i + 1);
      ds := ScanFrom(prefix, i + 1);
    }

    /** `findDescendantsForNonInsertedName`: the whole table is filtered. A name of the table is listed itself. */
    method FindDescendantsForNonInsertedName(prefix: Name) returns (ds: seq<RibEntry>)
      requires Linked() && forall n | n in order :: n in table
      ensures NamesOf(ds) == Tree.Extensions(order, prefix)
      ensures prefix !in order ==> NamesOf(ds) == Tree.Under(order, prefix)
      ensures forall d | d in ds :: Owns(d)
    {
      ds := [];
      var i := 0;
      while i < |order|
        invariant 0 <= i <= |order|
        invariant NamesOf(ds) == Tree.Extensions(order[..i], prefix)
        invariant forall d | d in ds :: Owns(d)
      {
        assert order[..i + 1][..i] == order[..i];
        assert order[i] in order && LinkedAt(order[i]);
        if prefix <= order[i] {
          NamesSnoc(ds, table[order[i]]);
          ds := ds + [table[order[i]]];
        }
        i := i + 1;
      }
      assert order[..i] == order;
      if prefix !in order { Tree.ExtensionsElsewhere(order, prefix); }
    }

    /** `addChild` between two entries of the table. */
    method Link(p: RibEntry, c: RibEntry)
      requires Linked() && Owns(p) && Owns(c) && p != c && c.parent == null
      modifies table.Values
      ensures Linked() && unchanged(this)
      ensures TableView() == Links.AddChild(old(TableView()), p.name, c.name)
    {
      assert LinkedAt(p.name) && LinkedAt(c.name);
      p.AddChild(c);
      assert NamesOf(p.children) == NamesOf(old(p.children)) + [c.name];
      forall n | n in table ensures LinkedAt(n) { assert old(LinkedAt(n)); }
    }

    /** `removeChild` between two entries of the table. */
    method Unlink(p: RibEntry, c: RibEntry)
      requires Linked() && Owns(p) && Owns(c) && p != c && c.parent == p
      modifies table.Values
      ensures Linked() && unchanged(this)
      ensures TableView() == Links.RemoveChild(old(TableView()), p.name, c.name)
    {
      assert LinkedAt(p.name) && LinkedAt(c.name);
      ghost var t := Links.RemoveChild(TableView(), p.name, c.name);
      CutChild(p, c);
      forall n | n in table ensures LinkedAt(n) {
        assert old(LinkedAt(n));
        if n == p.name {
          forall x | x in p.children ensures Owns(x) { assert x in old(p.children); }
        }
      }
      forall n | n in table ensures table[n].Abs() == t[n] {
        assert old(LinkedAt(n));
        if n != p.name && n != c.name { assert table[n] != p && table[n] != c; }
      }
      assert TableView() == t;
    }

    /** `removeChild`, by name. */
    method CutChild(p: RibEntry, c: RibEntry)
      requires c.parent == p && c != p && forall x | x in p.children :: x.name == c.name ==> x == c
      modifies p`children, c`parent
      ensures c.parent == null && NamesOf(p.children) == Links.Without(NamesOf(old(p.children)), c.name)
      ensures forall x | x in p.children :: x in old(p.children)
    {
      WithoutEntryNames(p.children, c);
      p.RemoveChild(c);
    }

    /** One descendant of a new entry: taken over from the entry's parent if that was its parent. */
    method AdoptOne(entry: RibEntry, parent: RibEntry?, child: RibEntry)
      requires Linked() && Owns(entry) && Owns(child) && child.name != entry.name
      requires parent != null ==> Owns(parent) && parent.name != entry.name && parent.name != child.name
      modifies table.Values
      ensures Linked() && unchanged(this)
      ensures TableView() == Links.Adopt(old(TableView()), NameOf(parent), entry.name, child.name)
    {
      assert LinkedAt(child.name);
      if child.parent == parent {
        if parent != null { Unlink(parent, child); }
        assert TableView()[child.name].parent == None;
        Link(entry, child);
      }
    }

    /** The loop of `insert` over the descendants of the new entry. */
    method AdoptAll(entry: RibEntry, parent: RibEntry?, ds: seq<RibEntry>)
      requires Linked() && Owns(entry) && (parent != null ==> Owns(parent))
      requires forall i | 0 <= i < |ds| :: Owns(ds[i])
      requires Links.CanAdopt(TableView(), NameOf(parent), entry.name, NamesOf(ds))
      modifies table.Values
      ensures Linked() && unchanged(this)
      ensures TableView() == Links.AdoptAll(old(TableView()), NameOf(parent), entry.name, NamesOf(ds))
    {
      ghost var t0, p, names := TableView(), NameOf(parent), NamesOf(ds);
      var i := 0;
      while i < |ds|
        invariant 0 <= i <= |ds|
        invariant Linked() && Links.CanAdopt(t0, p, entry.name, names[..i])
        invariant TableView() == Links.AdoptAll(t0, p, entry.name, names[..i])
      {
        Links.AdoptSnoc(t0, p, entry.name, names, i);
        AdoptOne(entry, parent, ds[i]);
        i := i + 1;
      }
      assert names[..i] == names;
    }

    /** One child of an erased entry: handed to the entry's parent. */
    method OrphanOne(entry: RibEntry, parent: RibEntry?, child: RibEntry)
      requires Linked() && Owns(entry) && Owns(child) && child.name != entry.name
      requires TableView()[child.name].parent == Some(entry.name)
      requires parent != null ==> Owns(parent) && parent.name != entry.name && parent.name != child.name
      modifies table.Values
      ensures Linked() && unchanged(this)
      ensures TableView() == Links.Orphan(old(TableView()), NameOf(parent), entry.name, child.name)
    {
      assert LinkedAt(child.name);
      Unlink(entry, child);
      assert TableView()[child.name].parent == None;
      if parent != null { Link(parent, child); }
    }

    /** The loop of `eraseEntry` over the children of the erased entry. */
    method OrphanAll(entry: RibEntry, parent: RibEntry?, ds: seq<RibEntry>)
      requires Linked() && Owns(entry) && (parent != null ==> Owns(parent))
      requires forall i | 0 <= i < |ds| :: Owns(ds[i])
      requires Links.CanOrphan(TableView(), NameOf(parent), entry.name, NamesOf(ds))
      modifies table.Values
      ensures Linked() && unchanged(this)
      ensures TableView() == Links.OrphanAll(old(TableView()), NameOf(parent), entry.name, NamesOf(ds))
    {
      ghost var t0, p, names := TableView(), NameOf(parent), NamesOf(ds);
      var i := 0;
      while i < |ds|
        invariant 0 <= i <= |ds|
        invariant Linked() && Links.CanOrphan(t0, p, entry.name, names[..i])
        invariant TableView() == Links.OrphanAll(t0, p, entry.name, names[..i])
      {
        Links.OrphanSnoc(t0, p, entry.name, names, i);
        OrphanOne(entry, parent, ds[i]);
        i := i + 1;
      }
      assert names[..i] == names;
    }

    /** Registers an entry with the face lookup table. */
    method IndexEntry(f: nat, entry: RibEntry)
      requires Indexed() && Owns(entry)
      modifies this`faceMap
      ensures Indexed() && IndexNames(faceMap) == Tree.IndexAdd(old(IndexNames(faceMap)), f, entry.name)
    {
      IndexAddNames(faceMap, f, entry);
      faceMap := faceMap[f := ListedOn(faceMap, f) + [entry]];
      forall g ensures IndexedAt(g) { assert old(IndexedAt(g)); }
    }

    /** A route of an entry is counted and indexed. */
    method CountRoute(f: nat, entry: RibEntry)
      requires Linked() && Indexed() && Owns(entry)
      modifies this`nItems, this`faceMap
      ensures Linked() && Indexed() && Owns(entry) && TableView() == old(TableView()) && nItems == old(nItems) + 1
      ensures IndexNames(faceMap) == Tree.IndexAdd(old(IndexNames(faceMap)), f, entry.name)
    {
      nItems := nItems + 1;
      IndexEntry(f, entry);
    }

    /** Unregisters an entry from the face lookup table. */
    method UnindexEntry(f: nat, entry: RibEntry)
      requires Indexed() && Owns(entry)
      modifies this`faceMap
      ensures Indexed() && IndexNames(faceMap) == Tree.IndexRemove(old(IndexNames(faceMap)), f, entry.name)
    {
      assert IndexedAt(f);
      IndexRemoveNames(faceMap, f, entry);
      faceMap := faceMap[f := WithoutEntry(ListedOn(faceMap, f), entry)];
      forall g ensures IndexedAt(g) { assert old(IndexedAt(g)); }
    }

    /** A change of one entry that leaves its links alone. */
    twostate lemma EntryEdited(entry: RibEntry)
      requires old(Linked()) && old(Owns(entry)) && table == old(table)
      requires entry.parent == old(entry.parent) && entry.children == old(entry.children)
      requires forall n | n in table && n != entry.name :: unchanged(table[n])
      ensures Linked() && TableView() == old(TableView())[entry.name := entry.Abs()]
    {
      forall n | n in table ensures LinkedAt(n) && (n != entry.name ==> table[n].Abs() == old(table[n].Abs())) {
        assert old(LinkedAt(n));
      }
    }

    /** `insert` under a name that is in the table. */
    method InsertKnown(prefix: Name, route: Route)
      requires Linked() && Indexed() && prefix in table
      modifies this`nItems, this`faceMap, table[prefix]
      ensures Linked() && Indexed() && View() == Tree.InsertAtKnown(old(View()), prefix, route)
    {
      var inserted := PutKnown(table[prefix], route);
      if inserted { CountRoute(route.faceId, table[prefix]); }
    }

    /** The route list of an entry of the table after `insert`. */
    method PutKnown(entry: RibEntry, route: Route) returns (inserted: bool)
      requires Linked() && Indexed() && Owns(entry)
      modifies entry
      ensures Linked() && Indexed() && inserted == (FindRoute(old(entry.routes), route) == |old(entry.routes)|)
      ensures TableView() == old(TableView())[entry.name := Tree.EntryWithRoute(old(entry.Abs()), route)]
    {
      assert LinkedAt(entry.name);
      inserted := entry.PutRoute(route);
      EntryEdited(entry);
      forall f ensures IndexedAt(f) { assert old(IndexedAt(f)); }
    }

    /** A new entry with one route, in no table yet. */
    method NewEntry(prefix: Name, route: Route) returns (entry: RibEntry)
      ensures fresh(entry) && entry.name == prefix && entry.parent == null && entry.children == []
      ensures entry.Abs() == Tree.NewEntry(route)
    {
      entry := new RibEntry(prefix);
      var inserted := entry.PutRoute(route);
      assert [] + [route] == [route];
    }

    /** A new entry with one route enters the table, unlinked. */
    method Emplace(prefix: Name, route: Route) returns (entry: RibEntry)
      requires Linked() && Indexed() && prefix !in table
      modifies this`table, this`order
      ensures Linked() && Indexed() && Owns(entry) && fresh(entry) && entry.name == prefix && entry.parent == null
      ensures table == old(table)[prefix := entry] && order == Tree.InsertSorted(old(order), prefix)
      ensures unchanged(`faceMap) && unchanged(`nItems)
      ensures TableView() == old(TableView())[prefix := Tree.NewEntry(route)]
    {
      entry := NewEntry(prefix, route);
      table := table[prefix := entry];
      order := Tree.InsertSorted(order, prefix);
      forall n | n in table ensures LinkedAt(n) { if n != prefix { assert old(LinkedAt(n)); } }
      forall f ensures IndexedAt(f) { assert old(IndexedAt(f)); }
    }

    /** A new entry, and the parent it will have. */
    method EmplaceUnder(prefix: Name, route: Route) returns (entry: RibEntry, parent: RibEntry?)
      requires Linked() && Indexed() && prefix !in table
      modifies this`table, this`order
      ensures Linked() && Indexed() && Owns(entry) && fresh(entry) && entry.name == prefix && entry.parent == null
      ensures table == old(table)[prefix := entry] && order == Tree.InsertSorted(old(order), prefix)
      ensures unchanged(`faceMap) && unchanged(`nItems)
      ensures TableView() == old(TableView())[prefix := Tree.NewEntry(route)]
      ensures NameOf(parent) == ParentOf(old(TableView()).Keys, prefix)
      ensures parent != null ==> Owns(parent) && parent != entry
    {
      ghost var t0 := TableView();
      entry := Emplace(prefix, route);
      parent := FindParent(prefix);
      assert table.Keys == t0.Keys + {prefix};
      ParentAfterInsert(t0.Keys, prefix, prefix);
    }

    /** The first half of `insert` under a new name: the entry is created and linked below its parent. */
    method Root(prefix: Name, route: Route) returns (entry: RibEntry, parent: RibEntry?)
      requires Linked() && Indexed() && prefix !in table
      modifies this`table, this`order, table.Values
      ensures Linked() && Indexed() && Owns(entry) && fresh(entry) && entry.name == prefix
      ensures table == old(table)[prefix := entry] && order == Tree.InsertSorted(old(order), prefix)
      ensures unchanged(`faceMap) && unchanged(`nItems)
      ensures NameOf(parent) == ParentOf(old(TableView()).Keys, prefix) && (parent != null ==> Owns(parent))
      ensures TableView() == Links.Rooted(old(TableView()), NameOf(parent), prefix, Tree.NewEntry(route))
    {
      entry, parent := EmplaceUnder(prefix, route);
      if parent != null { Link(parent, entry); }
    }

    /** The second half: the entry takes over those of its parent's children that extend it. */
    method TakeOver(entry: RibEntry, parent: RibEntry?, ghost ds: seq<Name>)
      requires Linked() && Owns(entry) && (parent != null ==> Owns(parent))
      requires Ordered()
      requires ds == Tree.Under(order, entry.name) && Links.CanAdopt(TableView(), NameOf(parent), entry.name, ds)
      modifies table.Values
      ensures Linked() && unchanged(this)
      ensures TableView() == Links.AdoptAll(old(TableView()), NameOf(parent), entry.name, ds)
    {
      var descendants := FindDescendants(entry.name);
      assert NamesOf(descendants) == ds;
      AdoptAll(entry, parent, descendants);
    }

    /** The bookkeeping of `insert` under a new name, up to the search for descendants. */
    method Enter(prefix: Name, route: Route) returns (entry: RibEntry, parent: RibEntry?)
      requires Linked() && Indexed() && prefix !in table
      modifies this, table.Values
      ensures Linked() && Indexed() && Owns(entry) && fresh(entry) && entry.name == prefix
      ensures table == old(table)[prefix := entry]
      ensures NameOf(parent) == ParentOf(old(TableView()).Keys, prefix) && (parent != null ==> Owns(parent))
      ensures TableView() == Links.Rooted(old(TableView()), NameOf(parent), prefix, Tree.NewEntry(route))
      ensures order == Tree.InsertSorted(old(order), prefix) && nItems == old(nItems) + 1
      ensures IndexNames(faceMap) == Tree.IndexAdd(old(IndexNames(faceMap)), route.faceId, prefix)
    {
      entry, parent := Root(prefix, route);
      CountRoute(route.faceId, entry);
    }

    /** Both halves; `ds` are the names under the new one. */
    method Plant(prefix: Name, route: Route, ghost p: Option<Name>, ghost ds: seq<Name>) returns (entry: RibEntry)
      requires Linked() && Indexed() && prefix !in table && p == ParentOf(TableView().Keys, prefix)
      requires (p.Some? ==> p.value in TableView()) && Tree.Sorted(Tree.InsertSorted(order, prefix))
      requires forall x :: x in Tree.InsertSorted(order, prefix) <==> x in table || x == prefix
      requires ds == Tree.Under(Tree.InsertSorted(order, prefix), prefix)
      requires Links.CanAdopt(Links.Rooted(TableView(), p, prefix, Tree.NewEntry(route)), p, prefix, ds)
      modifies this, table.Values
      ensures Linked() && Indexed() && fresh(entry) && table == old(table)[prefix := entry]
      ensures TableView() == Links.AdoptAll(Links.Rooted(old(TableView()), p, prefix, Tree.NewEntry(route)), p, prefix, ds)
      ensures order == Tree.InsertSorted(old(order), prefix) && nItems == old(nItems) + 1
      ensures IndexNames(faceMap) == Tree.IndexAdd(old(IndexNames(faceMap)), route.faceId, prefix)
    {
      var parent;
      entry, parent := Enter(prefix, route);
      ValuesAfterPut(old(table), prefix, entry);
      assert forall n :: n in order <==> n in table;
      TakeOver(entry, parent, ds);
    }

    /** `insert` under a new name. */
    method InsertNew(prefix: Name, route: Route)
      requires Linked() && Indexed() && prefix !in table
      requires Tree.OrderExact(View()) && Tree.Sorted(order) && Tree.ParentsExact(TableView())
      modifies this, table.Values
      ensures Linked() && Indexed() && fresh(table.Values - old(table.Values))
      ensures View() == Tree.Insert(old(View()), prefix, route)
    {
      ghost var s0 := View();
      Tree.NewNameFacts(s0, prefix, route);
      var entry := Plant(prefix, route, ParentOf(s0.table.Keys, prefix), Tree.Under(s0.order, prefix));
      ValuesAfterPut(old(table), prefix, entry);
      Tree.InsertNewIs(s0, prefix, route, View());
    }

    /** `insert`. */
    method Insert(prefix: Name, route: Route)
      requires Valid()
      modifies this, table.Values
      ensures Valid() && fresh(table.Values - old(table.Values))
      ensures View() == Tree.Insert(old(View()), prefix, route)
    {
      Tree.InsertKeepsExact(View(), prefix, route);
      if prefix in table {
        InsertKnown(prefix, route);
      } else {
        InsertNew(prefix, route);
      }
    }

    /** The links of an entry that is about to leave: out of its parent, and its children up. */
    method Uproot(entry: RibEntry)
      requires Linked() && Owns(entry) && Links.CanDetach(TableView(), entry.name)
      modifies table.Values
      ensures Linked() && unchanged(this)
      ensures TableView() - {entry.name} == Links.Detach(old(TableView()), entry.name)
    {
      ghost var t0 := TableView();
      Links.CanUproot(t0, entry.name);
      assert LinkedAt(entry.name);
      var parent := entry.parent;
      if parent != null { Unlink(parent, entry); }
      assert TableView() == Links.Uprooted(t0, entry.name);
      assert NamesOf(entry.children) == t0[entry.name].children;
      assert LinkedAt(entry.name);
      OrphanAll(entry, parent, entry.children);
    }

    /** An entry that nothing refers to leaves the table. */
    method Discard(entry: RibEntry)
      requires Linked() && Indexed() && Owns(entry) && Tree.TreeExact(TableView() - {entry.name})
      requires forall f :: entry !in ListedOn(faceMap, f)
      modifies this`table, this`order
      ensures Linked() && Indexed() && table == old(table) - {entry.name}
      ensures order == Links.Without(old(order), entry.name)
      ensures TableView() == old(TableView()) - {entry.name}
    {
      order := WithoutName(order, entry.name);
      table := table - {entry.name};
      assert TableView() == old(TableView()) - {entry.name};
      forall n | n in table ensures LinkedAt(n) {
        assert old(LinkedAt(n));
        LinksStay(TableView(), n, table[n]);
      }
      forall f ensures IndexedAt(f) { assert old(IndexedAt(f)); }
    }

    /** `eraseEntry`. */
    method EraseEntry(entry: RibEntry)
      requires Linked() && Indexed() && Owns(entry) && Tree.TreeExact(TableView())
      requires forall f :: entry !in ListedOn(faceMap, f)
      modifies this`table, this`order, table.Values
      ensures Linked() && Indexed() && table == old(table) - {entry.name}
      ensures unchanged(`faceMap) && unchanged(`nItems) && order == Links.Without(old(order), entry.name)
      ensures Links.CanDetach(old(TableView()), entry.name)
      ensures TableView() == Links.Detach(old(TableView()), entry.name)
    {
      Tree.DetachExact(TableView(), entry.name);
      Uproot(entry);
      Discard(entry);
    }

    /** The route list of one entry loses a route. */
    method EraseOwn(entry: RibEntry, i: nat)
      requires Linked() && Owns(entry) && i < |entry.routes|
      modifies entry`routes, entry`captureCount
      ensures Linked() && TableView() == old(TableView())[entry.name := Tree.EraseRoute(old(entry.Abs()), i)]
      ensures entry.routes == WithoutIndex(old(entry.routes), i)
    {
      entry.EraseRouteAt(i);
      EntryEdited(entry);
    }

    /** An entry without a route on a face is not registered with the face any more. */
    method UnindexIfGone(f: nat, entry: RibEntry)
      requires Indexed() && Owns(entry)
      modifies this`faceMap
      ensures Indexed()
      ensures IndexNames(faceMap) == if HasFace(entry.routes, f) then old(IndexNames(faceMap))
        else Tree.IndexRemove(old(IndexNames(faceMap)), f, entry.name)
    {
      var stillThere := entry.HasFaceId(f);
      if !stillThere { UnindexEntry(f, entry); }
    }

    /** The route list part of `erase`. */
    method EraseRoute(entry: RibEntry, i: nat)
      requires Linked() && Indexed() && Owns(entry) && i < |entry.routes| && nItems > 0
      modifies this`nItems, this`faceMap, entry`routes, entry`captureCount
      ensures Linked() && Indexed()
      ensures TableView() == old(TableView())[entry.name := Tree.EraseRoute(old(entry.Abs()), i)]
      ensures entry.routes == WithoutIndex(old(entry.routes), i)
      ensures nItems == old(nItems) - 1
      ensures IndexNames(faceMap) == if HasFace(entry.routes, old(entry.routes[i].faceId)) then old(IndexNames(faceMap))
        else Tree.IndexRemove(old(IndexNames(faceMap)), old(entry.routes[i].faceId), entry.name)
    {
      var faceId := entry.routes[i].faceId;
      EraseOwn(entry, i);
      nItems := nItems - 1;
      UnindexIfGone(faceId, entry);
    }

    /** An entry without routes leaves the tree. */
    method DropIfEmpty(entry: RibEntry, ghost t: Tree.Table)
      requires Linked() && Indexed() && Owns(entry) && t == TableView()
      requires Tree.TreeExact(t) && Links.CanDetach(t, entry.name) && Tree.IndexAgrees(IndexNames(faceMap), t)
      modifies this`table, this`order, table.Values
      ensures Linked() && Indexed() && table.Values <= old(table.Values) && unchanged(`faceMap) && unchanged(`nItems)
      ensures TableView() == if old(entry.routes) == [] then Links.Detach(t, entry.name) else t
      ensures order == if old(entry.routes) == [] then Links.Without(old(order), entry.name) else old(order)
    {
      if entry.routes == [] {
        NotListed(entry);
        EraseEntry(entry);
      }
    }

    /** `erase` of a route that was found. */
    method EraseFound(entry: RibEntry, i: nat)
      requires Linked() && Indexed() && Owns(entry) && i < |entry.routes| && nItems > 0
      requires Tree.EraseReady(View(), entry.name, i)
      modifies this, table.Values
      ensures Linked() && Indexed() && table.Values <= old(table.Values)
      ensures View() == Tree.EraseAt(old(View()), entry.name, i)
    {
      ghost var s0 := View();
      ghost var t := s0.table[entry.name := Tree.EraseRoute(s0.table[entry.name], i)];
      EraseInTwo(entry, i, t);
      Tree.EraseAtIs(s0, entry.name, i, t, View());
    }

    /** Both halves of `erase`: the route, and the entry if that was its last route; `t` stands between them. */
    method EraseInTwo(entry: RibEntry, i: nat, ghost t: Tree.Table)
      requires Linked() && Indexed() && Owns(entry) && i < |entry.routes| && nItems > 0
      requires t == TableView()[entry.name := Tree.EraseRoute(entry.Abs(), i)]
      requires Tree.TreeExact(t) && Links.CanDetach(t, entry.name)
      requires Tree.IndexAgrees(IndexWithout(entry, i), t)
      modifies this, table.Values
      ensures Linked() && Indexed() && table.Values <= old(table.Values) && nItems == old(nItems) - 1
      ensures TableView() == if t[entry.name].routes == [] then Links.Detach(t, entry.name) else t
      ensures order == if t[entry.name].routes == [] then Links.Without(old(order), entry.name) else old(order)
      ensures IndexNames(faceMap) == old(IndexWithout(entry, i))
    {
      EraseRoute(entry, i);
      DropIfEmpty(entry, t);
    }

    /** The face index when a route of an entry goes. */
    ghost function IndexWithout(entry: RibEntry, i: nat): (m: map<nat, seq<Name>>)
      requires i < |entry.routes|
      reads this, entry
    {
      var f := entry.routes[i].faceId;
      if HasFace(WithoutIndex(entry.routes, i), f) then IndexNames(faceMap)
      else Tree.IndexRemove(IndexNames(faceMap), f, entry.name)
    }

    /** The search of `erase`. */
    method EraseIfFound(prefix: Name, route: Route)
      requires Linked() && Indexed()
      requires prefix in table && FindRoute(table[prefix].routes, route) < |table[prefix].routes| ==>
        Tree.EraseReady(View(), prefix, FindRoute(table[prefix].routes, route))
      modifies this, table.Values
      ensures Linked() && Indexed() && table.Values <= old(table.Values)
      ensures View() == if prefix in old(table) && FindRoute(old(table[prefix].routes), route) < |old(table[prefix].routes)|
        then Tree.EraseAt(old(View()), prefix, FindRoute(old(table[prefix].routes), route)) else old(View())
    {
      if prefix in table {
        var entry := table[prefix];
        assert LinkedAt(prefix);
        var i := entry.FindRouteIndex(route);
        if i < |entry.routes| { EraseFound(entry, i); }
      }
    }

    /** `erase`. */
    method Erase(prefix: Name, route: Route)
      requires Valid()
      modifies this, table.Values
      ensures Valid() && table.Values <= old(table.Values)
      ensures View() == Tree.Erase(old(View()), prefix, route)
    {
      ghost var u := Tree.EraseSummary(View(), prefix, route);
      EraseIfFound(prefix, route);
      assert View() == u;
    }

    lemma NotListed(entry: RibEntry)
      requires Linked() && Indexed() && Owns(entry) && entry.routes == []
      requires Tree.IndexAgrees(IndexNames(faceMap), TableView())
      ensures forall f :: entry !in ListedOn(faceMap, f)
    {
      forall f ensures entry !in ListedOn(faceMap, f) {
        assert Tree.Listed(IndexNames(faceMap), f, entry.name) <==> Tree.OnFaceInTable(TableView(), f, entry.name);
        forall i | 0 <= i < |ListedOn(faceMap, f)| ensures ListedOn(faceMap, f)[i].name in NamesOf(ListedOn(faceMap, f)) {
          assert NamesOf(ListedOn(faceMap, f))[i] == ListedOn(faceMap, f)[i].name;
        }
      }
    }

    /** `getAncestorRoutes`, for the parent of an entry and for the parent found for a name. */
    method GetAncestorRoutes(from: RibEntry?) returns (rs: seq<Route>)
      requires Linked() && Tree.ParentsExact(TableView()) && (from != null ==> Owns(from))
      ensures rs == Compute.AncestorRoutes(TableView(), NameOf(from))
    {
      rs := [];
      var parent := from;
      ghost var t := TableView();
      while parent != null
        invariant Ops.IsRouteSet(rs) && (parent != null ==> Owns(parent))
        invariant Compute.Collect(t, NameOf(parent), rs) == Compute.AncestorRoutes(t, NameOf(from))
        decreases if parent == null then 0 else |parent.name| + 1
      {
        assert LinkedAt(parent.name) && t[parent.name] == parent.Abs();
        Compute.CollectStep(t, parent.name, rs);
        rs := parent.CollectOffers(rs);
        if parent.captureCount > 0 { return; }
        parent := parent.parent;
      }
    }

    /** One update of `modifyInheritedRoutes`. */
    method ModifyInheritedRoute(u: Compute.RibUpdate)
      requires Linked() && Records.CanModify(TableView(), u)
      modifies table[u.name]
      ensures Linked() && TableView() == Records.ModifyOne(old(TableView()), u)
    {
      assert LinkedAt(u.name);
      var entry := table[u.name];
      match u {
        case Register(_, r) => entry.inherited := entry.inherited + [r];
        case Unregister(_, r) => entry.RemoveInherited(r);
        case RemoveFace(_, _) =>
      }
      EntryEdited(entry);
    }

    /** `modifyInheritedRoutes`; its assertion and its erasures are covered by `CanModifyAll`. */
    method ModifyInheritedRoutes(us: seq<Compute.RibUpdate>)
      requires Linked() && Records.CanModifyAll(TableView(), us)
      modifies table.Values
      ensures Linked() && unchanged(this)
      ensures TableView() == Records.ModifyAll(old(TableView()), us)
    {
      ghost var t0 := TableView();
      var i := 0;
      while i < |us|
        invariant 0 <= i <= |us| && Linked() && Records.CanModifyAll(TableView(), us[i..])
        invariant Records.ModifyAll(TableView(), us[i..]) == Records.ModifyAll(t0, us)
      {
        assert us[i..][1..] == us[i + 1..];
        ModifyInheritedRoute(us[i]);
        i := i + 1;
      }
    }

    /** The inner loop of `findRoutesWithFaceId`, with the updates `beginRemoveFace` makes of its result. */
    method RemovalsOf(entry: RibEntry, faceId: nat) returns (us: seq<Compute.RibUpdate>)
      ensures us == Faces.RemovalsAt(entry.name, Faces.RoutesOn(entry.routes, faceId))
    {
      us := [];
      var i := 0;
      while i < |entry.routes|
        invariant 0 <= i <= |entry.routes|
        invariant us == Faces.RemovalsAt(entry.name, Faces.RoutesOn(entry.routes[..i], faceId))
      {
        Faces.RemovalsGrow(entry.name, entry.routes, i, faceId);
        if entry.routes[i].faceId == faceId {
          us := us + [Compute.RemoveFace(entry.name, entry.routes[i])];
        }
        i := i + 1;
      }
      assert entry.routes[..i] == entry.routes;
    }

    /** `findRoutesWithFaceId`, with the updates that `beginRemoveFace` makes of its result. */
    method FindRoutesWithFaceId(faceId: nat) returns (us: seq<Compute.RibUpdate>)
      requires Linked() && Indexed()
      ensures us == Faces.FaceRemovals(View(), faceId)
    {
      us := [];
      if faceId !in faceMap { return; }
      assert IndexedAt(faceId);
      var entries := faceMap[faceId];
      ghost var names, t := NamesOf(entries), TableView();
      var i := 0;
      while i < |entries|
        invariant 0 <= i <= |entries|
        invariant us == Faces.RemovalsFor(t, names[..i], faceId)
      {
        assert entries[i] in entries && Owns(entries[i]) && t[names[i]] == entries[i].Abs();
        RemovalsStep(t, names, i, faceId);
        var more := RemovalsOf(entries[i], faceId);
        us := us + more;
        i := i + 1;
      }
      assert names[..i] == names;
    }

    /** `beginRemoveFace`: a batch for every route on the face joins the queue, and the oldest batch starts unless one
        is in progress. */
    method BeginRemoveFace(faceId: nat) returns (batch: Option<Compute.RibUpdate>)
      requires Linked() && Indexed()
      modifies queue
      ensures Advanced(old(queue.updateBatches) + Faces.FaceRemovals(View(), faceId), old(queue.isUpdateInProgress),
                       queue.updateBatches, queue.isUpdateInProgress, batch)
    {
      var us := FindRoutesWithFaceId(faceId);
      batch := queue.AddAll(us);
    }

    /** The route change of an update. */
    method Edit(u: Compute.RibUpdate)
      requires Valid()
      modifies this, table.Values
      ensures Valid() && fresh(table.Values - old(table.Values))
      ensures View() == Theorem.Edited(old(View()), u)
    {
      match u {
        case Register(n, r) => Insert(n, r);
        case Unregister(n, r) => Erase(n, r);
        case RemoveFace(n, r) => Erase(n, r);
      }
    }

    /** The route change of a batch and the inherited-route updates that come with it. */
    method Apply(u: Compute.RibUpdate, inheritedRoutes: seq<Compute.RibUpdate>)
      requires Valid() && Records.CanModifyAll(Theorem.Edited(View(), u).table, inheritedRoutes)
      modifies this, table.Values
      ensures Valid() && fresh(table.Values - old(table.Values))
      ensures var c := Theorem.Edited(old(View()), u);
        View() == c.(table := Records.ModifyAll(c.table, inheritedRoutes))
    {
      ghost var s0 := View();
      RecordsKeepExact(s0, u, inheritedRoutes);
      Edit(u);
      ModifyInheritedRoutes(inheritedRoutes);
    }

    /** `onFibUpdateSuccess`: the route change, then the inherited-route updates, whose assertion and erasures are the
        precondition, then the next batch. */
    method OnFibUpdateSuccess(u: Compute.RibUpdate, inheritedRoutes: seq<Compute.RibUpdate>)
        returns (batch: Option<Compute.RibUpdate>)
      requires Valid() && Records.CanModifyAll(Theorem.Edited(View(), u).table, inheritedRoutes)
      modifies this, table.Values, queue
      ensures Valid() && fresh(table.Values - old(table.Values))
      ensures var c := Theorem.Edited(old(View()), u);
        View() == c.(table := Records.ModifyAll(c.table, inheritedRoutes))
      ensures Advanced(old(queue.updateBatches), false, queue.updateBatches, queue.isUpdateInProgress, batch)
    {
      Apply(u, inheritedRoutes);
      label applied:
      batch := queue.Advance();
      assert View() == old@applied(View()) && Linked() && Indexed();
    }

    /** `onFibUpdateSuccess` of a batch with the inherited-route updates that were computed for it: its commit. */
    method CommitBatch(u: Compute.RibUpdate, inheritedRoutes: seq<Compute.RibUpdate>, ghost s0: Tree.Rib)
      requires Valid() && s0 == View() && Theorem.Good(s0) && !Effects.ErasesTwice(s0.table, u)
      requires inheritedRoutes == Records.RecordsOf(Compute.UpdateOps(s0, u))
      modifies this, table.Values
      ensures Valid() && fresh(table.Values - old(table.Values)) && View() == Theorem.Commit(s0, u)
    {
      Effects.CommitAppliesRecords(s0, u);
      Apply(u, inheritedRoutes);
    }

    /** `onFibUpdateFailure`: the RIB stays as it is, and the next batch starts. */
    method OnFibUpdateFailure() returns (batch: Option<Compute.RibUpdate>)
      modifies queue
      ensures Advanced(old(queue.updateBatches), false, queue.updateBatches, queue.isUpdateInProgress, batch)
    {
      batch := queue.Advance();
    }
  }

  /** Applying inherited-route updates keeps the RIB exact. */
  lemma RecordsKeepExact(s: Tree.Rib, u: Compute.RibUpdate, us: seq<Compute.RibUpdate>)
    requires Tree.RibExact(s) && Records.CanModifyAll(Theorem.Edited(s, u).table, us)
    ensures var c := Theorem.Edited(s, u); Tree.RibExact(c.(table := Records.ModifyAll(c.table, us)))
  {
    var c := Theorem.Edited(s, u);
    var ops := Records.OpsOf(us);
    Records.OpsApply(c.table, us);
    Effects.CommitKeepsExact(s, u, ops);
  }
}
