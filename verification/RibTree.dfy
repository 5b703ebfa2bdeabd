/**
 The routing information base as a value: the table of entries with their parent and children links,
 its key order, the face index and the route count, and `insert` and `erase` on all of them.
 */
module RibTree {
  import opened Wrappers
  import opened Names
  import opened Routes
  import opened RibLinks

  type Table = map<Name, Entry<Name>>

  datatype Rib = Rib(table: Table, order: seq<Name>, faceMap: map<nat, seq<Name>>, nItems: nat)

  // ----- what the links mean -----

  /** Every parent link names the longest proper prefix in the table. */
  ghost predicate ParentsExact(t: Table) {
    forall n | n in t :: t[n].parent == ParentOf(t.Keys, n)
  }

  ghost predicate TreeExact(t: Table) { ParentsExact(t) && ChildrenInverse(t) }

  // ----- table order -----

  ghost predicate Sorted(s: seq<Name>) { forall i, j | 0 <= i < j < |s| :: Before(s[i], s[j]) }

  /** The key order after `n` is added. */
  function InsertSorted(s: seq<Name>, n: Name): (r: seq<Name>)
    ensures forall x :: x in r <==> x in s || x == n
  {
    if s == [] then [n]
    else
      var front, last := s[..|s| - 1], s[|s| - 1];
      assert s == front + [last];
      if Before(last, n) then s + [n] else InsertSorted(front, n) + [last]
  }

  lemma {:induction false} InsertSortedIsSorted(s: seq<Name>, n: Name)
    requires Sorted(s) && n !in s
    ensures Sorted(InsertSorted(s, n))
  {
    if s != [] {
      var front, last := s[..|s| - 1], s[|s| - 1];
      assert last in s;
      CompareTotalOrder(last, n);
      if Before(last, n) {
        forall i | 0 <= i < |s| ensures Before(s[i], n) {
          if i < |s| - 1 { BeforeTransitive(s[i], last, n); }
        }
      } else {
        InsertSortedIsSorted(front, n);
        var r := InsertSorted(front, n);
        forall i | 0 <= i < |r| ensures Before(r[i], last) {
          assert r[i] in front || r[i] == n;
        }
      }
    }
  }

  /** The scan of `findDescendants`: from the entry after `i`, while the prefix still matches. */
  function Scan(s: seq<Name>, n: Name, i: nat): (r: seq<Name>)
    requires i <= |s|
    decreases |s| - i
  {
    if i < |s| && n <= s[i] then [s[i]] + Scan(s, n, i + 1) else []
  }

  lemma ScanStep(found: seq<Name>, s: seq<Name>, n: Name, i: nat)
    requires i < |s| && n <= s[i]
    ensures found + Scan(s, n, i) == (found + [s[i]]) + Scan(s, n, i + 1)
  {
  }

  lemma ScanEnds(found: seq<Name>, s: seq<Name>, n: Name, i: nat)
    requires i <= |s| && (i < |s| ==> !(n <= s[i]))
    ensures found + Scan(s, n, i) == found
  {
  }

  /** The names strictly under `n`, by filtering the whole table. */
  function Under(s: seq<Name>, n: Name): (r: seq<Name>)
    ensures forall x :: x in r <==> x in s && n < x
  {
    if s == [] then []
    else
      var front, last := s[..|s| - 1], s[|s| - 1];
      assert s == front + [last];
      if n < last then Under(front, n) + [last] else Under(front, n)
  }

  /** The names at or under `n`, by filtering the whole table. */
  function Extensions(s: seq<Name>, n: Name): (r: seq<Name>)
    ensures forall x :: x in r <==> x in s && n <= x
  {
    if s == [] then []
    else
      var front, last := s[..|s| - 1], s[|s| - 1];
      assert s == front + [last];
      if n <= last then Extensions(front, n) + [last] else Extensions(front, n)
  }

  lemma {:induction false} ExtensionsElsewhere(s: seq<Name>, n: Name)
    requires n !in s
    ensures Extensions(s, n) == Under(s, n)
  {
    if s != [] {
      var front, last := s[..|s| - 1], s[|s| - 1];
      assert s == front + [last];
      ExtensionsElsewhere(front, n);
      assert n <= last && |n| == |last| ==> n == last;
    }
  }

  lemma {:induction false} UnderAfterInsert(s: seq<Name>, n: Name)
    ensures Under(InsertSorted(s, n), n) == Under(s, n)
  {
    if s == [] {
      assert InsertSorted(s, n)[..0] == [];
    } else {
      var front, last := s[..|s| - 1], s[|s| - 1];
      if Before(last, n) {
        assert (s + [n])[..|s|] == s;
      } else {
        UnderAfterInsert(front, n);
        var r := InsertSorted(front, n);
        assert (r + [last])[..|r|] == r;
      }
    }
  }

  lemma UnderHead(s: seq<Name>, n: Name)
    requires s != []
    ensures Under(s, n) == (if n < s[0] then [s[0]] else []) + Under(s[1..], n)
  {
    if |s| > 1 {
      var front := s[..|s| - 1];
      UnderHead(front, n);
      assert front[1..] == s[1..][..|s| - 2];
    }
  }

  lemma AfterInOrder(s: seq<Name>, i: nat)
    requires Sorted(s) && i < |s|
    ensures forall j | 0 <= j < |s| :: j >= i + 1 <==> Before(s[i], s[j])
  {
    forall j | 0 <= j < |s| ensures j >= i + 1 <==> Before(s[i], s[j]) { CompareTotalOrder(s[i], s[j]); }
  }

  /** The scan finds exactly the proper extensions, because they are contiguous in the order. */
  lemma {:induction false} ScanIsUnder(s: seq<Name>, n: Name, i: nat)
    requires Sorted(s) && i <= |s|
    requires forall j | 0 <= j < |s| :: j >= i <==> Before(n, s[j])
    ensures Scan(s, n, i) == Under(s, n)
  {
    TailScan(s, n, i);
    NoneUnder(s[..i], n);
    UnderSplit(s, n, i);
  }

  lemma {:induction false} TailScan(s: seq<Name>, n: Name, i: nat)
    requires Sorted(s) && i <= |s|
    requires forall j | i <= j < |s| :: Before(n, s[j])
    ensures Scan(s, n, i) == Under(s[i..], n)
    decreases |s| - i
  {
    if i < |s| {
      UnderHead(s[i..], n);
      assert s[i..][1..] == s[i + 1..];
      CompareTotalOrder(n, s[i]);
      if n <= s[i] {
        TailScan(s, n, i + 1);
      } else {
        forall j | i < j < |s| ensures !(n < s[j]) {
          if n < s[j] { ExtensionsAreContiguous(n, s[i], s[j]); }
        }
        NoneUnder(s[i + 1..], n);
      }
    }
  }

  lemma NoneUnder(s: seq<Name>, n: Name)
    requires forall x | x in s :: Before(n, x) ==> !(n < x)
    ensures Under(s, n) == []
  {
    if Under(s, n) != [] {
      var x := Under(s, n)[0];
      assert x in Under(s, n);
      PrefixIsBefore(n, x);
    }
  }

  lemma UnderSplit(s: seq<Name>, n: Name, i: nat)
    requires i <= |s|
    ensures Under(s, n) == Under(s[..i], n) + Under(s[i..], n)
  {
    assert s == s[..i] + s[i..];
    UnderConcat(s[..i], s[i..], n);
  }

  lemma {:induction false} UnderConcat(a: seq<Name>, b: seq<Name>, n: Name)
    ensures Under(a + b, n) == Under(a, n) + Under(b, n)
  {
    if b == [] {
      assert a + b == a;
    } else {
      var front, last := b[..|b| - 1], b[|b| - 1];
      assert a + b == (a + front) + [last] && b == front + [last];
      UnderConcat(a, front, n);
      UnderSnoc(a + front, last, n);
      UnderSnoc(front, last, n);
      var more: seq<Name> := if n < last then [last] else [];
      assert (Under(a, n) + Under(front, n)) + more == Under(a, n) + (Under(front, n) + more);
    }
  }

  lemma UnderSnoc(s: seq<Name>, x: Name, n: Name)
    ensures Under(s + [x], n) == Under(s, n) + if n < x then [x] else []
  {
    assert (s + [x])[..|s|] == s;
  }

  // ----- insert and erase -----

  ghost predicate OrderExact(s: Rib) { forall n :: n in s.order <==> n in s.table }

  function NewEntry(r: Route): (e: Entry<Name>) {
    Entry([r], [], None, [], if r.IsCapture() then 1 else 0)
  }

  /** A new name: a fresh entry, linked below its parent and above the parent's former children. */
  ghost function AttachNew(s: Rib, n: Name, r: Route): (t: Table)
    requires OrderExact(s) && Sorted(s.order) && ParentsExact(s.table) && n !in s.table
  {
    UnderKeepsDistinct(s.order, n);
    RibLinks.Attach(s.table, ParentOf(s.table.Keys, n), n, NewEntry(r), Under(s.order, n))
  }

  lemma NewNameCanAttach(s: Rib, n: Name, r: Route)
    requires OrderExact(s) && Sorted(s.order) && ParentsExact(s.table) && n !in s.table
    ensures var p, ds := ParentOf(s.table.Keys, n), Under(s.order, n);
      && CanAttach(s.table, p, n, NewEntry(r), ds)
      && CanAdopt(Rooted(s.table, p, n, NewEntry(r)), p, n, ds)
  {
    UnderKeepsDistinct(s.order, n);
  }

  lemma NewNameFacts(s: Rib, n: Name, r: Route)
    requires OrderExact(s) && Sorted(s.order) && ParentsExact(s.table) && n !in s.table
    ensures var p, ds, order := ParentOf(s.table.Keys, n), Under(s.order, n), InsertSorted(s.order, n);
      && Sorted(order) && Under(order, n) == ds && (forall x :: x in order <==> x in s.table || x == n)
      && (p.Some? ==> p.value in s.table)
      && CanAdopt(Rooted(s.table, p, n, NewEntry(r)), p, n, ds)
  {
    InsertSortedIsSorted(s.order, n);
    UnderAfterInsert(s.order, n);
    NewNameCanAttach(s, n, r);
  }

  lemma InsertNewIs(s: Rib, n: Name, r: Route, u: Rib)
    requires OrderExact(s) && Sorted(s.order) && ParentsExact(s.table) && n !in s.table
    requires u.order == InsertSorted(s.order, n) && u.faceMap == IndexAdd(s.faceMap, r.faceId, n)
    requires u.nItems == s.nItems + 1
    requires var p, ds := ParentOf(s.table.Keys, n), Under(s.order, n);
      var t1 := Rooted(s.table, p, n, NewEntry(r));
      CanAdopt(t1, p, n, ds) && u.table == AdoptAll(t1, p, n, ds)
    ensures u == Insert(s, n, r)
  {
  }

  lemma TreeCanDetach(t: Table, n: Name)
    requires TreeExact(t) && n in t
    ensures CanDetach(t, n)
  {
    forall c | c in t && t[c].parent == Some(n) ensures t[n].parent != Some(c) {
      assert ParentOf(t.Keys, c) == Some(n);
    }
  }

  function IndexAdd(m: map<nat, seq<Name>>, f: nat, n: Name): (r: map<nat, seq<Name>>) {
    m[f := (if f in m then m[f] else []) + [n]]
  }

  ghost function IndexRemove(m: map<nat, seq<Name>>, f: nat, n: Name): (r: map<nat, seq<Name>>) {
    m[f := Without(if f in m then m[f] else [], n)]
  }

  /** An entry when a route is put into it: a new route, or new flags and cost of a known one. The counter
      does not follow a changed capture flag. */
  function EntryWithRoute(e: Entry<Name>, r: Route): (d: Entry<Name>) {
    var i := FindRoute(e.routes, r);
    if i == |e.routes| then
      e.(routes := e.routes + [r], captureCount := e.captureCount + if r.IsCapture() then 1 else 0)
    else
      e.(routes := e.routes[i := e.routes[i].(flags := r.flags, cost := r.cost)])
  }

  /** `insert` under a name of the table. */
  function InsertAtKnown(s: Rib, n: Name, r: Route): (u: Rib)
    requires n in s.table
  {
    var t := s.table[n := EntryWithRoute(s.table[n], r)];
    if FindRoute(s.table[n].routes, r) == |s.table[n].routes|
    then Rib(t, s.order, IndexAdd(s.faceMap, r.faceId, n), s.nItems + 1)
    else s.(table := t)
  }

  /** `Rib::insert`. */
  ghost function Insert(s: Rib, n: Name, r: Route): (u: Rib)
    requires OrderExact(s) && Sorted(s.order) && ParentsExact(s.table)
  {
    if n in s.table then InsertAtKnown(s, n, r)
    else Rib(AttachNew(s, n, r), InsertSorted(s.order, n), IndexAdd(s.faceMap, r.faceId, n), s.nItems + 1)
  }

  /** The 64-bit capture counter one lower. */
  function Decrement(count: nat): (r: nat) {
    if count == 0 then 0xFFFF_FFFF_FFFF_FFFF else count - 1
  }

  /** The entry after the route at `i` is erased from it. */
  function EraseRoute(e: Entry<Name>, i: nat): (r: Entry<Name>)
    requires i < |e.routes|
  {
    e.(routes := WithoutIndex(e.routes, i),
       captureCount := if e.routes[i].IsCapture() then Decrement(e.captureCount) else e.captureCount)
  }

  /** `erase` of the route at `i`; `n` can leave the table when this was its last route. */
  ghost function EraseAt(s: Rib, n: Name, i: nat): (u: Rib)
    requires n in s.table && i < |s.table[n].routes| && s.nItems > 0
    requires CanDetach(s.table[n := EraseRoute(s.table[n], i)], n)
  {
    var e, f := EraseRoute(s.table[n], i), s.table[n].routes[i].faceId;
    var t := s.table[n := e];
    var faceMap := if HasFace(e.routes, f) then s.faceMap else IndexRemove(s.faceMap, f, n);
    if e.routes != [] then Rib(t, s.order, faceMap, s.nItems - 1)
    else Rib(Detach(t, n), Without(s.order, n), faceMap, s.nItems - 1)
  }

  /** `Rib::erase`. */
  ghost function Erase(s: Rib, n: Name, r: Route): (u: Rib)
    requires RibExact(s)
  {
    if n !in s.table || FindRoute(s.table[n].routes, r) == |s.table[n].routes| then s
    else
      var i := FindRoute(s.table[n].routes, r);
      var t := s.table[n := EraseRoute(s.table[n], i)];
      TreeIgnoresRoutes(s.table, t);
      TreeCanDetach(t, n);
      EraseAt(s, n, i)
  }

  lemma TreeIgnoresRoutes(t: Table, u: Table)
    requires TreeExact(t) && t.Keys == u.Keys
    requires forall m | m in t :: u[m].parent == t[m].parent && u[m].children == t[m].children
    ensures TreeExact(u)
  {
    forall m, c | m in u ensures LinkExact(u, m, c) { assert LinkExact(t, m, c); }
  }

  // ----- the whole invariant -----

  ghost predicate RoutesExact(t: Table) {
    forall n | n in t :: t[n].routes != [] && Distinct(t[n].routes)
  }

  predicate Listed(m: map<nat, seq<Name>>, f: nat, n: Name) { f in m && n in m[f] }

  predicate OnFaceInTable(t: Table, f: nat, n: Name) { n in t && HasFace(t[n].routes, f) }

  /** The face index agrees with a scan of the table. */
  ghost predicate IndexAgrees(m: map<nat, seq<Name>>, t: Table) {
    forall f, n :: Listed(m, f, n) <==> OnFaceInTable(t, f, n)
  }

  ghost predicate IndexExact(s: Rib) { IndexAgrees(s.faceMap, s.table) }

  ghost function Total(order: seq<Name>, t: Table): (k: nat) {
    if order == [] then 0
    else
      var n := order[|order| - 1];
      Total(order[..|order| - 1], t) + if n in t then |t[n].routes| else 0
  }

  /** The capture counter of every entry counts its routes with the capture flag. */
  ghost predicate CaptureExact(t: Table) {
    forall n | n in t :: t[n].captureCount == CaptureCount(t[n].routes)
  }

  ghost predicate RibExact(s: Rib) {
    && OrderExact(s) && Sorted(s.order)
    && TreeExact(s.table)
    && RoutesExact(s.table)
    && IndexExact(s)
    && s.nItems == Total(s.order, s.table)
  }

  const Empty: Rib := Rib(map[], [], map[], 0)

  lemma EmptyIsExact()
    ensures RibExact(Empty) && CaptureExact(Empty.table)
  {
  }

  // ----- what insert and erase do to routes -----

  /** A new name joins: everything else is as before, and the tree is exact again. */
  lemma AttachExact(s: Rib, n: Name, r: Route)
    requires OrderExact(s) && Sorted(s.order) && TreeExact(s.table) && n !in s.table
    ensures var t := AttachNew(s, n, r);
      && t.Keys == s.table.Keys + {n}
      && TreeExact(t)
      && SameContent(t[n], NewEntry(r))
      && (forall m | m in s.table :: SameContent(t[m], s.table[m]))
  {
    var t := AttachNew(s, n, r);
    UnderKeepsDistinct(s.order, n);
    AttachLinks(s.table, ParentOf(s.table.Keys, n), n, NewEntry(r), Under(s.order, n));
    AttachedParents(s.table, n, t);
    forall m | m in t ensures SameContent(t[m], if m == n then NewEntry(r) else s.table[m]) {
      AttachContent(s.table, ParentOf(s.table.Keys, n), n, NewEntry(r), Under(s.order, n), m);
    }
  }

  lemma AttachedParents(t: Table, n: Name, u: Table)
    requires ParentsExact(t) && n !in t && u.Keys == t.Keys + {n}
    requires u[n].parent == ParentOf(t.Keys, n)
    requires forall m | m in t ::
      u[m].parent == if n < m && t[m].parent == ParentOf(t.Keys, n) then Some(n) else t[m].parent
    ensures ParentsExact(u)
  {
    forall m | m in u ensures u[m].parent == ParentOf(u.Keys, m) { ParentAfterInsert(t.Keys, n, m); }
  }

  lemma UnderKeepsDistinct(s: seq<Name>, n: Name)
    requires Sorted(s)
    ensures NoDuplicates(Under(s, n))
  {
    if s != [] {
      var front, last := s[..|s| - 1], s[|s| - 1];
      UnderKeepsDistinct(front, n);
      CompareTotalOrder(last, last);
      assert last !in front;
    }
  }

  lemma DetachExact(t: Table, n: Name)
    requires TreeExact(t) && n in t
    ensures CanDetach(t, n)
    ensures var u := Detach(t, n);
      && u.Keys == t.Keys - {n}
      && TreeExact(u)
      && (forall m | m in u :: SameContent(u[m], t[m]))
  {
    TreeCanDetach(t, n);
    DetachLinks(t, n);
    var u := Detach(t, n);
    forall m | m in u ensures u[m].parent == ParentOf(u.Keys, m) {
      ParentAfterErase(t.Keys, n, m);
    }
    forall m | m in u ensures SameContent(u[m], t[m]) { DetachContent(t, n, m); }
  }

  // ----- counting routes -----

  lemma {:induction false} TotalAgrees(order: seq<Name>, t: Table, u: Table)
    requires forall n | n in order :: n in t && n in u && |t[n].routes| == |u[n].routes|
    ensures Total(order, t) == Total(order, u)
  {
    if order != [] { TotalAgrees(order[..|order| - 1], t, u); }
  }

  lemma {:induction false} TotalAt(order: seq<Name>, t: Table, u: Table, n: Name)
    requires NoDuplicates(order) && n in order && n in t && n in u
    requires forall m | m in order && m != n :: m in t && m in u && |t[m].routes| == |u[m].routes|
    ensures Total(order, u) == Total(order, t) - |t[n].routes| + |u[n].routes|
  {
    var front, last := order[..|order| - 1], order[|order| - 1];
    assert order == front + [last];
    if last == n {
      TotalAgrees(front, t, u);
    } else {
      TotalAt(front, t, u, n);
    }
  }

  lemma {:induction false} TotalInsert(order: seq<Name>, t: Table, n: Name)
    requires n in t
    ensures Total(InsertSorted(order, n), t) == Total(order, t) + |t[n].routes|
  {
    if order == [] {
      assert InsertSorted(order, n)[..0] == [];
    } else {
      var front, last := order[..|order| - 1], order[|order| - 1];
      if Before(last, n) {
        assert (order + [n])[..|order|] == order;
      } else {
        TotalInsert(front, t, n);
        var r := InsertSorted(front, n);
        assert (r + [last])[..|r|] == r;
      }
    }
  }

  lemma {:induction false} TotalWithout(order: seq<Name>, t: Table, n: Name)
    requires NoDuplicates(order) && n in order && n in t
    ensures Total(Without(order, n), t) == Total(order, t) - |t[n].routes|
  {
    var front, last := order[..|order| - 1], order[|order| - 1];
    assert order == front + [last] && last !in front;
    if last == n {
      WithoutAbsent(front, n);
    } else {
      TotalWithout(front, t, n);
      var r := Without(front, n);
      assert (r + [last])[..|r|] == r;
    }
  }

  lemma {:induction false} WithoutAbsent(s: seq<Name>, n: Name)
    requires n !in s
    ensures Without(s, n) == s
  {
    if s != [] {
      var front, last := s[..|s| - 1], s[|s| - 1];
      assert s == front + [last];
      WithoutAbsent(front, n);
    }
  }

  lemma {:induction false} WithoutKeepsSorted(s: seq<Name>, n: Name)
    requires Sorted(s)
    ensures Sorted(Without(s, n))
  {
    if s != [] {
      var front, last := s[..|s| - 1], s[|s| - 1];
      assert s == front + [last];
      WithoutKeepsSorted(front, n);
      forall i | 0 <= i < |Without(front, n)| ensures Before(Without(front, n)[i], last) {
        assert Without(front, n)[i] in front;
      }
    }
  }

  lemma SortedIsDistinct(s: seq<Name>)
    requires Sorted(s)
    ensures NoDuplicates(s)
  {
    forall i, j | 0 <= i < j < |s| ensures s[i] != s[j] { CompareTotalOrder(s[i], s[j]); }
  }

  // ----- preservation -----

  lemma IndexAfterAdd(m: map<nat, seq<Name>>, t: Table, u: Table, f0: nat, n: Name)
    requires IndexAgrees(m, t)
    requires forall f, x :: OnFaceInTable(u, f, x) <==> OnFaceInTable(t, f, x) || (f == f0 && x == n)
    ensures IndexAgrees(IndexAdd(m, f0, n), u)
  {
    forall f, x ensures Listed(IndexAdd(m, f0, n), f, x) <==> OnFaceInTable(u, f, x) {
      assert Listed(m, f, x) <==> OnFaceInTable(t, f, x);
    }
  }

  lemma IndexAfterRemove(m: map<nat, seq<Name>>, t: Table, u: Table, f0: nat, n: Name)
    requires IndexAgrees(m, t)
    requires forall f, x :: OnFaceInTable(u, f, x) <==> OnFaceInTable(t, f, x) && !(f == f0 && x == n)
    ensures IndexAgrees(IndexRemove(m, f0, n), u)
  {
    forall f, x ensures Listed(IndexRemove(m, f0, n), f, x) <==> OnFaceInTable(u, f, x) {
      assert Listed(m, f, x) <==> OnFaceInTable(t, f, x);
    }
  }

  /** `insert` keeps the whole invariant, whatever the name, the route and its flags. */
  lemma InsertKeepsExact(s: Rib, n: Name, r: Route)
    requires RibExact(s)
    ensures RibExact(Insert(s, n, r))
  {
    if n in s.table { InsertKnownName(s, n, r); } else { InsertNewName(s, n, r); }
  }

  lemma InsertNewName(s: Rib, n: Name, r: Route)
    requires RibExact(s) && n !in s.table
    ensures RibExact(Insert(s, n, r))
  {
    var u := Insert(s, n, r);
    AttachExact(s, n, r);
    InsertSortedIsSorted(s.order, n);
    AttachedTotal(s, n, u.table);
    OnFaceAfterAttach(s.table, u.table, n, r);
    IndexAfterAdd(s.faceMap, s.table, u.table, r.faceId, n);
    AttachedRoutes(s.table, u.table, n, r);
  }

  lemma AttachedTotal(s: Rib, n: Name, u: Table)
    requires OrderExact(s) && n !in s.table && u.Keys == s.table.Keys + {n} && |u[n].routes| == 1
    requires forall m | m in s.table :: SameContent(u[m], s.table[m])
    ensures Total(InsertSorted(s.order, n), u) == Total(s.order, s.table) + 1
  {
    TotalInsert(s.order, u, n);
    TotalAgrees(s.order, s.table, u);
  }

  lemma AttachedRoutes(t: Table, u: Table, n: Name, r: Route)
    requires RoutesExact(t) && n !in t && u.Keys == t.Keys + {n} && u[n].routes == [r]
    requires forall m | m in t :: SameContent(u[m], t[m])
    ensures RoutesExact(u)
  {
  }

  lemma OnFaceAfterAttach(t: Table, u: Table, n: Name, r: Route)
    requires n !in t && u.Keys == t.Keys + {n} && u[n].routes == [r]
    requires forall m | m in t :: SameContent(u[m], t[m])
    ensures forall f, x :: OnFaceInTable(u, f, x) <==> OnFaceInTable(t, f, x) || (f == r.faceId && x == n)
  {
    assert r in [r];
  }

  lemma InsertKnownName(s: Rib, n: Name, r: Route)
    requires RibExact(s) && n in s.table
    ensures RibExact(Insert(s, n, r))
  {
    var u := Insert(s, n, r);
    var routes := s.table[n].routes;
    FacesAfterInsert(routes, r);
    RoutesReplaced(s, n, u.table[n]);
    if FindRoute(routes, r) == |routes| {
      IndexAfterAdd(s.faceMap, s.table, u.table, r.faceId, n);
    } else {
      IndexUnaffected(s.faceMap, s.table, u.table);
    }
  }

  /** Replacing the routes of one entry keeps the tree and moves the total by the difference. */
  lemma RoutesReplaced(s: Rib, n: Name, e: Entry<Name>)
    requires RibExact(s) && n in s.table
    requires e.parent == s.table[n].parent && e.children == s.table[n].children
    ensures TreeExact(s.table[n := e])
    ensures s.table[n := e].Keys == s.table.Keys
    ensures Total(s.order, s.table[n := e]) == s.nItems - |s.table[n].routes| + |e.routes|
  {
    var t := s.table[n := e];
    SortedIsDistinct(s.order);
    TreeIgnoresRoutes(s.table, t);
    TotalAt(s.order, s.table, t, n);
  }

  lemma IndexUnaffected(m: map<nat, seq<Name>>, t: Table, u: Table)
    requires IndexAgrees(m, t)
    requires forall f, x :: OnFaceInTable(u, f, x) <==> OnFaceInTable(t, f, x)
    ensures IndexAgrees(m, u)
  {
  }

  lemma FacesAfterInsert(routes: seq<Route>, r: Route)
    requires Distinct(routes)
    ensures var i := FindRoute(routes, r);
      if i == |routes| then
        && Distinct(routes + [r])
        && forall f :: HasFace(routes + [r], f) <==> HasFace(routes, f) || f == r.faceId
      else
        var updated := routes[i := routes[i].(flags := r.flags, cost := r.cost)];
        Distinct(updated) && forall f :: HasFace(updated, f) <==> HasFace(routes, f)
  {
    var i := FindRoute(routes, r);
    if i == |routes| {
      forall f ensures HasFace(routes + [r], f) <==> HasFace(routes, f) || f == r.faceId {
        assert r in routes + [r];
      }
    } else {
      var updated := routes[i := routes[i].(flags := r.flags, cost := r.cost)];
      forall f ensures HasFace(updated, f) <==> HasFace(routes, f) {
        if HasFace(updated, f) {
          var k :| 0 <= k < |updated| && updated[k].faceId == f;
          assert routes[k] in routes;
        }
        if HasFace(routes, f) {
          var k :| 0 <= k < |routes| && routes[k].faceId == f;
          assert updated[k] in updated;
        }
      }
    }
  }

  lemma FacesAfterErase(routes: seq<Route>, i: nat)
    requires i < |routes| && Distinct(routes)
    ensures Distinct(WithoutIndex(routes, i))
    ensures forall f | f != routes[i].faceId :: HasFace(WithoutIndex(routes, i), f) <==> HasFace(routes, f)
    ensures HasFace(routes, routes[i].faceId)
  {
    var rest := WithoutIndex(routes, i);
    assert routes == routes[..i] + [routes[i]] + routes[i + 1..];
    forall x ensures x in rest ==> x in routes {}
    forall x ensures x in routes && x != routes[i] ==> x in rest {}
    assert routes[i] in routes;
  }

  lemma EraseKeepsIndex(s: Rib, n: Name, r: Route, i: nat, t: Table)
    requires RibExact(s) && n in s.table && i < |s.table[n].routes| && s.table[n].routes[i].faceId == r.faceId
    requires t == s.table[n := EraseRoute(s.table[n], i)]
    ensures IndexAgrees(if HasFace(t[n].routes, r.faceId) then s.faceMap else IndexRemove(s.faceMap, r.faceId, n), t)
  {
    FacesAfterErase(s.table[n].routes, i);
    if HasFace(t[n].routes, r.faceId) {
      forall f, x ensures OnFaceInTable(t, f, x) <==> OnFaceInTable(s.table, f, x) {}
    } else {
      forall f, x ensures OnFaceInTable(t, f, x) <==> OnFaceInTable(s.table, f, x) && !(f == r.faceId && x == n) {}
      IndexAfterRemove(s.faceMap, s.table, t, r.faceId, n);
    }
  }

  /** `erase` keeps the whole invariant, also when the entry loses its last route and leaves the tree. */
  lemma EraseKeepsExact(s: Rib, n: Name, r: Route)
    requires RibExact(s)
    ensures RibExact(Erase(s, n, r))
  {
    if n in s.table {
      var i := FindRoute(s.table[n].routes, r);
      if i < |s.table[n].routes| {
        if |s.table[n].routes| == 1 { EraseLastKeepsExact(s, n, r, i); } else { EraseOneKeepsExact(s, n, r, i); }
      }
    }
  }

  lemma EraseOneKeepsExact(s: Rib, n: Name, r: Route, i: nat)
    requires RibExact(s) && n in s.table
    requires i == FindRoute(s.table[n].routes, r) < |s.table[n].routes| && |s.table[n].routes| > 1
    ensures RibExact(Erase(s, n, r))
  {
    var e := EraseRoute(s.table[n], i);
    var t := s.table[n := e];
    FacesAfterErase(s.table[n].routes, i);
    RoutesReplaced(s, n, e);
    EraseKeepsIndex(s, n, r, i, t);
    OneErased(s, n, r, i);
    StaysExact(s, n, t, Erase(s, n, r));
  }

  lemma StaysExact(s: Rib, n: Name, t: Table, u: Rib)
    requires OrderExact(s) && Sorted(s.order) && RoutesExact(s.table) && TreeExact(t) && n in t && n in s.table
    requires t == s.table[n := t[n]] && t[n].routes != [] && Distinct(t[n].routes)
    requires u.table == t && u.order == s.order && IndexAgrees(u.faceMap, t) && u.nItems == Total(s.order, t)
    ensures RibExact(u)
  {
  }

  lemma OneErased(s: Rib, n: Name, r: Route, i: nat)
    requires RibExact(s) && n in s.table
    requires i == FindRoute(s.table[n].routes, r) < |s.table[n].routes| && |s.table[n].routes| > 1
    ensures var t := s.table[n := EraseRoute(s.table[n], i)];
      Erase(s, n, r) == Rib(t, s.order,
                            if HasFace(t[n].routes, r.faceId) then s.faceMap else IndexRemove(s.faceMap, r.faceId, n),
                            s.nItems - 1)
  {
    assert EraseRoute(s.table[n], i).routes != [];
    EraseIs(s, n, r, i);
  }

  lemma EraseLastKeepsExact(s: Rib, n: Name, r: Route, i: nat)
    requires RibExact(s) && n in s.table
    requires i == FindRoute(s.table[n].routes, r) < |s.table[n].routes| == 1
    ensures RibExact(Erase(s, n, r))
  {
    var t := s.table[n := EraseRoute(s.table[n], i)];
    RoutesReplaced(s, n, t[n]);
    EraseKeepsIndex(s, n, r, i, t);
    DetachExact(t, n);
    LastErased(s, n, r, i);
    DropEmptied(s, t, n, Erase(s, n, r));
  }

  lemma LastErased(s: Rib, n: Name, r: Route, i: nat)
    requires RibExact(s) && n in s.table
    requires i == FindRoute(s.table[n].routes, r) < |s.table[n].routes| == 1
    ensures var t := s.table[n := EraseRoute(s.table[n], i)];
      && t[n].routes == [] && CanDetach(t, n)
      && Erase(s, n, r) == Rib(Detach(t, n), Without(s.order, n), IndexRemove(s.faceMap, r.faceId, n), s.nItems - 1)
  {
    var e := EraseRoute(s.table[n], i);
    assert e.routes == [] && !HasFace(e.routes, r.faceId);
    EraseIs(s, n, r, i);
  }

  lemma EraseIs(s: Rib, n: Name, r: Route, i: nat)
    requires RibExact(s) && n in s.table && i == FindRoute(s.table[n].routes, r) < |s.table[n].routes|
    ensures s.nItems > 0 && CanDetach(s.table[n := EraseRoute(s.table[n], i)], n) && Erase(s, n, r) == EraseAt(s, n, i)
  {
    var t := s.table[n := EraseRoute(s.table[n], i)];
    TreeIgnoresRoutes(s.table, t);
    TreeCanDetach(t, n);
  }

  lemma DropEmptied(s: Rib, t: Table, n: Name, u: Rib)
    requires OrderExact(s) && Sorted(s.order) && TreeExact(t)
    requires n in t && t.Keys == s.table.Keys && t[n].routes == []
    requires forall m | m in t && m != n :: t[m].routes != [] && Distinct(t[m].routes)
    requires TreeExact(u.table) && u.table.Keys == t.Keys - {n}
    requires forall m | m in u.table :: SameContent(u.table[m], t[m])
    requires u.order == Without(s.order, n)
    requires IndexAgrees(u.faceMap, t) && u.nItems == Total(s.order, t)
    ensures RibExact(u)
  {
    SortedIsDistinct(s.order);
    TotalWithout(s.order, t, n);
    TotalAgrees(Without(s.order, n), t, u.table);
    WithoutKeepsSorted(s.order, n);
    forall f, x ensures OnFaceInTable(u.table, f, x) <==> OnFaceInTable(t, f, x) {
      assert !HasFace([], f);
    }
    IndexUnaffected(u.faceMap, t, u.table);
  }

  /** What holds between the two halves of `erase`. */
  ghost predicate EraseReady(s: Rib, n: Name, i: nat) {
    && n in s.table && i < |s.table[n].routes| && s.nItems > 0
    && var e, f := EraseRoute(s.table[n], i), s.table[n].routes[i].faceId;
       var t := s.table[n := e];
       && TreeExact(t) && CanDetach(t, n)
       && IndexAgrees(if HasFace(e.routes, f) then s.faceMap else IndexRemove(s.faceMap, f, n), t)
  }

  lemma EraseFacts(s: Rib, n: Name, r: Route)
    requires RibExact(s) && n in s.table && FindRoute(s.table[n].routes, r) < |s.table[n].routes|
    ensures EraseReady(s, n, FindRoute(s.table[n].routes, r))
  {
    var i := FindRoute(s.table[n].routes, r);
    var t := s.table[n := EraseRoute(s.table[n], i)];
    TreeIgnoresRoutes(s.table, t);
    TreeCanDetach(t, n);
    EraseKeepsIndex(s, n, r, i, t);
    RoutesReplaced(s, n, t[n]);
  }

  lemma EraseSummary(s: Rib, n: Name, r: Route) returns (u: Rib)
    requires RibExact(s)
    ensures u == Erase(s, n, r) && RibExact(u)
    ensures n !in s.table || FindRoute(s.table[n].routes, r) == |s.table[n].routes| ==> u == s
    ensures n in s.table && FindRoute(s.table[n].routes, r) < |s.table[n].routes| ==>
      var i := FindRoute(s.table[n].routes, r); EraseReady(s, n, i) && u == EraseAt(s, n, i)
  {
    u := Erase(s, n, r);
    EraseKeepsExact(s, n, r);
    if n in s.table && FindRoute(s.table[n].routes, r) < |s.table[n].routes| { EraseFacts(s, n, r); }
  }

  lemma EraseAtIs(s: Rib, n: Name, i: nat, t: Table, u: Rib)
    requires n in s.table && i < |s.table[n].routes| && s.nItems > 0
    requires t == s.table[n := EraseRoute(s.table[n], i)] && CanDetach(t, n)
    requires u.table == (if t[n].routes == [] then Detach(t, n) else t)
    requires u.order == (if t[n].routes == [] then Without(s.order, n) else s.order)
    requires var f := s.table[n].routes[i].faceId;
      u.faceMap == if HasFace(t[n].routes, f) then s.faceMap else IndexRemove(s.faceMap, f, n)
    requires u.nItems == s.nItems - 1
    ensures u == EraseAt(s, n, i)
  {
  }
}
