/**
 The parent and children links between entries of a table, for any type of key: adding and removing one
 child, taking over the children of a parent, and handing children to a parent.
 */
module RibLinks {
  import opened Wrappers
  import opened Routes

  /** A RIB entry; links to other entries are given by their keys. */
  datatype Entry<K> = Entry(routes: seq<Route>, inherited: seq<Route>,
                            parent: Option<K>, children: seq<K>, captureCount: nat)

  ghost predicate NoDuplicates<K(!new)>(s: seq<K>) { forall i, j | 0 <= i < j < |s| :: s[i] != s[j] }

  /** The children of `n` are listed once, and `c` is among them exactly when its parent is `n`. */
  ghost predicate LinkExact<K(!new)>(t: map<K, Entry<K>>, n: K, c: K)
    requires n in t
  {
    && NoDuplicates(t[n].children)
    && (c in t[n].children <==> c in t && t[c].parent == Some(n))
  }

  /** Children lists are duplicate-free and are the inverse of the parent links. */
  ghost predicate ChildrenInverse<K(!new)>(t: map<K, Entry<K>>) {
    forall n, c | n in t :: LinkExact(t, n, c)
  }

  // ----- list helpers -----

  ghost function Without<K(!new)>(s: seq<K>, x: K): (r: seq<K>)
    ensures forall y :: y in r <==> y in s && y != x
    ensures NoDuplicates(s) ==> NoDuplicates(r)
  {
    if s == [] then []
    else
      var front, last := s[..|s| - 1], s[|s| - 1];
      assert s == front + [last];
      assert NoDuplicates(s) ==> last !in front;
      if last == x then Without(front, x) else Without(front, x) + [last]
  }

  // ----- child links -----

  ghost function AddChild<K(!new)>(t: map<K, Entry<K>>, p: K, c: K): (r: map<K, Entry<K>>)
    requires p in t && c in t && p != c && t[c].parent == None
  {
    t[p := t[p].(children := t[p].children + [c])][c := t[c].(parent := Some(p))]
  }

  ghost function RemoveChild<K(!new)>(t: map<K, Entry<K>>, p: K, c: K): (r: map<K, Entry<K>>)
    requires p in t && c in t && p != c && t[c].parent == Some(p)
  {
    t[p := t[p].(children := Without(t[p].children, c))][c := t[c].(parent := None)]
  }

  /** Two entries that differ at most in links. */
  ghost predicate SameContent<K(!new)>(e: Entry<K>, d: Entry<K>) {
    e.routes == d.routes && e.inherited == d.inherited && e.captureCount == d.captureCount
  }

  ghost predicate SameAt<K(!new)>(t: map<K, Entry<K>>, u: map<K, Entry<K>>, n: K) {
    n in t ==> n in u && SameContent(u[n], t[n])
  }

  /** Two tables agree on everything but links. */
  ghost predicate SameButLinks<K(!new)>(t: map<K, Entry<K>>, u: map<K, Entry<K>>) {
    t.Keys == u.Keys && forall n :: SameAt(t, u, n)
  }

  /** One descendant of a new name: taken over from the name's parent if that was its parent. */
  ghost function Adopt<K(!new)>(t: map<K, Entry<K>>, p: Option<K>, n: K, c: K): (r: map<K, Entry<K>>)
    requires n in t && c in t && c != n
    requires p.Some? ==> p.value in t && p.value != n && p.value != c
    ensures SameButLinks(t, r)
  {
    if t[c].parent != p then t
    else if p.Some? then AddChild(RemoveChild(t, p.value, c), n, c)
    else AddChild(t, n, c)
  }

  ghost function AdoptAll<K(!new)>(t: map<K, Entry<K>>, p: Option<K>, n: K, ds: seq<K>): (r: map<K, Entry<K>>)
    requires n in t && forall c | c in ds :: c in t && c != n && p != Some(c)
    requires p.Some? ==> p.value in t && p.value != n
    ensures SameButLinks(t, r)
  {
    if ds == [] then t
    else
      var u := AdoptAll(t, p, n, ds[..|ds| - 1]);
      var w := Adopt(u, p, n, ds[|ds| - 1]);
      assert forall m :: SameAt(t, u, m) && SameAt(u, w, m) ==> SameAt(t, w, m);
      w
  }

  /** One child of an erased name: handed to the name's parent. */
  ghost function Orphan<K(!new)>(t: map<K, Entry<K>>, p: Option<K>, n: K, c: K): (r: map<K, Entry<K>>)
    requires n in t && c in t && c != n && t[c].parent == Some(n)
    requires p.Some? ==> p.value in t && p.value != n && p.value != c
    ensures SameButLinks(t, r)
  {
    var u := RemoveChild(t, n, c);
    if p.Some? then AddChild(u, p.value, c) else u
  }

  ghost predicate CanOrphan<K(!new)>(t: map<K, Entry<K>>, p: Option<K>, n: K, ds: seq<K>) {
    && n in t && NoDuplicates(ds)
    && (forall c | c in ds :: c in t && c != n && p != Some(c) && t[c].parent == Some(n))
    && (p.Some? ==> p.value in t && p.value != n)
  }

  ghost predicate ParentAfterOrphan<K(!new)>(t: map<K, Entry<K>>, p: Option<K>, ds: seq<K>, u: map<K, Entry<K>>, c: K) {
    c in t ==> c in u && u[c].parent == if c in ds then p else t[c].parent
  }

  ghost function OrphanAll<K(!new)>(t: map<K, Entry<K>>, p: Option<K>, n: K, ds: seq<K>): (r: map<K, Entry<K>>)
    requires CanOrphan(t, p, n, ds)
    ensures SameButLinks(t, r)
    ensures forall c :: ParentAfterOrphan(t, p, ds, r, c)
  {
    if ds == [] then t
    else
      var front, last := ds[..|ds| - 1], ds[|ds| - 1];
      OrphanReady(t, p, n, ds);
      var u := OrphanAll(t, p, n, front);
      assert ParentAfterOrphan(t, p, front, u, last);
      var w := Orphan(u, p, n, last);
      assert forall m :: SameAt(t, u, m) && SameAt(u, w, m) ==> SameAt(t, w, m);
      assert forall m :: ParentAfterOrphan(t, p, front, u, m) ==> ParentAfterOrphan(t, p, ds, w, m);
      w
  }

  lemma OrphanReady<K(!new)>(t: map<K, Entry<K>>, p: Option<K>, n: K, ds: seq<K>)
    requires CanOrphan(t, p, n, ds) && ds != []
    ensures var front, last := ds[..|ds| - 1], ds[|ds| - 1];
      && CanOrphan(t, p, n, front) && last !in front && (forall c :: c in ds <==> c in front || c == last)
      && last in t && last != n && p != Some(last) && t[last].parent == Some(n)
  {
    var front, last := ds[..|ds| - 1], ds[|ds| - 1];
    assert ds == front + [last];
  }

  ghost predicate CanAdopt<K(!new)>(t: map<K, Entry<K>>, p: Option<K>, n: K, ds: seq<K>) {
    && n in t && (forall c | c in ds :: c in t && c != n && p != Some(c))
    && (p.Some? ==> p.value in t && p.value != n)
  }

  lemma AdoptSnoc<K(!new)>(t: map<K, Entry<K>>, p: Option<K>, n: K, ds: seq<K>, i: nat)
    requires CanAdopt(t, p, n, ds) && i < |ds|
    ensures CanAdopt(t, p, n, ds[..i]) && CanAdopt(t, p, n, ds[..i + 1])
    ensures var u := AdoptAll(t, p, n, ds[..i]);
      && n in u && ds[i] in u && ds[i] != n && (p.Some? ==> p.value in u && p.value != n && p.value != ds[i])
      && AdoptAll(t, p, n, ds[..i + 1]) == Adopt(u, p, n, ds[i])
  {
    assert ds[i] in ds;
    assert ds[..i + 1][..i] == ds[..i];
  }

  lemma OrphanSnoc<K(!new)>(t: map<K, Entry<K>>, p: Option<K>, n: K, ds: seq<K>, i: nat)
    requires CanOrphan(t, p, n, ds) && i < |ds|
    ensures CanOrphan(t, p, n, ds[..i]) && CanOrphan(t, p, n, ds[..i + 1])
    ensures var u := OrphanAll(t, p, n, ds[..i]);
      && ds[i] in u && u[ds[i]].parent == Some(n) && n in u && ds[i] != n
      && (p.Some? ==> p.value in u && p.value != n && p.value != ds[i])
      && OrphanAll(t, p, n, ds[..i + 1]) == Orphan(u, p, n, ds[i])
  {
    assert ds[i] in ds && ds[i] !in ds[..i];
    assert ParentAfterOrphan(t, p, ds[..i], OrphanAll(t, p, n, ds[..i]), ds[i]);
    assert ds[..i + 1][..i] == ds[..i];
  }

  // ----- links after adopting and after orphaning -----

  /** What taking over `ds` does to the parent of `c`. */
  lemma {:induction false} AdoptAllParent<K(!new)>(t: map<K, Entry<K>>, p: Option<K>, n: K, ds: seq<K>, c: K)
    requires n in t && forall x | x in ds :: x in t && x != n && p != Some(x)
    requires p.Some? ==> p.value in t && p.value != n
    requires NoDuplicates(ds) && c in t
    ensures AdoptAll(t, p, n, ds)[c].parent == if c in ds && t[c].parent == p then Some(n) else t[c].parent
  {
    if ds != [] {
      var front, last := ds[..|ds| - 1], ds[|ds| - 1];
      assert ds == front + [last] && last !in front;
      AdoptAllParent(t, p, n, front, c);
      AdoptAllParent(t, p, n, front, last);
      var u := AdoptAll(t, p, n, front);
      if t[last].parent == p { AdoptChildren(u, p, n, last, c); }
    }
  }

  /** What taking over `ds` does to `c` in the children of `m`. */
  lemma {:induction false} AdoptAllLinks<K(!new)>(t: map<K, Entry<K>>, p: Option<K>, n: K, ds: seq<K>, m: K, c: K)
    requires n in t && forall x | x in ds :: x in t && x != n && p != Some(x)
    requires p.Some? ==> p.value in t && p.value != n
    requires NoDuplicates(ds)
    requires m in t && NoDuplicates(t[m].children)
    requires m == n ==> forall x | x in ds :: x !in t[n].children
    ensures var u := AdoptAll(t, p, n, ds);
      var adopted := c in ds && t[c].parent == p;
      && (c in u[m].children <==> if adopted && m == n then true
                                  else if adopted && p == Some(m) then false
                                  else c in t[m].children)
      && NoDuplicates(u[m].children)
  {
    if ds != [] {
      var front, last := ds[..|ds| - 1], ds[|ds| - 1];
      assert ds == front + [last] && last !in front;
      AdoptAllLinks(t, p, n, front, m, c);
      AdoptAllParent(t, p, n, front, last);
      var u := AdoptAll(t, p, n, front);
      if t[last].parent == p {
        AdoptAllLinks(t, p, n, front, m, last);
        AdoptChildren(u, p, n, last, m);
      }
    }
  }

  lemma AdoptChildren<K(!new)>(t: map<K, Entry<K>>, p: Option<K>, n: K, c: K, m: K)
    requires n in t && c in t && c != n && t[c].parent == p
    requires p.Some? ==> p.value in t && p.value != n && p.value != c
    requires m in t
    ensures var u := Adopt(t, p, n, c);
      && u[m].children == (if m == n then t[m].children + [c]
                           else if p == Some(m) then Without(t[m].children, c)
                           else t[m].children)
      && u[m].parent == if m == c then Some(n) else t[m].parent
  {
  }

  /** What handing `ds` to `p` does to `c` in the children of `m`. */
  lemma {:induction false} OrphanAllLinks<K(!new)>(t: map<K, Entry<K>>, p: Option<K>, n: K, ds: seq<K>, m: K, c: K)
    requires CanOrphan(t, p, n, ds)
    requires m in t && NoDuplicates(t[m].children)
    requires p == Some(m) ==> forall x | x in ds :: x !in t[m].children
    ensures var u := OrphanAll(t, p, n, ds);
      && (c in u[m].children <==> if c in ds && m == n then false
                                  else if c in ds && p == Some(m) then true
                                  else c in t[m].children)
      && NoDuplicates(u[m].children)
  {
    if ds != [] {
      var front, last := ds[..|ds| - 1], ds[|ds| - 1];
      assert ds == front + [last] && last !in front;
      OrphanAllLinks(t, p, n, front, m, c);
      OrphanAllLinks(t, p, n, front, m, last);
      var u := OrphanAll(t, p, n, front);
      assert ParentAfterOrphan(t, p, front, u, last);
      assert OrphanAll(t, p, n, ds) == Orphan(u, p, n, last);
      OrphanChildren(u, p, n, last, m);
    }
  }

  lemma OrphanChildren<K(!new)>(t: map<K, Entry<K>>, p: Option<K>, n: K, c: K, m: K)
    requires n in t && c in t && c != n && t[c].parent == Some(n)
    requires p.Some? ==> p.value in t && p.value != n && p.value != c
    requires m in t
    ensures Orphan(t, p, n, c)[m].children ==
            if m == n then Without(t[m].children, c)
            else if p == Some(m) then t[m].children + [c]
            else t[m].children
  {
  }

  // ----- a key joins, a key leaves -----

  ghost predicate CanAttach<K(!new)>(t: map<K, Entry<K>>, p: Option<K>, n: K, e: Entry<K>, ds: seq<K>) {
    && n !in t && e.parent == None && e.children == [] && NoDuplicates(ds)
    && (p.Some? ==> p.value in t)
    && (forall c | c in ds :: c in t && p != Some(c))
    && (forall c | c in t :: t[c].parent != Some(n))
  }

  ghost function Rooted<K(!new)>(t: map<K, Entry<K>>, p: Option<K>, n: K, e: Entry<K>): (u: map<K, Entry<K>>)
    requires n !in t && e.parent == None && (p.Some? ==> p.value in t)
  {
    if p.Some? then AddChild(t[n := e], p.value, n) else t[n := e]
  }

  /** A fresh entry, linked below `p` and above those of `ds` that were children of `p`. */
  ghost function Attach<K(!new)>(t: map<K, Entry<K>>, p: Option<K>, n: K, e: Entry<K>, ds: seq<K>): (u: map<K, Entry<K>>)
    requires CanAttach(t, p, n, e, ds)
  {
    AdoptAll(Rooted(t, p, n, e), p, n, ds)
  }

  ghost function ParentAfterAttach<K(!new)>(t: map<K, Entry<K>>, p: Option<K>, n: K, ds: seq<K>, c: K): (r: Option<K>)
    requires c in t || c == n
  {
    if c == n then p else if c in ds && t[c].parent == p then Some(n) else t[c].parent
  }

  lemma AttachLinks<K(!new)>(t: map<K, Entry<K>>, p: Option<K>, n: K, e: Entry<K>, ds: seq<K>)
    requires CanAttach(t, p, n, e, ds) && ChildrenInverse(t)
    ensures var u := Attach(t, p, n, e, ds);
      && u.Keys == t.Keys + {n}
      && ChildrenInverse(u)
      && (forall m | m in u :: u[m].parent == ParentAfterAttach(t, p, n, ds, m))
  {
    var u := Attach(t, p, n, e, ds);
    forall m, c | m in u ensures LinkExact(u, m, c) { AttachLinksAt(t, p, n, e, ds, m, c); }
    forall m | m in u ensures u[m].parent == ParentAfterAttach(t, p, n, ds, m) {
      AttachLinksAt(t, p, n, e, ds, m, m);
    }
  }

  lemma AttachLinksAt<K(!new)>(t: map<K, Entry<K>>, p: Option<K>, n: K, e: Entry<K>, ds: seq<K>, m: K, c: K)
    requires CanAttach(t, p, n, e, ds) && ChildrenInverse(t)
    requires m in t || m == n
    ensures var u := Attach(t, p, n, e, ds);
      && (c in u ==> u[c].parent == ParentAfterAttach(t, p, n, ds, c))
      && LinkExact(u, m, c)
  {
    var t1 := Rooted(t, p, n, e);
    if m in t {
      assert LinkExact(t, m, c) && LinkExact(t, m, n);
      assert t1[m].children == if p == Some(m) then t[m].children + [n] else t[m].children;
    }
    AdoptAllLinks(t1, p, n, ds, m, c);
    if c in t1 { AdoptAllParent(t1, p, n, ds, c); }
  }

  ghost predicate CanDetach<K(!new)>(t: map<K, Entry<K>>, n: K) {
    && n in t && ChildrenInverse(t)
    && t[n].parent != Some(n)
    && (t[n].parent.Some? ==> t[n].parent.value in t)
    && (forall c | c in t && t[c].parent == Some(n) :: t[n].parent != Some(c))
  }

  ghost function Uprooted<K(!new)>(t: map<K, Entry<K>>, n: K): (u: map<K, Entry<K>>)
    requires CanDetach(t, n)
  {
    if t[n].parent.Some? then RemoveChild(t, t[n].parent.value, n) else t
  }

  lemma CanUproot<K(!new)>(t: map<K, Entry<K>>, n: K)
    requires CanDetach(t, n)
    ensures CanOrphan(Uprooted(t, n), t[n].parent, n, t[n].children)
  {
    assert LinkExact(t, n, n);
    forall c | c in t[n].children ensures c in t && t[c].parent == Some(n) {
      assert LinkExact(t, n, c);
    }
  }

  /** The key leaves the table and its children move up to its parent. */
  ghost function Detach<K(!new)>(t: map<K, Entry<K>>, n: K): (u: map<K, Entry<K>>)
    requires CanDetach(t, n)
  {
    CanUproot(t, n);
    OrphanAll(Uprooted(t, n), t[n].parent, n, t[n].children) - {n}
  }

  lemma DetachLinks<K(!new)>(t: map<K, Entry<K>>, n: K)
    requires CanDetach(t, n)
    ensures var u := Detach(t, n);
      && u.Keys == t.Keys - {n}
      && ChildrenInverse(u)
      && (forall m | m in u :: u[m].parent == if t[m].parent == Some(n) then t[n].parent else t[m].parent)
  {
    var u := Detach(t, n);
    forall m, c | m in u ensures LinkExact(u, m, c) { DetachLinksAt(t, n, m, c); }
    forall m | m in u ensures u[m].parent == if t[m].parent == Some(n) then t[n].parent else t[m].parent {
      DetachLinksAt(t, n, m, m);
    }
  }

  lemma DetachLinksAt<K(!new)>(t: map<K, Entry<K>>, n: K, m: K, c: K)
    requires CanDetach(t, n) && m in t && m != n
    ensures var u := Detach(t, n);
      && (c in u ==> u[c].parent == if t[c].parent == Some(n) then t[n].parent else t[c].parent)
      && LinkExact(u, m, c)
  {
    assert LinkExact(t, m, c) && LinkExact(t, m, n) && LinkExact(t, n, c);
    CanUproot(t, n);
    var p, ds := t[n].parent, t[n].children;
    var t1 := Uprooted(t, n);
    if p == Some(m) {
      assert t1[m].children == Without(t[m].children, n);
      forall x | x in ds ensures x !in t1[m].children {
        assert LinkExact(t, n, x) && LinkExact(t, m, x);
      }
    }
    OrphanAllLinks(t1, p, n, ds, m, c);
    assert ParentAfterOrphan(t1, p, ds, OrphanAll(t1, p, n, ds), c);
    assert c in t1[m].children <==> c in t[m].children && !(p == Some(m) && c == n);
  }

  lemma AttachContent<K(!new)>(t: map<K, Entry<K>>, p: Option<K>, n: K, e: Entry<K>, ds: seq<K>, m: K)
    requires CanAttach(t, p, n, e, ds) && (m in t || m == n)
    ensures var u := Attach(t, p, n, e, ds);
      m in u && SameContent(u[m], if m == n then e else t[m])
  {
    assert SameAt(Rooted(t, p, n, e), Attach(t, p, n, e, ds), m);
  }

  lemma DetachContent<K(!new)>(t: map<K, Entry<K>>, n: K, m: K)
    requires CanDetach(t, n) && m in t && m != n
    ensures var u := Detach(t, n); m in u && SameContent(u[m], t[m])
  {
    CanUproot(t, n);
    var t1 := Uprooted(t, n);
    assert SameAt(t1, OrphanAll(t1, t[n].parent, n, t[n].children), m);
  }
}
