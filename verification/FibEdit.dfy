/**
 An edit of the routes of one name, with emissions for the name and for the subtree under it: when the
 forwarding table is exact afterwards, and why the inherited-route records stay usable.
 */
module FibEdit {
  import opened Wrappers
  import opened Names
  import opened Routes
  import opened RibLinks
  import opened RibTree
  import opened FibSpec
  import opened FibOps
  import opened FibApply

  // ----- the invariants, face by face -----

  /** The forwarding table is the declarative one on face `f`. */
  ghost predicate ExactOn(t: Table, fib: Fib, f: nat) {
    forall d :: Get(fib, d, f) == NextHop(t, d, f)
  }

  /** What `d` inherits on face `f` is recorded there. There may be more records: stale ones, duplicates, and
      leftovers beside an own route. */
  ghost predicate CoveredAt(t: Table, d: Name, f: nat) {
    d in t && !Captures(t[d].routes) && !HasFace(t[d].routes, f) && Arriving(t, d, f).Some? ==> HasRecord(t[d], f)
  }

  ghost predicate Covered(t: Table, f: nat) { forall d :: CoveredAt(t, d, f) }

  /** `d` keeps no record on a face on which it has a route of its own. */
  ghost predicate TidyAt(t: Table, d: Name, f: nat) {
    d in t && HasRecord(t[d], f) ==> !HasFace(t[d].routes, f)
  }

  ghost predicate Tidy(t: Table, f: nat) { forall d :: TidyAt(t, d, f) }

  // ----- one edit -----

  /** What is emitted about face `f` at an entry that is visited once with `add` and `remove` and then once more
      with `more`. */
  function VisitOps(d: Name, e: Entry<Name>, add: seq<Route>, remove: seq<Route>, more: seq<Route>, f: nat): (ops: seq<Op>) {
    OpsAt(d, e, add, remove, f) +
    if OnFace(more, f).Some? && !HasFace(e.routes, f) then [Inherit(d, OnFace(more, f).value)] else []
  }

  /** The emissions about face `f` outside `n` itself are those of the traversals with `add` and `remove`, and
      then with `more`. */
  ghost predicate EmitsAt(t: Table, n: Name, add: seq<Route>, remove: seq<Route>, more: seq<Route>, ops: seq<Op>,
                          f: nat, d: Name)
  {
    d == n || Project(ops, d, f) == if Open(t, n, d, f) then VisitOps(d, t[d], add, remove, more, f) else []
  }

  ghost predicate EmitsUnder(t: Table, n: Name, add: seq<Route>, remove: seq<Route>, more: seq<Route>, ops: seq<Op>,
                             f: nat)
  {
    forall d :: EmitsAt(t, n, add, remove, more, ops, f, d)
  }

  ghost predicate OnlyAt(t: Table, u: Table, n: Name) { forall m | m != n :: SameRoutesAt(t, u, m) }

  /** The cost on face `f` that the traversals make of what `n` used to send down. */
  function Delivered(t: Table, n: Name, add: seq<Route>, remove: seq<Route>, more: seq<Route>, f: nat): (c: Option<nat>) {
    if OnFace(more, f).Some? then CostOf(OnFace(more, f))
    else if OnFace(add, f).Some? then CostOf(OnFace(add, f))
    else if OnFace(remove, f).Some? then None
    else CostOf(SentDown(t, n, f))
  }

  /** Some name in reach of `n` keeps a record beside its own route on face `f`. */
  ghost predicate LeftoverBelow(t: Table, n: Name, f: nat) {
    exists d :: Open(t, n, d, f) && HasFace(t[d].routes, f) && HasRecord(t[d], f)
  }

  /** A visited entry without an own route takes what is delivered; one with an own route loses its next hop if a
      removal finds a leftover record. */
  ghost predicate VisitRight(t: Table, u: Table, n: Name, add: seq<Route>, remove: seq<Route>, more: seq<Route>,
                             f: nat, d: Name)
  {
    Open(t, n, d, f) ==>
      if HasFace(t[d].routes, f) then !(HasRecord(t[d], f) && OnFace(remove, f).Some?)
      else Delivered(t, n, add, remove, more, f) == CostOf(SentDown(u, n, f))
  }

  lemma VisitEffect(d: Name, e: Entry<Name>, add: seq<Route>, remove: seq<Route>, more: seq<Route>, f: nat, before: Option<nat>)
    ensures Effect(before, VisitOps(d, e, add, remove, more, f)) ==
            if !HasFace(e.routes, f) && OnFace(more, f).Some? then CostOf(OnFace(more, f))
            else if !HasFace(e.routes, f) && OnFace(add, f).Some? then CostOf(OnFace(add, f))
            else if HasRecord(e, f) && OnFace(remove, f).Some? then None else before
  {
  }

  lemma EditExactAt(t: Table, u: Table, fib: Fib, n: Name, add: seq<Route>, remove: seq<Route>, more: seq<Route>,
                    ops: seq<Op>, f: nat, d: Name)
    requires OnlyAt(t, u, n) && EmitsAt(t, n, add, remove, more, ops, f, d) && d != n
    requires CoveredAt(t, d, f) && Get(fib, d, f) == NextHop(t, d, f)
    ensures Get(ApplyOps(fib, ops), d, f) == NextHop(u, d, f) <==> VisitRight(t, u, n, add, remove, more, f, d)
  {
    GetAfterOps(fib, ops, d, f);
    if n < d && d in t {
      NextHopBelow(t, u, n, d, f);
      if Open(t, n, d, f) {
        assert PassesAt(t, d, |d|, f) && d[..|d|] == d;
        VisitEffect(d, t[d], add, remove, more, f, NextHop(t, d, f));
      }
    } else if n < d {
      assert SameRoutesAt(t, u, d);
    } else {
      NextHopElsewhere(t, u, n, d, f);
    }
  }

  /** The traversals leave the subtree right: they deliver what `n` sends down now or nobody would use it, and no
      removal finds a leftover record. */
  ghost predicate SubtreeRight(t: Table, u: Table, n: Name, add: seq<Route>, remove: seq<Route>, more: seq<Route>, f: nat) {
    && (Delivered(t, n, add, remove, more, f) == CostOf(SentDown(u, n, f)) || !Reaches(t, n, f))
    && !(OnFace(remove, f).Some? && LeftoverBelow(t, n, f))
  }

  lemma SubtreeRightIff(t: Table, u: Table, n: Name, add: seq<Route>, remove: seq<Route>, more: seq<Route>, f: nat)
    ensures SubtreeRight(t, u, n, add, remove, more, f) <==> forall d :: VisitRight(t, u, n, add, remove, more, f, d)
  {
    if forall d :: VisitRight(t, u, n, add, remove, more, f, d) {
      if Reaches(t, n, f) {
        var d :| Open(t, n, d, f) && !HasFace(t[d].routes, f);
        assert VisitRight(t, u, n, add, remove, more, f, d);
      }
      if LeftoverBelow(t, n, f) {
        var d :| Open(t, n, d, f) && HasFace(t[d].routes, f) && HasRecord(t[d], f);
        assert VisitRight(t, u, n, add, remove, more, f, d);
      }
    }
  }

  /** After the edit the table is exact on `f` exactly when the next hop of `n` itself is right and the traversals
      leave the subtree right. */
  lemma EditExact(t: Table, u: Table, fib: Fib, n: Name, add: seq<Route>, remove: seq<Route>, more: seq<Route>,
                  ops: seq<Op>, f: nat)
    requires OnlyAt(t, u, n) && EmitsUnder(t, n, add, remove, more, ops, f)
    requires Covered(t, f) && ExactOn(t, fib, f)
    ensures ExactOn(u, ApplyOps(fib, ops), f) <==>
            && Effect(NextHop(t, n, f), Project(ops, n, f)) == NextHop(u, n, f)
            && SubtreeRight(t, u, n, add, remove, more, f)
  {
    var fib' := ApplyOps(fib, ops);
    forall d ensures d != n ==> (Get(fib', d, f) == NextHop(u, d, f) <==> VisitRight(t, u, n, add, remove, more, f, d)) {
      assert EmitsAt(t, n, add, remove, more, ops, f, d) && CoveredAt(t, d, f);
      if d != n { EditExactAt(t, u, fib, n, add, remove, more, ops, f, d); }
    }
    assert VisitRight(t, u, n, add, remove, more, f, n);
    GetAfterOps(fib, ops, n, f);
    SubtreeRightIff(t, u, n, add, remove, more, f);
  }

  // ----- records after an edit -----

  /** `c` is the table after the route edit and before the record updates. */
  ghost predicate SameRecords(t: Table, c: Table, n: Name) {
    forall m | m != n && m in t && m in c :: c[m].inherited == t[m].inherited
  }

  lemma RoutesAfterRecords(c: Table, ops: seq<Op>, m: Name)
    ensures SameRoutesAt(c, ApplyRecords(c, ops), m)
  {
    if m in c { RecordsAfterOps(c, ops, m, 0); }
  }

  lemma NextHopIgnoresRecords(c: Table, ops: seq<Op>, d: Name, f: nat)
    ensures NextHop(ApplyRecords(c, ops), d, f) == NextHop(c, d, f)
    ensures Arriving(ApplyRecords(c, ops), d, f) == Arriving(c, d, f)
  {
    var u := ApplyRecords(c, ops);
    forall m ensures SameRoutesAt(c, u, m) { RoutesAfterRecords(c, ops, m); }
    assert SameRoutesAt(c, u, d);
    OfferedUnchanged(c, u, d, |d|, f);
  }

  /** The number of records on `f` at `d` after the record updates, and what it means there. */
  lemma CoveredAfter(c: Table, ops: seq<Op>, d: Name, f: nat)
    requires d in c
    ensures var u, count := ApplyRecords(c, ops), CountEffect(CountOn(c[d].inherited, f), Project(ops, d, f));
      && (CoveredAt(u, d, f) <==>
          (!Captures(c[d].routes) && !HasFace(c[d].routes, f) && Arriving(c, d, f).Some? ==> count > 0))
      && (TidyAt(u, d, f) <==> (count > 0 ==> !HasFace(c[d].routes, f)))
  {
    RecordsAfterOps(c, ops, d, f);
    NextHopIgnoresRecords(c, ops, d, f);
  }

  /** The records a visited entry has afterwards. */
  lemma CountVisit(d: Name, e: Entry<Name>, add: seq<Route>, remove: seq<Route>, more: seq<Route>, f: nat, before: nat)
    requires before > 0 <==> HasRecord(e, f)
    ensures var ops := VisitOps(d, e, add, remove, more, f);
      && CleanAt(before, ops)
      && (HasFace(e.routes, f) ==> CountEffect(before, ops) <= before)
      && (!HasFace(e.routes, f) && (OnFace(add, f).Some? || OnFace(more, f).Some?) ==> CountEffect(before, ops) > 0)
      && (OnFace(remove, f).None? ==> CountEffect(before, ops) >= before)
  {
    var x, y, z := OnFace(remove, f), OnFace(add, f), OnFace(more, f);
    var none := Route(0, 0, 0, 0);
    CountParts(x.Some? && HasRecord(e, f), y.Some? && !HasFace(e.routes, f), z.Some? && !HasFace(e.routes, f), d,
               if x.Some? then x.value else none, if y.Some? then y.value else none, if z.Some? then z.value else none,
               before);
  }

  lemma CountSnoc(before: nat, a: seq<Op>, op: Op)
    ensures CountEffect(before, a + [op]) == CountOne(CountEffect(before, a), op)
    ensures CleanAt(before, a + [op]) <==> CleanAt(before, a) && (op.Disinherit? ==> CountEffect(before, a) > 0)
  {
    assert (a + [op])[..|a + [op]| - 1] == a;
  }

  /** One emission, or none, at the end of a pair's emissions. */
  lemma CountMaybe(before: nat, a: seq<Op>, emits: bool, op: Op)
    ensures var ops := a + if emits then [op] else [];
      && (emits && op.Inherit? ==> CountEffect(before, ops) == CountEffect(before, a) + 1)
      && (emits && op.Disinherit? ==>
          CountEffect(before, ops) == if CountEffect(before, a) > 0 then CountEffect(before, a) - 1 else 0)
      && (!emits || op.AddHop? || op.RemoveHop? ==> CountEffect(before, ops) == CountEffect(before, a))
      && (CleanAt(before, ops) <==> CleanAt(before, a) && (emits && op.Disinherit? ==> CountEffect(before, a) > 0))
  {
    if emits { CountSnoc(before, a, op); } else { assert a + [] == a; }
  }

  lemma CountParts(removes: bool, adds: bool, again: bool, d: Name, x: Route, y: Route, z: Route, before: nat)
    ensures var ops := (if removes then [Disinherit(d, x)] else []) + (if adds then [Inherit(d, y)] else []) +
                       (if again then [Inherit(d, z)] else []);
      && CleanAt(before, ops) == (removes ==> before > 0)
      && CountEffect(before, ops) == (if removes && before > 0 then before - 1 else before) +
                                     (if adds then 1 else 0) + (if again then 1 else 0)
  {
    assert CleanAt(before, []) && CountEffect(before, []) == before;
    var a: seq<Op> := if removes then [Disinherit(d, x)] else [];
    var b: seq<Op> := a + if adds then [Inherit(d, y)] else [];
    CountMaybe(before, [], removes, Disinherit(d, x));
    assert [] + a == a;
    CountMaybe(before, a, adds, Inherit(d, y));
    CountMaybe(before, b, again, Inherit(d, z));
  }

  lemma EditCoversAt(t: Table, c: Table, n: Name, add: seq<Route>, remove: seq<Route>, more: seq<Route>, ops: seq<Op>,
                     f: nat, d: Name)
    requires OnlyAt(t, c, n) && SameRecords(t, c, n) && EmitsAt(t, n, add, remove, more, ops, f, d) && d != n
    requires CoveredAt(t, d, f)
    requires Delivered(t, n, add, remove, more, f) == CostOf(SentDown(c, n, f)) || !Reaches(t, n, f)
    ensures CoveredAt(ApplyRecords(c, ops), d, f)
  {
    assert SameRoutesAt(t, c, d);
    if d in c {
      CoveredAfter(c, ops, d, f);
      assert CountEffect(CountOn(t[d].inherited, f), []) == CountOn(t[d].inherited, f);
      CountVisit(d, t[d], add, remove, more, f, CountOn(t[d].inherited, f));
      HopsBelow(t, c, n, d, f);
    }
  }

  /** What arrives at a name without own routes on the face, before and after an edit elsewhere. */
  lemma HopsBelow(t: Table, c: Table, n: Name, d: Name, f: nat)
    requires OnlyAt(t, c, n) && d != n && d in t && d in c
    ensures !Captures(t[d].routes) && !HasFace(t[d].routes, f) ==>
      if Open(t, n, d, f) then
        CostOf(Arriving(t, d, f)) == CostOf(SentDown(t, n, f)) && CostOf(Arriving(c, d, f)) == CostOf(SentDown(c, n, f))
      else CostOf(Arriving(t, d, f)) == CostOf(Arriving(c, d, f))
  {
    assert SameRoutesAt(t, c, d);
    if n < d {
      NextHopBelow(t, c, n, d, f);
    } else {
      NextHopElsewhere(t, c, n, d, f);
    }
  }

  /** No visited entry with an own route gets a record. */
  lemma EditTidyAt(t: Table, c: Table, n: Name, add: seq<Route>, remove: seq<Route>, more: seq<Route>, ops: seq<Op>,
                   f: nat, d: Name)
    requires OnlyAt(t, c, n) && SameRecords(t, c, n) && EmitsAt(t, n, add, remove, more, ops, f, d) && d != n
    requires TidyAt(t, d, f)
    ensures TidyAt(ApplyRecords(c, ops), d, f)
  {
    assert SameRoutesAt(t, c, d);
    if d in c {
      CoveredAfter(c, ops, d, f);
      assert CountEffect(CountOn(t[d].inherited, f), []) == CountOn(t[d].inherited, f);
      CountVisit(d, t[d], add, remove, more, f, CountOn(t[d].inherited, f));
    }
  }

  /** The record updates of an edit are clean outside `n`. */
  lemma EditClean(t: Table, c: Table, n: Name, add: seq<Route>, remove: seq<Route>, more: seq<Route>, ops: seq<Op>,
                  f: nat, d: Name)
    requires OnlyAt(t, c, n) && SameRecords(t, c, n) && EmitsAt(t, n, add, remove, more, ops, f, d) && d != n
    ensures CleanAt(Records(c, d, f), Project(ops, d, f))
  {
    if Open(t, n, d, f) {
      assert SameRoutesAt(t, c, d);
      CountVisit(d, t[d], add, remove, more, f, CountOn(t[d].inherited, f));
    }
  }

  // ----- both together -----

  /** One committed edit: exactness on `f` is decided at `n` and by what the traversals do under it; coverage and
      tidiness are decided at `n`. */
  lemma StepFromEdit(t: Table, c: Table, fib: Fib, n: Name, add: seq<Route>, remove: seq<Route>, more: seq<Route>,
                     ops: seq<Op>, f: nat)
    requires OnlyAt(t, c, n) && SameRecords(t, c, n) && EmitsUnder(t, n, add, remove, more, ops, f)
    requires Covered(t, f) && ExactOn(t, fib, f)
    ensures var u := ApplyRecords(c, ops);
      && (ExactOn(u, ApplyOps(fib, ops), f) <==>
          && Effect(NextHop(t, n, f), Project(ops, n, f)) == NextHop(c, n, f)
          && SubtreeRight(t, c, n, add, remove, more, f))
      && (SubtreeRight(t, c, n, add, remove, more, f) && CoveredAt(u, n, f) ==> Covered(u, f))
  {
    var u := ApplyRecords(c, ops);
    EditExact(t, c, fib, n, add, remove, more, ops, f);
    forall d ensures NextHop(u, d, f) == NextHop(c, d, f) { NextHopIgnoresRecords(c, ops, d, f); }
    if SubtreeRight(t, c, n, add, remove, more, f) && CoveredAt(u, n, f) {
      forall d ensures CoveredAt(u, d, f) {
        assert EmitsAt(t, n, add, remove, more, ops, f, d) && CoveredAt(t, d, f);
        if d != n { EditCoversAt(t, c, n, add, remove, more, ops, f, d); }
      }
    }
  }

  lemma TidyFromEdit(t: Table, c: Table, n: Name, add: seq<Route>, remove: seq<Route>, more: seq<Route>, ops: seq<Op>,
                     f: nat)
    requires OnlyAt(t, c, n) && SameRecords(t, c, n) && EmitsUnder(t, n, add, remove, more, ops, f) && Tidy(t, f)
    ensures Tidy(ApplyRecords(c, ops), f) <==> TidyAt(ApplyRecords(c, ops), n, f)
  {
    var u := ApplyRecords(c, ops);
    if TidyAt(u, n, f) {
      forall d ensures TidyAt(u, d, f) {
        assert EmitsAt(t, n, add, remove, more, ops, f, d) && TidyAt(t, d, f);
        if d != n { EditTidyAt(t, c, n, add, remove, more, ops, f, d); }
      }
    }
  }

  /** Whether the records at the edited name cover what it inherits, and are tidy, afterwards. */
  lemma RecordsAtSelf(t: Table, c: Table, n: Name, ops: seq<Op>, f: nat)
    requires OnlyAt(t, c, n) && n in c
    ensures var u, count := ApplyRecords(c, ops), CountEffect(CountOn(c[n].inherited, f), Project(ops, n, f));
      && (CoveredAt(u, n, f) <==>
          (!Captures(c[n].routes) && !HasFace(c[n].routes, f) && Arriving(t, n, f).Some? ==> count > 0))
      && (TidyAt(u, n, f) <==> (count > 0 ==> !HasFace(c[n].routes, f)))
  {
    CoveredAfter(c, ops, n, f);
    ArrivingIgnoresSelf(t, c, n, f);
  }
}
