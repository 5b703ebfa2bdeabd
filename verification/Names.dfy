/** Names, their canonical order, and the longest proper prefix of a name in a set. */
module Names {
  import opened Wrappers
  import NameComponent

  type Name = seq<NameComponent.Component>

  // On sequences `p <= n` reads "p is a prefix of n" and `p < n` "p is a proper prefix of n".

  /** The sign of `Name::compare`: components left to right, then the shorter name first. */
  function Compare(a: Name, b: Name): (sign: int)
    ensures -1 <= sign <= 1
  {
    if a == [] || b == [] then NameComponent.Sign(|a| - |b|)
    else
      var c := NameComponent.Compare(a[0], b[0]);
      if c != 0 then c else Compare(a[1..], b[1..])
  }

  predicate Before(a: Name, b: Name) { Compare(a, b) < 0 }

  lemma {:induction false} CompareTotalOrder(a: Name, b: Name)
    ensures Compare(a, b) == 0 <==> a == b
    ensures Compare(a, b) == -Compare(b, a)
  {
    if a != [] && b != [] {
      NameComponent.CompareTotalOrder(a[0], b[0], b[0]);
      CompareTotalOrder(a[1..], b[1..]);
      assert a == [a[0]] + a[1..] && b == [b[0]] + b[1..];
    }
  }

  /** Names that differ first after a common front are ordered by the components there, whatever follows. */
  lemma {:induction false} FirstDifferenceDecides(p: Name, x: NameComponent.Component, y: NameComponent.Component,
                                                  s: Name, t: Name)
    requires x != y
    ensures Compare(p + [x] + s, p + [y] + t) == NameComponent.Compare(x, y)
  {
    var a, b := p + [x] + s, p + [y] + t;
    if p == [] {
      assert a[0] == x && b[0] == y;
      NameComponent.CompareTotalOrder(x, y, y);
    } else {
      assert a[0] == b[0] == p[0] && a[1..] == p[1..] + [x] + s && b[1..] == p[1..] + [y] + t;
      NameComponent.CompareTotalOrder(p[0], p[0], p[0]);
      FirstDifferenceDecides(p[1..], x, y, s, t);
    }
  }

  /** Of two names of which one is a proper prefix of the other, the shorter is first. */
  lemma ShorterIsFirst(p: Name, a: Name)
    requires p < a
    ensures Compare(p, a) == -1 && Compare(a, p) == 1
  {
    PrefixIsBefore(p, a);
    CompareTotalOrder(p, a);
  }

  /** Every two names are of one of these kinds: they have a common front of `k` components, and then one ends or they
      differ. */
  lemma {:induction false} CompareIsLexicographic(a: Name, b: Name) returns (k: nat)
    ensures k <= |a| && k <= |b| && a[..k] == b[..k]
    ensures if k < |a| && k < |b| then a[k] != b[k] && Compare(a, b) == NameComponent.Compare(a[k], b[k])
            else Compare(a, b) == if |a| < |b| then -1 else if |a| > |b| then 1 else 0
  {
    if a == [] || b == [] || a[0] != b[0] {
      k := 0;
      if a != [] && b != [] { NameComponent.CompareTotalOrder(a[0], b[0], b[0]); }
    } else {
      NameComponent.CompareTotalOrder(a[0], b[0], b[0]);
      k := CompareIsLexicographic(a[1..], b[1..]);
      k := k + 1;
      assert a[..k] == [a[0]] + a[1..][..k - 1] && b[..k] == [b[0]] + b[1..][..k - 1];
    }
  }

  lemma {:induction false} BeforeTransitive(a: Name, b: Name, c: Name)
    requires Before(a, b) && Before(b, c)
    ensures Before(a, c)
  {
    if a != [] {
      NameComponent.CompareTotalOrder(a[0], b[0], c[0]);
      NameComponent.CompareTotalOrder(b[0], c[0], c[0]);
      if a[0] == b[0] == c[0] { BeforeTransitive(a[1..], b[1..], c[1..]); }
    }
  }

  lemma {:induction false} PrefixIsBefore(p: Name, a: Name)
    requires p < a
    ensures Before(p, a)
  {
    if p != [] {
      NameComponent.CompareTotalOrder(p[0], a[0], a[0]);
      PrefixIsBefore(p[1..], a[1..]);
    }
  }

  /** The extensions of a name are contiguous in canonical order. */
  lemma {:induction false} ExtensionsAreContiguous(p: Name, a: Name, b: Name)
    requires Before(p, a) && Before(a, b) && p <= b
    ensures p <= a
  {
    if p != [] {
      NameComponent.CompareTotalOrder(p[0], a[0], b[0]);
      NameComponent.CompareTotalOrder(a[0], b[0], b[0]);
      assert p[0] == a[0];
      ExtensionsAreContiguous(p[1..], a[1..], b[1..]);
      assert p == [p[0]] + p[1..] && a == [a[0]] + a[1..];
    }
  }

  // ----- longest proper prefix -----

  /** The longest prefix of `n` with fewer than `k` components that is in `names`. */
  function Longest(names: set<Name>, n: Name, k: nat): (r: Option<Name>)
    requires k <= |n|
  {
    if k == 0 then None
    else if n[..k - 1] in names then Some(n[..k - 1])
    else Longest(names, n, k - 1)
  }

  /** The name of the nearest ancestor of `n` in `names`. */
  function ParentOf(names: set<Name>, n: Name): (r: Option<Name>)
    ensures r.Some? ==> r.value in names && r.value < n
  {
    LongestIs(names, n, |n|);
    Longest(names, n, |n|)
  }

  lemma {:induction false} LongestIs(names: set<Name>, n: Name, k: nat)
    requires k <= |n|
    ensures var r := Longest(names, n, k);
      && (r.Some? ==> r.value in names && r.value <= n && |r.value| < k)
      && (forall q :: q in names && q <= n && |q| < k ==> r.Some? && |q| <= |r.value|)
  {
    if k > 0 {
      LongestIs(names, n, k - 1);
      forall q | q in names && q <= n && |q| < k
        ensures Longest(names, n, k).Some? && |q| <= |Longest(names, n, k).value|
      {
        if |q| == k - 1 { assert q == n[..k - 1]; }
      }
    }
  }

  /** `ParentOf` is the one proper prefix in the set that no other is longer than. */
  lemma ParentOfIff(names: set<Name>, n: Name, p: Name)
    ensures ParentOf(names, n) == Some(p) <==>
            p in names && p < n && forall q :: q in names && q < n ==> |q| <= |p|
    ensures ParentOf(names, n) == None <==> forall q :: q in names ==> !(q < n)
  {
    LongestIs(names, n, |n|);
    var r := ParentOf(names, n);
    if p in names && p < n && forall q :: q in names && q < n ==> |q| <= |p| {
      assert p == n[..|p|] && r.value == n[..|r.value|];
    }
  }

  /** A prefix of a name's prefix is compared inside the name. */
  lemma PrefixesAreOrdered(p: Name, q: Name, n: Name)
    requires p <= n && q <= n
    ensures |p| < |q| <==> p < q
    ensures |p| == |q| <==> p == q
  {
    assert p == n[..|p|] && q == n[..|q|];
  }

  /** Where the parent of `m` goes when `n` joins the set. */
  lemma ParentAfterInsert(names: set<Name>, n: Name, m: Name)
    requires n !in names
    ensures ParentOf(names + {n}, m) ==
            if n < m && ParentOf(names, m) == ParentOf(names, n) then Some(n) else ParentOf(names, m)
  {
    var was := ParentOf(names, m);
    ParentOfIff(names, m, if was.Some? then was.value else []);
    ParentOfIff(names, n, if was.Some? then was.value else []);
    ParentOfIff(names + {n}, m, if was.Some? then was.value else []);
    ParentOfIff(names + {n}, m, n);
    if n < m {
      if was.Some? { PrefixesAreOrdered(was.value, n, m); }
      forall q | q in names && q < n ensures q < m {
        PrefixesAreOrdered(q, n, m);
      }
      forall q | q in names && q < m && |q| < |n| ensures q < n {
        PrefixesAreOrdered(q, n, m);
      }
      if was.Some? && |was.value| > |n| {
        var pn := ParentOf(names, n);
        assert pn != was;
      }
    }
  }

  /** Where the parent of `m` goes when `n` leaves the set. */
  lemma ParentAfterErase(names: set<Name>, n: Name, m: Name)
    requires n in names && m != n
    ensures ParentOf(names - {n}, m) ==
            if ParentOf(names, m) == Some(n) then ParentOf(names, n) else ParentOf(names, m)
  {
    var rest := names - {n};
    assert rest + {n} == names;
    ParentAfterInsert(rest, n, m);
    ParentAfterInsert(rest, n, n);
    if ParentOf(names, m) == Some(n) {
      ParentOfIff(rest, m, n);
    }
  }
}
