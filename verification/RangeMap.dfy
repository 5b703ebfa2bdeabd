/**
 A set over an ordered domain, stored as a descending list of keys with a flag: the flag says that everything
 between the key and the next greater one belongs to the set too. Range insertion in place, recovery of the
 ranges, and the conditions under which each is exact.
 */
module RangeMap {
  import opened Wrappers

  datatype Entry<K> = Entry(key: K, any: bool)

  /** `gt` is a strict total order. */
  ghost predicate Ordered<K(!new)>(gt: (K, K) -> bool) {
    forall a, b, c :: OrderedAt(gt, a, b, c)
  }

  /** What an order says about three keys. */
  ghost predicate OrderedAt<K>(gt: (K, K) -> bool, a: K, b: K, c: K) {
    && !gt(a, a)
    && (gt(a, b) && gt(b, c) ==> gt(a, c))
    && (gt(a, b) || gt(b, a) || a == b)
  }

  lemma Irreflexive<K(!new)>(gt: (K, K) -> bool, a: K)
    requires Ordered(gt)
    ensures !gt(a, a)
  {
    assert OrderedAt(gt, a, a, a);
  }

  lemma Transitive<K(!new)>(gt: (K, K) -> bool, a: K, b: K, c: K)
    requires Ordered(gt) && gt(a, b) && gt(b, c)
    ensures gt(a, c)
  {
    assert OrderedAt(gt, a, b, c);
  }

  lemma Asymmetric<K(!new)>(gt: (K, K) -> bool, a: K, b: K)
    requires Ordered(gt) && gt(a, b)
    ensures !gt(b, a) && a != b
  {
    assert OrderedAt(gt, a, b, a) && OrderedAt(gt, a, a, a);
  }

  lemma Total<K(!new)>(gt: (K, K) -> bool, a: K, b: K)
    requires Ordered(gt)
    ensures gt(a, b) || gt(b, a) || a == b
  {
    assert OrderedAt(gt, a, b, b);
  }

  /** What is not above a key is below everything above it. */
  lemma AboveRest<K(!new)>(gt: (K, K) -> bool, a: K, b: K, c: K)
    requires Ordered(gt) && gt(a, b) && !gt(c, b)
    ensures gt(a, c) && !gt(c, a)
  {
    assert OrderedAt(gt, c, a, b);
    Total(gt, a, c);
  }

  lemma NotAboveTransitive<K(!new)>(gt: (K, K) -> bool, a: K, b: K, c: K)
    requires Ordered(gt) && !gt(a, b) && !gt(b, c)
    ensures !gt(a, c)
  {
    assert OrderedAt(gt, b, a, c);
    Total(gt, a, b);
  }

  predicate Descending<K>(es: seq<Entry<K>>, gt: (K, K) -> bool) {
    forall i, j | 0 <= i < j < |es| :: gt(es[i].key, es[j].key)
  }

  /** `lower_bound` in descending order: the position of the greatest key that is not above `x`. */
  function LowerBound<K>(es: seq<Entry<K>>, gt: (K, K) -> bool, x: K): (r: nat)
    ensures r <= |es|
    ensures forall k | 0 <= k < r :: gt(es[k].key, x)
    ensures r < |es| ==> !gt(es[r].key, x)
  {
    LowerFrom(es, gt, x, 0)
  }

  /** The search from position `i` on. */
  function LowerFrom<K>(es: seq<Entry<K>>, gt: (K, K) -> bool, x: K, i: nat): (r: nat)
    requires i <= |es|
    ensures i <= r <= |es|
    ensures forall k | i <= k < r :: gt(es[k].key, x)
    ensures r < |es| ==> !gt(es[r].key, x)
    decreases |es| - i
  {
    if i == |es| || !gt(es[i].key, x) then i else LowerFrom(es, gt, x, i + 1)
  }

  /** `x` stands at position `k`: everything before is above it, and nothing from there on is. */
  ghost predicate Stands<K(!new)>(es: seq<Entry<K>>, gt: (K, K) -> bool, x: K, k: nat) {
    k <= |es| && (k > 0 ==> gt(es[k - 1].key, x)) && (k < |es| ==> !gt(es[k].key, x))
  }

  lemma StandsIsLowerBound<K(!new)>(es: seq<Entry<K>>, gt: (K, K) -> bool, x: K, k: nat)
    requires Ordered(gt) && Descending(es, gt) && Stands(es, gt, x, k)
    ensures LowerBound(es, gt, x) == k
  {
    var r := LowerBound(es, gt, x);
    if r < k - 1 { Transitive(gt, es[r].key, es[k - 1].key, x); }
  }

  lemma LowerBoundStands<K(!new)>(es: seq<Entry<K>>, gt: (K, K) -> bool, x: K)
    ensures Stands(es, gt, x, LowerBound(es, gt, x))
  {
  }

  lemma ContainsStands<K(!new)>(es: seq<Entry<K>>, gt: (K, K) -> bool, x: K, k: nat)
    requires Ordered(gt) && Descending(es, gt) && Stands(es, gt, x, k)
    ensures LowerBound(es, gt, x) == k
    ensures Contains(es, gt, x) <==> k < |es| && (es[k].any || es[k].key == x)
  {
    StandsIsLowerBound(es, gt, x, k);
  }

  /** `isExcluded`. */
  predicate Contains<K(==)>(es: seq<Entry<K>>, gt: (K, K) -> bool, x: K) {
    var i := LowerBound(es, gt, x);
    i < |es| && (es[i].any || es[i].key == x)
  }

  predicate Between<K>(gt: (K, K) -> bool, lo: K, x: K, hi: K) { !gt(lo, x) && !gt(x, hi) }

  // ----- one key -----

  /** `emplace`: a key that is there is left alone. */
  function Emplace<K(==)>(es: seq<Entry<K>>, gt: (K, K) -> bool, e: Entry<K>): (r: seq<Entry<K>>) {
    var i := LowerBound(es, gt, e.key);
    if i < |es| && es[i].key == e.key then es else es[..i] + [e] + es[i..]
  }

  lemma EmplaceDescends<K(!new)>(es: seq<Entry<K>>, gt: (K, K) -> bool, e: Entry<K>)
    requires Ordered(gt) && Descending(es, gt)
    ensures Descending(Emplace(es, gt, e), gt)
  {
    var i := LowerBound(es, gt, e.key);
    if i < |es| && es[i].key != e.key {
      Total(gt, es[i].key, e.key);
      forall k | i <= k < |es| ensures gt(e.key, es[k].key) {
        if k > i { Transitive(gt, e.key, es[i].key, es[k].key); }
      }
    }
  }

  /** `excludeOne`. */
  function WithOne<K(==)>(es: seq<Entry<K>>, gt: (K, K) -> bool, x: K): (r: seq<Entry<K>>) {
    if Contains(es, gt, x) then es else Emplace(es, gt, Entry(x, false))
  }

  // ----- the start of a range -----

  /** The first half of range insertion: the entry at the position of `from` gets the flag, and is made if the
      greatest key up to `from` has no flag and is not `from` itself. */
  function WithFrom<K(==)>(es: seq<Entry<K>>, gt: (K, K) -> bool, from: K): (m: seq<Entry<K>>)
    ensures LowerBound(es, gt, from) < |m| && m[LowerBound(es, gt, from)].any
    ensures m[..LowerBound(es, gt, from)] == es[..LowerBound(es, gt, from)]
  {
    var i := LowerBound(es, gt, from);
    if i < |es| && es[i].any then es
    else if i < |es| && es[i].key == from then es[i := Entry(from, true)]
    else es[..i] + [Entry(from, true)] + es[i..]
  }

  lemma WithFromDescends<K(!new)>(es: seq<Entry<K>>, gt: (K, K) -> bool, from: K)
    requires Ordered(gt) && Descending(es, gt)
    ensures var m, i := WithFrom(es, gt, from), LowerBound(es, gt, from);
      Descending(m, gt) && !gt(m[i].key, from)
  {
    EmplaceDescends(es, gt, Entry(from, true));
    Irreflexive(gt, from);
  }

  /** `excludeAfter`. */
  function WithAfter<K(==)>(es: seq<Entry<K>>, gt: (K, K) -> bool, from: K): (r: seq<Entry<K>>) {
    WithFrom(es, gt, from)[LowerBound(es, gt, from)..]
  }

  /** `excludeRange`: `to` is above `from`. */
  function WithRange<K(==, !new)>(es: seq<Entry<K>>, gt: (K, K) -> bool, from: K, to: K): (r: seq<Entry<K>>)
    requires Ordered(gt) && Descending(es, gt) && gt(to, from)
  {
    var m, i := WithFrom(es, gt, from), LowerBound(es, gt, from);
    var j := LowerBound(m, gt, to);
    PlaceOfTo(es, gt, from, to);
    Splice(m, i, j, to)
  }

  // ----- exactness, point by point -----

  lemma OneExact<K(!new)>(es: seq<Entry<K>>, gt: (K, K) -> bool, c: K, x: K)
    requires Ordered(gt) && Descending(es, gt)
    ensures Descending(WithOne(es, gt, c), gt)
    ensures Contains(WithOne(es, gt, c), gt, x) <==> Contains(es, gt, x) || x == c
  {
    if !Contains(es, gt, c) {
      EmplaceDescends(es, gt, Entry(c, false));
      OnePutIn(es, gt, LowerBound(es, gt, c), c, x);
    }
  }

  lemma OnePutIn<K(!new)>(es: seq<Entry<K>>, gt: (K, K) -> bool, i: nat, c: K, x: K)
    requires Ordered(gt) && i == LowerBound(es, gt, c) && (i < |es| ==> !es[i].any && es[i].key != c)
    requires Descending(es[..i] + [Entry(c, false)] + es[i..], gt)
    ensures Contains(es[..i] + [Entry(c, false)] + es[i..], gt, x) <==> Contains(es, gt, x) || x == c
  {
    var r, p := es[..i] + [Entry(c, false)] + es[i..], LowerBound(es, gt, x);
    LowerBoundStands(es, gt, x);
    LowerBoundStands(es, gt, c);
    if x == c {
      Irreflexive(gt, c);
      ContainsStands(r, gt, x, i);
    } else if p < i {
      ContainsStands(r, gt, x, p);
    } else if p == i && gt(x, c) {
      Asymmetric(gt, x, c);
      ContainsStands(r, gt, x, i);
    } else {
      Total(gt, c, x);
      OneBelow(es, gt, i, c, x, p);
      ContainsStands(r, gt, x, p + 1);
    }
  }

  lemma OneBelow<K(!new)>(es: seq<Entry<K>>, gt: (K, K) -> bool, i: nat, c: K, x: K, p: nat)
    requires i <= p && Stands(es, gt, x, p) && (p == i ==> gt(c, x))
    ensures var r := es[..i] + [Entry(c, false)] + es[i..];
      Stands(r, gt, x, p + 1) && (p + 1 < |r| <==> p < |es|) && (p < |es| ==> r[p + 1] == es[p])
  {
    PutIn(es, i, Entry(c, false), p);
  }

  /** What the first half does to the points below `from` and to those at or above it that stood at its place. */
  lemma WithFromAt<K(!new)>(es: seq<Entry<K>>, gt: (K, K) -> bool, from: K, x: K)
    requires Ordered(gt) && Descending(es, gt)
    ensures var m, i := WithFrom(es, gt, from), LowerBound(es, gt, from);
      var p, q := LowerBound(es, gt, x), LowerBound(m, gt, x);
      && (gt(from, x) ==> (Contains(m, gt, x) <==> Contains(es, gt, x)) && q >= i)
      && (!gt(from, x) ==> p <= i && q == p)
  {
    if gt(from, x) { WithFromBelow(es, gt, from, x); } else { WithFromAbove(es, gt, from, x); }
  }

  lemma WithFromAbove<K(!new)>(es: seq<Entry<K>>, gt: (K, K) -> bool, from: K, x: K)
    requires Ordered(gt) && Descending(es, gt) && !gt(from, x)
    ensures LowerBound(es, gt, x) <= LowerBound(es, gt, from)
    ensures LowerBound(WithFrom(es, gt, from), gt, x) == LowerBound(es, gt, x)
  {
    var m, i, p := WithFrom(es, gt, from), LowerBound(es, gt, from), LowerBound(es, gt, x);
    WithFromDescends(es, gt, from);
    LowerMonotone(es, gt, from, x);
    LowerBoundStands(es, gt, x);
    NotAboveTransitive(gt, m[i].key, from, x);
    SamePrefix(es, m, i);
    PrefixStands(es, gt, i, x, p, m);
    StandsIsLowerBound(m, gt, x, p);
  }

  lemma SamePrefix<K>(es: seq<Entry<K>>, m: seq<Entry<K>>, i: nat)
    requires i <= |es| && i <= |m| && m[..i] == es[..i]
    ensures forall k | 0 <= k < i :: m[k] == es[k]
  {
    assert forall k | 0 <= k < i :: m[..i][k] == es[..i][k];
  }

  lemma PrefixStands<K(!new)>(es: seq<Entry<K>>, gt: (K, K) -> bool, i: nat, x: K, p: nat, m: seq<Entry<K>>)
    requires Stands(es, gt, x, p) && p <= i < |m| && i <= |es| && !gt(m[i].key, x)
    requires forall k | 0 <= k < i :: m[k] == es[k]
    ensures Stands(m, gt, x, p)
  {
  }

  lemma WithFromBelow<K(!new)>(es: seq<Entry<K>>, gt: (K, K) -> bool, from: K, x: K)
    requires Ordered(gt) && Descending(es, gt) && gt(from, x)
    ensures Contains(WithFrom(es, gt, from), gt, x) <==> Contains(es, gt, x)
    ensures LowerBound(WithFrom(es, gt, from), gt, x) >= LowerBound(es, gt, from)
  {
    var m, i, p := WithFrom(es, gt, from), LowerBound(es, gt, from), LowerBound(es, gt, x);
    WithFromDescends(es, gt, from);
    LowerIsFurther(es, gt, from, x);
    LowerBoundStands(es, gt, x);
    if i < |es| && es[i].any {
      assert m == es;
    } else if i < |es| && es[i].key == from {
      assert p > i;
      FlaggedStands(es, gt, i, from, x, p);
      StandsIsLowerBound(m, gt, x, p);
    } else {
      NewStands(es, gt, i, from, x, p);
      StandsIsLowerBound(m, gt, x, p + 1);
    }
  }

  /** Where a key below `from` stands after the entry at `from` is flagged. */
  lemma FlaggedStands<K(!new)>(es: seq<Entry<K>>, gt: (K, K) -> bool, i: nat, from: K, x: K, p: nat)
    requires i < |es| && gt(from, x) && p > i && Stands(es, gt, x, p)
    ensures Stands(es[i := Entry(from, true)], gt, x, p) && (p < |es| ==> es[i := Entry(from, true)][p] == es[p])
  {
  }

  /** The same after an entry for `from` is put in. */
  lemma NewStands<K(!new)>(es: seq<Entry<K>>, gt: (K, K) -> bool, i: nat, from: K, x: K, p: nat)
    requires i <= p && gt(from, x) && Stands(es, gt, x, p)
    ensures var m := es[..i] + [Entry(from, true)] + es[i..]; Stands(m, gt, x, p + 1) && (p < |es| ==> m[p + 1] == es[p])
  {
    PutIn(es, i, Entry(from, true), p);
  }

  lemma PutIn<K>(es: seq<Entry<K>>, i: nat, e: Entry<K>, p: nat)
    requires i <= p <= |es|
    ensures var m := es[..i] + [e] + es[i..];
      |m| == |es| + 1 && m[i] == e && (p > i ==> m[p] == es[p - 1]) && (p < |es| ==> m[p + 1] == es[p])
  {
  }

  lemma LowerMonotone<K(!new)>(es: seq<Entry<K>>, gt: (K, K) -> bool, a: K, b: K)
    requires Ordered(gt) && !gt(a, b)
    ensures LowerBound(es, gt, b) <= LowerBound(es, gt, a)
  {
    var r := LowerBound(es, gt, a);
    if r < |es| { NotAboveTransitive(gt, es[r].key, a, b); }
  }

  lemma LowerIsFurther<K(!new)>(es: seq<Entry<K>>, gt: (K, K) -> bool, a: K, b: K)
    requires Ordered(gt) && gt(a, b)
    ensures LowerBound(es, gt, a) <= LowerBound(es, gt, b)
  {
    Asymmetric(gt, a, b);
    LowerMonotone(es, gt, b, a);
  }

  lemma AfterExact<K(!new)>(es: seq<Entry<K>>, gt: (K, K) -> bool, from: K, x: K)
    requires Ordered(gt) && Descending(es, gt)
    ensures Descending(WithAfter(es, gt, from), gt)
    ensures Contains(WithAfter(es, gt, from), gt, x) <==> Contains(es, gt, x) || !gt(from, x)
  {
    var m, i := WithFrom(es, gt, from), LowerBound(es, gt, from);
    WithFromDescends(es, gt, from);
    SliceDescends(m, gt, i, |m|);
    assert m[i..] == m[i..|m|];
    if gt(from, x) {
      WithFromBelow(es, gt, from, x);
      AfterBelow(m, gt, i, x);
    } else {
      NotAboveTransitive(gt, m[i].key, from, x);
      ContainsStands(m[i..], gt, x, 0);
    }
  }

  lemma AfterBelow<K(!new)>(m: seq<Entry<K>>, gt: (K, K) -> bool, i: nat, x: K)
    requires Ordered(gt) && i <= LowerBound(m, gt, x) && Descending(m[i..], gt)
    ensures Contains(m[i..], gt, x) <==> Contains(m, gt, x)
  {
    SliceStands(m, gt, i, x);
    ContainsStands(m[i..], gt, x, LowerBound(m, gt, x) - i);
  }

  lemma SliceStands<K(!new)>(m: seq<Entry<K>>, gt: (K, K) -> bool, i: nat, x: K)
    requires i <= LowerBound(m, gt, x)
    ensures var q, r := LowerBound(m, gt, x), m[i..];
      Stands(r, gt, x, q - i) && (q < |m| ==> r[q - i] == m[q])
  {
  }

  /** A range wholly inside one flagged stretch ends that stretch at `to`. */
  predicate Nested<K>(es: seq<Entry<K>>, gt: (K, K) -> bool, from: K, to: K) {
    var i := LowerBound(es, gt, from);
    i < |es| && es[i].any && LowerBound(es, gt, to) == i
  }

  /** What is lost then: the points of the stretch above `to`. */
  predicate Lost<K>(es: seq<Entry<K>>, gt: (K, K) -> bool, from: K, to: K, x: K) {
    Nested(es, gt, from, to) && gt(x, to) && LowerBound(es, gt, x) == LowerBound(es, gt, from)
  }

  lemma SliceDescends<K>(m: seq<Entry<K>>, gt: (K, K) -> bool, a: nat, b: nat)
    requires Descending(m, gt) && a <= b <= |m|
    ensures Descending(m[a..b], gt)
  {
  }

  lemma DescendingConcat<K(!new)>(a: seq<Entry<K>>, b: seq<Entry<K>>, gt: (K, K) -> bool)
    requires Ordered(gt) && Descending(a, gt) && Descending(b, gt)
    requires a != [] && b != [] ==> gt(a[|a| - 1].key, b[0].key)
    ensures Descending(a + b, gt)
  {
    forall i, j | 0 <= i < |a| && 0 <= j < |b| ensures gt(a[i].key, b[j].key) {
      if i < |a| - 1 { Transitive(gt, a[i].key, a[|a| - 1].key, b[0].key); }
      if j > 0 { Transitive(gt, a[i].key, b[0].key, b[j].key); }
    }
  }

  /** The second half of range insertion, on the list that already has the flagged start at `i`. */
  function Splice<K>(m: seq<Entry<K>>, i: nat, j: nat, to: K): (r: seq<Entry<K>>)
    requires j <= i < |m|
  {
    if j == i || !m[j].any then m[..j] + [Entry(to, false)] + m[i..] else m[..j] + m[i..]
  }

  lemma SpliceDescends<K(!new)>(m: seq<Entry<K>>, gt: (K, K) -> bool, i: nat, j: nat, to: K)
    requires Ordered(gt) && Descending(m, gt) && j <= i < |m| && gt(to, m[i].key) && j == LowerBound(m, gt, to)
    ensures Descending(Splice(m, i, j, to), gt)
  {
    SliceDescends(m, gt, 0, j);
    SliceDescends(m, gt, i, |m|);
    assert m[..j] == m[0..j] && m[i..] == m[i..|m|];
    if j == i || !m[j].any {
      DescendingConcat(m[..j], [Entry(to, false)], gt);
      DescendingConcat(m[..j] + [Entry(to, false)], m[i..], gt);
    } else {
      assert j > 0 ==> gt(m[j - 1].key, m[i].key);
      DescendingConcat(m[..j], m[i..], gt);
    }
  }

  lemma SpliceAt<K(!new)>(m: seq<Entry<K>>, gt: (K, K) -> bool, i: nat, j: nat, to: K, x: K)
    requires Ordered(gt) && Descending(m, gt) && j <= i < |m| && gt(to, m[i].key) && j == LowerBound(m, gt, to)
    requires m[i].any
    ensures var q := LowerBound(m, gt, x);
      Contains(Splice(m, i, j, to), gt, x) <==>
      if gt(x, to) then Contains(m, gt, x) && !(q == i && j == i) else q < i || Contains(m, gt, x)
  {
    var r, q := Splice(m, i, j, to), LowerBound(m, gt, x);
    SpliceDescends(m, gt, i, j, to);
    if gt(x, to) { SpliceAbove(m, gt, i, j, to, x, r); } else { SpliceUpTo(m, gt, i, j, to, x, r); }
  }

  lemma SpliceAbove<K(!new)>(m: seq<Entry<K>>, gt: (K, K) -> bool, i: nat, j: nat, to: K, x: K, r: seq<Entry<K>>)
    requires Ordered(gt) && Descending(m, gt) && j <= i < |m| && gt(to, m[i].key) && j == LowerBound(m, gt, to)
    requires m[i].any && r == Splice(m, i, j, to) && Descending(r, gt) && gt(x, to)
    ensures var q := LowerBound(m, gt, x); Contains(r, gt, x) <==> Contains(m, gt, x) && !(q == i && j == i)
  {
    var q := LowerBound(m, gt, x);
    LowerIsFurther(m, gt, x, to);
    assert forall k | 0 <= k < j :: r[k] == m[k];
    if q == j {
      assert r[j] == if j == i || !m[j].any then Entry(to, false) else m[i];
      Transitive(gt, x, to, m[i].key);
      Asymmetric(gt, x, r[j].key);
    }
    ContainsStands(r, gt, x, q);
  }

  lemma SpliceUpTo<K(!new)>(m: seq<Entry<K>>, gt: (K, K) -> bool, i: nat, j: nat, to: K, x: K, r: seq<Entry<K>>)
    requires Ordered(gt) && Descending(m, gt) && j <= i < |m| && gt(to, m[i].key) && j == LowerBound(m, gt, to)
    requires m[i].any && r == Splice(m, i, j, to) && Descending(r, gt) && !gt(x, to)
    ensures var q := LowerBound(m, gt, x); Contains(r, gt, x) <==> q < i || Contains(m, gt, x)
  {
    var q := LowerBound(m, gt, x);
    LowerMonotone(m, gt, x, to);
    if q < i {
      SpliceCovers(m, gt, i, j, to, x, r);
    } else {
      SpliceKeeps(m, gt, i, j, to, x, r);
    }
  }

  lemma SpliceKeeps<K(!new)>(m: seq<Entry<K>>, gt: (K, K) -> bool, i: nat, j: nat, to: K, x: K, r: seq<Entry<K>>)
    requires Ordered(gt) && Descending(m, gt) && j <= i < |m| && gt(to, m[i].key) && j == LowerBound(m, gt, to)
    requires m[i].any && r == Splice(m, i, j, to) && Descending(r, gt) && !gt(x, to) && LowerBound(m, gt, x) >= i
    ensures Contains(r, gt, x) <==> Contains(m, gt, x)
  {
    Total(gt, x, to);
    if x == to {
      Irreflexive(gt, to);
      ContainsStands(r, gt, x, i);
    } else if j == i || !m[j].any {
      SplicedWith(m, gt, i, j, to, x, r);
    } else {
      SplicedWithout(m, gt, i, j, to, x, r);
    }
  }

  lemma SplicedWith<K(!new)>(m: seq<Entry<K>>, gt: (K, K) -> bool, i: nat, j: nat, to: K, x: K, r: seq<Entry<K>>)
    requires Ordered(gt) && j <= i < |m| && r == m[..j] + [Entry(to, false)] + m[i..] && Descending(r, gt)
    requires gt(to, x) && LowerBound(m, gt, x) >= i && m[i].any
    ensures Contains(r, gt, x) <==> Contains(m, gt, x)
  {
    var q := LowerBound(m, gt, x);
    LowerBoundStands(m, gt, x);
    SplicedStands(m, gt, i, j, to, x, q);
    SameContains(m, gt, x, q, r, q - i + j + 1);
  }

  lemma SplicedStands<K(!new)>(m: seq<Entry<K>>, gt: (K, K) -> bool, i: nat, j: nat, to: K, x: K, q: nat)
    requires j <= i < |m| && gt(to, x) && q >= i && Stands(m, gt, x, q)
    ensures var r, k := m[..j] + [Entry(to, false)] + m[i..], q - i + j + 1;
      Stands(r, gt, x, k) && (k < |r| <==> q < |m|) && (q < |m| ==> r[k] == m[q])
  {
    SplicedAt(m, i, j, Entry(to, false), q, m[..j] + [Entry(to, false)] + m[i..]);
  }

  /** Where an entry stands after others were replaced by one. */
  lemma SplicedAt<K>(m: seq<Entry<K>>, i: nat, j: nat, e: Entry<K>, q: nat, r: seq<Entry<K>>)
    requires j <= i < |m| && i <= q <= |m| && r == m[..j] + [e] + m[i..]
    ensures |r| == j + 1 + |m| - i && r[j] == e
    ensures q > i ==> r[q - i + j] == m[q - 1]
    ensures q < |m| ==> r[q - i + j + 1] == m[q]
  {
  }

  lemma SplicedWithout<K(!new)>(m: seq<Entry<K>>, gt: (K, K) -> bool, i: nat, j: nat, to: K, x: K, r: seq<Entry<K>>)
    requires Ordered(gt) && j <= i < |m| && r == m[..j] + m[i..] && Descending(r, gt)
    requires gt(to, x) && LowerBound(m, gt, x) >= i && (j > 0 ==> gt(m[j - 1].key, to))
    ensures Contains(r, gt, x) <==> Contains(m, gt, x)
  {
    var q := LowerBound(m, gt, x);
    LowerBoundStands(m, gt, x);
    if j > 0 { Transitive(gt, m[j - 1].key, to, x); }
    JoinedStands(m, gt, i, j, x, q);
    SameContains(m, gt, x, q, r, q - i + j);
  }

  /** Two lists in which a key stands before the same entry. */
  lemma SameContains<K(!new)>(m: seq<Entry<K>>, gt: (K, K) -> bool, x: K, q: nat, r: seq<Entry<K>>, k: nat)
    requires Ordered(gt) && Descending(r, gt) && Stands(r, gt, x, k) && q == LowerBound(m, gt, x)
    requires (k < |r| <==> q < |m|) && (q < |m| ==> r[k] == m[q])
    ensures Contains(r, gt, x) <==> Contains(m, gt, x)
  {
    ContainsStands(r, gt, x, k);
  }

  lemma JoinedStands<K(!new)>(m: seq<Entry<K>>, gt: (K, K) -> bool, i: nat, j: nat, x: K, q: nat)
    requires j <= i < |m| && q >= i && Stands(m, gt, x, q) && (j > 0 ==> gt(m[j - 1].key, x))
    ensures var r, k := m[..j] + m[i..], q - i + j;
      Stands(r, gt, x, k) && (k < |r| <==> q < |m|) && (q < |m| ==> r[k] == m[q])
  {
    JoinedAt(m, i, j, q);
  }

  lemma JoinedAt<K>(m: seq<Entry<K>>, i: nat, j: nat, q: nat)
    requires j <= i < |m| && i <= q <= |m|
    ensures var r := m[..j] + m[i..];
      && |r| == j + |m| - i
      && (q > i ==> r[q - i + j - 1] == m[q - 1]) && (q == i && j > 0 ==> r[q - i + j - 1] == m[j - 1])
      && (q < |m| ==> r[q - i + j] == m[q])
  {
  }

  lemma SpliceCovers<K(!new)>(m: seq<Entry<K>>, gt: (K, K) -> bool, i: nat, j: nat, to: K, x: K, r: seq<Entry<K>>)
    requires Ordered(gt) && Descending(m, gt) && j <= i < |m| && gt(to, m[i].key) && j == LowerBound(m, gt, to)
    requires m[i].any && r == Splice(m, i, j, to) && Descending(r, gt) && !gt(x, to) && j <= LowerBound(m, gt, x) < i
    ensures Contains(r, gt, x)
  {
    var q := LowerBound(m, gt, x);
    NextNotAbove(m, gt, q, i, x);
    Total(gt, x, to);
    if m[j].any {
      if j > 0 && x != to { Transitive(gt, m[j - 1].key, to, x); }
      assert r[j] == m[i];
      ContainsStands(r, gt, x, j);
    } else if x == to {
      Irreflexive(gt, to);
      ContainsStands(r, gt, x, j);
    } else {
      assert r[j].key == to && r[j + 1] == m[i];
      ContainsStands(r, gt, x, j + 1);
    }
  }

  lemma NextNotAbove<K(!new)>(m: seq<Entry<K>>, gt: (K, K) -> bool, q: nat, i: nat, x: K)
    requires Ordered(gt) && Descending(m, gt) && q < i < |m| && !gt(m[q].key, x)
    ensures !gt(m[i].key, x)
  {
    assert OrderedAt(gt, m[q].key, m[i].key, x);
  }

  lemma RangeDescends<K(!new)>(es: seq<Entry<K>>, gt: (K, K) -> bool, from: K, to: K)
    requires Ordered(gt) && Descending(es, gt) && gt(to, from)
    ensures Descending(WithRange(es, gt, from, to), gt)
  {
    var m, i := WithFrom(es, gt, from), LowerBound(es, gt, from);
    RangeReady(es, gt, from, to);
    SpliceDescends(m, gt, i, LowerBound(m, gt, to), to);
  }

  /** What the second half of range insertion asks for. */
  lemma RangeReady<K(!new)>(es: seq<Entry<K>>, gt: (K, K) -> bool, from: K, to: K)
    requires Ordered(gt) && Descending(es, gt) && gt(to, from)
    ensures var m, i := WithFrom(es, gt, from), LowerBound(es, gt, from);
      Descending(m, gt) && LowerBound(m, gt, to) <= i && gt(to, m[i].key)
  {
    WithFromDescends(es, gt, from);
    PlaceOfTo(es, gt, from, to);
    AboveRest(gt, to, from, WithFrom(es, gt, from)[LowerBound(es, gt, from)].key);
  }

  lemma RangeExactAt<K(!new)>(es: seq<Entry<K>>, gt: (K, K) -> bool, from: K, to: K, x: K)
    requires Ordered(gt) && Descending(es, gt) && gt(to, from)
    ensures Contains(WithRange(es, gt, from, to), gt, x) <==>
            (Contains(es, gt, x) || Between(gt, from, x, to)) && !Lost(es, gt, from, to, x)
  {
    var m, i := WithFrom(es, gt, from), LowerBound(es, gt, from);
    RangeReady(es, gt, from, to);
    SpliceAt(m, gt, i, LowerBound(m, gt, to), to, x);
    WithFromAt(es, gt, from, x);
    Asymmetric(gt, to, from);
    WithFromAt(es, gt, from, to);
    if gt(from, x) {
      Transitive(gt, to, from, x);
      Asymmetric(gt, to, x);
    } else if gt(x, to) {
      RangeAbove(es, gt, from, to, x);
    }
  }

  /** Above a range: what stood at its start is lost if it was flagged, and was not there before otherwise. */
  lemma RangeAbove<K(!new)>(es: seq<Entry<K>>, gt: (K, K) -> bool, from: K, to: K, x: K)
    requires Ordered(gt) && gt(to, from) && gt(x, to)
    requires LowerBound(WithFrom(es, gt, from), gt, x) == LowerBound(es, gt, x) <= LowerBound(es, gt, from)
    requires LowerBound(WithFrom(es, gt, from), gt, to) == LowerBound(es, gt, to) <= LowerBound(es, gt, from)
    ensures var m, i := WithFrom(es, gt, from), LowerBound(es, gt, from);
      Contains(m, gt, x) && !(LowerBound(m, gt, x) == i && LowerBound(m, gt, to) == i) <==>
      Contains(es, gt, x) && !Lost(es, gt, from, to, x)
  {
    var m, i, p := WithFrom(es, gt, from), LowerBound(es, gt, from), LowerBound(es, gt, x);
    LowerIsFurther(es, gt, x, to);
    Transitive(gt, x, to, from);
    if p < i { assert m[p] == m[..i][p] == es[..i][p] == es[p]; }
  }

  // ----- normal form -----

  /** No two neighbouring flags: ranges that touch have been combined. */
  predicate Combined<K>(es: seq<Entry<K>>) { forall i | 0 <= i < |es| - 1 :: !(es[i].any && es[i + 1].any) }

  /** `from` is the upper end of an existing range. */
  predicate StartsAtEnd<K(==)>(es: seq<Entry<K>>, gt: (K, K) -> bool, from: K) {
    var i := LowerBound(es, gt, from);
    i + 1 < |es| && es[i] == Entry(from, false) && es[i + 1].any
  }

  lemma OneStaysCombined<K>(es: seq<Entry<K>>, gt: (K, K) -> bool, c: K)
    requires Combined(es)
    ensures Combined(WithOne(es, gt, c))
  {
  }

  lemma FromStaysCombined<K>(es: seq<Entry<K>>, gt: (K, K) -> bool, from: K)
    requires Combined(es)
    ensures Combined(WithFrom(es, gt, from)[LowerBound(es, gt, from)..]) <==> !StartsAtEnd(es, gt, from)
  {
    var m, i := WithFrom(es, gt, from), LowerBound(es, gt, from);
    var r := m[i..];
    FromTail(es, m, i, from);
    assert StartsAtEnd(es, gt, from) ==> r[0].any && r[1].any;
  }

  /** Behind the start of a range the entries are those that were there. */
  lemma FromTail<K>(es: seq<Entry<K>>, m: seq<Entry<K>>, i: nat, from: K)
    requires Combined(es) && i <= |es|
    requires || (i < |es| && (m == es || m == es[i := Entry(from, true)]))
             || m == es[..i] + [Entry(from, true)] + es[i..]
    ensures forall k | 1 <= k < |m[i..]| - 1 :: !(m[i..][k].any && m[i..][k + 1].any)
  {
    var off := if |m| == |es| then i else i - 1;
    forall k | 1 <= k < |m[i..]| - 1 ensures !(m[i..][k].any && m[i..][k + 1].any) {
      assert m[i..][k] == es[off + k] && m[i..][k + 1] == es[off + k + 1];
    }
  }

  lemma RangeStaysCombined<K(!new)>(es: seq<Entry<K>>, gt: (K, K) -> bool, from: K, to: K)
    requires Ordered(gt) && Descending(es, gt) && gt(to, from) && Combined(es)
    ensures Combined(WithRange(es, gt, from, to)) <==> !StartsAtEnd(es, gt, from)
  {
    var m, i, r := WithFrom(es, gt, from), LowerBound(es, gt, from), WithRange(es, gt, from, to);
    var j := LowerBound(m, gt, to);
    FromStaysCombined(es, gt, from);
    PlaceOfTo(es, gt, from, to);
    var front, back := m[..j] + if j == i || !m[j].any then [Entry(to, false)] else [], m[i..];
    assert r == front + back;
    assert forall k | 0 <= k < i :: m[k] == m[..i][k] == es[..i][k] == es[k];
    FrontCombined(es, m, i, j, to);
    CombinedConcat(front, back);
  }

  /** The upper end of a range does not come after its start. */
  lemma PlaceOfTo<K(!new)>(es: seq<Entry<K>>, gt: (K, K) -> bool, from: K, to: K)
    requires Ordered(gt) && gt(to, from)
    ensures LowerBound(WithFrom(es, gt, from), gt, to) <= LowerBound(es, gt, from)
  {
    var m, i := WithFrom(es, gt, from), LowerBound(es, gt, from);
    Irreflexive(gt, from);
    assert m[i].key == from || (i < |es| && m[i].key == es[i].key);
    AboveRest(gt, to, from, m[i].key);
  }

  /** What is left of the entries before the start of a range, up to its upper end. */
  lemma FrontCombined<K>(es: seq<Entry<K>>, m: seq<Entry<K>>, i: nat, j: nat, to: K)
    requires Combined(es) && j <= i < |m| && i <= |es| && forall k | 0 <= k < i :: m[k] == es[k]
    ensures var front := m[..j] + if j == i || !m[j].any then [Entry(to, false)] else [];
      Combined(front) && (front != [] ==> !front[|front| - 1].any)
  {
  }

  lemma CombinedConcat<K>(a: seq<Entry<K>>, b: seq<Entry<K>>)
    requires Combined(a) && (a != [] ==> !a[|a| - 1].any)
    ensures Combined(a + b) <==> Combined(b)
  {
    var c := a + b;
    if Combined(c) {
      forall k | 0 <= k < |b| - 1 ensures !(b[k].any && b[k + 1].any) {
        assert c[|a| + k] == b[k] && c[|a| + k + 1] == b[k + 1];
      }
    }
  }

  /** A range inside another one takes the points above it out. */
  lemma NestedRangeLoses<K(!new)>(gt: (K, K) -> bool, a: K, b: K, c: K, d: K, e: K)
    requires Ordered(gt) && gt(b, a) && gt(c, b) && gt(d, c) && gt(e, d)
    ensures var es := [Entry(e, false), Entry(a, true)];
      Descending(es, gt) && Contains(es, gt, d) && !Contains(WithRange(es, gt, b, c), gt, d)
  {
    var es, r := [Entry(e, false), Entry(a, true)], [Entry(e, false), Entry(c, false), Entry(a, true)];
    ChainOfFive(gt, a, b, c, d, e);
    StandsIsLowerBound(es, gt, b, 1);
    StandsIsLowerBound(es, gt, c, 1);
    StandsIsLowerBound(es, gt, d, 1);
    assert WithFrom(es, gt, b) == es && Splice(es, 1, 1, c) == r;
    StandsIsLowerBound(r, gt, d, 1);
  }

  lemma ChainOfFive<K(!new)>(gt: (K, K) -> bool, a: K, b: K, c: K, d: K, e: K)
    requires Ordered(gt) && gt(b, a) && gt(c, b) && gt(d, c) && gt(e, d)
    ensures gt(e, c) && gt(e, b) && gt(e, a) && gt(d, a) && gt(c, a) && !gt(a, b) && !gt(a, c) && !gt(a, d) && !gt(c, d) && c != d
  {
    Transitive(gt, e, d, c);
    Transitive(gt, e, c, b);
    Transitive(gt, e, b, a);
    Transitive(gt, c, b, a);
    Transitive(gt, d, c, a);
    Asymmetric(gt, b, a);
    Asymmetric(gt, c, a);
    Asymmetric(gt, d, a);
    Asymmetric(gt, d, c);
  }

  // ----- recovering the ranges -----

  /** From `lo` up to `hi`, both included; without `hi`, without end. */
  datatype Range<K> = Range(lo: K, hi: Option<K>)

  predicate Member<K>(gt: (K, K) -> bool, r: Range<K>, x: K) {
    !gt(r.lo, x) && (r.hi.Some? ==> !gt(x, r.hi.value))
  }

  /** The ranges of the first `k` entries, lowest first; the entry that ends a range is passed over. */
  function Ranges<K>(es: seq<Entry<K>>, k: nat): (rs: seq<Range<K>>)
    requires k <= |es|
    ensures k > 0 ==> rs != []
  {
    if k == 0 then []
    else if !es[k - 1].any then [Range(es[k - 1].key, Some(es[k - 1].key))] + Ranges(es, k - 1)
    else if k == 1 then [Range(es[0].key, None)]
    else [Range(es[k - 1].key, Some(es[k - 2].key))] + Ranges(es, k - 2)
  }

  /** What the iterator asserts when it passes the range that starts at entry `k - 1`. */
  predicate CanPass<K>(es: seq<Entry<K>>, k: nat)
    requires 0 < k <= |es|
  {
    es[k - 1].any && k > 1 ==> !es[k - 2].any
  }

  /** How many entries are left then. */
  function LeftAfter<K>(es: seq<Entry<K>>, k: nat): (left: nat)
    requires 0 < k <= |es|
    ensures left < k
  {
    if es[k - 1].any && k > 1 then k - 2 else k - 1
  }

  /** The walk over the first `k` entries meets the assertion at every position. */
  predicate WalkPasses<K>(es: seq<Entry<K>>, k: nat)
    requires k <= |es|
  {
    k == 0 || (CanPass(es, k) && WalkPasses(es, LeftAfter(es, k)))
  }

  /** It does if and only if no two neighbouring entries are flagged: the lower one of a flagged pair is always visited. */
  lemma {:induction false} WalkPassesIff<K>(es: seq<Entry<K>>, k: nat)
    requires k <= |es|
    ensures WalkPasses(es, k) <==> Combined(es[..k])
  {
    if k > 0 {
      var left := LeftAfter(es, k);
      WalkPassesIff(es, left);
      CombinedUpTo(es, k, left);
    }
  }

  lemma CombinedUpTo<K>(es: seq<Entry<K>>, k: nat, left: nat)
    requires 0 < k <= |es| && left == LeftAfter(es, k)
    ensures Combined(es[..k]) <==> CanPass(es, k) && Combined(es[..left])
  {
    var a, b := es[..k], es[..left];
    if Combined(a) {
      assert k > 1 ==> !(a[k - 2].any && a[k - 1].any);
      forall i | 0 <= i < left - 1 ensures !(b[i].any && b[i + 1].any) { assert a[i] == b[i] && a[i + 1] == b[i + 1]; }
    }
    if CanPass(es, k) && Combined(b) {
      forall i | 0 <= i < k - 1 ensures !(a[i].any && a[i + 1].any) {
        if i + 1 < left { assert a[i] == b[i] && a[i + 1] == b[i + 1]; }
      }
    }
  }

  ghost predicate Covered<K(!new)>(gt: (K, K) -> bool, rs: seq<Range<K>>, x: K) { exists r :: r in rs && Member(gt, r, x) }

  lemma CoveredCons<K(!new)>(gt: (K, K) -> bool, r: Range<K>, rs: seq<Range<K>>, x: K)
    ensures Covered(gt, [r] + rs, x) <==> Member(gt, r, x) || Covered(gt, rs, x)
  {
    assert r in [r] + rs;
    if Covered(gt, rs, x) {
      var y :| y in rs && Member(gt, y, x);
      assert y in [r] + rs;
    }
  }

  /** The ranges cover exactly what the list contains. */
  lemma {:induction false} RangesCover<K(!new)>(es: seq<Entry<K>>, gt: (K, K) -> bool, k: nat, x: K)
    requires Ordered(gt) && Descending(es, gt) && Combined(es) && k <= |es|
    ensures Covered(gt, Ranges(es, k), x) <==> LowerBound(es, gt, x) < k && Contains(es, gt, x)
  {
    if k > 0 {
      var rs := Ranges(es, k);
      FirstRange(es, gt, k, x);
      if !es[k - 1].any {
        RangesCover(es, gt, k - 1, x);
        CoveredCons(gt, rs[0], Ranges(es, k - 1), x);
      } else if k == 1 {
        CoveredCons(gt, rs[0], [], x);
        assert rs == [rs[0]] + [];
      } else {
        RangesCover(es, gt, k - 2, x);
        CoveredCons(gt, rs[0], Ranges(es, k - 2), x);
      }
    }
  }

  lemma FirstRange<K(!new)>(es: seq<Entry<K>>, gt: (K, K) -> bool, k: nat, x: K)
    requires Ordered(gt) && Descending(es, gt) && Combined(es) && 0 < k <= |es|
    ensures Member(gt, Ranges(es, k)[0], x) <==>
            Contains(es, gt, x) && (LowerBound(es, gt, x) == k - 1 ||
                                    (es[k - 1].any && k > 1 && LowerBound(es, gt, x) == k - 2))
  {
    if es[k - 1].any && k > 1 { FirstStretch(es, gt, k, x); } else { FirstKey(es, gt, k, x); }
  }

  /** The lowest range is a single key, or everything from it on if it is the only entry. */
  lemma FirstKey<K(!new)>(es: seq<Entry<K>>, gt: (K, K) -> bool, k: nat, x: K)
    requires Ordered(gt) && Descending(es, gt) && 0 < k <= |es| && (es[k - 1].any ==> k == 1)
    ensures Member(gt, Ranges(es, k)[0], x) <==> Contains(es, gt, x) && LowerBound(es, gt, x) == k - 1
  {
    Total(gt, es[k - 1].key, x);
    Irreflexive(gt, x);
    if Member(gt, Ranges(es, k)[0], x) { ContainsStands(es, gt, x, k - 1); }
  }

  /** The lowest range goes up to the next key. */
  lemma FirstStretch<K(!new)>(es: seq<Entry<K>>, gt: (K, K) -> bool, k: nat, x: K)
    requires Ordered(gt) && Descending(es, gt) && Combined(es) && 1 < k <= |es| && es[k - 1].any
    ensures Member(gt, Ranges(es, k)[0], x) <==>
            Contains(es, gt, x) && (LowerBound(es, gt, x) == k - 1 || LowerBound(es, gt, x) == k - 2)
  {
    var lo, hi := es[k - 1].key, es[k - 2].key;
    assert !es[k - 2].any;
    Total(gt, hi, x);
    Irreflexive(gt, x);
    Asymmetric(gt, hi, lo);
    if x == hi {
      ContainsStands(es, gt, x, k - 2);
    } else if gt(hi, x) {
      Asymmetric(gt, hi, x);
      if !gt(lo, x) { ContainsStands(es, gt, x, k - 1); }
    }
  }

  ghost predicate Apart<K(!new)>(gt: (K, K) -> bool, a: Range<K>, b: Range<K>) {
    a.hi.Some? && gt(b.lo, a.hi.value)
  }

  lemma {:induction false} RangesStart<K>(es: seq<Entry<K>>, k: nat, r: Range<K>) returns (i: nat)
    requires k <= |es| && r in Ranges(es, k)
    ensures i < k && r.lo == es[i].key
  {
    var rest := if !es[k - 1].any then k - 1 else if k == 1 then 0 else k - 2;
    var rs := Ranges(es, k);
    assert rs == [rs[0]] + Ranges(es, rest);
    if r == rs[0] { i := k - 1; } else { i := RangesStart(es, rest, r); }
  }

  /** The ranges ascend and keep apart. */
  lemma {:induction false} RangesAscend<K(!new)>(es: seq<Entry<K>>, gt: (K, K) -> bool, k: nat)
    requires Ordered(gt) && Descending(es, gt) && k <= |es|
    ensures forall a, b | 0 <= a < b < |Ranges(es, k)| :: Apart(gt, Ranges(es, k)[a], Ranges(es, k)[b])
  {
    if k > 0 {
      var rest := if !es[k - 1].any then k - 1 else if k == 1 then 0 else k - 2;
      var rs, tail := Ranges(es, k), Ranges(es, rest);
      assert rs == [rs[0]] + tail;
      RangesAscend(es, gt, rest);
      forall b | 1 <= b < |rs| ensures Apart(gt, rs[0], rs[b]) {
        assert rs[b] == tail[b - 1];
        var i := RangesStart(es, rest, tail[b - 1]);
      }
      forall a, b | 0 <= a < b < |rs| ensures Apart(gt, rs[a], rs[b]) {
        if a > 0 { assert rs[a] == tail[a - 1] && rs[b] == tail[b - 1]; }
      }
    }
  }
}
