/** The Exclude selector: a set of name components, changed in place, with its ranges and its wire elements. */
module ExcludeFilter {
  import opened RangeMap
  import opened NameComponent

  /** A name component or negative infinity. */
  datatype Key = NegInf | At(component: Component)

  predicate Above(a: Key, b: Key) { a.At? && (b.NegInf? || Less(b.component, a.component)) }

  type Entries = seq<Entry<Key>>

  lemma KeysAreOrdered()
    ensures Ordered(Above)
  {
    forall a ensures !Above(a, a) { if a.At? { CompareTotalOrder(a.component, a.component, a.component); } }
    forall a, b, c ensures Above(a, b) && Above(b, c) ==> Above(a, c) {
      if a.At? && b.At? && c.At? { CompareTotalOrder(c.component, b.component, a.component); }
    }
    forall a, b ensures Above(a, b) || Above(b, a) || a == b {
      if a.At? && b.At? { CompareTotalOrder(a.component, b.component, b.component); }
    }
  }

  /** Keys are components that exist, and negative infinity only ever starts a range. */
  predicate WellKeyed(es: Entries) {
    forall e | e in es :: if e.key.At? then e.key.component.Valid() else e.any
  }

  predicate IsFilter(es: Entries) { Descending(es, Above) && WellKeyed(es) }

  predicate Excluded(es: Entries, x: Component) { Contains(es, Above, At(x)) }

  // ----- the requests -----

  datatype Request = One(c: Component) | FromTo(from: Key, to: Component) | After(start: Component) {
    predicate Valid() {
      match this
      case One(c) => c.Valid()
      case FromTo(from, to) => (from.At? ==> from.component.Valid()) && to.Valid()
      case After(start) => start.Valid()
    }

    /** The requested components; a range that does not ascend is refused. */
    predicate Asks(x: Component) {
      match this
      case One(c) => x == c
      case FromTo(from, to) => !Refused() && Between(Above, from, At(x), At(to))
      case After(start) => !Above(At(start), At(x))
    }

    predicate Refused() { FromTo? && !Above(At(to), from) }
  }

  /** The entries after a request. */
  function Obey(es: Entries, q: Request): (r: Entries)
    requires Descending(es, Above)
  {
    KeysAreOrdered();
    match q
    case One(c) => WithOne(es, Above, At(c))
    case FromTo(from, to) => if q.Refused() then es else WithRange(es, Above, from, At(to))
    case After(start) => WithAfter(es, Above, At(start))
  }

  /** What a caller can check before a range request: a range inside a stretch that is already excluded as a
      whole goes wrong, unless the next excluded key is the very next component after `to`. */
  predicate Fits(es: Entries, q: Request)
    requires q.Valid()
  {
    q.FromTo? && !q.Refused() && Nested(es, Above, q.from, At(q.to)) ==>
      var i := LowerBound(es, Above, q.from);
      i > 0 && es[i - 1].key == At(Next(q.to))
  }

  lemma ObeyAt(es: Entries, q: Request, x: Component)
    requires Descending(es, Above)
    ensures Descending(Obey(es, q), Above)
    ensures Excluded(Obey(es, q), x) <==>
            (Excluded(es, x) || q.Asks(x)) &&
            !(q.FromTo? && !q.Refused() && Lost(es, Above, q.from, At(q.to), At(x)))
  {
    KeysAreOrdered();
    match q
    case One(c) => OneExact(es, Above, At(c), At(x));
    case FromTo(from, to) =>
      if !q.Refused() {
        RangeDescends(es, Above, from, At(to));
        RangeExactAt(es, Above, from, At(to), At(x));
      }
    case After(start) => AfterExact(es, Above, At(start), At(x));
  }

  lemma FitLosesNothing(es: Entries, q: Request, x: Component)
    requires q.Valid() && x.Valid() && q.FromTo? && Fits(es, q) && !q.Refused()
    ensures !Lost(es, Above, q.from, At(q.to), At(x))
  {
    NextIsImmediate(q.to, x);
  }

  lemma MisfitLosesNext(es: Entries, q: Request)
    requires IsFilter(es) && q.Valid() && !Fits(es, q)
    ensures Lost(es, Above, q.from, At(q.to), At(Next(q.to)))
  {
    KeysAreOrdered();
    var i, n := LowerBound(es, Above, q.from), Next(q.to);
    NextIsImmediate(q.to, n);
    if i > 0 {
      assert Above(es[i - 1].key, At(q.to)) && es[i - 1] in es;
      NextIsImmediate(q.to, es[i - 1].key.component);
    }
    assert Above(At(n), At(q.to)) && Above(At(q.to), q.from);
    if i < |es| {
      Transitive(Above, At(n), At(q.to), q.from);
      AboveRest(Above, At(n), q.from, es[i].key);
    }
    if i > 0 { Total(Above, es[i - 1].key, At(n)); }
    StandsIsLowerBound(es, Above, At(n), i);
  }

  /** A request adds exactly what it asks for if and only if it fits. */
  lemma RequestExactIff(es: Entries, q: Request)
    requires IsFilter(es) && q.Valid()
    ensures (forall x: Component | x.Valid() :: Excluded(Obey(es, q), x) <==> Excluded(es, x) || q.Asks(x)) <==> Fits(es, q)
  {
    if Fits(es, q) {
      forall x: Component | x.Valid() ensures Excluded(Obey(es, q), x) <==> Excluded(es, x) || q.Asks(x) {
        ObeyAt(es, q, x);
        if q.FromTo? && !q.Refused() { FitLosesNothing(es, q, x); }
      }
    } else {
      var n := Next(q.to);
      MisfitLosesNext(es, q);
      ObeyAt(es, q, n);
      assert n.Valid() && Excluded(es, n);
    }
  }

  /** The components from one to another, or up to it. */
  predicate IsInRange(from: Key, to: Component, x: Component) { (from.At? ==> !Less(x, from.component)) && !Less(to, x) }

  lemma RangeExactIff(es: Entries, from: Key, to: Component)
    requires IsFilter(es) && FromTo(from, to).Valid() && (from.At? ==> Less(from.component, to))
    ensures (forall x: Component | x.Valid() ::
              Excluded(Obey(es, FromTo(from, to)), x) <==> Excluded(es, x) || IsInRange(from, to, x)) <==>
            Fits(es, FromTo(from, to))
  {
    var q := FromTo(from, to);
    RequestExactIff(es, q);
    assert forall x: Component :: q.Asks(x) <==> IsInRange(from, to, x);
  }

  // ----- what every request keeps -----

  lemma ObeyKeepsFilter(es: Entries, q: Request)
    requires IsFilter(es) && q.Valid()
    ensures IsFilter(Obey(es, q))
  {
    ObeyAt(es, q, Component(GENERIC, []));
    ObeyKeyed(es, q);
  }

  lemma ObeyKeyed(es: Entries, q: Request)
    requires IsFilter(es) && q.Valid()
    ensures WellKeyed(Obey(es, q))
  {
    KeysAreOrdered();
    match q
    case One(_) =>
    case FromTo(from, to) => if !q.Refused() { RangeKeyed(es, from, to); }
    case After(start) => WithFromKeyed(es, At(start));
  }

  lemma RangeKeyed(es: Entries, from: Key, to: Component)
    requires IsFilter(es) && FromTo(from, to).Valid() && Above(At(to), from) && Ordered(Above)
    ensures WellKeyed(WithRange(es, Above, from, At(to)))
  {
    var m := WithFrom(es, Above, from);
    WithFromKeyed(es, from);
    forall e | e in WithRange(es, Above, from, At(to)) ensures e in m || e == Entry(At(to), false) {}
  }

  lemma WithFromKeyed(es: Entries, from: Key)
    requires WellKeyed(es) && (from.At? ==> from.component.Valid())
    ensures WellKeyed(WithFrom(es, Above, from))
  {
  }

  /** The request starts a range at the upper end of an existing one. */
  predicate Touches(es: Entries, q: Request) {
    match q
    case One(_) => false
    case FromTo(from, _) => !q.Refused() && StartsAtEnd(es, Above, from)
    case After(start) => StartsAtEnd(es, Above, At(start))
  }

  /** Touching ranges stay combined if and only if no request starts at the upper end of a range. */
  lemma CombinedIff(es: Entries, q: Request)
    requires IsFilter(es) && Combined(es)
    ensures Combined(Obey(es, q)) <==> !Touches(es, q)
  {
    KeysAreOrdered();
    match q
    case One(c) => OneStaysCombined(es, Above, At(c));
    case FromTo(from, to) => if !q.Refused() { RangeStaysCombined(es, Above, from, At(to)); }
    case After(start) => FromStaysCombined(es, Above, At(start));
  }

  // ----- sequences of requests -----

  function ObeyAll(es: Entries, qs: seq<Request>): (r: Entries)
    requires IsFilter(es) && forall q | q in qs :: q.Valid()
    ensures IsFilter(r)
  {
    if qs == [] then es
    else
      var front, last := qs[..|qs| - 1], qs[|qs| - 1];
      assert last in qs && forall q | q in front :: q in qs;
      ObeyKeepsFilter(ObeyAll(es, front), last);
      Obey(ObeyAll(es, front), last)
  }

  ghost predicate AllFit(es: Entries, qs: seq<Request>)
    requires IsFilter(es) && forall q | q in qs :: q.Valid()
  {
    forall k | 0 <= k < |qs| :: FitsAt(es, qs, k)
  }

  ghost predicate FitsAt(es: Entries, qs: seq<Request>, k: nat)
    requires IsFilter(es) && (forall q | q in qs :: q.Valid()) && k < |qs|
  {
    assert forall q | q in qs[..k] :: q in qs;
    Fits(ObeyAll(es, qs[..k]), qs[k])
  }

  ghost predicate Asked(qs: seq<Request>, x: Component) { exists q :: q in qs && q.Asks(x) }

  /** After any requests that fit, exactly what was excluded before or asked for is excluded. */
  lemma {:induction false} RequestsExact(es: Entries, qs: seq<Request>, x: Component)
    requires IsFilter(es) && x.Valid() && (forall q | q in qs :: q.Valid()) && AllFit(es, qs)
    ensures Excluded(ObeyAll(es, qs), x) <==> Excluded(es, x) || Asked(qs, x)
  {
    if qs != [] {
      var front, last := qs[..|qs| - 1], qs[|qs| - 1];
      assert qs == front + [last];
      forall k | 0 <= k < |front| ensures FitsAt(es, front, k) {
        assert FitsAt(es, qs, k) && front[..k] == qs[..k];
      }
      RequestsExact(es, front, x);
      assert FitsAt(es, qs, |front|);
      RequestExactIff(ObeyAll(es, front), last);
      assert Asked(qs, x) <==> Asked(front, x) || last.Asks(x) by { assert last in qs; }
    }
  }

  // ----- concrete cases -----

  lemma FirstRangeOfAll(from: Component, to: Component)
    requires Less(from, to)
    ensures Obey([], FromTo(At(from), to)) == [Entry(At(to), false), Entry(At(from), true)]
  {
    KeysAreOrdered();
    var m := WithFrom([], Above, At(from));
    assert m == [Entry(At(from), true)];
    assert Above(At(to), At(from));
    Asymmetric(Above, At(to), At(from));
    StandsIsLowerBound(m, Above, At(to), 0);
  }

  /** Excluding [b, c] inside [a, e] takes d out of the filter, whatever the five components in ascending order are. */
  lemma NestedRangeLosesComponents(a: Component, b: Component, c: Component, d: Component, e: Component)
    requires Less(a, b) && Less(b, c) && Less(c, d) && Less(d, e)
    ensures var es := Obey([], FromTo(At(a), e));
      && Descending(es, Above) && Excluded(es, d) && !Excluded(Obey(es, FromTo(At(b), c)), d)
  {
    KeysAreOrdered();
    NestedRangeLoses(Above, At(a), At(b), At(c), At(d), At(e));
    ChainOfFive(Above, At(a), At(b), At(c), At(d), At(e));
    FirstRangeOfAll(a, e);
  }

  /** Excluding [b, c] after [a, b] leaves two neighbouring flags, and the enumeration meets the failing assertion. */
  lemma TouchingRangesStaySeparate(a: Component, b: Component, c: Component)
    requires Less(a, b) && Less(b, c) && a.Valid() && b.Valid() && c.Valid()
    ensures var es := Obey([], FromTo(At(a), b));
      && IsFilter(es) && WalkPasses(es, |es|)
      && var es2 := Obey(es, FromTo(At(b), c)); IsFilter(es2) && !WalkPasses(es2, |es2|)
  {
    KeysAreOrdered();
    FirstRangeOfAll(a, b);
    var es := [Entry(At(b), false), Entry(At(a), true)];
    Irreflexive(Above, At(b));
    StandsIsLowerBound(es, Above, At(b), 0);
    EnumerationPassesIff(es);
    CombinedIff(es, FromTo(At(b), c));
    ObeyKeepsFilter(es, FromTo(At(b), c));
    EnumerationPassesIff(Obey(es, FromTo(At(b), c)));
  }

  /** An enumeration meets the assertion of the iterator at every position if and only if no two neighbouring entries are
      flagged. */
  lemma EnumerationPassesIff(es: Entries)
    ensures WalkPasses(es, |es|) <==> Combined(es)
  {
    WalkPassesIff(es, |es|);
    assert es[..|es|] == es;
  }

  // ----- the wire elements -----

  const ANY: nat := 19

  /** Elements are blocks of any type. */
  type Element = Component

  const AnyElement: Element := Component(ANY, [])

  function ElementsOf(e: Entry<Key>): (els: seq<Element>) {
    (if e.key.At? then [e.key.component] else []) + (if e.any then [AnyElement] else [])
  }

  /** `wireEncode` writes backwards, greatest key first. */
  function Encode(es: Entries): (els: seq<Element>) {
    if es == [] then [] else Encode(es[1..]) + ElementsOf(es[0])
  }

  /** One round of the loop of `wireEncode`. */
  lemma EncodeFrom(es: Entries, i: nat, els: seq<Element>)
    requires i < |es|
    ensures Encode(es[i..]) + els == Encode(es[i + 1..]) + (ElementsOf(es[i]) + els)
  {
    assert es[i..][0] == es[i] && es[i..][1..] == es[i + 1..];
  }

  /** The loop of `wireDecode`; on an error the entries read so far stay. */
  function Decode(els: seq<Element>, acc: Entries): (r: (Entries, bool))
    decreases |els|
  {
    if els == [] then (acc, true)
    else if !els[0].Valid() then (acc, false)
    else
      var any := |els| > 1 && els[1].typ == ANY;
      Decode(els[if any then 2 else 1..], Emplace(acc, Above, Entry(At(els[0]), any)))
  }

  /** `wireDecode` of the elements of an Exclude block. */
  function DecodeAll(els: seq<Element>): (r: (Entries, bool)) {
    if els == [] then ([], false)
    else if els[0].typ == ANY then Decode(els[1..], [Entry(NegInf, true)])
    else Decode(els, [])
  }

  /** One round of the loop of `wireDecode`. */
  lemma DecodeFrom(els: seq<Element>, i: nat, acc: Entries)
    requires i < |els|
    ensures Decode(els[i..], acc) ==
            if !els[i].Valid() then (acc, false)
            else if i + 1 < |els| && els[i + 1].typ == ANY then
              Decode(els[i + 2..], Emplace(acc, Above, Entry(At(els[i]), true)))
            else Decode(els[i + 1..], Emplace(acc, Above, Entry(At(els[i]), false)))
  {
    var rest := els[i..];
    assert rest[0] == els[i] && rest[1..] == els[i + 1..] && (|rest| > 1 ==> rest[1] == els[i + 1] && rest[2..] == els[i + 2..]);
  }

  lemma DecodeAllGivesFilter(els: seq<Element>)
    ensures IsFilter(DecodeAll(els).0)
  {
    DecodeGivesFilter(els, []);
    if els != [] { DecodeGivesFilter(els[1..], [Entry(NegInf, true)]); }
  }

  /** Whatever was read is a filter. */
  lemma {:induction false} DecodeGivesFilter(els: seq<Element>, acc: Entries)
    requires IsFilter(acc)
    ensures IsFilter(Decode(els, acc).0)
    decreases |els|
  {
    if els != [] && els[0].Valid() {
      KeysAreOrdered();
      var any := |els| > 1 && els[1].typ == ANY;
      EmplaceDescends(acc, Above, Entry(At(els[0]), any));
      DecodeGivesFilter(els[if any then 2 else 1..], Emplace(acc, Above, Entry(At(els[0]), any)));
    }
  }

  lemma EmplaceOnTop(acc: Entries, e: Entry<Key>)
    requires acc != [] ==> Above(e.key, acc[0].key)
    ensures Emplace(acc, Above, e) == [e] + acc
  {
    KeysAreOrdered();
    if acc != [] { Asymmetric(Above, e.key, acc[0].key); }
    assert LowerBound(acc, Above, e.key) == 0;
  }

  lemma DecodeStep(e: Entry<Key>, rest: seq<Element>, acc: Entries)
    requires e.key.At? && e.key.component.Valid() && (rest != [] ==> rest[0].Valid())
    ensures Decode(ElementsOf(e) + rest, acc) == Decode(rest, Emplace(acc, Above, e))
  {
    var els := ElementsOf(e) + rest;
    assert els[0] == e.key.component;
    assert (|els| > 1 && els[1].typ == ANY) == e.any;
    assert els[if e.any then 2 else 1..] == rest;
  }

  lemma TopOfRest(es: Entries, acc: Entries)
    requires Descending(es + acc, Above) && es != []
    ensures acc != [] ==> Above(es[|es| - 1].key, acc[0].key)
  {
    var all, n := es + acc, |es| - 1;
    if acc != [] {
      assert all[n] == es[n] && all[n + 1] == acc[0];
      assert Above(all[n].key, all[n + 1].key);
    }
  }

  /** Entries of components, without negative infinity. */
  predicate Finite(es: Entries) { forall i | 0 <= i < |es| :: es[i].key.At? && es[i].key.component.Valid() }

  lemma DecodeLowest(es: Entries, acc: Entries)
    requires Descending(es + acc, Above) && Finite(es) && es != []
    ensures Decode(Encode(es), acc) == Decode(Encode(es[..|es| - 1]), [es[|es| - 1]] + acc)
  {
    var front, last := es[..|es| - 1], es[|es| - 1];
    TopOfRest(es, acc);
    EncodeSnoc(es);
    EmplaceOnTop(acc, last);
    FirstIsNotAny(front);
    DecodeStep(last, Encode(front), acc);
  }

  /** Reading the elements of the entries above `acc` puts these entries back in front of it. */
  lemma {:induction false} DecodeRebuilds(es: Entries, acc: Entries)
    requires Descending(es + acc, Above) && Finite(es)
    ensures Decode(Encode(es), acc) == (es + acc, true)
    decreases |es|
  {
    if es == [] {
      assert es + acc == acc;
    } else {
      DecodeLowest(es, acc);
      MoveLowest(es, acc);
      DecodeRebuilds(es[..|es| - 1], [es[|es| - 1]] + acc);
    }
  }

  lemma MoveLowest(es: Entries, acc: Entries)
    requires es != []
    ensures es[..|es| - 1] + ([es[|es| - 1]] + acc) == es + acc
  {
  }

  /** The lowest entry comes first on the wire. */
  lemma {:induction false} EncodeSnoc(es: Entries)
    requires es != []
    ensures Encode(es) == ElementsOf(es[|es| - 1]) + Encode(es[..|es| - 1])
  {
    if |es| > 1 {
      var n, rest := |es| - 1, es[1..];
      EncodeSnoc(rest);
      assert rest[|rest| - 1] == es[n] && rest[..|rest| - 1] == es[..n][1..] && es[..n][0] == es[0];
      EncodeRegroup(ElementsOf(es[n]), Encode(es[..n][1..]), ElementsOf(es[0]));
    } else {
      assert es[..0] == [] && es[1..] == [];
    }
  }

  lemma EncodeRegroup(a: seq<Element>, b: seq<Element>, c: seq<Element>)
    ensures (a + b) + c == a + (b + c) && [] + a == a + []
  {
  }

  lemma FirstIsNotAny(es: Entries)
    requires Finite(es)
    ensures Encode(es) != [] ==> Encode(es)[0].Valid()
  {
    if es != [] { EncodeSnoc(es); }
  }

  lemma LeadingAny(front: Entries, es: Entries)
    requires es == front + [Entry(NegInf, true)] && Descending(es, Above) && Finite(front)
    ensures DecodeAll(Encode(es)) == (es, true)
  {
    EncodeSnoc(es);
    assert es[..|es| - 1] == front && Encode(es)[1..] == Encode(front);
    DecodeRebuilds(front, [Entry(NegInf, true)]);
  }

  /** Only the last key can be negative infinity. */
  lemma FrontIsComponents(es: Entries)
    requires IsFilter(es) && es != []
    ensures es[|es| - 1] in es && forall i | 0 <= i < |es| - 1 :: es[i].key.At? && es[i].key.component.Valid()
  {
    var n := |es| - 1;
    KeysAreOrdered();
    assert es[n] in es;
    forall i | 0 <= i < n ensures es[i].key.At? && es[i].key.component.Valid() {
      assert es[i] in es && Above(es[i].key, es[n].key);
    }
  }

  /** Decoding what was encoded rebuilds the identical entries, also with a lone, leading or trailing ANY. */
  lemma WireRoundTrip(es: Entries)
    requires IsFilter(es) && es != []
    ensures DecodeAll(Encode(es)) == (es, true)
  {
    var n := |es| - 1;
    FrontIsComponents(es);
    if es[n].key.NegInf? { LeadingAny(es[..n], es); } else { NoLeadingAny(es); }
  }

  lemma NoLeadingAny(es: Entries)
    requires Descending(es, Above) && Finite(es) && es != []
    ensures DecodeAll(Encode(es)) == (es, true)
  {
    EncodeSnoc(es);
    assert es + [] == es;
    DecodeRebuilds(es, []);
  }
}
