/**
 The wire form of Exclude by itself: what a list of elements excludes, which lists are accepted, and that encoding and
 decoding agree with that in both directions.
 */
module ExcludeWire {
  import opened RangeMap
  import opened NameComponent
  import opened ExcludeFilter

  // ----- what the wire says -----

  predicate IsAny(e: Element) { e.typ == 19 }

  /** `ANY` at position `i` stands for the components between those before it and those after it. */
  predicate Around(els: seq<Element>, i: nat, x: Component)
    requires i < |els|
  {
    && IsAny(els[i])
    && (forall j | 0 <= j < i :: IsAny(els[j]) || Less(els[j], x))
    && (forall j | i < j < |els| :: IsAny(els[j]) || Less(x, els[j]))
  }

  /** What a list of elements excludes: the components in it, and what an `ANY` in it stands for. */
  predicate WireExcludes(els: seq<Element>, x: Component) { x in els || exists i | 0 <= i < |els| :: Around(els, i, x) }

  /** The components of the elements are the keys. */
  lemma {:induction false} ElementsAreKeys(es: Entries, y: Element)
    requires WellKeyed(es)
    ensures y in Encode(es) ==> y == Component(19, []) || exists k :: 0 <= k < |es| && es[k].key == At(y)
  {
    if y in Encode(es) && y != Component(19, []) {
      if y in ElementsOf(es[0]) {
        assert es[0].key == At(y);
      } else {
        assert forall e | e in es[1..] :: e in es;
        ElementsAreKeys(es[1..], y);
        var k :| 0 <= k < |es[1..]| && es[1..][k].key == At(y);
        assert es[k + 1].key == At(y);
      }
    }
  }

  /** An encoded filter excludes what the filter excludes. */
  lemma {:induction false} WireMeansFilter(es: Entries, x: Component)
    requires IsFilter(es) && x.Valid()
    ensures Excluded(es, x) <==> WireExcludes(Encode(es), x)
  {
    if es != [] {
      var e, rest := es[0], es[1..];
      assert e in es && forall y | y in rest :: y in es;
      WireMeansFilter(rest, x);
      TopDecides(es, x);
      RestIsLess(es);
      if Above(e.key, At(x)) {
        BelowTop(Encode(rest), e, x);
      } else if e.key.At? {
        AboveTop(Encode(rest), e, x);
      } else {
        assert Encode(es) == [AnyElement] && Around([AnyElement], 0, x);
      }
    }
  }

  lemma TopDecides(es: Entries, x: Component)
    requires IsFilter(es) && es != []
    ensures Excluded(es, x) <==> if Above(es[0].key, At(x)) then Excluded(es[1..], x) else es[0].any || es[0].key == At(x)
  {
    KeysAreOrdered();
    var rest := es[1..];
    LowerBoundStands(rest, Above, At(x));
    if Above(es[0].key, At(x)) {
      ContainsStands(es, Above, At(x), LowerBound(rest, Above, At(x)) + 1);
    } else {
      ContainsStands(es, Above, At(x), 0);
    }
  }

  lemma RestIsLess(es: Entries)
    requires IsFilter(es) && es != []
    ensures es[0].key.NegInf? ==> es[1..] == []
    ensures es[0].key.At? ==> forall y | y in Encode(es[1..]) :: IsAny(y) || Less(y, es[0].key.component)
  {
    assert |es| > 1 ==> Above(es[0].key, es[1].key);
    forall y | es[0].key.At? && y in Encode(es[1..]) ensures IsAny(y) || Less(y, es[0].key.component) {
      assert forall e | e in es[1..] :: e in es;
      ElementsAreKeys(es[1..], y);
      if !IsAny(y) {
        var k :| 0 <= k < |es[1..]| && es[1..][k].key == At(y);
        assert Above(es[0].key, es[k + 1].key);
      }
    }
  }

  /** Below the greatest key the other elements decide. */
  lemma BelowTop(els: seq<Element>, e: Entry<Key>, x: Component)
    requires e.key.At? && e.key.component.Valid() && x.Valid() && Less(x, e.key.component)
    ensures WireExcludes(els + ElementsOf(e), x) <==> WireExcludes(els, x)
  {
    var all, n := els + ElementsOf(e), |els|;
    CompareTotalOrder(x, e.key.component, x);
    assert all[n] == e.key.component && all[..n] == els;
    assert forall j | 0 <= j < n :: all[j] == els[j];
    forall i | 0 <= i < |all| && Around(all, i, x) ensures i < n && Around(els, i, x) {
      assert i < n;
    }
    forall i | 0 <= i < n && Around(els, i, x) ensures Around(all, i, x) {}
    assert x in all <==> x in els;
  }

  /** From the greatest key on, that key and its flag decide. */
  lemma AboveTop(els: seq<Element>, e: Entry<Key>, x: Component)
    requires e.key.At? && e.key.component.Valid() && x.Valid() && !Less(x, e.key.component)
    requires forall y | y in els :: IsAny(y) || Less(y, e.key.component)
    ensures WireExcludes(els + ElementsOf(e), x) <==> e.any || e.key == At(x)
  {
    var all, n, c := els + ElementsOf(e), |els|, e.key.component;
    CompareTotalOrder(x, c, x);
    assert all[n] == c;
    assert forall j | 0 <= j < n :: all[j] == els[j] && all[j] in els;
    forall y | y in els ensures IsAny(y) || Less(y, x) { CompareTotalOrder(y, c, x); }
    if e.any && x != c { assert Around(all, n + 1, x); }
    forall i | 0 <= i < |all| && Around(all, i, x) ensures i >= n {}
    forall i | n <= i < |all| && Around(all, i, x) ensures e.any { assert i != n; }
  }

  // ----- what is accepted -----

  /** Components, each with or without an `ANY` after it, and perhaps an `ANY` before them all. */
  predicate WellFormed(els: seq<Element>) {
    && (forall e | e in els :: IsAny(e) || e.Valid())
    && (forall i | 0 < i < |els| :: !(IsAny(els[i - 1]) && IsAny(els[i])))
  }

  lemma {:induction false} DecodeAcceptsIff(els: seq<Element>, acc: Entries)
    ensures Decode(els, acc).1 <==> WellFormed(els) && (els != [] ==> !IsAny(els[0]))
    decreases |els|
  {
    if els != [] && els[0].Valid() {
      var any := |els| > 1 && IsAny(els[1]);
      var rest := els[if any then 2 else 1..];
      var acc' := Emplace(acc, Above, Entry(At(els[0]), any));
      DecodeAcceptsIff(rest, acc');
      RestWellFormed(els, any);
    } else if els != [] {
      assert els[0] in els;
    }
  }

  lemma RestWellFormed(els: seq<Element>, any: bool)
    requires els != [] && els[0].Valid() && any == (|els| > 1 && IsAny(els[1]))
    ensures var rest := els[if any then 2 else 1..];
      WellFormed(els) <==> WellFormed(rest) && (rest != [] ==> !IsAny(rest[0]))
  {
    var n := if any then 2 else 1;
    if WellFormed(els) {
      TailWellFormed(els, n);
    } else if WellFormed(els[n..]) && (n < |els| ==> !IsAny(els[n])) {
      HeadWellFormed(els, n);
    }
  }

  lemma TailWellFormed(els: seq<Element>, n: nat)
    requires WellFormed(els) && n <= |els|
    ensures WellFormed(els[n..])
  {
    var rest := els[n..];
    forall e | e in rest ensures e in els {}
    forall i | 0 < i < |rest| ensures !(IsAny(rest[i - 1]) && IsAny(rest[i])) {
      assert rest[i - 1] == els[n + i - 1] && rest[i] == els[n + i];
    }
  }

  lemma HeadWellFormed(els: seq<Element>, n: nat)
    requires 0 < n <= |els| && WellFormed(els[..n]) && WellFormed(els[n..])
    requires n < |els| ==> !(IsAny(els[n - 1]) && IsAny(els[n]))
    ensures WellFormed(els)
  {
    var front, rest := els[..n], els[n..];
    assert els == front + rest;
    forall i | 0 < i < |els| ensures !(IsAny(els[i - 1]) && IsAny(els[i])) {
      if i < n { assert front[i - 1] == els[i - 1] && front[i] == els[i]; }
      if i > n { assert rest[i - n - 1] == els[i - 1] && rest[i - n] == els[i]; }
    }
  }

  /** Exactly the well-formed lists of at least one element are accepted. */
  lemma WireAcceptedIff(els: seq<Element>)
    ensures DecodeAll(els).1 <==> els != [] && WellFormed(els)
  {
    if els != [] && IsAny(els[0]) {
      DecodeAcceptsIff(els[1..], [Entry(NegInf, true)]);
      if WellFormed(els) {
        TailWellFormed(els, 1);
      } else if WellFormed(els[1..]) && (1 < |els| ==> !IsAny(els[1])) {
        HeadWellFormed(els, 1);
      }
    } else {
      DecodeAcceptsIff(els, []);
    }
  }

  // ----- the other way round -----

  /** In canonical order, with every `ANY` empty. */
  predicate Ascending(els: seq<Element>) {
    && (forall i, j | 0 <= i < j < |els| :: IsAny(els[i]) || IsAny(els[j]) || Less(els[i], els[j]))
    && (forall e | e in els :: IsAny(e) ==> e.value == [])
  }

  lemma {:induction false} EncodeDecoded(els: seq<Element>, acc: Entries)
    requires WellFormed(els) && Ascending(els) && (els != [] ==> !IsAny(els[0]))
    requires acc != [] && els != [] ==> Above(At(els[0]), acc[0].key)
    ensures Encode(Decode(els, acc).0) == Encode(acc) + els
    decreases |els|
  {
    if els == [] {
      assert Encode(acc) + els == Encode(acc);
    } else {
      assert els[0] in els;
      var any := |els| > 1 && IsAny(els[1]);
      var n := if any then 2 else 1;
      var e, rest := Entry(At(els[0]), any), els[n..];
      EmplaceOnTop(acc, e);
      TailWellFormed(els, n);
      RestAscends(els, n);
      if rest != [] { assert rest[0] == els[n]; }
      EncodeDecoded(rest, [e] + acc);
      assert ([e] + acc)[1..] == acc;
      FirstElements(els, any);
      EncodeRegroup(Encode(acc), ElementsOf(e), rest);
    }
  }

  lemma RestAscends(els: seq<Element>, n: nat)
    requires Ascending(els) && n <= |els|
    ensures Ascending(els[n..])
  {
    var rest := els[n..];
    assert forall i | 0 <= i < |rest| :: rest[i] == els[n + i];
    forall e | e in rest ensures e in els {}
  }

  lemma FirstElements(els: seq<Element>, any: bool)
    requires els != [] && any == (|els| > 1 && IsAny(els[1])) && Ascending(els)
    ensures els == ElementsOf(Entry(At(els[0]), any)) + els[if any then 2 else 1..]
  {
    if any { assert els[1] in els; }
  }

  /** Encoding what was decoded gives the same elements again, if they were well formed and in canonical order. */
  lemma WireReproduced(els: seq<Element>)
    requires els != [] && WellFormed(els) && Ascending(els)
    ensures Encode(DecodeAll(els).0) == els
  {
    if IsAny(els[0]) {
      var rest, lowest := els[1..], [Entry(NegInf, true)];
      assert els[0] in els && els == [els[0]] + rest;
      if rest != [] { assert rest[0] == els[1]; }
      TailWellFormed(els, 1);
      RestAscends(els, 1);
      EncodeDecoded(rest, lowest);
      assert lowest[1..] == [] && Encode(lowest) == [AnyElement];
    } else {
      EncodeDecoded(els, []);
      assert [] + els == els;
    }
  }

  /** What is read from well-formed elements in canonical order excludes what they say. */
  lemma ReadMeansWire(els: seq<Element>, x: Component)
    requires els != [] && WellFormed(els) && Ascending(els) && x.Valid()
    ensures Excluded(DecodeAll(els).0, x) <==> WireExcludes(els, x)
  {
    DecodeAllGivesFilter(els);
    WireReproduced(els);
    WireMeansFilter(DecodeAll(els).0, x);
  }

  // ----- in any order -----

  /** The component `c` is first at position `i`; `any` says whether an `ANY` follows it there. */
  predicate FirstIs(els: seq<Element>, i: nat, c: Component, any: bool) {
    && i < |els| && els[i] == c && (forall j | 0 <= j < i :: els[j] != c)
    && (any <==> i + 1 < |els| && IsAny(els[i + 1]))
  }

  /** Where `c` is first among the elements, an `ANY` follows it, if `any`, or does not. */
  ghost predicate ReadAs(els: seq<Element>, c: Component, any: bool) { exists i: nat :: FirstIs(els, i, c, any) }

  predicate HasKey(es: Entries, key: Key) { exists e :: e in es && e.key == key }

  lemma NoSuchKey(es: Entries, key: Key)
    requires Descending(es, Above)
    requires var i := LowerBound(es, Above, key); i < |es| ==> es[i].key != key
    ensures !HasKey(es, key)
  {
    KeysAreOrdered();
    var i := LowerBound(es, Above, key);
    Irreflexive(Above, key);
    forall j | 0 <= j < |es| ensures es[j].key != key {
      if j > i {
        Total(Above, es[i].key, key);
        Transitive(Above, key, es[i].key, es[j].key);
      }
    }
  }

  lemma InsertMembers(es: Entries, i: nat, e: Entry<Key>, x: Entry<Key>)
    requires i <= |es|
    ensures x in es[..i] + [e] + es[i..] <==> x in es || x == e
  {
    assert es == es[..i] + es[i..];
  }

  lemma EmplaceMembers(es: Entries, e: Entry<Key>, x: Entry<Key>)
    requires Descending(es, Above)
    ensures x in Emplace(es, Above, e) <==> x in es || (x == e && !HasKey(es, e.key))
  {
    var i := LowerBound(es, Above, e.key);
    if i < |es| && es[i].key == e.key {
      assert es[i] in es;
    } else {
      NoSuchKey(es, e.key);
      InsertMembers(es, i, e, x);
    }
  }

  lemma {:induction false} DecodedEntries(els: seq<Element>, acc: Entries, c: Component, any: bool)
    requires WellFormed(els) && (els != [] ==> !IsAny(els[0])) && IsFilter(acc) && c.Valid()
    ensures Entry(At(c), any) in Decode(els, acc).0 <==>
            Entry(At(c), any) in acc || (!HasKey(acc, At(c)) && ReadAs(els, c, any))
    decreases |els|
  {
    if els != [] {
      var n := if |els| > 1 && IsAny(els[1]) then 2 else 1;
      var e, rest := Entry(At(els[0]), n == 2), els[n..];
      assert els[0] in els;
      NextEntry(els, n, acc, e, c, any);
      DecodedEntries(rest, Emplace(acc, Above, e), c, any);
      FirstInRest(els, n, c, any);
    }
  }

  /** One round: the rest of the elements can be read after it, and one entry more is there. */
  lemma NextEntry(els: seq<Element>, n: nat, acc: Entries, e: Entry<Key>, c: Component, any: bool)
    requires WellFormed(els) && els != [] && els[0].Valid() && n == (if |els| > 1 && IsAny(els[1]) then 2 else 1)
    requires IsFilter(acc) && e == Entry(At(els[0]), n == 2)
    ensures WellFormed(els[n..]) && (els[n..] != [] ==> !IsAny(els[n..][0]))
    ensures IsFilter(Emplace(acc, Above, e))
    ensures HasKey(Emplace(acc, Above, e), At(c)) <==> HasKey(acc, At(c)) || els[0] == c
    ensures Entry(At(c), any) in Emplace(acc, Above, e) <==>
            Entry(At(c), any) in acc || (els[0] == c && any == (n == 2) && !HasKey(acc, At(c)))
  {
    KeysAreOrdered();
    EmplaceDescends(acc, Above, e);
    EmplaceMembers(acc, e, Entry(At(c), any));
    KeysAfter(acc, e, At(c));
    TailWellFormed(els, n);
    if n < |els| { assert els[n..][0] == els[n]; }
  }

  lemma KeysAfter(es: Entries, e: Entry<Key>, key: Key)
    requires Descending(es, Above)
    ensures HasKey(Emplace(es, Above, e), key) <==> HasKey(es, key) || key == e.key
  {
    var r := Emplace(es, Above, e);
    EmplaceMembers(es, e, e);
    if HasKey(es, key) {
      var x :| x in es && x.key == key;
      EmplaceMembers(es, e, x);
    }
    if HasKey(r, key) {
      var x :| x in r && x.key == key;
      EmplaceMembers(es, e, x);
    }
  }

  lemma FirstShifts(els: seq<Element>, n: nat, i: nat, c: Component, any: bool)
    requires n <= |els| && forall j | 0 <= j < n :: els[j] != c
    ensures FirstIs(els, n + i, c, any) <==> FirstIs(els[n..], i, c, any)
  {
    var rest := els[n..];
    assert forall j | 0 <= j < |rest| :: rest[j] == els[n + j];
    if FirstIs(els, n + i, c, any) {
      forall j | 0 <= j < i ensures rest[j] != c { assert els[n + j] != c; }
    }
    if FirstIs(rest, i, c, any) {
      forall j | n <= j < n + i ensures els[j] != c { assert rest[j - n] == els[j]; }
    }
  }

  /** Elements other than `c` in front change nothing. */
  lemma ReadAsRest(els: seq<Element>, n: nat, c: Component, any: bool)
    requires n <= |els| && forall j | 0 <= j < n :: els[j] != c
    ensures ReadAs(els, c, any) <==> ReadAs(els[n..], c, any)
  {
    if i: nat :| FirstIs(els, i, c, any) {
      assert els[i] == c;
      FirstShifts(els, n, i - n, c, any);
    }
    if i: nat :| FirstIs(els[n..], i, c, any) { FirstShifts(els, n, i, c, any); }
  }

  lemma FirstInRest(els: seq<Element>, n: nat, c: Component, any: bool)
    requires els != [] && els[0].Valid() && c.Valid() && n == (if |els| > 1 && IsAny(els[1]) then 2 else 1)
    ensures ReadAs(els, c, any) <==> if els[0] == c then any == (n == 2) else ReadAs(els[n..], c, any)
  {
    if els[0] == c {
      assert any == (n == 2) ==> FirstIs(els, 0, c, any);
    } else {
      ReadAsRest(els, n, c, any);
    }
  }

  /** In whatever order the elements come: an accepted list is read as the entries of its components, each with the `ANY` that
      follows it where it is first, and of negative infinity if it starts with an `ANY`. */
  lemma ReadsFirst(els: seq<Element>, c: Component, any: bool)
    requires els != [] && WellFormed(els) && c.Valid()
    ensures Entry(At(c), any) in DecodeAll(els).0 <==> ReadAs(els, c, any)
    ensures HasKey(DecodeAll(els).0, NegInf) <==> IsAny(els[0])
  {
    if IsAny(els[0]) { AfterAny(els, c, any); } else { ReadsFromStart(els, c, any); }
  }

  lemma ReadsFromStart(els: seq<Element>, c: Component, any: bool)
    requires els != [] && WellFormed(els) && c.Valid() && !IsAny(els[0])
    ensures Entry(At(c), any) in Decode(els, []).0 <==> ReadAs(els, c, any)
    ensures !HasKey(Decode(els, []).0, NegInf)
  {
    DecodedEntries(els, [], c, any);
    NoNegInf(els, []);
  }

  lemma AfterAny(els: seq<Element>, c: Component, any: bool)
    requires els != [] && WellFormed(els) && c.Valid() && IsAny(els[0])
    ensures Entry(At(c), any) in Decode(els[1..], [Entry(NegInf, true)]).0 <==> ReadAs(els, c, any)
    ensures HasKey(Decode(els[1..], [Entry(NegInf, true)]).0, NegInf)
  {
    var lowest := [Entry(NegInf, true)];
    TailWellFormed(els, 1);
    if |els| > 1 { assert els[1..][0] == els[1]; }
    DecodedEntries(els[1..], lowest, c, any);
    assert lowest[0] in lowest;
    NoNegInf(els[1..], lowest);
    ReadAsRest(els, 1, c, any);
  }

  lemma {:induction false} NoNegInf(els: seq<Element>, acc: Entries)
    requires IsFilter(acc)
    ensures HasKey(Decode(els, acc).0, NegInf) <==> HasKey(acc, NegInf)
    decreases |els|
  {
    if els != [] && els[0].Valid() {
      var any := |els| > 1 && IsAny(els[1]);
      var e := Entry(At(els[0]), any);
      KeysAreOrdered();
      EmplaceDescends(acc, Above, e);
      KeysAfter(acc, e, NegInf);
      NoNegInf(els[if any then 2 else 1..], Emplace(acc, Above, e));
    }
  }
}
