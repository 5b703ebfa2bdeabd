/** The Exclude selector as an object whose entries are changed in place, and its iterator. */
module ExcludeObject {
  import opened Wrappers
  import opened RangeMap
  import opened NameComponent
  import opened ExcludeFilter

  /** Making the upper end and erasing between the ends, in place and at once. */
  lemma EraseBetween(m: Entries, i: nat, j: nat, e: Entry<Key>)
    requires j <= i < |m|
    ensures var with := m[..j] + [e] + m[j..]; with[..j + 1] + with[i + 1..] == m[..j] + [e] + m[i..]
  {
    var with := m[..j] + [e] + m[j..];
    assert with[..j + 1] == m[..j] + [e] && with[i + 1..] == m[i..];
  }

  lemma EraseUnder(m: Entries, i: nat, j: nat, e: Entry<Key>)
    requires j <= i < |m| && m[j] == e
    ensures m[..j + 1] + m[i..] == m[..j] + [e] + m[i..]
  {
    assert m[..j + 1] == m[..j] + [e];
  }

  class Exclude {
    var entries: Entries

    ghost predicate Valid()
      reads this
    {
      IsFilter(entries)
    }

    constructor ()
      ensures Valid() && entries == []
    {
      entries := [];
    }

    /** `isExcluded`. */
    method IsExcluded(comp: Component) returns (b: bool)
      ensures b == Excluded(entries, comp)
    {
      var lb := LowerBound(entries, Above, At(comp));
      b := lb < |entries| && (entries[lb].any || entries[lb].key == At(comp));
    }

    /** `appendEntry`; the hint does not matter for where the entry goes. */
    method AppendEntry(key: Key, hasAny: bool)
      modifies this
      ensures entries == Emplace(old(entries), Above, Entry(key, hasAny))
    {
      var i := LowerBound(entries, Above, key);
      if i == |entries| || entries[i].key != key {
        entries := entries[..i] + [Entry(key, hasAny)] + entries[i..];
      }
    }

    /** `excludeOne`. */
    method ExcludeOne(comp: Component)
      requires Valid() && comp.Valid()
      modifies this
      ensures Valid() && entries == Obey(old(entries), One(comp))
      ensures forall x: Component | x.Valid() :: Excluded(entries, x) <==> old(Excluded(entries, x)) || x == comp
    {
      ObeyKeepsFilter(entries, One(comp));
      RequestExactIff(entries, One(comp));
      var excluded := IsExcluded(comp);
      if !excluded { AppendEntry(At(comp), false); }
    }

    /** The start of a range: the greatest entry up to `from`, with its flag set. */
    method StartRange(from: Key) returns (newFrom: nat)
      modifies this
      ensures newFrom == LowerBound(old(entries), Above, from)
      ensures entries == WithFrom(old(entries), Above, from)
    {
      newFrom := LowerBound(entries, Above, from);
      if newFrom == |entries| || !entries[newFrom].any {
        if newFrom < |entries| && entries[newFrom].key == from {
          entries := entries[newFrom := entries[newFrom].(any := true)];
        } else {
          entries := entries[..newFrom] + [Entry(from, true)] + entries[newFrom..];
        }
      }
    }

    /** The entry `to` without a flag, and the position behind it. */
    method MakeEnd(newFrom: nat, newTo: nat, to: Component) returns (from: nat)
      requires newTo <= newFrom < |entries| && (newTo == newFrom || !entries[newTo].any)
      requires entries[newFrom].key != At(to)
      modifies this
      ensures newTo + 1 <= from <= |entries|
      ensures entries[..newTo + 1] + entries[from..] == old(entries)[..newTo] + [Entry(At(to), false)] + old(entries)[newFrom..]
    {
      var e := Entry(At(to), false);
      if entries[newTo].key != At(to) {
        EraseBetween(entries, newFrom, newTo, e);
        entries := entries[..newTo] + [e] + entries[newTo..];
        from := newFrom + 1;
      } else {
        EraseUnder(entries, newFrom, newTo, e);
        from := newFrom;
      }
    }

    /** The end of a range, and the removal of what lies between. */
    method EndRange(newFrom: nat, to: Component)
      requires Descending(entries, Above) && newFrom < |entries| && Above(At(to), entries[newFrom].key)
      modifies this
      ensures LowerBound(old(entries), Above, At(to)) <= newFrom
      ensures entries == Splice(old(entries), newFrom, LowerBound(old(entries), Above, At(to)), At(to))
    {
      KeysAreOrdered();
      var from, newTo := newFrom, LowerBound(entries, Above, At(to));
      Asymmetric(Above, At(to), entries[newFrom].key);
      if newTo == from || !entries[newTo].any {
        from := MakeEnd(newFrom, newTo, to);
        newTo := newTo + 1;
      }
      entries := entries[..newTo] + entries[from..];
    }

    /** `excludeRange`, also from negative infinity. */
    method ExcludeRange(from: Key, to: Component) returns (r: Result<(), string>)
      requires Valid() && FromTo(from, to).Valid()
      modifies this
      ensures Valid() && entries == Obey(old(entries), FromTo(from, to))
      ensures r.Err? <==> from.At? && !Less(from.component, to)
      ensures r.Err? ==> entries == old(entries)
      ensures r.Ok? ==>
                ((forall x: Component | x.Valid() ::
                    Excluded(entries, x) <==> old(Excluded(entries, x)) || IsInRange(from, to, x)) <==>
                 Fits(old(entries), FromTo(from, to)))
    {
      ghost var es := entries;
      ObeyKeepsFilter(entries, FromTo(from, to));
      if from.At? && !Less(from.component, to) { return Err("Invalid exclude range"); }
      RangeExactIff(entries, from, to);
      KeysAreOrdered();
      WithFromDescends(entries, Above, from);
      var newFrom := StartRange(from);
      assert Above(At(to), from) && !Above(entries[newFrom].key, from);
      AboveRest(Above, At(to), from, entries[newFrom].key);
      EndRange(newFrom, to);
      r := Ok(());
    }

    /** `excludeBefore`. */
    method ExcludeBefore(to: Component) returns (r: Result<(), string>)
      requires Valid() && to.Valid()
      modifies this
      ensures Valid() && r.Ok? && entries == Obey(old(entries), FromTo(NegInf, to))
      ensures (forall x: Component | x.Valid() ::
                Excluded(entries, x) <==> old(Excluded(entries, x)) || !Less(to, x)) <==>
              Fits(old(entries), FromTo(NegInf, to))
    {
      r := ExcludeRange(NegInf, to);
    }

    /** `excludeAfter`. */
    method ExcludeAfter(from: Component)
      requires Valid() && from.Valid()
      modifies this
      ensures Valid() && entries == Obey(old(entries), After(from))
      ensures forall x: Component | x.Valid() :: Excluded(entries, x) <==> old(Excluded(entries, x)) || !Less(x, from)
    {
      ObeyKeepsFilter(entries, After(from));
      RequestExactIff(entries, After(from));
      var newFrom := StartRange(At(from));
      entries := entries[newFrom..];
    }

    /** `wireEncode`: the elements, prepended from the greatest entry down. */
    method WireEncode() returns (r: Result<seq<Element>, string>)
      ensures r.Err? <==> entries == []
      ensures r.Ok? ==> r.value == Encode(entries)
    {
      if entries == [] { return Err("cannot encode empty Exclude selector"); }
      var els: seq<Element> := [];
      var i := 0;
      while i < |entries|
        invariant 0 <= i <= |entries|
        invariant Encode(entries) == Encode(entries[i..]) + els
      {
        EncodeFrom(entries, i, els);
        els := WithElements(entries[i], els);
        i := i + 1;
      }
      r := Ok(els);
    }

    /** One round of that loop. */
    static method WithElements(e: Entry<Key>, els: seq<Element>) returns (r: seq<Element>)
      ensures r == ElementsOf(e) + els
    {
      r := els;
      if e.any { r := [AnyElement] + r; }
      if e.key.At? { r := [e.key.component] + r; }
    }

    /** `wireDecode` of the elements of a block. */
    method WireDecode(els: seq<Element>) returns (ok: bool)
      modifies this
      ensures (entries, ok) == DecodeAll(els) && Valid()
    {
      DecodeAllGivesFilter(els);
      entries := [];
      if els == [] { return false; }
      var i := 0;
      if els[0].typ == ANY {
        AppendEntry(NegInf, true);
        i := 1;
        assert entries == [Entry(NegInf, true)];
      }
      assert els[0..] == els;
      while i < |els|
        invariant 0 <= i <= |els| && Decode(els[i..], entries) == DecodeAll(els)
      {
        var component := els[i];
        DecodeFrom(els, i, entries);
        if !component.Valid() { return false; }
        i := i + 1;
        if i < |els| && els[i].typ == ANY {
          AppendEntry(At(component), true);
          i := i + 1;
        } else {
          AppendEntry(At(component), false);
        }
      }
      ok := true;
    }

    /** All ranges, as an enumeration from `begin()` to `end()` gives them. */
    method Enumerate() returns (rs: seq<Range<Key>>)
      requires Valid() && Combined(entries)
      ensures rs == Ranges(entries, |entries|)
      ensures forall x :: Covered(Above, rs, At(x)) <==> Excluded(entries, x)
      ensures forall a, b | 0 <= a < b < |rs| :: Apart(Above, rs[a], rs[b])
    {
      EnumerationExact(entries);
      EnumerationPassesIff(entries);
      rs := WalkAll();
    }

    /** The loop from `begin()` to `end()`, if it meets the assertion of the iterator all the way. */
    method WalkAll() returns (rs: seq<Range<Key>>)
      requires WalkPasses(entries, |entries|)
      ensures rs == Ranges(entries, |entries|)
    {
      var it := new ConstIterator(entries);
      rs := [];
      ghost var all := Ranges(entries, |entries|);
      while it.left > 0
        invariant it.entries == entries && it.Valid() && fresh(it) && WalkPasses(entries, it.left)
        invariant rs + Ranges(entries, it.left) == all
        decreases it.left
      {
        var r := it.range.value;
        it.Advance();
        MoveFirst(rs, r, Ranges(entries, it.left));
        rs := rs + [r];
      }
    }
  }

  lemma MoveFirst(a: seq<Range<Key>>, r: Range<Key>, b: seq<Range<Key>>)
    ensures a + ([r] + b) == (a + [r]) + b
  {
  }

  lemma EnumerationExact(es: Entries)
    requires IsFilter(es) && Combined(es)
    ensures forall x :: Covered(Above, Ranges(es, |es|), At(x)) <==> Excluded(es, x)
    ensures forall a, b | 0 <= a < b < |Ranges(es, |es|)| :: Apart(Above, Ranges(es, |es|)[a], Ranges(es, |es|)[b])
  {
    KeysAreOrdered();
    RangesAscend(es, Above, |es|);
    forall x ensures Covered(Above, Ranges(es, |es|), At(x)) <==> Excluded(es, x) {
      RangesCover(es, Above, |es|, At(x));
    }
  }

  class ConstIterator {
    const entries: Entries
    /** How many entries are at or above the position; the iterator walks from the lowest entry up. */
    var left: nat
    var range: Option<Range<Key>>

    ghost predicate Valid()
      reads this
    {
      left <= |entries| && (left > 0 ==> range == Some(Ranges(entries, left)[0]))
    }

    constructor (es: Entries)
      ensures entries == es && left == |es| && Valid()
    {
      entries, left, range := es, |es|, None;
      new;
      Update();
    }

    /** `update`. */
    method Update()
      requires left <= |entries|
      modifies this`range
      ensures Valid()
    {
      if left == 0 { return; }
      var e := entries[left - 1];
      if e.any {
        range := Some(Range(e.key, if left == 1 then None else Some(entries[left - 2].key)));
      } else {
        range := Some(Range(e.key, Some(e.key)));
      }
    }

    /** `operator++`; the assertion of the source is the second precondition. */
    method Advance()
      requires Valid() && left > 0
      requires CanPass(entries, left)
      modifies this
      ensures Valid() && left == LeftAfter(entries, old(left))
      ensures Ranges(entries, old(left)) == [old(Ranges(entries, left)[0])] + Ranges(entries, left)
    {
      var wasInRange := entries[left - 1].any;
      left := left - 1;
      if wasInRange && left > 0 { left := left - 1; }
      Update();
    }
  }
}
