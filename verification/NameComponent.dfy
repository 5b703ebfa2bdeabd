/** Name components: canonical order by value and by wire, and the successor in that order. */
module NameComponent {
  import opened Bytes
  import opened Wrappers

  const GENERIC: nat := 8
  const SHA256_DIGEST: nat := 1
  const SHA256_DIGEST_SIZE: nat := 32

  datatype Component = Component(typ: nat, value: seq<byte>) {
    predicate IsGeneric() { typ == GENERIC }

    predicate IsImplicitSha256Digest() { typ == SHA256_DIGEST && |value| == SHA256_DIGEST_SIZE }

    /** The blocks that the constructor from a wire block lets through. */
    predicate Valid() { IsGeneric() || IsImplicitSha256Digest() }

    /** Both header numbers fit a VAR-NUMBER. */
    predicate Encodable() {
      typ < 0x1_0000_0000 && |value| < 0x1_0000_0000_0000_0000
    }
  }

  // ----- canonical order -----

  function Sign(n: int): (s: int) {
    if n < 0 then -1 else if n > 0 then 1 else 0
  }

  /** Canonical order: TLV-TYPE, then TLV-LENGTH, then TLV-VALUE octet by octet. */
  function Compare(a: Component, b: Component): (sign: int)
    ensures -1 <= sign <= 1
  {
    if a.typ != b.typ then Sign(a.typ - b.typ)
    else if |a.value| != |b.value| then Sign(|a.value| - |b.value|)
    else MemCmp(a.value, b.value)
  }

  predicate Less(a: Component, b: Component) { Compare(a, b) < 0 }

  /** The lower type is first, then the shorter value, then the lower octet where the values first differ. */
  lemma CanonicalOrder(a: Component, b: Component) returns (k: nat)
    ensures a.typ < b.typ ==> Compare(a, b) == -1 && Compare(b, a) == 1
    ensures a.typ == b.typ && |a.value| < |b.value| ==> Compare(a, b) == -1 && Compare(b, a) == 1
    ensures a.typ == b.typ && |a.value| == |b.value| ==>
              k <= |a.value| && a.value[..k] == b.value[..k] &&
              if k < |a.value| then a.value[k] != b.value[k] && Compare(a, b) == if a.value[k] < b.value[k] then -1 else 1
              else Compare(a, b) == 0
  {
    k := FirstOctetDecides(a.value, b.value);
  }

  /** Canonical order is a total order and its zero is equality. */
  lemma CompareTotalOrder(a: Component, b: Component, c: Component)
    ensures Compare(a, b) == 0 <==> a == b
    ensures Compare(a, b) == -Compare(b, a)
    ensures Less(a, b) && Less(b, c) ==> Less(a, c)
  {
    MemCmpAntisymmetric(a.value, b.value);
    if |a.value| == |b.value| {
      MemCmpZero(a.value, b.value);
      if |b.value| == |c.value| && MemCmp(a.value, b.value) < 0 && MemCmp(b.value, c.value) < 0 {
        MemCmpTransitive(a.value, b.value, c.value);
      }
    }
  }

  /** The value a 64-bit difference has after it is stored in a 32-bit `int`. */
  function ToInt32(n: int): (r: int) {
    (n + 0x8000_0000) % 0x1_0000_0000 - 0x8000_0000
  }

  /** What `compare` computes when one of the components has no wire: differences stored in an `int`, and the octets of
      the first value against as many of the second; nothing if the second has fewer and they are read past its end. */
  function CompareValues(a: Component, b: Component): (sign: Option<int>) {
    var cmpType := ToInt32(a.typ - b.typ);
    var cmpSize := ToInt32(|a.value| - |b.value|);
    if cmpType != 0 then Some(cmpType)
    else if cmpSize != 0 then Some(cmpSize)
    else if |a.value| > |b.value| then None
    else Some(MemCmp(a.value, b.value))
  }

  /** What `compare` computes when both components have a wire. */
  function CompareWires(a: Component, b: Component): (sign: int)
    requires a.Encodable() && b.Encodable()
  {
    MemCmp(Wire(a), Wire(b))
  }

  /** The wire of a component, as `wireEncode` writes it. */
  function Wire(c: Component): (s: seq<byte>)
    requires c.Encodable()
  {
    VarNumber(c.typ) + (VarNumber(|c.value|) + c.value)
  }

  /** The `memcmp` shortcut computes canonical order for every pair of components. */
  lemma WireOrderIsCanonical(a: Component, b: Component)
    requires a.Encodable() && b.Encodable()
    ensures CompareWires(a, b) == Compare(a, b)
  {
    if a.typ != b.typ {
      NumbersDecide(a.typ, b.typ, VarNumber(|a.value|) + a.value, VarNumber(|b.value|) + b.value);
    } else {
      MemCmpCommonFront(VarNumber(a.typ), VarNumber(|a.value|) + a.value, VarNumber(|b.value|) + b.value);
      if |a.value| != |b.value| {
        NumbersDecide(|a.value|, |b.value|, a.value, b.value);
      } else {
        MemCmpCommonFront(VarNumber(|a.value|), a.value, b.value);
      }
    }
  }

  lemma NumbersDecide(m: nat, n: nat, s: seq<byte>, t: seq<byte>)
    requires m != n && m < 0x1_0000_0000_0000_0000 && n < 0x1_0000_0000_0000_0000
    ensures MemCmp(VarNumber(m) + s, VarNumber(n) + t) == Sign(m - n)
  {
    if m < n {
      VarNumberKeepsOrder(m, n);
    } else {
      VarNumberKeepsOrder(n, m);
      MemCmpAntisymmetric(VarNumber(m), VarNumber(n));
    }
    MemCmpDecidedByFront(VarNumber(m), VarNumber(n), s, t);
  }

  /** Two wires are equal only for equal components, so decoding a wire has one answer. */
  lemma WireInjective(a: Component, b: Component)
    requires a.Encodable() && b.Encodable()
    requires Wire(a) == Wire(b)
    ensures a == b
  {
    WireOrderIsCanonical(a, b);
    MemCmpZero(Wire(a), Wire(b));
    CompareTotalOrder(a, b, b);
  }

  /** For all components the value-wise path has the sign of canonical order if and only if the types differ, the lengths
      agree, or the low 32 bits of the difference of the lengths, read as an `int`, have its sign. A difference that is a
      multiple of 4 GiB looks like none: then the octets decide, or are read past the end if the first value is longer. */
  lemma ValueOrderIsCanonicalIff(a: Component, b: Component)
    requires a.Valid() && b.Valid()
    ensures var d, sign := |a.value| - |b.value|, CompareValues(a, b);
      var low := d % 0x1_0000_0000;
      && (sign == None <==> a.typ == b.typ && d > 0 && low == 0)
      && (sign.Some? && Sign(sign.value) == Compare(a, b) <==>
          || a.typ != b.typ || d == 0
          || (d > 0 && 0 < low < 0x8000_0000)
          || (d < 0 && (low >= 0x8000_0000 || (low == 0 && MemCmp(a.value, b.value) < 0))))
  {
    LowBits(|a.value| - |b.value|);
    LowBits(a.typ - b.typ);
  }

  lemma LowBits(d: int)
    ensures var low := d % 0x1_0000_0000; ToInt32(d) == if low < 0x8000_0000 then low else low - 0x1_0000_0000
  {
  }

  // ----- successor -----

  predicate AllOnes(s: seq<byte>) { forall i | 0 <= i < |s| :: s[i] == 255 }

  function Zeros(n: nat): (s: seq<byte>) { seq(n, _ => 0) }

  /** The octet string one above `s` among strings of its length; all ones wrap to all zeros. */
  function Increment(s: seq<byte>): (r: seq<byte>)
    ensures |r| == |s|
  {
    if s == [] then []
    else
      var last := s[|s| - 1];
      if last == 255 then Increment(s[..|s| - 1]) + [0] else s[..|s| - 1] + [last + 1]
  }

  /** The value of the successor: incremented, and one octet longer when that wraps. */
  function SuccessorValue(s: seq<byte>): (r: seq<byte>) {
    if AllOnes(s) then Zeros(|s| + 1) else Increment(s)
  }

  /** The carry loop of `getSuccessor`; the result is not a component when a digest overflows. */
  method GetSuccessor(c: Component) returns (r: Result<Component, string>)
    requires c.Valid()
    ensures r.Ok? <==> !(c.IsImplicitSha256Digest() && AllOnes(c.value))
    ensures r.Ok? ==> r.value == Component(c.typ, SuccessorValue(c.value)) && r.value.Valid()
  {
    var encoder: seq<byte> := [];
    var isOverflow := true;
    var i := |c.value|;
    while isOverflow && i > 0
      invariant 0 <= i <= |c.value|
      invariant |encoder| == |c.value| - i
      invariant isOverflow ==> AllOnes(c.value[i..]) && encoder == Zeros(|c.value| - i)
      invariant !isOverflow ==> !AllOnes(c.value) && c.value[..i] + encoder == Increment(c.value)
    {
      var newValue: byte := (c.value[i - 1] as int + 1) % 256;
      CarryStep(c.value, i, newValue, encoder);
      encoder := [newValue] + encoder;
      isOverflow := newValue == 0;
      i := i - 1;
    }
    if isOverflow { OverflowEnds(c.value, encoder); }
    encoder := c.value[..i] + encoder;
    if isOverflow { encoder := encoder + [0]; }
    var block := Component(c.typ, encoder);
    if block.Valid() {
      r := Ok(block);
    } else {
      r := Err("not a NameComponent");
    }
  }

  /** One round of the carry loop. */
  lemma CarryStep(s: seq<byte>, i: nat, x: byte, zeros: seq<byte>)
    requires 0 < i <= |s| && x as int == (s[i - 1] as int + 1) % 256 && AllOnes(s[i..]) && zeros == Zeros(|s| - i)
    ensures x == 0 ==> AllOnes(s[i - 1..]) && [x] + zeros == Zeros(|s| - (i - 1))
    ensures x != 0 ==> !AllOnes(s) && s[..i - 1] + ([x] + zeros) == Increment(s)
  {
    NextOctet(s[i - 1], x);
    if x == 0 { CarryGoesOn(s, i, zeros); } else { CarryStops(s, i, x, zeros); }
  }

  lemma NextOctet(b: byte, x: byte)
    requires x as int == (b as int + 1) % 256
    ensures if b == 255 then x == 0 else x == b + 1
  {
  }

  lemma CarryGoesOn(s: seq<byte>, i: nat, zeros: seq<byte>)
    requires 0 < i <= |s| && s[i - 1] == 255 && AllOnes(s[i..]) && zeros == Zeros(|s| - i)
    ensures AllOnes(s[i - 1..]) && [0] + zeros == Zeros(|s| - (i - 1))
  {
    assert s[i - 1..] == [s[i - 1]] + s[i..];
  }

  lemma CarryStops(s: seq<byte>, i: nat, x: byte, zeros: seq<byte>)
    requires 0 < i <= |s| && s[i - 1] != 255 && x == s[i - 1] + 1 && AllOnes(s[i..]) && zeros == Zeros(|s| - i)
    ensures !AllOnes(s) && s[..i - 1] + ([x] + zeros) == Increment(s)
  {
    IncrementStep(s, i, zeros);
    assert s[..i - 1] + ([x] + zeros) == s[..i - 1] + [x] + zeros;
  }

  /** The carry comes out at the front. */
  lemma OverflowEnds(s: seq<byte>, zeros: seq<byte>)
    requires AllOnes(s[0..]) && zeros == Zeros(|s|)
    ensures AllOnes(s) && s[..0] + zeros + [0] == Zeros(|s| + 1)
  {
    assert s[0..] == s && s[..0] == [];
  }

  /** The octet at `i - 1` absorbs the carry coming out of the ones above it. */
  lemma {:induction false} IncrementStep(s: seq<byte>, i: nat, zeros: seq<byte>)
    requires 0 < i <= |s| && s[i - 1] != 255
    requires AllOnes(s[i..]) && zeros == Zeros(|s| - i)
    ensures !AllOnes(s)
    ensures Increment(s) == s[..i - 1] + [s[i - 1] + 1] + zeros
  {
    if i < |s| {
      assert s[|s| - 1] == s[i..][|s| - i - 1] == 255;
      var front := s[..|s| - 1];
      assert front[i..] == s[i..][..|s| - i - 1];
      IncrementStep(front, i, Zeros(|s| - 1 - i));
      assert Zeros(|s| - 1 - i) + [0] == zeros;
      assert front[..i - 1] == s[..i - 1];
    }
  }

  /** Incrementing moves one step up in `memcmp` order, with nothing between. */
  lemma {:induction false} IncrementIsNext(s: seq<byte>, t: seq<byte>)
    requires !AllOnes(s) && |t| == |s|
    ensures MemCmp(s, Increment(s)) == -1
    ensures MemCmp(s, t) < 0 ==> MemCmp(Increment(s), t) <= 0
  {
    var n := |s| - 1;
    var front, last := s[..n], s[n];
    assert s == front + [last] && t == t[..n] + [t[n]];
    if last == 255 {
      IncrementIsNext(front, t[..n]);
      MemCmpDecidedByFront(front, Increment(front), [last], [0]);
      if MemCmp(s, t) < 0 {
        BelowAtFront(front, t[..n], t[n]);
        var next := Increment(front);
        if MemCmp(next, t[..n]) == 0 {
          MemCmpZero(next, t[..n]);
          MemCmpCommonFront(next, [0], [t[n]]);
        } else {
          MemCmpDecidedByFront(next, t[..n], [0], [t[n]]);
        }
      }
    } else {
      MemCmpCommonFront(front, [last], [last + 1]);
      if MemCmp(front, t[..n]) == 0 {
        MemCmpZero(front, t[..n]);
        MemCmpCommonFront(front, [last], [t[n]]);
        MemCmpCommonFront(front, [last + 1], [t[n]]);
      } else {
        MemCmpDecidedByFront(front, t[..n], [last], [t[n]]);
        MemCmpDecidedByFront(front, t[..n], [last + 1], [t[n]]);
      }
    }
  }

  lemma BelowAtFront(front: seq<byte>, tFront: seq<byte>, tLast: byte)
    requires |front| == |tFront|
    requires MemCmp(front + [255], tFront + [tLast]) < 0
    ensures MemCmp(front, tFront) < 0
  {
    if MemCmp(front, tFront) == 0 {
      MemCmpZero(front, tFront);
      MemCmpCommonFront(front, [255], [tLast]);
    } else {
      MemCmpDecidedByFront(front, tFront, [255], [tLast]);
    }
  }

  lemma {:induction false} OnesAreGreatest(s: seq<byte>, t: seq<byte>)
    requires AllOnes(s) && |t| == |s|
    ensures MemCmp(s, t) >= 0
  {
    if s != [] && t[0] == 255 { OnesAreGreatest(s[1..], t[1..]); }
  }

  lemma {:induction false} ZerosAreLeast(n: nat, t: seq<byte>)
    requires |t| == n
    ensures MemCmp(Zeros(n), t) <= 0
  {
    if n > 0 {
      assert Zeros(n)[1..] == Zeros(n - 1);
      ZerosAreLeast(n - 1, t[1..]);
    }
  }

  /** The least component above `c` among all components: the successor value under the same type,
      or the empty generic component above the last digest. */
  function Next(c: Component): (r: Component)
    requires c.Valid()
    ensures r.Valid()
  {
    if c.IsImplicitSha256Digest() && AllOnes(c.value) then Component(GENERIC, [])
    else
      IncrementKeepsLength(c.value);
      Component(c.typ, SuccessorValue(c.value))
  }

  lemma IncrementKeepsLength(s: seq<byte>)
    ensures !AllOnes(s) ==> |SuccessorValue(s)| == |s|
  {
  }

  /** `Next` is the exact immediate successor: strictly greater, with no component of any type between. */
  lemma NextIsImmediate(c: Component, x: Component)
    requires c.Valid() && x.Valid()
    ensures Less(c, Next(c))
    ensures Less(c, x) ==> !Less(x, Next(c))
  {
    var n := Next(c);
    if c.IsImplicitSha256Digest() && AllOnes(c.value) {
      if Less(c, x) && x.typ == c.typ { OnesAreGreatest(c.value, x.value); }
    } else if AllOnes(c.value) {
      if Less(c, x) {
        if x.typ == c.typ && |x.value| == |c.value| { OnesAreGreatest(c.value, x.value); }
        if x.typ == c.typ && |x.value| == |n.value| {
          ZerosAreLeast(|n.value|, x.value);
          MemCmpAntisymmetric(n.value, x.value);
        }
      }
    } else {
      IncrementIsNext(c.value, c.value);
      if |x.value| == |c.value| {
        IncrementIsNext(c.value, x.value);
        MemCmpAntisymmetric(n.value, x.value);
      }
    }
  }
}
