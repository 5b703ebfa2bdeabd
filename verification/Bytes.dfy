/** Octet strings, `memcmp`, and the two integer encodings of the NDN-TLV format. */
module Bytes {
  type byte = b: int | 0 <= b < 256

  /** The sign of `memcmp(a, b, min(|a|, |b|))`. */
  function MemCmp(a: seq<byte>, b: seq<byte>): (sign: int)
    ensures -1 <= sign <= 1
  {
    if a == [] || b == [] then 0
    else if a[0] < b[0] then -1
    else if a[0] > b[0] then 1
    else MemCmp(a[1..], b[1..])
  }

  lemma {:induction false} MemCmpAntisymmetric(a: seq<byte>, b: seq<byte>)
    ensures MemCmp(a, b) == -MemCmp(b, a)
  {
    if a != [] && b != [] && a[0] == b[0] { MemCmpAntisymmetric(a[1..], b[1..]); }
  }

  /** The first octet in which two strings differ decides; without one, nothing does. */
  lemma {:induction false} FirstOctetDecides(a: seq<byte>, b: seq<byte>) returns (k: nat)
    ensures k <= |a| && k <= |b| && a[..k] == b[..k]
    ensures if k < |a| && k < |b| then a[k] != b[k] && MemCmp(a, b) == if a[k] < b[k] then -1 else 1 else MemCmp(a, b) == 0
  {
    k := 0;
    if a != [] && b != [] && a[0] == b[0] {
      k := FirstOctetDecides(a[1..], b[1..]);
      k := k + 1;
      assert a[..k] == [a[0]] + a[1..][..k - 1] && b[..k] == [b[0]] + b[1..][..k - 1];
    }
  }

  /** Strings of one length compare equal only when they are equal. */
  lemma {:induction false} MemCmpZero(a: seq<byte>, b: seq<byte>)
    requires |a| == |b|
    ensures MemCmp(a, b) == 0 <==> a == b
  {
    if a != [] {
      assert a == [a[0]] + a[1..] && b == [b[0]] + b[1..];
      MemCmpZero(a[1..], b[1..]);
    }
  }

  lemma {:induction false} MemCmpTransitive(a: seq<byte>, b: seq<byte>, c: seq<byte>)
    requires |a| == |b| == |c|
    requires MemCmp(a, b) <= 0 && MemCmp(b, c) <= 0
    ensures MemCmp(a, c) <= 0
    ensures MemCmp(a, b) < 0 || MemCmp(b, c) < 0 ==> MemCmp(a, c) < 0
  {
    if a != [] && a[0] == b[0] == c[0] { MemCmpTransitive(a[1..], b[1..], c[1..]); }
  }

  /** A common front does not influence the comparison. */
  lemma {:induction false} MemCmpCommonFront(front: seq<byte>, a: seq<byte>, b: seq<byte>)
    ensures MemCmp(front + a, front + b) == MemCmp(a, b)
  {
    if front == [] {
      assert front + a == a && front + b == b;
    } else {
      assert (front + a)[1..] == front[1..] + a && (front + b)[1..] == front[1..] + b;
      MemCmpCommonFront(front[1..], a, b);
    }
  }

  /** Fronts that differ decide the comparison, whatever follows them. */
  lemma {:induction false} MemCmpDecidedByFront(a: seq<byte>, b: seq<byte>, s: seq<byte>, t: seq<byte>)
    requires MemCmp(a, b) != 0
    ensures MemCmp(a + s, b + t) == MemCmp(a, b)
  {
    if a[0] == b[0] {
      assert (a + s)[1..] == a[1..] + s && (b + t)[1..] == b[1..] + t;
      MemCmpDecidedByFront(a[1..], b[1..], s, t);
    }
  }

  /** `n` fits in `width` octets. */
  predicate Fits(n: nat, width: nat) {
    if width == 0 then n == 0 else Fits(n / 256, width - 1)
  }

  /** Big-endian encoding of `n` in exactly `width` octets. */
  function BigEndian(n: nat, width: nat): (s: seq<byte>)
    requires Fits(n, width)
    ensures |s| == width
  {
    if width == 0 then [] else BigEndian(n / 256, width - 1) + [n % 256]
  }

  lemma FitsBounds(n: nat)
    ensures n < 0x1_0000 ==> Fits(n, 2)
    ensures n < 0x1_0000_0000 ==> Fits(n, 4)
    ensures n < 0x1_0000_0000_0000_0000 ==> Fits(n, 8)
  {
    var a := n / 256; var b := a / 256; var c := b / 256; var d := c / 256;
    var e := d / 256; var f := e / 256; var g := f / 256; var h := g / 256;
    assert Fits(b, 0) <==> b == 0;
    assert Fits(n, 2) <==> Fits(b, 0);
    assert Fits(n, 4) <==> Fits(b, 2);
    assert Fits(b, 2) <==> Fits(d, 0);
    assert Fits(d, 0) <==> d == 0;
    assert Fits(n, 8) <==> Fits(b, 6);
    assert Fits(b, 6) <==> Fits(d, 4);
    assert Fits(d, 4) <==> Fits(f, 2);
    assert Fits(f, 2) <==> Fits(h, 0);
  }

  lemma {:induction false} BigEndianKeepsOrder(m: nat, n: nat, width: nat)
    requires Fits(m, width) && Fits(n, width) && m < n
    ensures MemCmp(BigEndian(m, width), BigEndian(n, width)) == -1
  {
    var x, y := BigEndian(m / 256, width - 1), BigEndian(n / 256, width - 1);
    if m / 256 < n / 256 {
      BigEndianKeepsOrder(m / 256, n / 256, width - 1);
      MemCmpDecidedByFront(x, y, [m % 256], [n % 256]);
    } else {
      MemCmpCommonFront(x, [m % 256], [n % 256]);
    }
  }

  /** VAR-NUMBER of the NDN Packet Format Specification, in its shortest form. */
  function VarNumber(n: nat): (s: seq<byte>)
    requires n < 0x1_0000_0000_0000_0000
    ensures s != []
  {
    FitsBounds(n);
    if n < 253 then [n]
    else if n < 0x1_0000 then [253] + BigEndian(n, 2)
    else if n < 0x1_0000_0000 then [254] + BigEndian(n, 4)
    else [255] + BigEndian(n, 8)
  }

  /** The octets of a VAR-NUMBER: the number itself below 253, otherwise a marker and the number in 2, 4 or 8 octets,
      highest first. */
  lemma VarNumberOctets(n: nat)
    requires n < 0x1_0000_0000_0000_0000
    ensures n < 253 ==> VarNumber(n) == [n]
    ensures 253 <= n < 0x1_0000 ==> |VarNumber(n)| == 3 && VarNumber(n)[0] == 253 && ValueOf(VarNumber(n)[1..]) == n
    ensures 0x1_0000 <= n < 0x1_0000_0000 ==> |VarNumber(n)| == 5 && VarNumber(n)[0] == 254 && ValueOf(VarNumber(n)[1..]) == n
    ensures 0x1_0000_0000 <= n ==> |VarNumber(n)| == 9 && VarNumber(n)[0] == 255 && ValueOf(VarNumber(n)[1..]) == n
  {
    FitsBounds(n);
    if n >= 253 {
      var w := if n < 0x1_0000 then 2 else if n < 0x1_0000_0000 then 4 else 8;
      BigEndianValue(n, w);
      assert VarNumber(n)[1..] == BigEndian(n, w);
    }
  }

  /** The number that octets stand for, each worth 256 times what the next one is worth. */
  function ValueOf(s: seq<byte>): (n: nat) { if s == [] then 0 else 256 * ValueOf(s[..|s| - 1]) + s[|s| - 1] }

  lemma {:induction false} BigEndianValue(n: nat, width: nat)
    requires Fits(n, width)
    ensures ValueOf(BigEndian(n, width)) == n
  {
    if width > 0 {
      BigEndianValue(n / 256, width - 1);
      assert BigEndian(n, width)[..width - 1] == BigEndian(n / 256, width - 1);
    }
  }

  /** VAR-NUMBERs are prefix-free and sort like the numbers they encode. */
  lemma VarNumberKeepsOrder(m: nat, n: nat)
    requires m < n < 0x1_0000_0000_0000_0000
    ensures MemCmp(VarNumber(m), VarNumber(n)) == -1
  {
    FitsBounds(m);
    FitsBounds(n);
    if VarNumber(m)[0] == VarNumber(n)[0] {
      var w := if n < 0x1_0000 then 2 else if n < 0x1_0000_0000 then 4 else 8;
      BigEndianKeepsOrder(m, n, w);
      MemCmpCommonFront([VarNumber(n)[0]], BigEndian(m, w), BigEndian(n, w));
    }
  }
}
