/** The URI form of a name component: percent-encoding, the rule of three periods, and digests in hex. */
module ComponentUri {
  import opened Wrappers
  import opened Bytes
  import opened NameComponent

  type Text = seq<byte>

  const PERCENT: byte := 37
  const PERIOD: byte := 46

  /** "sha256digest=" */
  const DigestPrefix: Text := [115, 104, 97, 50, 53, 54, 100, 105, 103, 101, 115, 116, 61]

  const EQUALS: byte := 61

  // ----- hexadecimal digits -----

  function UpperDigit(n: nat): (c: byte)
    requires n < 16
  {
    if n < 10 then (48 + n) as byte else (65 + n - 10) as byte
  }

  function LowerDigit(n: nat): (c: byte)
    requires n < 16
  {
    if n < 10 then (48 + n) as byte else (97 + n - 10) as byte
  }

  /** `fromHexChar`. */
  function DigitValue(c: byte): (r: Option<nat>)
    ensures r.Some? ==> r.value < 16
  {
    if 48 <= c <= 57 then Some(c as nat - 48)
    else if 65 <= c <= 70 then Some(c as nat - 65 + 10)
    else if 97 <= c <= 102 then Some(c as nat - 97 + 10)
    else None
  }

  function Octet(hi: nat, lo: nat): (b: byte)
    requires hi < 16 && lo < 16
  {
    (hi * 16 + lo) as byte
  }

  /** Both spellings of an octet read back. */
  lemma DigitsReadBack(x: byte)
    ensures var hi, lo := x as nat / 16, x as nat % 16;
      && DigitValue(UpperDigit(hi)) == DigitValue(LowerDigit(hi)) == Some(hi)
      && DigitValue(UpperDigit(lo)) == DigitValue(LowerDigit(lo)) == Some(lo)
      && Octet(hi, lo) == x
  {
  }

  // ----- percent-encoding -----

  /** 0-9, A-Z, a-z, "+", "-", "." and "_". */
  predicate Plain(x: byte) {
    48 <= x <= 57 || 65 <= x <= 90 || 97 <= x <= 122 || x == 43 || x == 45 || x == 46 || x == 95
  }

  function EscapeOctet(x: byte): (t: Text) {
    if Plain(x) then [x] else [PERCENT, UpperDigit(x as nat / 16), UpperDigit(x as nat % 16)]
  }

  function Escape(s: seq<byte>): (t: Text) {
    if s == [] then [] else EscapeOctet(s[0]) + Escape(s[1..])
  }

  /** `unescape`: a percent sign without two hexadecimal digits after it stands for itself. */
  function Unescape(t: Text): (s: seq<byte>)
    decreases |t|
  {
    if t == [] then []
    else if t[0] == PERCENT && |t| > 2 then
      var hi, lo := DigitValue(t[1]), DigitValue(t[2]);
      (if hi.None? || lo.None? then t[..3] else [Octet(hi.value, lo.value)]) + Unescape(t[3..])
    else [t[0]] + Unescape(t[1..])
  }

  lemma {:induction false} UnescapeEscape(s: seq<byte>)
    ensures Unescape(Escape(s)) == s
  {
    if s != [] {
      var x, rest := s[0], Escape(s[1..]);
      UnescapeEscape(s[1..]);
      var t := EscapeOctet(x) + rest;
      if Plain(x) {
        assert t[1..] == rest;
      } else {
        DigitsReadBack(x);
        assert t[3..] == rest;
      }
    }
  }

  /** Nothing that is escaped contains a sign of its own meaning. */
  predicate Harmless(x: byte) { x != EQUALS && x > 32 }

  lemma {:induction false} EscapeIsHarmless(s: seq<byte>)
    ensures forall x | x in Escape(s) :: Harmless(x)
  {
    if s != [] { EscapeIsHarmless(s[1..]); }
  }

  // ----- periods -----

  predicate AllPeriods(s: seq<byte>) { forall i | 0 <= i < |s| :: s[i] == PERIOD }

  lemma {:induction false} PeriodsUnescape(s: seq<byte>)
    requires AllPeriods(s)
    ensures Unescape(s) == s
  {
    if s != [] { PeriodsUnescape(s[1..]); }
  }

  // ----- digests -----

  function Hex(s: seq<byte>): (t: Text)
    ensures |t| == 2 * |s|
  {
    if s == [] then [] else [LowerDigit(s[0] as nat / 16), LowerDigit(s[0] as nat % 16)] + Hex(s[1..])
  }

  /** `fromHex`: pairs of hexadecimal digits and nothing else. */
  function FromHex(t: Text): (r: Option<seq<byte>>) {
    if t == [] then Some([])
    else if |t| == 1 || DigitValue(t[0]).None? || DigitValue(t[1]).None? then None
    else
      var rest := FromHex(t[2..]);
      if rest.None? then None else Some([Octet(DigitValue(t[0]).value, DigitValue(t[1]).value)] + rest.value)
  }

  lemma {:induction false} FromHexHex(s: seq<byte>)
    ensures FromHex(Hex(s)) == Some(s)
  {
    if s != [] {
      FromHexHex(s[1..]);
      DigitsReadBack(s[0]);
      var t := Hex(s);
      assert t[0] == LowerDigit(s[0] as nat / 16) && t[1] == LowerDigit(s[0] as nat % 16) && t[2..] == Hex(s[1..]);
      assert [s[0]] + s[1..] == s;
    }
  }

  lemma {:induction false} HexIsHarmless(s: seq<byte>)
    ensures forall x | x in Hex(s) :: Harmless(x)
  {
    if s != [] { HexIsHarmless(s[1..]); }
  }

  // ----- white space -----

  predicate IsSpace(x: byte) { 9 <= x <= 13 || x == 32 }

  function TrimLeft(t: Text): (r: Text) { if t != [] && IsSpace(t[0]) then TrimLeft(t[1..]) else t }

  function TrimRight(t: Text): (r: Text) {
    if t != [] && IsSpace(t[|t| - 1]) then TrimRight(t[..|t| - 1]) else t
  }

  function Trim(t: Text): (r: Text) { TrimRight(TrimLeft(t)) }

  lemma TrimKeeps(t: Text)
    requires t != [] ==> t[0] > 32 && t[|t| - 1] > 32
    ensures Trim(t) == t
  {
  }

  lemma NoDigestPrefix(t: Text)
    requires forall x | x in t :: x != EQUALS
    ensures !(DigestPrefix <= t)
  {
    if |t| > 12 { assert t[12] in t; }
  }

  // ----- the pair -----

  /** `toUri`. */
  function ToUri(c: Component): (t: Text) {
    if c.typ == SHA256_DIGEST then DigestPrefix + Hex(c.value)
    else if AllPeriods(c.value) then [PERIOD, PERIOD, PERIOD] + c.value
    else Escape(c.value)
  }

  /** `fromEscapedString`. */
  function FromUri(text: Text): (r: Result<Component, string>) {
    var t := Trim(text);
    if DigestPrefix <= t then
      if |t| != |DigestPrefix| + 2 * SHA256_DIGEST_SIZE then Err("expected sha256 in hex encoding")
      else
        var digest := FromHex(t[|DigestPrefix|..]);
        if digest.None? then Err("invalid hex encoding") else Ok(Component(SHA256_DIGEST, digest.value))
    else
      var value := Unescape(t);
      if !AllPeriods(value) then Ok(Component(GENERIC, value))
      else if |value| <= 2 then Err("name component cannot be . or ..")
      else Ok(Component(GENERIC, value[3..]))
  }

  lemma GenericRoundTrip(c: Component)
    requires c.IsGeneric()
    ensures FromUri(ToUri(c)) == Ok(c)
  {
    var t := ToUri(c);
    if AllPeriods(c.value) {
      PeriodsUnescape(t);
      assert t[3..] == c.value;
    } else {
      UnescapeEscape(c.value);
      EscapeIsHarmless(c.value);
    }
    assert t != [] ==> t[0] in t && t[|t| - 1] in t;
    TrimKeeps(t);
    NoDigestPrefix(t);
  }

  lemma DigestRoundTrip(c: Component)
    requires c.IsImplicitSha256Digest()
    ensures FromUri(ToUri(c)) == Ok(c)
  {
    var t := ToUri(c);
    FromHexHex(c.value);
    HexIsHarmless(c.value);
    assert t[|DigestPrefix|..] == Hex(c.value);
    TrimKeeps(t) by { assert t[|t| - 1] == Hex(c.value)[63] && Hex(c.value)[63] in Hex(c.value); }
  }

  /** Every component reads back from its URI. */
  lemma UriRoundTrip(c: Component)
    requires c.Valid()
    ensures FromUri(ToUri(c)) == Ok(c)
  {
    if c.IsGeneric() { GenericRoundTrip(c); } else { DigestRoundTrip(c); }
  }

  /** Different components have different URIs. */
  lemma UriInjective(a: Component, b: Component)
    requires a.Valid() && b.Valid() && ToUri(a) == ToUri(b)
    ensures a == b
  {
    UriRoundTrip(a);
    UriRoundTrip(b);
  }

  // ----- what URIs look like -----

  /** The octet is the code of the character. */
  predicate Is(x: byte, c: char) { x as int == c as int }

  predicate Between(lo: char, x: byte, hi: char) { lo as int <= x as int <= hi as int }

  /** The value of a hexadecimal digit, of either case. */
  predicate IsDigitOf(x: byte, value: nat) {
    || (Between('0', x, '9') && value == x as int - '0' as int)
    || (Between('A', x, 'F') && value == 10 + x as int - 'A' as int)
    || (Between('a', x, 'f') && value == 10 + x as int - 'a' as int)
  }

  predicate IsUpperHex(x: byte) { Between('0', x, '9') || Between('A', x, 'F') }

  predicate IsLowerHex(x: byte) { Between('0', x, '9') || Between('a', x, 'f') }

  predicate IsLetterDigitOrMark(x: byte) {
    || Between('0', x, '9') || Between('A', x, 'Z') || Between('a', x, 'z')
    || Is(x, '+') || Is(x, '-') || Is(x, '.') || Is(x, '_')
  }

  /** A value of letters, digits and `+`, `-`, `.`, `_` that is not all periods is its own URI. */
  lemma {:induction false} TextIsItsUri(value: seq<byte>)
    requires (forall x | x in value :: IsLetterDigitOrMark(x)) && exists x :: x in value && !Is(x, '.')
    ensures ToUri(Component(8, value)) == value
  {
    TextEscapesToItself(value);
    NotAllPeriods(value);
  }

  lemma NotAllPeriods(value: seq<byte>)
    requires exists x :: x in value && !Is(x, '.')
    ensures !AllPeriods(value) && ToUri(Component(8, value)) == Escape(value)
  {
    var x :| x in value && !Is(x, '.');
    var i :| 0 <= i < |value| && value[i] == x;
    assert value[i] != PERIOD;
  }

  lemma TextEscapesToItself(value: seq<byte>)
    requires forall x | x in value :: IsLetterDigitOrMark(x)
    ensures Escape(value) == value
  {
    forall i | 0 <= i < |value| ensures Plain(value[i]) { assert value[i] in value; }
    PlainEscapesToItself(value);
  }

  lemma {:induction false} PlainEscapesToItself(value: seq<byte>)
    requires forall i | 0 <= i < |value| :: Plain(value[i])
    ensures Escape(value) == value
  {
    if value != [] {
      PlainEscapesToItself(value[1..]);
      assert [value[0]] + value[1..] == value;
    }
  }

  /** Any other octet becomes `%` and two digits of 0-9A-F whose value is the octet. */
  lemma OtherOctetIsEscaped(x: byte)
    requires !IsLetterDigitOrMark(x)
    ensures var t := ToUri(Component(8, [x]));
      && |t| == 3 && Is(t[0], '%') && IsUpperHex(t[1]) && IsUpperHex(t[2])
      && exists hi: nat, lo: nat :: IsDigitOf(t[1], hi) && IsDigitOf(t[2], lo) && hi * 16 + lo == x as int
  {
    var value := [x];
    assert value[0] != PERIOD && value[1..] == [];
    assert Escape(value) == EscapeOctet(x) + Escape([]) == EscapeOctet(x);
    var hi, lo := x as nat / 16, x as nat % 16;
    assert IsDigitOf(UpperDigit(hi), hi) && IsDigitOf(UpperDigit(lo), lo) && hi * 16 + lo == x as int;
  }

  /** A value that is not all periods is written part by part, and a part of periods as it is. */
  lemma UriIsWrittenPartByPart(a: seq<byte>, b: seq<byte>)
    requires exists x :: x in a + b && !Is(x, '.')
    ensures ToUri(Component(8, a + b)) ==
            (if forall x | x in a :: Is(x, '.') then a else ToUri(Component(8, a))) +
            (if forall x | x in b :: Is(x, '.') then b else ToUri(Component(8, b)))
  {
    EscapeConcat(a, b);
    PartIsEscaped(a);
    PartIsEscaped(b);
    NotAllPeriods(a + b);
  }

  lemma PartIsEscaped(a: seq<byte>)
    ensures Escape(a) == if forall x | x in a :: Is(x, '.') then a else ToUri(Component(8, a))
  {
    if forall x | x in a :: Is(x, '.') {
      TextEscapesToItself(a);
    } else {
      NotAllPeriods(a);
    }
  }

  lemma {:induction false} EscapeConcat(a: seq<byte>, b: seq<byte>)
    ensures Escape(a + b) == Escape(a) + Escape(b)
  {
    if a == [] {
      assert a + b == b;
    } else {
      assert (a + b)[1..] == a[1..] + b;
      EscapeConcat(a[1..], b);
      Regroup(EscapeOctet(a[0]), Escape(a[1..]), Escape(b));
    }
  }

  /** How many octets are escaped. */
  function OtherOctets(s: seq<byte>): (n: nat) {
    if s == [] then 0 else (if IsLetterDigitOrMark(s[0]) then 0 else 1) + OtherOctets(s[1..])
  }

  /** The URI is longer than the value by two for every escaped octet, or by three if the value is all periods. */
  lemma UriLength(value: seq<byte>)
    ensures |ToUri(Component(8, value))| ==
            if forall x | x in value :: Is(x, '.') then |value| + 3 else |value| + 2 * OtherOctets(value)
  {
    EscapeLength(value);
    if AllPeriods(value) {
      forall x | x in value ensures Is(x, '.') { var i :| 0 <= i < |value| && value[i] == x; }
    } else {
      var i :| 0 <= i < |value| && value[i] != PERIOD;
      assert value[i] in value && !Is(value[i], '.');
    }
  }

  lemma {:induction false} EscapeLength(s: seq<byte>)
    ensures |Escape(s)| == |s| + 2 * OtherOctets(s)
  {
    if s != [] { EscapeLength(s[1..]); }
  }

  /** A value of periods only gets three more. */
  lemma PeriodsUri(value: seq<byte>)
    requires forall x | x in value :: Is(x, '.')
    ensures ToUri(Component(8, value)) == value + [46, 46, 46] && forall x | x in ToUri(Component(8, value)) :: Is(x, '.')
  {
    forall i | 0 <= i < |value| ensures value[i] == PERIOD { assert value[i] in value; }
  }

  /** The URI of a digest is `sha256digest=` and two digits of 0-9a-f for each octet, whose value is the octet. */
  lemma DigestUri(digest: seq<byte>)
    ensures var p, t := "sha256digest=", ToUri(Component(1, digest));
      && |t| == |p| + 2 * |digest|
      && (forall i | 0 <= i < |p| :: Is(t[i], p[i]))
      && (forall i | 0 <= i < |digest| :: IsHexOf(t[|p| + 2 * i], t[|p| + 2 * i + 1], digest[i]))
  {
    var h := Hex(digest);
    assert ToUri(Component(1, digest)) == DigestPrefix + h;
    forall i | 0 <= i < |digest|
      ensures IsHexOf((DigestPrefix + h)[13 + 2 * i], (DigestPrefix + h)[13 + 2 * i + 1], digest[i])
    {
      HexAt(digest, i);
      AfterPrefix(DigestPrefix, h, 2 * i);
      AfterPrefix(DigestPrefix, h, 2 * i + 1);
    }
    PrefixSpelled(h);
  }

  lemma PrefixSpelled(h: Text)
    ensures var p := "sha256digest="; |p| == 13 && forall i | 0 <= i < 13 :: Is((DigestPrefix + h)[i], p[i])
  {
    var p := "sha256digest=";
    var t := DigestPrefix + h;
    assert t[..13] == DigestPrefix;
    assert Is(t[0], p[0]) && Is(t[1], p[1]) && Is(t[2], p[2]) && Is(t[3], p[3]) && Is(t[4], p[4]) && Is(t[5], p[5]) &&
           Is(t[6], p[6]) && Is(t[7], p[7]) && Is(t[8], p[8]) && Is(t[9], p[9]) && Is(t[10], p[10]) && Is(t[11], p[11]);
  }

  lemma AfterPrefix(p: Text, h: Text, k: nat)
    requires k < |h|
    ensures (p + h)[|p| + k] == h[k]
  {
  }

  predicate IsHexOf(a: byte, b: byte, x: byte) {
    IsLowerHex(a) && IsLowerHex(b) && IsDigitOf(a, x as nat / 16) && IsDigitOf(b, x as nat % 16)
  }

  lemma {:induction false} HexAt(s: seq<byte>, i: nat)
    requires i < |s|
    ensures IsHexOf(Hex(s)[2 * i], Hex(s)[2 * i + 1], s[i])
  {
    if i > 0 { HexAt(s[1..], i - 1); }
  }

  // ----- what is read -----

  predicate IsHex(x: byte) { IsUpperHex(x) || IsLowerHex(x) }

  /** Text without a percent sign stands for itself. */
  lemma {:induction false} NothingToUnescape(t: Text)
    requires forall x | x in t :: !Is(x, '%')
    ensures Unescape(t) == t
  {
    if t != [] {
      assert t[0] in t && forall x | x in t[1..] :: x in t;
      NothingToUnescape(t[1..]);
    }
  }

  /** A percent sign with two hexadecimal digits, of either case, is the octet of their value; with two other characters
      the three stand for themselves, and so does what is left of it at the end. */
  lemma PercentSign(a: byte, b: byte, rest: Text)
    ensures forall hi: nat, lo: nat | IsDigitOf(a, hi) && IsDigitOf(b, lo) ::
              hi < 16 && lo < 16 && Unescape([37, a, b] + rest) == [hi * 16 + lo] + Unescape(rest)
    ensures !IsHex(a) || !IsHex(b) ==> Unescape([37, a, b] + rest) == [37, a, b] + Unescape(rest)
    ensures Unescape([37]) == [37] && Unescape([37, a]) == [37] + Unescape([a])
  {
    var t: Text := [37, a, b] + rest;
    assert t[3..] == rest && t[..3] == [37, a, b] && [37, a][1..] == [a] && [37 as byte][1..] == [];
  }

  /** Pairs of hexadecimal digits of either case, and nothing else, are read as octets. */
  lemma {:induction false} FromHexIff(t: Text)
    ensures FromHex(t).Some? <==> |t| % 2 == 0 && forall x | x in t :: IsHex(x)
  {
    if |t| == 1 {
      assert |t| % 2 == 1;
    } else if |t| > 1 {
      var rest := t[2..];
      FromHexIff(rest);
      assert t == [t[0], t[1]] + rest;
      HexHere(t[0]);
      HexHere(t[1]);
      assert t[0] in t && t[1] in t && (forall x | x in rest :: x in t);
      assert forall x | x in t :: x == t[0] || x == t[1] || x in rest;
    }
  }

  /** Each octet read is the value of its pair of digits. */
  lemma {:induction false} FromHexPairs(t: Text, i: nat)
    requires FromHex(t).Some? && i < |FromHex(t).value|
    ensures |FromHex(t).value| * 2 == |t| && IsPair(t, 2 * i, FromHex(t).value[i])
  {
    var rest := t[2..];
    FromHexLength(t);
    if i > 0 {
      FromHexPairs(rest, i - 1);
      assert rest[2 * (i - 1)] == t[2 * i] && rest[2 * (i - 1) + 1] == t[2 * i + 1];
    }
  }

  lemma HexHere(x: byte)
    ensures DigitValue(x).Some? <==> IsHex(x)
  {
  }

  predicate IsPair(t: Text, k: nat, x: byte) {
    k + 1 < |t| && IsDigitOf(t[k], x as nat / 16) && IsDigitOf(t[k + 1], x as nat % 16)
  }

  /** Blank, tab, line feed, vertical tab, form feed and carriage return. */
  predicate IsBlank(x: byte) { x == 32 || x == 9 || x == 10 || x == 11 || x == 12 || x == 13 }

  /** Exactly the white space at both ends is taken off. */
  lemma TrimTakesBlanks(t: Text)
    ensures exists a, b :: t == a + Trim(t) + b && (forall x | x in a + b :: IsBlank(x))
    ensures Trim(t) != [] ==> !IsBlank(Trim(t)[0]) && !IsBlank(Trim(t)[|Trim(t)| - 1])
  {
    var a := TrimLeftTakes(t);
    var m := TrimLeft(t);
    var b := TrimRightTakes(m);
    assert t == a + Trim(t) + b;
    if Trim(t) != [] { assert Trim(t)[0] == m[0]; }
  }

  lemma {:induction false} TrimLeftTakes(t: Text) returns (a: Text)
    ensures t == a + TrimLeft(t) && (forall x | x in a :: IsBlank(x)) && (TrimLeft(t) != [] ==> !IsBlank(TrimLeft(t)[0]))
  {
    if t != [] && IsSpace(t[0]) {
      a := TrimLeftTakes(t[1..]);
      assert t == [t[0]] + t[1..];
      a := [t[0]] + a;
    } else {
      a := [];
    }
  }

  lemma {:induction false} TrimRightTakes(t: Text) returns (b: Text)
    ensures t == TrimRight(t) + b && (forall x | x in b :: IsBlank(x))
    ensures TrimRight(t) != [] ==> !IsBlank(TrimRight(t)[|TrimRight(t)| - 1])
  {
    if t != [] && IsSpace(t[|t| - 1]) {
      b := TrimRightTakes(t[..|t| - 1]);
      assert t == t[..|t| - 1] + [t[|t| - 1]];
      b := b + [t[|t| - 1]];
    } else {
      b := [];
    }
  }

  /** What is refused: white space apart, a text that starts like a digest and is not one of 64 hexadecimal digits, and one
      that reads as no, one or two periods. */
  lemma RefusedIff(text: Text)
    ensures var t := Trim(text);
      FromUri(text).Err? <==>
      if DigestPrefix <= t then |t| != 13 + 64 || exists x :: x in t[13..] && !IsHex(x)
      else |Unescape(t)| <= 2 && forall x | x in Unescape(t) :: Is(x, '.')
  {
    var t := Trim(text);
    if DigestPrefix <= t {
      FromHexIff(t[13..]);
    } else {
      var v := Unescape(t);
      if AllPeriods(v) { forall x | x in v ensures Is(x, '.') { var i :| 0 <= i < |v| && v[i] == x; } }
      else { var i :| 0 <= i < |v| && v[i] != PERIOD; assert v[i] in v; }
    }
  }

  // ----- the loops -----

  /** The loop of `toUri` that looks for an octet other than a period. */
  method HasNonPeriod(value: seq<byte>) returns (found: bool)
    ensures found <==> !AllPeriods(value)
  {
    found := false;
    var i := 0;
    while i < |value| && !found
      invariant 0 <= i <= |value|
      invariant found ==> !AllPeriods(value)
      invariant !found ==> forall k | 0 <= k < i :: value[k] == PERIOD
    {
      found := value[i] != PERIOD;
      i := i + 1;
    }
  }

  lemma EscapeStep(value: seq<byte>, i: nat, before: Text)
    requires i < |value|
    ensures before + Escape(value[i..]) == before + EscapeOctet(value[i]) + Escape(value[i + 1..])
  {
    assert value[i..][1..] == value[i + 1..];
  }

  /** The loop of `toUri` that escapes. */
  method WriteEscaped(value: seq<byte>) returns (result: Text)
    ensures result == Escape(value)
  {
    result := [];
    var i := 0;
    while i < |value|
      invariant 0 <= i <= |value| && result + Escape(value[i..]) == Escape(value)
    {
      var x := value[i];
      EscapeStep(value, i, result);
      if Plain(x) {
        result := result + [x];
      } else {
        result := result + [PERCENT, UpperDigit(x as nat / 16), UpperDigit(x as nat % 16)];
      }
      i := i + 1;
    }
  }

  /** The loop of `toUri` that writes one period for each of the value. */
  method WritePeriods(value: seq<byte>) returns (result: Text)
    requires AllPeriods(value)
    ensures result == [PERIOD, PERIOD, PERIOD] + value
  {
    result := [PERIOD, PERIOD, PERIOD];
    var i := 0;
    while i < |value|
      invariant 0 <= i <= |value| && result == [PERIOD, PERIOD, PERIOD] + value[..i]
    {
      result := result + [PERIOD];
      i := i + 1;
    }
    assert value[..i] == value;
  }

  /** `toUri`. */
  method WriteUri(c: Component) returns (result: Text)
    ensures result == ToUri(c)
  {
    if c.typ == SHA256_DIGEST { return DigestPrefix + Hex(c.value); }
    var gotNonDot := HasNonPeriod(c.value);
    if gotNonDot { result := WriteEscaped(c.value); } else { result := WritePeriods(c.value); }
  }

  lemma Regroup(a: seq<byte>, b: seq<byte>, c: seq<byte>)
    ensures a + (b + c) == (a + b) + c
  {
  }

  /** One round of the loop of `unescape`. */
  lemma UnescapeFrom(str: Text, i: nat)
    requires i < |str|
    ensures Unescape(str[i..]) ==
            if str[i] == PERCENT && i + 2 < |str| then
              var hi, lo := DigitValue(str[i + 1]), DigitValue(str[i + 2]);
              (if hi.None? || lo.None? then [str[i], str[i + 1], str[i + 2]] else [Octet(hi.value, lo.value)]) +
              Unescape(str[i + 3..])
            else [str[i]] + Unescape(str[i + 1..])
  {
    var rest := str[i..];
    assert |rest| > 2 ==> rest[..3] == [str[i], str[i + 1], str[i + 2]] && rest[3..] == str[i + 3..];
    assert rest[1..] == str[i + 1..];
  }

  /** `unescape`. */
  method UnescapeText(str: Text) returns (result: seq<byte>)
    ensures result == Unescape(str)
  {
    result := [];
    var i := 0;
    while i < |str|
      invariant 0 <= i <= |str| && result + Unescape(str[i..]) == Unescape(str)
    {
      UnescapeFrom(str, i);
      ghost var before := result;
      if str[i] == PERCENT && i + 2 < |str| {
        var hi, lo := DigitValue(str[i + 1]), DigitValue(str[i + 2]);
        if hi.None? || lo.None? {
          result := result + [str[i], str[i + 1], str[i + 2]];
        } else {
          result := result + [Octet(hi.value, lo.value)];
        }
        i := i + 2;
      } else {
        result := result + [str[i]];
      }
      i := i + 1;
      Regroup(before, result[|before|..], Unescape(str[i..]));
    }
  }

  /** `fromEscapedString`: what is not refused is a component. */
  method FromEscapedString(text: Text) returns (r: Result<Component, string>)
    ensures r == FromUri(text)
    ensures r.Ok? ==> r.value.Valid()
  {
    var t := Trim(text);
    if DigestPrefix <= t {
      if |t| != |DigestPrefix| + 2 * SHA256_DIGEST_SIZE { return Err("expected sha256 in hex encoding"); }
      var digest := FromHex(t[|DigestPrefix|..]);
      if digest.None? { return Err("invalid hex encoding"); }
      FromHexLength(t[|DigestPrefix|..]);
      return Ok(Component(SHA256_DIGEST, digest.value));
    }
    var value := UnescapeText(t);
    if AllPeriods(value) {
      if |value| <= 2 { return Err("name component cannot be . or .."); }
      return Ok(Component(GENERIC, value[3..]));
    }
    return Ok(Component(GENERIC, value));
  }

  lemma {:induction false} FromHexLength(t: Text)
    ensures FromHex(t).Some? ==> |t| == 2 * |FromHex(t).value|
  {
    if |t| > 1 { FromHexLength(t[2..]); }
  }
}
