/** When an Interest matches a name and when it matches a Data packet. */
module InterestMatch {
  import opened Wrappers
  import opened NameComponent
  import opened Names
  import opened ExcludeFilter

  /** The parts of an Interest that matching looks at; a negative number means that a selector is absent. */
  datatype Interest = Interest(name: Name, minSuffix: int, maxSuffix: int, exclude: Entries,
                               publisherKeyLocator: Option<seq<Bytes.byte>>)

  /** A signed Data packet: the digest is that of its wire, and the key locator is the block found in its
      signature, if any. */
  datatype Data = Data(name: Name, digest: seq<Bytes.byte>, keyLocator: Option<seq<Bytes.byte>>) {
    predicate Valid() { |digest| == SHA256_DIGEST_SIZE }

    function FullName(): (n: Name) { name + [Component(SHA256_DIGEST, digest)] }
  }

  /** `matchesName`. */
  predicate MatchesName(i: Interest, name: Name) {
    && |name| >= |i.name|
    && i.name <= name
    && (i.minSuffix >= 0 ==> |name| - |i.name| >= i.minSuffix)
    && (i.maxSuffix >= 0 ==> |name| - |i.name| <= i.maxSuffix)
    && !(i.exclude != [] && |name| > |i.name| && Excluded(i.exclude, name[|i.name|]))
  }

  /** The test on the publisher's key locator. */
  predicate MatchesKeyLocator(i: Interest, d: Data) {
    i.publisherKeyLocator.Some? ==> d.keyLocator == i.publisherKeyLocator
  }

  /** `matchesData`, without the full name where its last component does not decide: the Data matches if and only if its
      full name extends the name of the Interest, by a number of components within the bounds and first by one that is
      not excluded, and its key locator is the one asked for. */
  method MatchesData(i: Interest, d: Data) returns (b: bool)
    requires d.Valid()
    ensures b <==>
            && i.name <= d.name + [Component(1, d.digest)]
            && var n := |d.name| + 1 - |i.name|;
               && (i.minSuffix < 0 || i.minSuffix <= n) && (i.maxSuffix < 0 || n <= i.maxSuffix)
               && (n > 0 && i.exclude != [] ==>
                   !Excluded(i.exclude, if n > 1 then d.name[|i.name|] else Component(1, d.digest)))
               && (i.publisherKeyLocator == None || d.keyLocator == i.publisherKeyLocator)
    ensures b <==> MatchesName(i, d.FullName()) && MatchesKeyLocator(i, d)
  {
    var interestNameLength, fullNameLength := |i.name|, |d.name| + 1;
    PrefixOfFullName(i.name, d);
    var minSuffixComponents := if i.minSuffix >= 0 then i.minSuffix else 0;
    if !(interestNameLength + minSuffixComponents <= fullNameLength) { return false; }
    if i.maxSuffix >= 0 && !(interestNameLength + i.maxSuffix >= fullNameLength) { return false; }
    if interestNameLength == fullNameLength {
      if !i.name[|i.name| - 1].IsImplicitSha256Digest() { return false; }
      if i.name != d.FullName() { return false; }
    } else {
      if !(i.name <= d.name) { return false; }
    }
    if i.exclude != [] && fullNameLength > interestNameLength {
      if interestNameLength == fullNameLength - 1 {
        if Excluded(i.exclude, d.FullName()[interestNameLength]) { return false; }
      } else {
        if Excluded(i.exclude, d.name[interestNameLength]) { return false; }
      }
    }
    if i.publisherKeyLocator.Some? {
      if d.keyLocator.None? { return false; }
      if i.publisherKeyLocator.value != d.keyLocator.value { return false; }
    }
    return true;
  }

  /** A name is a prefix of the full name if it is one of the name, or the full name itself. */
  lemma PrefixOfFullName(n: Name, d: Data)
    ensures n <= d.FullName() <==> n <= d.name || n == d.FullName()
    ensures |n| == |d.name| + 1 ==> (n <= d.FullName() <==> n == d.FullName())
    ensures n == d.FullName() ==> n[|n| - 1] == Component(SHA256_DIGEST, d.digest)
    ensures |n| <= |d.name| && n <= d.FullName() ==> n <= d.name
  {
    var full := d.FullName();
    assert full[..|d.name|] == d.name && full[..|full|] == full;
    if n <= full && |n| <= |d.name| { assert full[..|n|] == d.name[..|n|]; }
    if n <= d.name { assert full[..|n|] == d.name[..|n|]; }
    if n <= full && |n| == |full| { assert n == full[..|n|]; }
  }

  // ----- what an Interest matches -----

  /** Every Interest matches exactly the extensions of its name by a number of components within its bounds, the first of
      them not excluded. */
  lemma MatchesExactly(i: Interest, name: Name)
    ensures MatchesName(i, name) <==>
            exists more: Name :: name == i.name + more && WithinBounds(i, |more|) && !GoesOnExcluded(i.exclude, more)
  {
    if i.name <= name {
      var more := name[|i.name|..];
      assert name == i.name + more;
      if more != [] { assert more[0] == name[|i.name|]; }
    }
    if more: Name :| name == i.name + more && WithinBounds(i, |more|) && !GoesOnExcluded(i.exclude, more) {
      if more != [] { assert more[0] == name[|i.name|]; }
    }
  }

  predicate WithinBounds(i: Interest, n: nat) {
    (i.minSuffix < 0 || i.minSuffix <= n) && (i.maxSuffix < 0 || n <= i.maxSuffix)
  }

  predicate GoesOnExcluded(es: Entries, more: Name) { es != [] && more != [] && Excluded(es, more[0]) }

  /** Without selectors: exactly the extensions of its name. */
  lemma WithoutSelectors(i: Interest, name: Name)
    requires i.minSuffix < 0 && i.maxSuffix < 0 && i.exclude == []
    ensures MatchesName(i, name) <==> exists more: Name :: name == i.name + more
  {
    if i.name <= name { assert name == i.name + name[|i.name|..]; }
  }

  /** A minimum takes out exactly the names with fewer further components. */
  lemma MinSuffixTakesOut(i: Interest, min: nat, more: Name)
    requires i.minSuffix < 0
    ensures MatchesName(i.(minSuffix := min), i.name + more) <==> MatchesName(i, i.name + more) && !(|more| < min)
  {
  }

  /** A maximum takes out exactly the names with more further components. */
  lemma MaxSuffixTakesOut(i: Interest, max: nat, more: Name)
    requires i.maxSuffix < 0
    ensures MatchesName(i.(maxSuffix := max), i.name + more) <==> MatchesName(i, i.name + more) && !(|more| > max)
  {
  }

  /** An exclude filter takes out exactly the names that go on with an excluded component. */
  lemma ExcludeTakesOut(i: Interest, es: Entries, more: Name)
    requires i.exclude == []
    ensures MatchesName(i.(exclude := es), i.name + more) <==>
            MatchesName(i, i.name + more) && !(more != [] && es != [] && Excluded(es, more[0]))
  {
    if more != [] { assert (i.name + more)[|i.name|] == more[0]; }
  }

  /** With both bounds 1, of a name and two extensions only the middle one matches; nothing else ever does. */
  lemma BoundsOnAChain(n: Name, c1: Component, c2: Component, other: Name)
    ensures var i := Interest(n, 1, 1, [], None);
      && !MatchesName(i, n) && MatchesName(i, n + [c1]) && !MatchesName(i, n + [c1, c2])
      && (MatchesName(i, other) ==> |other| == |n| + 1 && n <= other)
  {
  }

  /** What narrowing does: an Interest with stricter selectors matches fewer names. */
  lemma StricterMatchesFewer(i: Interest, q: Request, name: Name)
    requires IsFilter(i.exclude) && q.Valid() && Fits(i.exclude, q) && forall c | c in name :: c.Valid()
    ensures MatchesName(i.(exclude := Obey(i.exclude, q)), name) <==>
            MatchesName(i, name) && !(|name| > |i.name| && q.Asks(name[|i.name|]))
  {
    RequestExactIff(i.exclude, q);
    if |name| > |i.name| { assert name[|i.name|] in name; }
  }
}
