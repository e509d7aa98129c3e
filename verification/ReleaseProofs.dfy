/**
 What the release scripts promise: the least free version, the tag just before a given one, and nightly
 tags that read back as what they were built from.
 */
module ReleaseProofs {
  import opened Basics
  import opened Text
  import opened ReleaseVersions

  // ---------------------------------------------------------------- printed versions read back

  lemma ReadDigits(digits: string, rest: string)
    requires digits != "" && AllDigits(digits) && (rest == "" || !IsDigit(rest[0]))
    ensures ReadNumber(digits + rest) == Some((Number(digits), rest))
  {
    SpanAppend(digits, rest, IsDigit);
    assert (digits + rest)[..|digits|] == digits;
    assert (digits + rest)[|digits|..] == rest;
  }

  lemma ReadPrinted(n: nat, rest: string)
    requires rest == "" || !IsDigit(rest[0])
    ensures ReadNumber(Print(n) + rest) == Some((n, rest))
  {
    NumberPrint(n);
    ReadDigits(Print(n), rest);
  }

  lemma AfterDot(s: string)
    ensures StartsWith("." + s, ".") && ("." + s)[1..] == s && !IsDigit(("." + s)[0])
  {
  }

  lemma ReadDotted(a: nat, b: nat, c: nat, rest: string)
    requires rest == "" || !IsDigit(rest[0])
    ensures ReadTriple(Print(a) + ("." + (Print(b) + ("." + (Print(c) + rest))))) == Some((Core(a, b, c), rest))
  {
    var tail := Print(c) + rest;
    var mid := Print(b) + ("." + tail);
    AfterDot(tail);
    AfterDot(mid);
    ReadPrinted(a, "." + mid);
    ReadPrinted(b, "." + tail);
    ReadPrinted(c, rest);
  }

  lemma Regroup(a: string, b: string, c: string, rest: string)
    ensures a + "." + b + "." + c + rest == a + ("." + (b + ("." + (c + rest))))
  {
  }

  lemma ReadFormatted(core: Core, rest: string)
    requires rest == "" || !IsDigit(rest[0])
    ensures ReadTriple(FormatCore(core) + rest) == Some((core, rest))
  {
    Regroup(Print(core.major), Print(core.minor), Print(core.patch), rest);
    ReadDotted(core.major, core.minor, core.patch, rest);
  }

  lemma FormattedChars(core: Core)
    ensures var s := FormatCore(core);
            s != "" && IsDigit(s[0]) && IsDigit(s[|s| - 1]) && forall c | c in s :: IsDigit(c) || c == '.'
  {
    NumberPrint(core.major);
    NumberPrint(core.minor);
    NumberPrint(core.patch);
  }

  lemma {:induction false} BeforeNoSuffix(s: string)
    requires forall k | 0 <= k < |s| :: s[k] != '-' && s[k] != '+'
    ensures BeforeSuffix(s) == s
    decreases |s|
  {
    if s != "" {
      BeforeNoSuffix(s[1..]);
      assert [s[0]] + s[1..] == s;
    }
  }

  lemma FormattedHasNoSuffix(core: Core)
    ensures BeforeSuffix(FormatCore(core)) == FormatCore(core) && !IsPrerelease(FormatCore(core))
    ensures StripVersionPrefix(FormatCore(core)) == FormatCore(core)
  {
    var s := FormatCore(core);
    FormattedChars(core);
    forall k | 0 <= k < |s| ensures s[k] != '-' && s[k] != '+' {
      assert s[k] in s;
    }
    BeforeNoSuffix(s);
    TrimOfTrimmed(s, IsScriptSpace);
  }

  lemma ParseFormatted(core: Core)
    ensures ParseCore(FormatCore(core)) == Ok(core)
  {
    FormattedHasNoSuffix(core);
    ReadFormatted(core, "");
    assert FormatCore(core) + "" == FormatCore(core);
  }

  function Plus(core: Core, k: nat): Core { core.(patch := core.patch + k) }

  /** x.y.z, x.y.(z+1), x.y.(z+2), ... */
  function Bumped(core: Core): nat -> string { (k: nat) => FormatCore(Plus(core, k)) }

  lemma BumpFormatted(core: Core)
    ensures BumpPatch(FormatCore(core)) == Ok(FormatCore(Plus(core, 1)))
  {
    ParseFormatted(core);
  }

  // ---------------------------------------------------------------- the next free version

  /** The tags of the first `n` versions are all in use. */
  ghost predicate Taken(versions: nat -> string, tags: set<string>, prefix: string, n: nat) {
    forall k: nat | k < n :: prefix + versions(k) in tags
  }

  /** Among `left` candidates the first free one is returned; there is an error exactly when none is free. */
  lemma {:induction false} SearchFindsFirst(bump: string -> Result<string, Error>, versions: nat -> string, at: nat,
                                            tags: set<string>, prefix: string, left: nat) returns (k: nat)
    requires forall n: nat :: bump(versions(n)) == Ok(versions(n + 1))
    requires Taken(versions, tags, prefix, at)
    ensures at <= k <= at + left && Taken(versions, tags, prefix, k)
    ensures k < at + left ==> prefix + versions(k) !in tags
    ensures Search(bump, versions(at), tags, prefix, left)
            == if k < at + left then Ok(versions(k)) else Err(NoFreeVersion)
    decreases left
  {
    k := at;
    if left > 0 && prefix + versions(at) in tags {
      k := SearchFindsFirst(bump, versions, at + 1, tags, prefix, left - 1);
    }
  }

  lemma SearchFromCore(core: Core, tags: seq<string>, prefix: string, maxBumps: nat) returns (n: nat)
    ensures var tagSet := set t | t in tags;
            && n <= maxBumps + 1 && Taken(Bumped(core), tagSet, prefix, n)
            && (n <= maxBumps ==> prefix + Bumped(core)(n) !in tagSet)
            && NextAvailable(FormatCore(core), tags, prefix, maxBumps)
               == if n <= maxBumps then Ok(Bumped(core)(n)) else Err(NoFreeVersion)
  {
    FormattedHasNoSuffix(core);
    forall k: nat ensures BumpPatch(Bumped(core)(k)) == Ok(Bumped(core)(k + 1)) {
      BumpFormatted(Plus(core, k));
      assert Plus(Plus(core, k), 1) == Plus(core, k + 1);
    }
    assert Bumped(core)(0) == FormatCore(core) by {
      assert Plus(core, 0) == core;
    }
    n := SearchFindsFirst(BumpPatch, Bumped(core), 0, (set t | t in tags), prefix, maxBumps + 1);
  }

  /**
   From x.y.z the result is x.y.(z+k) for the least k whose tag is free, and the search throws exactly when
   all `maxBumps + 1` tags it tries are taken.
   */
  lemma NextAvailableIsLeast(core: Core, tags: seq<string>, prefix: string, maxBumps: nat, k: nat)
    ensures var tagSet := set t | t in tags;
            var r := NextAvailable(FormatCore(core), tags, prefix, maxBumps);
            && (r == Ok(Bumped(core)(k))
                <==> k <= maxBumps && prefix + Bumped(core)(k) !in tagSet && Taken(Bumped(core), tagSet, prefix, k))
            && (r.Err? <==> Taken(Bumped(core), tagSet, prefix, maxBumps + 1))
            && (r.Err? ==> r.error == NoFreeVersion)
  {
    var n := SearchFromCore(core, tags, prefix, maxBumps);
    BumpedInjective(core, k, n);
  }

  lemma BumpedInjective(core: Core, k: nat, n: nat)
    ensures Bumped(core)(k) == Bumped(core)(n) ==> k == n
  {
    if Bumped(core)(k) == Bumped(core)(n) {
      FormatInjective(Plus(core, k), Plus(core, n));
    }
  }

  lemma FormatInjective(a: Core, b: Core)
    requires FormatCore(a) == FormatCore(b)
    ensures a == b
  {
    ParseFormatted(a);
    ParseFormatted(b);
  }

  /** Pigeonhole: `n` taken candidates need `n` different tags. */
  lemma {:induction false} TakenNeedsTags(versions: nat -> string, tags: set<string>, prefix: string, n: nat)
    requires Taken(versions, tags, prefix, n)
    requires forall i: nat, j: nat :: versions(i) == versions(j) ==> i == j
    ensures |tags| >= n
    decreases n
  {
    if n > 0 {
      var last := prefix + versions(n - 1);
      forall k: nat | k < n - 1 ensures prefix + versions(k) in tags - {last} {
        assert (prefix + versions(k))[|prefix|..] == versions(k);
        assert last[|prefix|..] == versions(n - 1);
      }
      TakenNeedsTags(versions, tags - {last}, prefix, n - 1);
    }
  }

  /** With at most `maxBumps` distinct tags the search always succeeds. */
  lemma FewTagsNeverFail(core: Core, tags: seq<string>, prefix: string, maxBumps: nat)
    requires |set t | t in tags| <= maxBumps
    ensures NextAvailable(FormatCore(core), tags, prefix, maxBumps).Ok?
  {
    var n := SearchFromCore(core, tags, prefix, maxBumps);
    forall i: nat, j: nat ensures Bumped(core)(i) == Bumped(core)(j) ==> i == j {
      BumpedInjective(core, i, j);
    }
    TakenNeedsTags(Bumped(core), (set t | t in tags), prefix, n);
  }

  // ---------------------------------------------------------------- orders

  /** `compare` has consistent signs and is transitive, so it sorts into one definite order of classes. */
  ghost predicate IsOrder<V(!new)>(compare: (V, V) -> int) {
    && (forall a, b :: compare(a, b) < 0 <==> compare(b, a) > 0)
    && (forall a, b, c :: compare(a, b) <= 0 && compare(b, c) <= 0 ==> compare(a, c) <= 0)
  }

  function IdentifierOrder(locale: (string, string) -> int): (string, string) -> int {
    (l, r) => CompareIdentifiers(locale, l, r)
  }

  lemma CompareIdentifiersIsOrder(locale: (string, string) -> int)
    requires IsOrder(locale)
    ensures IsOrder(IdentifierOrder(locale))
  {
    var order := IdentifierOrder(locale);
    forall a, b ensures order(a, b) < 0 <==> order(b, a) > 0 {
      assert locale(a, b) < 0 <==> locale(b, a) > 0;
    }
    forall a, b, c | order(a, b) <= 0 && order(b, c) <= 0 ensures order(a, c) <= 0 {
      assert locale(a, b) <= 0 && locale(b, c) <= 0 ==> locale(a, c) <= 0;
    }
  }

  lemma {:induction false} PrereleaseSigns(locale: (string, string) -> int, a: seq<string>, b: seq<string>)
    requires IsOrder(locale)
    ensures ComparePrereleases(locale, a, b) < 0 <==> ComparePrereleases(locale, b, a) > 0
    decreases |a|
  {
    if a != [] && b != [] {
      var order := IdentifierOrder(locale);
      CompareIdentifiersIsOrder(locale);
      assert order(a[0], b[0]) < 0 <==> order(b[0], a[0]) > 0;
      assert order(b[0], a[0]) < 0 <==> order(a[0], b[0]) > 0;
      PrereleaseSigns(locale, a[1..], b[1..]);
    }
  }

  lemma IdentifierChain(locale: (string, string) -> int, a: string, b: string, c: string)
    requires IsOrder(locale) && CompareIdentifiers(locale, a, b) <= 0 && CompareIdentifiers(locale, b, c) <= 0
    ensures CompareIdentifiers(locale, a, c) <= 0
    ensures CompareIdentifiers(locale, a, c) == 0 ==>
              CompareIdentifiers(locale, a, b) == 0 && CompareIdentifiers(locale, b, c) == 0
  {
    var order := IdentifierOrder(locale);
    CompareIdentifiersIsOrder(locale);
    assert order(a, b) <= 0 && order(b, c) <= 0;
    assert order(a, c) <= 0;
    if order(a, c) == 0 {
      assert order(c, a) <= 0;
      assert order(b, a) <= 0 && order(c, b) <= 0;
    }
  }

  lemma {:induction false} PrereleaseTransitive(locale: (string, string) -> int, a: seq<string>, b: seq<string>,
                                                c: seq<string>)
    requires IsOrder(locale) && ComparePrereleases(locale, a, b) <= 0 && ComparePrereleases(locale, b, c) <= 0
    ensures ComparePrereleases(locale, a, c) <= 0
    decreases |a|
  {
    if a != [] && b != [] && c != [] {
      IdentifierChain(locale, a[0], b[0], c[0]);
      if CompareIdentifiers(locale, a[0], c[0]) == 0 {
        PrereleaseTransitive(locale, a[1..], b[1..], c[1..]);
      }
    }
  }

  /** Stable versions are totally preordered, whatever order the locale gives to identifiers. */
  lemma CompareStableIsOrder(locale: (string, string) -> int)
    requires IsOrder(locale)
    ensures IsOrder(StableOrder(locale))
  {
    var compare := StableOrder(locale);
    forall a: Stable, b: Stable ensures compare(a, b) < 0 <==> compare(b, a) > 0 {
      PrereleaseSigns(locale, a.prerelease, b.prerelease);
      PrereleaseSigns(locale, b.prerelease, a.prerelease);
    }
    forall a: Stable, b: Stable, c: Stable | compare(a, b) <= 0 && compare(b, c) <= 0
      ensures compare(a, c) <= 0
    {
      StableTransitive(locale, a, b, c);
    }
  }

  lemma StableTransitive(locale: (string, string) -> int, a: Stable, b: Stable, c: Stable)
    requires IsOrder(locale) && CompareStable(locale, a, b) <= 0 && CompareStable(locale, b, c) <= 0
    ensures CompareStable(locale, a, c) <= 0
  {
    if CompareCores(a.core, b.core) == 0 && CompareCores(b.core, c.core) == 0
       && a.prerelease != [] && b.prerelease != [] && c.prerelease != [] {
      PrereleaseTransitive(locale, a.prerelease, b.prerelease, c.prerelease);
    }
  }

  lemma CompareNightlyIsOrder()
    ensures IsOrder(CompareNightly)
  {
  }

  // ---------------------------------------------------------------- precedence

  predicate IsNumeric(s: string) { s != "" && AllDigits(s) }

  /** Numeric identifiers are below the others, and compare as numbers; the others as the locale has them. */
  ghost predicate IdentifierBelow(locale: (string, string) -> int, l: string, r: string) {
    if IsNumeric(l) then !IsNumeric(r) || Number(l) < Number(r) else !IsNumeric(r) && locale(l, r) < 0
  }

  ghost predicate SameRank(locale: (string, string) -> int, l: string, r: string) {
    !IdentifierBelow(locale, l, r) && !IdentifierBelow(locale, r, l)
  }

  /** After `k` identifiers of equal rank, `l` ends first or has the lower one. */
  ghost predicate DecidedAt(locale: (string, string) -> int, l: seq<string>, r: seq<string>, k: nat) {
    && k <= |l| && k < |r|
    && (forall i | 0 <= i < k :: SameRank(locale, l[i], r[i]))
    && (k < |l| ==> IdentifierBelow(locale, l[k], r[k]))
  }

  /** Section 11 of Semantic Versioning 2.0.0, if `locale` gives the order of identifiers that are not numeric. */
  ghost predicate Precedes(locale: (string, string) -> int, a: Stable, b: Stable) {
    if a.core != b.core then
      a.core.major < b.core.major
      || (a.core.major == b.core.major && a.core.minor < b.core.minor)
      || (a.core.major == b.core.major && a.core.minor == b.core.minor && a.core.patch < b.core.patch)
    else
      a.prerelease != []
      && (b.prerelease == [] || exists k: nat :: DecidedAt(locale, a.prerelease, b.prerelease, k))
  }

  lemma IdentifierBelowIsNegative(locale: (string, string) -> int, l: string, r: string)
    requires IsOrder(locale)
    ensures IdentifierBelow(locale, l, r) <==> CompareIdentifiers(locale, l, r) < 0
    ensures SameRank(locale, l, r) <==> CompareIdentifiers(locale, l, r) == 0
  {
    assert locale(l, r) < 0 <==> locale(r, l) > 0;
    assert locale(r, l) < 0 <==> locale(l, r) > 0;
  }

  lemma DecidedLater(locale: (string, string) -> int, l: seq<string>, r: seq<string>, k: nat)
    requires l != [] && r != [] && SameRank(locale, l[0], r[0])
    ensures DecidedAt(locale, l, r, k + 1) <==> DecidedAt(locale, l[1..], r[1..], k)
  {
    if DecidedAt(locale, l[1..], r[1..], k) {
      forall i | 0 <= i < k + 1 ensures SameRank(locale, l[i], r[i]) {
        assert i > 0 ==> l[i] == l[1..][i - 1] && r[i] == r[1..][i - 1];
      }
    }
  }

  /** The first difference decides. */
  lemma {:induction false} PrereleaseDecided(locale: (string, string) -> int, l: seq<string>, r: seq<string>)
    requires IsOrder(locale)
    ensures ComparePrereleases(locale, l, r) < 0 <==> exists k: nat :: DecidedAt(locale, l, r, k)
    decreases |l|
  {
    if l == [] && r != [] {
      assert DecidedAt(locale, l, r, 0);
    } else if l != [] && r != [] {
      IdentifierBelowIsNegative(locale, l[0], r[0]);
      if SameRank(locale, l[0], r[0]) {
        PrereleaseDecided(locale, l[1..], r[1..]);
        DecisionsShift(locale, l, r);
      } else {
        DecidedAtFirst(locale, l, r);
      }
    }
  }

  lemma DecisionsShift(locale: (string, string) -> int, l: seq<string>, r: seq<string>)
    requires l != [] && r != [] && SameRank(locale, l[0], r[0])
    ensures (exists k: nat :: DecidedAt(locale, l, r, k)) <==> (exists k: nat :: DecidedAt(locale, l[1..], r[1..], k))
  {
    if k: nat :| DecidedAt(locale, l, r, k) {
      assert k > 0;
      DecidedLater(locale, l, r, k - 1);
    }
    if k: nat :| DecidedAt(locale, l[1..], r[1..], k) {
      DecidedLater(locale, l, r, k);
    }
  }

  lemma DecidedAtFirst(locale: (string, string) -> int, l: seq<string>, r: seq<string>)
    requires l != [] && r != [] && !SameRank(locale, l[0], r[0])
    ensures (exists k: nat :: DecidedAt(locale, l, r, k)) <==> IdentifierBelow(locale, l[0], r[0])
  {
    if IdentifierBelow(locale, l[0], r[0]) {
      assert DecidedAt(locale, l, r, 0);
    }
  }

  /**
   Comparing stable versions follows the precedence of section 11 of Semantic Versioning 2.0.0, but for the order
   of identifiers that are not numeric, which is the locale's.
   */
  lemma PrecedenceRules(locale: (string, string) -> int, a: Stable, b: Stable)
    requires IsOrder(locale)
    ensures CompareStable(locale, a, b) < 0 <==> Precedes(locale, a, b)
    ensures CompareStable(locale, a, b) == 0 <==> !Precedes(locale, a, b) && !Precedes(locale, b, a)
  {
    PrereleaseDecided(locale, a.prerelease, b.prerelease);
    PrereleaseDecided(locale, b.prerelease, a.prerelease);
    PrereleaseSigns(locale, a.prerelease, b.prerelease);
    PrereleaseSigns(locale, b.prerelease, a.prerelease);
  }

  /** The order section 11 asks for between identifiers that are not numeric. */
  function AsciiCompare(l: string, r: string): int
    decreases |l|
  {
    if l == "" && r == "" then 0
    else if l == "" then -1
    else if r == "" then 1
    else if l[0] != r[0] then l[0] as int - r[0] as int
    else AsciiCompare(l[1..], r[1..])
  }

  /** Sections 9 and 11: letters, digits and dashes; a number has no zero in front. */
  predicate IsIdentifier(s: string) {
    && s != "" && (forall c | c in s :: '0' <= c <= '9' || 'A' <= c <= 'Z' || 'a' <= c <= 'z' || c == '-')
    && (IsNumeric(s) && s[0] == '0' ==> s == "0")
  }

  predicate IsVersion(v: Stable) { forall s | s in v.prerelease :: IsIdentifier(s) }

  ghost predicate ComparesAsAscii(locale: (string, string) -> int) {
    forall l, r | IsIdentifier(l) && IsIdentifier(r) && !IsNumeric(l) && !IsNumeric(r) ::
      locale(l, r) < 0 <==> AsciiCompare(l, r) < 0
  }

  /**
   The comparison is the precedence of section 11 for all versions exactly when the locale has identifiers that
   are not numeric in ASCII order.
   */
  lemma PrecedenceNeedsAscii(locale: (string, string) -> int)
    requires IsOrder(locale)
    ensures (forall a, b | IsVersion(a) && IsVersion(b) ::
               CompareStable(locale, a, b) < 0 <==> Precedes(AsciiCompare, a, b))
            <==> ComparesAsAscii(locale)
  {
    if ComparesAsAscii(locale) {
      forall a, b | IsVersion(a) && IsVersion(b)
        ensures CompareStable(locale, a, b) < 0 <==> Precedes(AsciiCompare, a, b)
      {
        PrecedenceRules(locale, a, b);
        PrecedesAlike(locale, AsciiCompare, a, b);
      }
    } else {
      var l, r :| IsIdentifier(l) && IsIdentifier(r) && !IsNumeric(l) && !IsNumeric(r)
                  && (locale(l, r) < 0) != (AsciiCompare(l, r) < 0);
      var a, b := Stable(Core(0, 0, 0), [l]), Stable(Core(0, 0, 0), [r]);
      PrecedenceRules(locale, a, b);
      OneIdentifierDecides(locale, l, r);
      OneIdentifierDecides(AsciiCompare, l, r);
      assert IsVersion(a) && IsVersion(b) && (CompareStable(locale, a, b) < 0) != Precedes(AsciiCompare, a, b);
    }
  }

  lemma OneIdentifierDecides(order: (string, string) -> int, l: string, r: string)
    requires !IsNumeric(l) && !IsNumeric(r)
    ensures Precedes(order, Stable(Core(0, 0, 0), [l]), Stable(Core(0, 0, 0), [r])) <==> order(l, r) < 0
  {
    if order(l, r) < 0 {
      assert DecidedAt(order, [l], [r], 0);
    }
  }

  /** Two orders with the same signs on the identifiers give the same precedence. */
  lemma PrecedesAlike(f: (string, string) -> int, g: (string, string) -> int, a: Stable, b: Stable)
    requires IsVersion(a) && IsVersion(b)
    requires forall l, r | IsIdentifier(l) && IsIdentifier(r) && !IsNumeric(l) && !IsNumeric(r) ::
               f(l, r) < 0 <==> g(l, r) < 0
    ensures Precedes(f, a, b) <==> Precedes(g, a, b)
  {
    forall k: nat ensures DecidedAt(f, a.prerelease, b.prerelease, k) <==> DecidedAt(g, a.prerelease, b.prerelease, k) {
      DecidedAlike(f, g, a.prerelease, b.prerelease, k);
    }
  }

  lemma DecidedAlike(f: (string, string) -> int, g: (string, string) -> int, l: seq<string>, r: seq<string>, k: nat)
    requires forall s | s in l || s in r :: IsIdentifier(s)
    requires forall s, t | IsIdentifier(s) && IsIdentifier(t) && !IsNumeric(s) && !IsNumeric(t) ::
               f(s, t) < 0 <==> g(s, t) < 0
    ensures DecidedAt(f, l, r, k) <==> DecidedAt(g, l, r, k)
  {
    forall i | 0 <= i < |l| && i < |r|
      ensures IdentifierBelow(f, l[i], r[i]) <==> IdentifierBelow(g, l[i], r[i])
      ensures IdentifierBelow(f, r[i], l[i]) <==> IdentifierBelow(g, r[i], l[i])
    {
      assert IsIdentifier(l[i]) && IsIdentifier(r[i]);
    }
  }

  // ---------------------------------------------------------------- build metadata

  lemma {:induction false} SpanStops(a: string, b: string, p: char -> bool)
    requires b != "" && !p(b[0])
    ensures Span(a + b, p) == Span(a, p)
    decreases |a|
  {
    if a == "" {
      assert a + b == b;
    } else {
      assert (a + b)[1..] == a[1..] + b;
      SpanStops(a[1..], b, p);
    }
  }

  lemma ReadNumberStops(s: string, b: string)
    requires b != "" && !IsDigit(b[0])
    ensures ReadNumber(s + b) == match ReadNumber(s)
                                 case Some((n, rest)) => Some((n, rest + b))
                                 case None => None
  {
    SpanStops(s, b, IsDigit);
    var n := Span(s, IsDigit);
    assert (s + b)[..n] == s[..n] && (s + b)[n..] == s[n..] + b;
  }

  lemma DotStays(s: string, b: string)
    requires b != "" && b[0] == '+'
    ensures StartsWith(s + b, ".") == StartsWith(s, ".") && StartsWith(s + b, "-") == StartsWith(s, "-")
    ensures s != "" ==> (s + b)[1..] == s[1..] + b
  {
    if s == "" {
      assert s + b == b;
    }
  }

  lemma ReadTripleStops(s: string, b: string)
    requires b != "" && b[0] == '+'
    ensures ReadTriple(s + b) == match ReadTriple(s)
                                 case Some((core, rest)) => Some((core, rest + b))
                                 case None => None
  {
    ReadNumberStops(s, b);
    if ReadNumber(s).Some? {
      var r1 := ReadNumber(s).value.1;
      DotStays(r1, b);
      if StartsWith(r1, ".") {
        ReadNumberStops(r1[1..], b);
        if ReadNumber(r1[1..]).Some? {
          var r2 := ReadNumber(r1[1..]).value.1;
          DotStays(r2, b);
          if StartsWith(r2, ".") {
            ReadNumberStops(r2[1..], b);
          }
        }
      }
    }
  }

  lemma BuildSuffixGrows(s: string, b: string)
    requires b != "" && b[0] == '+' && IsBuildSuffix(b) && '+' !in s
    ensures IsBuildSuffix(s + b) == IsBuildSuffix(s)
  {
    if s == "" {
      assert s + b == b;
    } else {
      assert (s + b)[0] == s[0] && s[0] in s;
    }
  }

  /** Where the identifiers end does not change. */
  lemma IdentifiersStop(s: string, b: string, n: nat)
    requires s != "" && b != "" && b[0] == '+' && IsBuildSuffix(b) && '+' !in s && n == Span(s[1..], IsIdentifierChar)
    ensures Span((s + b)[1..], IsIdentifierChar) == n && (s + b)[1..1 + n] == s[1..1 + n]
    ensures IsBuildSuffix((s + b)[1 + n..]) == IsBuildSuffix(s[1 + n..])
  {
    DotStays(s, b);
    SpanStops(s[1..], b, IsIdentifierChar);
    SuffixesGrow(s, b, 1 + n);
    BuildSuffixGrows(s[1 + n..], b);
  }

  lemma SuffixesGrow(s: string, b: string, k: nat)
    requires 1 <= k <= |s|
    ensures (s + b)[k..] == s[k..] + b && (s + b)[1..k] == s[1..k]
    ensures forall c | c in s[k..] :: c in s
  {
  }

  lemma StableSuffixStops(s: string, b: string)
    requires b != "" && b[0] == '+' && IsBuildSuffix(b) && '+' !in s
    ensures ReadStableSuffix(s + b) == ReadStableSuffix(s)
  {
    DotStays(s, b);
    if StartsWith(s, "-") {
      IdentifiersStop(s, b, Span(s[1..], IsIdentifierChar));
    } else {
      BuildSuffixGrows(s, b);
    }
  }

  lemma {:induction false} TripleRestIsEnd(s: string)
    requires ReadTriple(s).Some?
    ensures forall c | c in ReadTriple(s).value.1 :: c in s
  {
    var r1 := ReadNumber(s).value.1;
    var r2 := ReadNumber(r1[1..]).value.1;
    assert forall c | c in r1 :: c in s;
    assert forall c | c in r2 :: c in r1;
  }

  /** Build metadata plays no part: added to a tag that has none, it leaves what the tag reads as. */
  lemma BuildIsIgnored(tag: string, prefix: string, build: string)
    requires StartsWith(tag, prefix) && '+' !in tag[|prefix|..]
    requires build != "" && forall c | c in build :: IsIdentifierChar(c)
    ensures ParseStableTag(tag + "+" + build, prefix) == ParseStableTag(tag, prefix)
  {
    var s, b := tag[|prefix|..], "+" + build;
    assert b[1..] == build;
    assert (tag + "+" + build)[..|prefix|] == tag[..|prefix|];
    assert (tag + "+" + build)[|prefix|..] == s + b;
    ReadTripleStops(s, b);
    if ReadTriple(s).Some? {
      TripleRestIsEnd(s);
      StableSuffixStops(ReadTriple(s).value.1, b);
    }
  }

  // ---------------------------------------------------------------- the previous tag

  lemma {:induction false} InsertElements<T>(order: (T, T) -> int, x: T, xs: seq<T>)
    ensures multiset(Insert(order, x, xs)) == multiset{x} + multiset(xs)
    decreases |xs|
  {
    if xs != [] && order(x, xs[0]) > 0 {
      InsertElements(order, x, xs[1..]);
      assert xs == [xs[0]] + xs[1..];
    }
  }

  lemma {:induction false} SortedElements<T>(order: (T, T) -> int, xs: seq<T>)
    ensures multiset(Sorted(order, xs)) == multiset(xs)
    decreases |xs|
  {
    if xs != [] {
      SortedElements(order, xs[1..]);
      InsertElements(order, xs[0], Sorted(order, xs[1..]));
      assert xs == [xs[0]] + xs[1..];
    }
  }

  /** The first of the sorted elements is one of them and comes before all of them. */
  lemma {:induction false} SortedHead<T(!new)>(order: (T, T) -> int, xs: seq<T>)
    requires IsOrder(order)
    ensures xs == [] <==> Sorted(order, xs) == []
    ensures xs != [] ==> Sorted(order, xs)[0] in xs && forall x | x in xs :: order(Sorted(order, xs)[0], x) <= 0
    decreases |xs|
  {
    if xs != [] {
      var rest := Sorted(order, xs[1..]);
      SortedHead(order, xs[1..]);
      var head := Sorted(order, xs)[0];
      forall x | x in xs ensures order(head, x) <= 0 {
        if x == xs[0] {
          assert order(x, x) < 0 <==> order(x, x) > 0;
        } else {
          assert x in xs[1..];
        }
      }
    }
  }

  lemma {:induction false} BelowElements<V>(parse: string -> Option<V>, compare: (V, V) -> int, current: V,
                                            tags: seq<string>, t: string, v: V)
    ensures (t, v) in Below(parse, compare, current, tags)
            <==> t in tags && parse(t) == Some(v) && compare(v, current) < 0
    decreases |tags|
  {
    if tags != [] {
      BelowElements(parse, compare, current, tags[1..], t, v);
      assert tags == [tags[0]] + tags[1..];
    }
  }

  /** What "the previous tag" means: strictly below, and nothing that reads as a version strictly between. */
  ghost predicate IsPrevious<V(!new)>(parse: string -> Option<V>, compare: (V, V) -> int, current: V,
                                      tags: seq<string>, r: Option<string>)
  {
    match r
    case None => forall t | t in tags && parse(t).Some? :: compare(parse(t).value, current) >= 0
    case Some(p) =>
      && p in tags && parse(p).Some? && compare(parse(p).value, current) < 0
      && forall t | t in tags && parse(t).Some? :: compare(parse(t).value, current) < 0 ==>
           compare(parse(t).value, parse(p).value) <= 0
  }

  lemma NewestIsOrder<V(!new)>(compare: (V, V) -> int)
    requires IsOrder(compare)
    ensures IsOrder(Newest(compare))
  {
    var order := Newest(compare);
    forall a, b ensures order(a, b) < 0 <==> order(b, a) > 0 {
      assert compare(b.1, a.1) < 0 <==> compare(a.1, b.1) > 0;
    }
    forall a, b, c | order(a, b) <= 0 && order(b, c) <= 0 ensures order(a, c) <= 0 {
      assert compare(b.1, a.1) <= 0 && compare(c.1, b.1) <= 0;
    }
  }

  lemma PreviousIsPrevious<V(!new)>(parse: string -> Option<V>, compare: (V, V) -> int, current: V, tags: seq<string>)
    requires IsOrder(compare)
    ensures IsPrevious(parse, compare, current, tags, Previous(parse, compare, current, tags))
  {
    var order := Newest(compare);
    var below := Below(parse, compare, current, tags);
    NewestIsOrder(compare);
    SortedHead(order, below);
    forall t | t in tags && parse(t).Some?
      ensures compare(parse(t).value, current) < 0 ==> (t, parse(t).value) in below
    {
      BelowElements(parse, compare, current, tags, t, parse(t).value);
    }
    if below != [] {
      var head := Sorted(order, below)[0];
      BelowElements(parse, compare, current, tags, head.0, head.1);
      forall t | t in tags && parse(t).Some? && compare(parse(t).value, current) < 0
        ensures compare(parse(t).value, head.1) <= 0
      {
        assert order(head, (t, parse(t).value)) <= 0;
      }
    }
  }

  /**
   On either channel: an error exactly when the current tag does not read as a version; otherwise the tag
   just below it, or nothing exactly when no tag is below.
   */
  lemma ResolvesPreviousTag(locale: (string, string) -> int, channel: Channel, currentTag: string,
                            tags: seq<string>, prefix: string)
    requires IsOrder(locale)
    ensures var r := ResolvePreviousReleaseTag(locale, channel, currentTag, tags, prefix);
            match channel
            case StableChannel =>
              (match ParseStableTag(currentTag, prefix)
               case None => r == Err(InvalidStableTag)
               case Some(v) => r.Ok? && IsPrevious(StableParser(prefix), StableOrder(locale), v, tags, r.value))
            case NightlyChannel =>
              (match ParseNightlyTag(currentTag, prefix)
               case None => r == Err(InvalidNightlyTag)
               case Some(v) => r.Ok? && IsPrevious(NightlyParser(prefix), CompareNightly, v, tags, r.value))
  {
    match channel
    case StableChannel =>
      if ParseStableTag(currentTag, prefix).Some? {
        CompareStableIsOrder(locale);
        PreviousIsPrevious(StableParser(prefix), StableOrder(locale), ParseStableTag(currentTag, prefix).value, tags);
      }
    case NightlyChannel =>
      if ParseNightlyTag(currentTag, prefix).Some? {
        CompareNightlyIsOrder();
        PreviousIsPrevious(NightlyParser(prefix), CompareNightly, ParseNightlyTag(currentTag, prefix).value, tags);
      }
  }

  // ---------------------------------------------------------------- nightly releases

  lemma DateParts(date: string, run: string)
    requires |date| == 8 && AllDigits(date)
    ensures var t := date + ("." + run);
            Span(t, IsDigit) == 8 && t[..8] == date && StartsWith(t[8..], ".") && t[9..] == run
  {
    SpanAppend(date, "." + run, IsDigit);
    assert (date + ("." + run))[8..] == "." + run;
  }

  lemma NightlySuffixReads(date: string, run: nat)
    requires |date| == 8 && AllDigits(date)
    ensures ReadNightlySuffix(NightlySuffix(date, run)) == Some((Number(date), run))
    ensures NightlySuffix(date, run)[0] == '-'
  {
    var t := date + ("." + Print(run));
    var s := NightlySuffix(date, run);
    assert s == NIGHTLY + t;
    assert StartsWith(s, NIGHTLY) && s[|NIGHTLY|..] == t;
    DateParts(date, Print(run));
    assert Print(run) + "" == Print(run);
    ReadPrinted(run, "");
  }

  lemma AfterPrefix(prefix: string, text: string)
    ensures StartsWith(prefix + text, prefix) && (prefix + text)[|prefix|..] == text
  {
  }

  lemma NightlyTextReads(core: Core, date: string, run: nat, prefix: string)
    requires |date| == 8 && AllDigits(date)
    ensures var tag := prefix + (FormatCore(core) + NightlySuffix(date, run));
            && ParseNightlyTag(tag, prefix) == Some(Nightly(core, Number(date), run))
            && ExtractStableCore(tag, prefix) == Some(FormatCore(core))
  {
    var base, suffix := FormatCore(core), NightlySuffix(date, run);
    NightlySuffixReads(date, run);
    ReadFormatted(core, suffix);
    AfterPrefix(prefix, base + suffix);
    WithoutSuffix(base, suffix);
  }

  lemma WithoutSuffix(base: string, suffix: string)
    ensures (base + suffix)[..|base + suffix| - |suffix|] == base
  {
  }

  lemma DashedIdentifiers(rest: string)
    requires rest != "" && forall c | c in rest :: IsIdentifierChar(c)
    ensures ReadStableSuffix("-" + rest)
            == if SplitOn(rest, '.')[0] == "nightly" then None else Some(SplitOn(rest, '.'))
  {
    var s := "-" + rest;
    assert s[1..] == rest && rest + "" == rest;
    SpanAppend(rest, "", IsIdentifierChar);
    assert s[1..1 + |rest|] == rest && s[1 + |rest|..] == "";
  }

  lemma FirstIdentifier(word: string, tail: string)
    requires '.' !in word
    ensures SplitOn(word + ['.'] + tail, '.')[0] == word
  {
    SplitOnConcat(word, tail, '.');
    assert SplitOn(word, '.') == [word];
  }

  lemma NightlySuffixIsNotStable(date: string, run: nat)
    requires |date| == 8 && AllDigits(date)
    ensures ReadStableSuffix(NightlySuffix(date, run)) == None
  {
    var word := "nightly";
    var tail := date + "." + Print(run);
    var rest := word + ['.'] + tail;
    assert NightlySuffix(date, run) == "-" + rest;
    NumberPrint(run);
    assert forall c | c in word :: 'a' <= c <= 'z';
    assert forall c | c in tail :: IsDigit(c) || c == '.';
    DashedIdentifiers(rest);
    FirstIdentifier(word, tail);
  }

  lemma NightlyIsNotStable(core: Core, date: string, run: nat, prefix: string)
    requires |date| == 8 && AllDigits(date)
    ensures ParseStableTag(prefix + (FormatCore(core) + NightlySuffix(date, run)), prefix) == None
  {
    var suffix := NightlySuffix(date, run);
    NightlySuffixReads(date, run);
    NightlySuffixIsNotStable(date, run);
    ReadFormatted(core, suffix);
    assert (prefix + (FormatCore(core) + suffix))[|prefix|..] == FormatCore(core) + suffix;
  }

  lemma NightlyMetadataShape(base: string, date: string, run: int, sha: string, product: Product, prefix: string)
    ensures var r := NightlyMetadata(base, date, run, sha, product, prefix);
            && (r.Ok? <==> |date| == 8 && AllDigits(date) && run >= 1
                           && 7 <= |sha| <= 40 && forall c | c in sha :: IsHex(c))
            && (r.Ok? ==> r.value.tag == prefix + (base + NightlySuffix(date, run))
                          && r.value.shortSha <= sha && |r.value.shortSha| <= 12)
  {
  }

  /**
   A nightly release is built with a tag that reads back as the same base, date and run, gives its base back
   as text, and is never taken for a stable release. It is refused exactly for a bad date, run number or sha.
   */
  lemma NightlyTagReadsBack(core: Core, date: string, run: int, sha: string, product: Product, prefix: string)
    ensures var r := NightlyMetadata(FormatCore(core), date, run, sha, product, prefix);
            && (r.Ok? <==> |date| == 8 && AllDigits(date) && run >= 1
                           && 7 <= |sha| <= 40 && forall c | c in sha :: IsHex(c))
            && (r.Ok? ==>
                  && ParseNightlyTag(r.value.tag, prefix) == Some(Nightly(core, Number(date), run))
                  && ExtractStableCore(r.value.tag, prefix) == Some(FormatCore(core))
                  && ParseStableTag(r.value.tag, prefix) == None
                  && r.value.shortSha <= sha && |r.value.shortSha| <= 12)
  {
    NightlyMetadataShape(FormatCore(core), date, run, sha, product, prefix);
    if |date| == 8 && AllDigits(date) && run >= 1 {
      NightlyTextReads(core, date, run, prefix);
      NightlyIsNotStable(core, date, run, prefix);
    }
  }

  /** Of two nightly tags with the same base, the one with the later date, or the later run of a day, is greater. */
  lemma LaterNightlyIsGreater(core: Core, prefix: string, date1: string, run1: nat, date2: string, run2: nat)
    requires |date1| == |date2| == 8 && AllDigits(date1) && AllDigits(date2)
    ensures var t1 := ParseNightlyTag(prefix + (FormatCore(core) + NightlySuffix(date1, run1)), prefix);
            var t2 := ParseNightlyTag(prefix + (FormatCore(core) + NightlySuffix(date2, run2)), prefix);
            && t1.Some? && t2.Some?
            && (CompareNightly(t1.value, t2.value) < 0 <==>
                  Number(date1) < Number(date2) || (date1 == date2 && run1 < run2))
  {
    NightlyTextReads(core, date1, run1, prefix);
    NightlyTextReads(core, date2, run2, prefix);
    NumberInjective(date1, date2);
  }

  // ---------------------------------------------------------------- sort keys

  /** `rest` is what is left of `s` after some text without a dash. */
  ghost predicate TakenOff(s: string, rest: string) {
    exists front: string :: front != "" && '-' !in front && s == front + rest
  }

  lemma ReadNumberTakes(s: string)
    requires ReadNumber(s).Some?
    ensures TakenOff(s, ReadNumber(s).value.1)
  {
    var n := Span(s, IsDigit);
    assert s == s[..n] + s[n..];
  }

  lemma TakenOffChain(s: string, r1: string, r2: string)
    requires TakenOff(s, r1) && StartsWith(r1, ".") && TakenOff(r1[1..], r2)
    ensures TakenOff(s, r2)
  {
    var f: string :| f != "" && '-' !in f && s == f + r1;
    var g: string :| g != "" && '-' !in g && r1[1..] == g + r2;
    var front := f + "." + g;
    assert r1 == "." + r1[1..];
    assert s == front + r2;
  }

  /** What reading a triple takes off a text has no dash. */
  lemma ReadTripleTakes(s: string)
    requires ReadTriple(s).Some?
    ensures TakenOff(s, ReadTriple(s).value.1)
  {
    var r1 := ReadNumber(s).value.1;
    ReadNumberTakes(s);
    ReadNumberTakes(r1[1..]);
    var r2 := ReadNumber(r1[1..]).value.1;
    ReadNumberTakes(r2[1..]);
    var r3 := ReadNumber(r2[1..]).value.1;
    TakenOffChain(s, r1, r2);
    TakenOffChain(s, r2, r3);
  }

  /** There is at most one dash. */
  ghost predicate OneDash(s: string) {
    forall i, j | 0 <= i < j < |s| :: s[i] == '-' ==> s[j] != '-'
  }

  /** The nightly suffix has its dash at the start and no other. */
  lemma SuffixDash(s: string)
    requires ReadNightlySuffix(s).Some?
    ensures forall k | 0 < k < |s| :: s[k] != '-'
  {
    var m := |NIGHTLY|;
    var t := s[m..];
    var digits := Span(t[9..], IsDigit);
    forall k | 0 < k < |s| ensures s[k] != '-' {
      if k < m {
        assert s[k] == s[..m][k] == NIGHTLY[k];
      } else if k < m + 8 {
        assert s[k] == t[k - m];
      } else if k == m + 8 {
        assert s[k] == t[8..][0];
      } else {
        assert s[k] == t[9..][k - m - 9];
      }
    }
  }

  lemma OneDashBehind(s: string, front: string, rest: string)
    requires s == front + rest && '-' !in front && forall k | 0 < k < |rest| :: rest[k] != '-'
    ensures OneDash(s)
  {
    forall i, j | 0 <= i < j < |s| && s[i] == '-' ensures s[j] != '-' {
      assert i >= |front| && s[j] == rest[j - |front|];
    }
  }

  lemma NightlyTextDash(t: string)
    requires ReadNightlyText(t).Some?
    ensures OneDash(t)
  {
    var rest := ReadTriple(t).value.1;
    ReadTripleTakes(t);
    SuffixDash(rest);
    var front: string :| front != "" && '-' !in front && t == front + rest;
    OneDashBehind(t, front, rest);
  }

  lemma OneDashAfterV(s: string)
    requires OneDash(WithoutV(s))
    ensures OneDash(s)
  {
    var t := WithoutV(s);
    if t != s {
      forall i, j | 0 <= i < j < |s| && s[i] == '-' ensures s[j] != '-' {
        assert t[i - 1] == '-' && t[j - 1] == s[j];
      }
    }
  }

  /** Text that ends in a nightly version is none itself if more, with a dash, comes before. */
  lemma NoNightlyBefore(front: string, version: string)
    requires '-' in version
    ensures ReadNightlyVersion(front + ("-" + version)) == None
  {
    var s := front + ("-" + version);
    if ReadNightlyVersion(s).Some? {
      NightlyTextDash(WithoutV(s));
      OneDashAfterV(s);
      TwoDashes(front, version);
    }
  }

  lemma TwoDashes(front: string, version: string)
    requires '-' in version
    ensures !OneDash(front + ("-" + version))
  {
    var s := front + ("-" + version);
    var k :| 0 <= k < |version| && version[k] == '-';
    assert s[|front|] == '-' && s[|front| + 1 + k] == '-';
  }

  /** A search finds what is behind the last dash that has nothing to be found before it. */
  lemma {:induction false} FoundBehind<T>(read: string -> Option<T>, word: string, version: string)
    requires read(version).Some? && forall front :: read(front + ("-" + version)) == None
    ensures FirstAfterDash(read, word + ("-" + version)) == read(version)
    decreases |word|
  {
    var tail := "-" + version;
    if word == "" {
      assert word + tail == tail && tail[1..] == version;
    } else {
      assert (word + tail)[1..] == word[1..] + tail;
      assert read(word[1..] + tail) == None;
      FoundBehind(read, word[1..], version);
    }
  }

  lemma VersionAfterV(core: Core, date: string, run: nat)
    requires |date| == 8 && AllDigits(date)
    ensures var version := "v" + (FormatCore(core) + NightlySuffix(date, run));
            ReadNightlyVersion(version) == Some(Nightly(core, Number(date), run)) && '-' in version
  {
    var text := FormatCore(core) + NightlySuffix(date, run);
    assert ("v" + text)[1..] == text;
    NightlySuffixReads(date, run);
    ReadFormatted(core, NightlySuffix(date, run));
    assert text[|FormatCore(core)|] == '-' && text[|FormatCore(core)|] in text;
  }

  /** The sort key of a built tag, whatever word comes before its version, is what parsing with its prefix gives. */
  lemma SortKeyIsParsedVersion(word: string, core: Core, date: string, run: nat)
    requires |date| == 8 && AllDigits(date)
    ensures var tag := word + "-v" + (FormatCore(core) + NightlySuffix(date, run));
            NightlySortKey(tag) == Some(Nightly(core, Number(date), run)) == ParseNightlyTag(tag, word + "-v")
  {
    NightlyTextReads(core, date, run, word + "-v");
    SortKeyOfBuilt(word, core, date, run);
  }

  lemma SortKeyOfBuilt(word: string, core: Core, date: string, run: nat)
    requires |date| == 8 && AllDigits(date)
    ensures NightlySortKey(word + "-v" + (FormatCore(core) + NightlySuffix(date, run)))
            == Some(Nightly(core, Number(date), run))
  {
    var text := FormatCore(core) + NightlySuffix(date, run);
    VersionAfterV(core, date, run);
    SearchFinds(word, "v" + text);
    MoveDash(word, text);
  }

  lemma SearchFinds(word: string, version: string)
    requires ReadNightlyVersion(version).Some? && '-' in version
    ensures NightlySortKey(word + ("-" + version)) == ReadNightlyVersion(version)
  {
    forall front ensures ReadNightlyVersion(front + ("-" + version)) == None {
      NoNightlyBefore(front, version);
    }
    FoundBehind(ReadNightlyVersion, word, version);
  }

  lemma MoveDash(word: string, text: string)
    ensures word + "-v" + text == word + ("-" + ("v" + text))
  {
  }

  lemma {:induction false} NumberInjective(a: string, b: string)
    requires |a| == |b| && AllDigits(a) && AllDigits(b)
    ensures Number(a) == Number(b) <==> a == b
    decreases |a|
  {
    if a != "" {
      var n := |a| - 1;
      NumberInjective(a[..n], b[..n]);
      assert a == a[..n] + [a[n]] && b == b[..n] + [b[n]];
      assert IsDigit(a[n]) && IsDigit(b[n]);
    }
  }

  lemma {:induction false} LineEndStays(s: string)
    requires exists c :: c in s && IsLineEnd(c)
    ensures exists c :: c in BeforeSuffix(s) && IsLineEnd(c)
    decreases |s|
  {
    var c :| c in s && IsLineEnd(c);
    if s[0] == c {
      assert c in BeforeSuffix(s);
    } else {
      assert c in s[1..];
      LineEndStays(s[1..]);
      var d :| d in BeforeSuffix(s[1..]) && IsLineEnd(d);
      assert d in BeforeSuffix(s);
    }
  }

  lemma {:induction false} BeforeSuffixTwice(s: string)
    ensures BeforeSuffix(BeforeSuffix(s)) == BeforeSuffix(s)
    decreases |s|
  {
    if s != "" && !(s[0] in "-+" && (forall c | c in s[1..] :: !IsLineEnd(c))) {
      var t := BeforeSuffix(s[1..]);
      assert BeforeSuffix(s) == [s[0]] + t && ([s[0]] + t)[1..] == t;
      BeforeSuffixTwice(s[1..]);
      if s[0] in "-+" {
        LineEndStays(s[1..]);
      }
    }
  }

  /** A suffix makes no difference to the bump. */
  lemma NightlyTargetIsBump(version: string)
    ensures NightlyTargetVersion(version) == BumpPatch(version)
  {
    BeforeSuffixTwice(version);
  }

  /** The nightly base is the package's core with the next patch number, so strictly above it. */
  lemma NightlyTargetIsNext(version: string)
    ensures NightlyTargetVersion(version).Ok? <==> ParseCore(version).Ok?
    ensures ParseCore(version).Ok? ==>
              var core := ParseCore(version).value;
              && ParseCore(NightlyTargetVersion(version).value) == Ok(Plus(core, 1))
              && CompareCores(core, Plus(core, 1)) < 0
  {
    NightlyTargetIsBump(version);
    if ParseCore(version).Ok? {
      ParseFormatted(Plus(ParseCore(version).value, 1));
    }
  }
}
