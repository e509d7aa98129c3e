/**
 Which texts are release tags, what they read as, and the tag before a given one, in terms of the texts.
 */
module ReleaseTags {
  import opened Basics
  import opened Text
  import opened TextLaws
  import opened ReleaseVersions
  import opened ReleaseProofs

  // ---------------------------------------------------------------- numbers and cores as text

  predicate IsNumberText(d: string) { d != "" && AllDigits(d) }

  predicate NoDigitAhead(rest: string) { rest == "" || !IsDigit(rest[0]) }

  /** The digits `ReadNumber` takes. */
  lemma NumberTaken(s: string) returns (d: string)
    requires ReadNumber(s).Some?
    ensures IsNumberText(d) && NoDigitAhead(ReadNumber(s).value.1)
    ensures s == d + ReadNumber(s).value.1 && Number(d) == ReadNumber(s).value.0
  {
    var n := Span(s, IsDigit);
    d := s[..n];
    assert forall c | c in d :: IsDigit(c);
  }

  function Dotted(a: string, b: string, c: string): string { a + "." + b + "." + c }

  predicate AreCore(a: string, b: string, c: string, core: Core) {
    && IsNumberText(a) && IsNumberText(b) && IsNumberText(c)
    && Number(a) == core.major && Number(b) == core.minor && Number(c) == core.patch
  }

  lemma TripleReads(a: string, b: string, c: string, core: Core, rest: string)
    requires AreCore(a, b, c, core) && NoDigitAhead(rest)
    ensures ReadTriple(Dotted(a, b, c) + rest) == Some((core, rest))
  {
    Regroup(a, b, c, rest);
    AfterDot(c + rest);
    AfterDot(b + ("." + (c + rest)));
    ReadDigits(a, "." + (b + ("." + (c + rest))));
    ReadDigits(b, "." + (c + rest));
    ReadDigits(c, rest);
  }

  lemma DotTaken(s: string)
    requires StartsWith(s, ".")
    ensures s == "." + s[1..]
  {
  }

  lemma TripleTaken(s: string) returns (a: string, b: string, c: string)
    requires ReadTriple(s).Some?
    ensures AreCore(a, b, c, ReadTriple(s).value.0) && NoDigitAhead(ReadTriple(s).value.1)
    ensures s == Dotted(a, b, c) + ReadTriple(s).value.1
  {
    a := NumberTaken(s);
    var r1 := ReadNumber(s).value.1;
    DotTaken(r1);
    b := NumberTaken(r1[1..]);
    var r2 := ReadNumber(r1[1..]).value.1;
    DotTaken(r2);
    c := NumberTaken(r2[1..]);
    Regroup(a, b, c, ReadTriple(s).value.1);
  }

  // ---------------------------------------------------------------- dot-separated identifiers as text

  function JoinDots(ids: seq<string>): string
    requires ids != []
  {
    Glued(ids, '.')
  }

  /** Digits, letters and dashes. */
  predicate IsWord(s: string) {
    forall c | c in s :: '0' <= c <= '9' || 'A' <= c <= 'Z' || 'a' <= c <= 'z' || c == '-'
  }

  predicate AreWords(ids: seq<string>) { forall s | s in ids :: IsWord(s) }

  lemma SplitJoined(ids: seq<string>)
    requires ids != [] && AreWords(ids)
    ensures SplitOn(JoinDots(ids), '.') == ids
    ensures forall c | c in JoinDots(ids) :: IsIdentifierChar(c)
  {
    SplitMeans(JoinDots(ids), '.', ids);
    GluedChars(ids, '.');
  }

  lemma JoinSplit(s: string)
    requires forall c | c in s :: IsIdentifierChar(c)
    ensures JoinDots(SplitOn(s, '.')) == s && AreWords(SplitOn(s, '.'))
  {
    var ids := SplitOn(s, '.');
    SplitMeans(s, '.', ids);
    GluedChars(ids, '.');
    forall w | w in ids ensures IsWord(w) {
      assert '.' !in w;
    }
  }

  // ---------------------------------------------------------------- stable tags

  /** Build metadata, if any. */
  ghost predicate IsBuild(build: string) {
    build == "" || exists ids :: ids != [] && AreWords(ids) && JoinDots(ids) != "" && build == "+" + JoinDots(ids)
  }

  lemma BuildMeans(build: string)
    ensures IsBuild(build) <==> IsBuildSuffix(build)
    ensures IsBuild(build) && build != "" ==>
              !IsIdentifierChar(build[0]) && !StartsWith(build, "-") && !IsDigit(build[0])
  {
    if IsBuildSuffix(build) && build != "" {
      JoinSplit(build[1..]);
      assert build == "+" + build[1..];
    }
    if IsBuild(build) && build != "" {
      var ids :| ids != [] && AreWords(ids) && JoinDots(ids) != "" && build == "+" + JoinDots(ids);
      SplitJoined(ids);
      assert build[1..] == JoinDots(ids);
    }
  }

  /** The identifiers a tag can carry behind its dash. */
  predicate AreIdentifiers(ids: seq<string>) {
    ids != [] && AreWords(ids) && JoinDots(ids) != "" && ids[0] != "nightly"
  }

  /** What comes after the core: the joined identifiers behind a dash, and build metadata. */
  ghost predicate IsStableTail(tail: string, ids: seq<string>) {
    if ids == [] then IsBuild(tail)
    else AreIdentifiers(ids) && exists build :: IsBuild(build) && tail == "-" + (JoinDots(ids) + build)
  }

  lemma DashedReads(text: string, build: string, ids: seq<string>)
    requires text != "" && (forall c | c in text :: IsIdentifierChar(c)) && SplitOn(text, '.') == ids
    requires IsBuildSuffix(build) && (build == "" || !IsIdentifierChar(build[0]))
    ensures ReadStableSuffix("-" + (text + build)) == if ids[0] == "nightly" then None else Some(ids)
  {
    var tail := "-" + (text + build);
    assert tail[1..] == text + build;
    SpanAppend(text, build, IsIdentifierChar);
    assert tail[1..1 + |text|] == text && tail[1 + |text|..] == build;
  }

  lemma DashedTaken(tail: string) returns (text: string, build: string)
    requires ReadStableSuffix(tail).Some? && StartsWith(tail, "-")
    ensures text != "" && (forall c | c in text :: IsIdentifierChar(c)) && IsBuildSuffix(build)
    ensures tail == "-" + (text + build)
    ensures ReadStableSuffix(tail) == Some(SplitOn(text, '.')) && SplitOn(text, '.')[0] != "nightly"
  {
    var n := Span(tail[1..], IsIdentifierChar);
    text, build := tail[1..1 + n], tail[1 + n..];
    assert tail[1..] == text + build;
  }

  lemma StableTailReads(tail: string, ids: seq<string>)
    requires IsStableTail(tail, ids)
    ensures ReadStableSuffix(tail) == Some(ids) && NoDigitAhead(tail)
  {
    if ids == [] {
      BuildMeans(tail);
    } else {
      var build :| IsBuild(build) && tail == "-" + (JoinDots(ids) + build);
      BuildMeans(build);
      SplitJoined(ids);
      DashedReads(JoinDots(ids), build, ids);
    }
  }

  lemma StableTailTaken(tail: string)
    requires ReadStableSuffix(tail).Some?
    ensures IsStableTail(tail, ReadStableSuffix(tail).value)
  {
    if StartsWith(tail, "-") {
      var text, build := DashedTaken(tail);
      JoinSplit(text);
      BuildMeans(build);
    } else {
      BuildMeans(tail);
    }
  }

  /** The text of a stable tag and what it stands for. */
  ghost predicate IsStableTag(tag: string, prefix: string, v: Stable) {
    exists a, b, c, tail :: AreCore(a, b, c, v.core) && IsStableTail(tail, v.prerelease)
                            && tag == prefix + (Dotted(a, b, c) + tail)
  }

  lemma StableTextReads(a: string, b: string, c: string, tail: string, prefix: string, v: Stable)
    requires AreCore(a, b, c, v.core) && ReadStableSuffix(tail) == Some(v.prerelease) && NoDigitAhead(tail)
    ensures ParseStableTag(prefix + (Dotted(a, b, c) + tail), prefix) == Some(v)
  {
    TripleReads(a, b, c, v.core, tail);
    AfterPrefix(prefix, Dotted(a, b, c) + tail);
  }

  lemma StableTextTaken(tag: string, prefix: string) returns (a: string, b: string, c: string, tail: string)
    requires ParseStableTag(tag, prefix).Some?
    ensures var v := ParseStableTag(tag, prefix).value;
            AreCore(a, b, c, v.core) && ReadStableSuffix(tail) == Some(v.prerelease)
    ensures tag == prefix + (Dotted(a, b, c) + tail)
  {
    var s := tag[|prefix|..];
    assert tag == prefix + s;
    a, b, c := TripleTaken(s);
    tail := ReadTriple(s).value.1;
  }

  /** A tag reads as a version exactly when it is the prefix, three numbers with dots, and such a tail. */
  lemma StableTagMeans(tag: string, prefix: string, v: Stable)
    ensures ParseStableTag(tag, prefix) == Some(v) <==> IsStableTag(tag, prefix, v)
  {
    if IsStableTag(tag, prefix, v) {
      var a, b, c, tail :| AreCore(a, b, c, v.core) && IsStableTail(tail, v.prerelease)
                           && tag == prefix + (Dotted(a, b, c) + tail);
      StableTailReads(tail, v.prerelease);
      StableTextReads(a, b, c, tail, prefix, v);
    }
    if ParseStableTag(tag, prefix) == Some(v) {
      var a, b, c, tail := StableTextTaken(tag, prefix);
      StableTailTaken(tail);
    }
  }

  /** A version as a tag says it. */
  function PrintStable(v: Stable): string {
    FormatCore(v.core) + if v.prerelease == [] then "" else "-" + JoinDots(v.prerelease)
  }

  lemma PrintedCore(core: Core)
    ensures AreCore(Print(core.major), Print(core.minor), Print(core.patch), core)
    ensures FormatCore(core) == Dotted(Print(core.major), Print(core.minor), Print(core.patch))
  {
    NumberPrint(core.major);
    NumberPrint(core.minor);
    NumberPrint(core.patch);
  }

  lemma PrintedTail(ids: seq<string>, core: string, build: string) returns (tail: string)
    requires (ids == [] || AreIdentifiers(ids)) && IsBuild(build)
    ensures core + (if ids == [] then "" else "-" + JoinDots(ids)) + build == core + tail
    ensures IsStableTail(tail, ids)
  {
    if ids == [] {
      tail := build;
    } else {
      tail := "-" + (JoinDots(ids) + build);
    }
  }

  /** A printed version reads back as it was, build metadata or not; without the prefix nothing reads. */
  lemma PrintedTagReads(v: Stable, prefix: string, build: string)
    requires (v.prerelease == [] || AreIdentifiers(v.prerelease)) && IsBuild(build)
    ensures ParseStableTag(prefix + (PrintStable(v) + build), prefix) == Some(v)
    ensures forall tag | ParseStableTag(tag, prefix).Some? :: prefix <= tag
  {
    PrintedCore(v.core);
    var tail := PrintedTail(v.prerelease, FormatCore(v.core), build);
    StableTailReads(tail, v.prerelease);
    StableTextReads(Print(v.core.major), Print(v.core.minor), Print(v.core.patch), tail, prefix, v);
  }

  predicate Printable(v: Stable) { v.prerelease == [] || AreIdentifiers(v.prerelease) }

  ghost predicate IsPreviousOf(locale: (string, string) -> int, current: Stable, versions: seq<Stable>, v: Stable) {
    && v in versions && Precedes(locale, v, current)
    && forall w | w in versions && Precedes(locale, w, current) :: !Precedes(locale, v, w)
  }

  /** Among printed tags, the previous one is that of a version just below, if any is below. */
  lemma PreviousOfPrinted(locale: (string, string) -> int, current: Stable, versions: seq<Stable>, tags: seq<string>,
                          prefix: string)
    requires IsOrder(locale) && Printable(current) && forall v | v in versions :: Printable(v)
    requires |tags| == |versions| && forall i | 0 <= i < |tags| :: tags[i] == prefix + PrintStable(versions[i])
    ensures var r := ResolvePreviousReleaseTag(locale, StableChannel, prefix + PrintStable(current), tags, prefix);
            && r.Ok?
            && (r.value.None? <==> forall v | v in versions :: !Precedes(locale, v, current))
            && (r.value.Some? ==>
                  exists v :: IsPreviousOf(locale, current, versions, v) && r.value.value == prefix + PrintStable(v))
  {
    var tag := prefix + PrintStable(current);
    PrintedReads(current, prefix);
    ResolvesPreviousTag(locale, StableChannel, tag, tags, prefix);
    forall i | 0 <= i < |tags| ensures StableParser(prefix)(tags[i]) == Some(versions[i]) {
      PrintedReads(versions[i], prefix);
    }
    CompareStableIsOrder(locale);
    PreviousAmong(locale, current, versions, tags, StableParser(prefix),
                  ResolvePreviousReleaseTag(locale, StableChannel, tag, tags, prefix).value);
  }

  lemma PrintedReads(v: Stable, prefix: string)
    requires Printable(v)
    ensures ParseStableTag(prefix + PrintStable(v), prefix) == Some(v)
  {
    PrintedTagReads(v, prefix, "");
    assert PrintStable(v) + "" == PrintStable(v);
  }

  lemma PreviousAmong(locale: (string, string) -> int, current: Stable, versions: seq<Stable>, tags: seq<string>,
                      parse: string -> Option<Stable>, r: Option<string>)
    requires IsOrder(locale) && |tags| == |versions|
    requires forall i | 0 <= i < |tags| :: parse(tags[i]) == Some(versions[i])
    requires IsPrevious(parse, StableOrder(locale), current, tags, r)
    ensures r.None? <==> forall v | v in versions :: !Precedes(locale, v, current)
    ensures r.Some? ==> r.value in tags && parse(r.value).Some?
                        && IsPreviousOf(locale, current, versions, parse(r.value).value)
    ensures forall i | 0 <= i < |tags| && r == Some(tags[i]) :: parse(r.value) == Some(versions[i])
  {
    forall v | v in versions ensures exists t :: t in tags && parse(t) == Some(v) {
      var i :| 0 <= i < |versions| && versions[i] == v;
      assert tags[i] in tags;
    }
    forall v ensures CompareStable(locale, v, current) < 0 <==> Precedes(locale, v, current) {
      PrecedenceRules(locale, v, current);
    }
    if r.Some? {
      var v := parse(r.value).value;
      forall w | w in versions && Precedes(locale, w, current) ensures !Precedes(locale, v, w) {
        var t :| t in tags && parse(t) == Some(w);
        assert StableOrder(locale)(w, v) <= 0;
        NotBelow(locale, v, w);
      }
    }
  }

  lemma NotBelow(locale: (string, string) -> int, v: Stable, w: Stable)
    requires IsOrder(locale) && CompareStable(locale, w, v) <= 0
    ensures !Precedes(locale, v, w)
  {
    PrecedenceRules(locale, v, w);
    CompareStableIsOrder(locale);
    assert StableOrder(locale)(v, w) < 0 <==> StableOrder(locale)(w, v) > 0;
  }

  // ---------------------------------------------------------------- nightly tags

  ghost predicate IsNightlyTail(tail: string, date: nat, run: nat) {
    exists d, r :: |d| == 8 && AllDigits(d) && Number(d) == date && IsNumberText(r) && Number(r) == run
                   && tail == "-nightly." + (d + ("." + r))
  }

  ghost predicate IsNightlyTag(tag: string, prefix: string, v: Nightly) {
    exists a, b, c, tail :: AreCore(a, b, c, v.core) && IsNightlyTail(tail, v.date, v.run)
                            && tag == prefix + (Dotted(a, b, c) + tail)
  }

  lemma NightlyTailReads(date: string, run: string)
    requires |date| == 8 && AllDigits(date) && IsNumberText(run)
    ensures ReadNightlySuffix("-nightly." + (date + ("." + run))) == Some((Number(date), Number(run)))
    ensures NoDigitAhead("-nightly." + (date + ("." + run)))
  {
    var t := date + ("." + run);
    var s := "-nightly." + t;
    assert StartsWith(s, NIGHTLY) && s[|NIGHTLY|..] == t;
    DateParts(date, run);
    assert run + "" == run;
    ReadDigits(run, "");
  }

  lemma NightlyTailTaken(s: string)
    requires ReadNightlySuffix(s).Some?
    ensures IsNightlyTail(s, ReadNightlySuffix(s).value.0, ReadNightlySuffix(s).value.1)
  {
    var t := s[|NIGHTLY|..];
    var date := t[..8];
    assert forall c | c in date :: IsDigit(c);
    var run := NumberTaken(t[9..]);
    assert run + "" == run;
    assert s == NIGHTLY + t && t == date + t[8..] && t[8..] == "." + t[9..];
  }

  lemma NightlyTextIsRead(a: string, b: string, c: string, tail: string, prefix: string, v: Nightly)
    requires AreCore(a, b, c, v.core) && ReadNightlySuffix(tail) == Some((v.date, v.run)) && NoDigitAhead(tail)
    ensures ParseNightlyTag(prefix + (Dotted(a, b, c) + tail), prefix) == Some(v)
  {
    TripleReads(a, b, c, v.core, tail);
    AfterPrefix(prefix, Dotted(a, b, c) + tail);
  }

  lemma NightlyTextTaken(tag: string, prefix: string) returns (a: string, b: string, c: string, tail: string)
    requires ParseNightlyTag(tag, prefix).Some?
    ensures var v := ParseNightlyTag(tag, prefix).value;
            AreCore(a, b, c, v.core) && ReadNightlySuffix(tail) == Some((v.date, v.run))
    ensures tag == prefix + (Dotted(a, b, c) + tail)
  {
    var s := tag[|prefix|..];
    assert tag == prefix + s;
    a, b, c := TripleTaken(s);
    tail := ReadTriple(s).value.1;
  }

  /** Nightly tags likewise. */
  lemma NightlyTagMeans(tag: string, prefix: string, v: Nightly)
    ensures ParseNightlyTag(tag, prefix) == Some(v) <==> IsNightlyTag(tag, prefix, v)
  {
    if IsNightlyTag(tag, prefix, v) {
      var a, b, c, tail :| AreCore(a, b, c, v.core) && IsNightlyTail(tail, v.date, v.run)
                           && tag == prefix + (Dotted(a, b, c) + tail);
      var d, r :| |d| == 8 && AllDigits(d) && Number(d) == v.date && IsNumberText(r) && Number(r) == v.run
                  && tail == "-nightly." + (d + ("." + r));
      NightlyTailReads(d, r);
      NightlyTextIsRead(a, b, c, tail, prefix, v);
    }
    if ParseNightlyTag(tag, prefix) == Some(v) {
      var a, b, c, tail := NightlyTextTaken(tag, prefix);
      NightlyTailTaken(tail);
    }
  }

  /** Cores decide, then dates, then runs. */
  predicate CoreBelow(a: Core, b: Core) {
    a.major < b.major || (a.major == b.major && (a.minor < b.minor || (a.minor == b.minor && a.patch < b.patch)))
  }

  predicate NightlyBelow(a: Nightly, b: Nightly) {
    CoreBelow(a.core, b.core) || (a.core == b.core && (a.date < b.date || (a.date == b.date && a.run < b.run)))
  }

  lemma NightlyOrder(a: Nightly, b: Nightly)
    ensures CompareNightly(a, b) < 0 <==> NightlyBelow(a, b)
  {
  }

  // ---------------------------------------------------------------- the previous tag, in terms of texts

  /** `p` is among the tags, stands for a version below `current`, and no tag stands for one between. */
  ghost predicate IsJustBelow<V(!new)>(says: (string, V) -> bool, below: (V, V) -> bool, current: V,
                                       tags: seq<string>, p: string)
  {
    exists v :: p in tags && says(p, v) && below(v, current)
                && forall t, w | t in tags && says(t, w) && below(w, current) :: !below(v, w)
  }

  ghost function StableTexts(prefix: string): (string, Stable) -> bool {
    (tag, v) => IsStableTag(tag, prefix, v)
  }

  ghost function NightlyTexts(prefix: string): (string, Nightly) -> bool {
    (tag, v) => IsNightlyTag(tag, prefix, v)
  }

  ghost function PrecedesIn(locale: (string, string) -> int): (Stable, Stable) -> bool {
    (a, b) => Precedes(locale, a, b)
  }

  ghost function NightlyPrecedes(): (Nightly, Nightly) -> bool { (a, b) => NightlyBelow(a, b) }

  lemma JustBelow<V(!new)>(parse: string -> Option<V>, compare: (V, V) -> int, says: (string, V) -> bool,
                           below: (V, V) -> bool, current: V, tags: seq<string>, r: Option<string>)
    requires forall t, v :: parse(t) == Some(v) <==> says(t, v)
    requires forall a, b :: compare(a, b) < 0 <==> below(a, b)
    requires IsOrder(compare) && IsPrevious(parse, compare, current, tags, r)
    ensures r.Some? ==> IsJustBelow(says, below, current, tags, r.value)
    ensures r.None? <==> !exists t, v :: t in tags && says(t, v) && below(v, current)
  {
    if r.Some? {
      var v := parse(r.value).value;
      forall t, w | t in tags && says(t, w) && below(w, current) ensures !below(v, w) {
        assert parse(t) == Some(w);
        assert compare(w, v) <= 0;
        assert compare(v, w) < 0 <==> compare(w, v) > 0;
      }
      assert says(r.value, v) && below(v, current);
    } else {
      forall t, v | t in tags && says(t, v) ensures !below(v, current) {
        assert parse(t) == Some(v);
      }
    }
  }

  /**
   The stable channel: an error exactly when the current tag is no stable tag; else a tag that stands for a
   version just below, or nothing exactly when no tag stands for one below.
   */
  lemma PreviousStable(locale: (string, string) -> int, currentTag: string, tags: seq<string>, prefix: string,
                       current: Stable)
    requires IsOrder(locale)
    ensures var r := ResolvePreviousReleaseTag(locale, StableChannel, currentTag, tags, prefix);
            && (r.Err? <==> !exists v :: IsStableTag(currentTag, prefix, v))
            && (IsStableTag(currentTag, prefix, current) ==>
                  && r.Ok?
                  && (r.value.Some? ==>
                        IsJustBelow(StableTexts(prefix), PrecedesIn(locale), current, tags, r.value.value))
                  && (r.value.None? <==>
                        !exists t, v :: t in tags && IsStableTag(t, prefix, v) && Precedes(locale, v, current)))
  {
    ResolvesPreviousTag(locale, StableChannel, currentTag, tags, prefix);
    forall v ensures ParseStableTag(currentTag, prefix) == Some(v) <==> IsStableTag(currentTag, prefix, v) {
      StableTagMeans(currentTag, prefix, v);
    }
    if IsStableTag(currentTag, prefix, current) {
      var r := ResolvePreviousReleaseTag(locale, StableChannel, currentTag, tags, prefix).value;
      StableJustBelow(locale, current, tags, prefix, r);
    }
  }

  lemma StableJustBelow(locale: (string, string) -> int, current: Stable, tags: seq<string>, prefix: string,
                        r: Option<string>)
    requires IsOrder(locale) && IsPrevious(StableParser(prefix), StableOrder(locale), current, tags, r)
    ensures r.Some? ==> IsJustBelow(StableTexts(prefix), PrecedesIn(locale), current, tags, r.value)
    ensures r.None? <==> !exists t, v :: t in tags && IsStableTag(t, prefix, v) && Precedes(locale, v, current)
  {
    var parse, compare := StableParser(prefix), StableOrder(locale);
    var says, below := StableTexts(prefix), PrecedesIn(locale);
    forall t, v ensures parse(t) == Some(v) <==> says(t, v) {
      StableTagMeans(t, prefix, v);
    }
    forall a, b ensures compare(a, b) < 0 <==> below(a, b) {
      PrecedenceRules(locale, a, b);
    }
    CompareStableIsOrder(locale);
    JustBelow(parse, compare, says, below, current, tags, r);
    assert forall t, v :: says(t, v) <==> IsStableTag(t, prefix, v);
    assert forall v :: below(v, current) <==> Precedes(locale, v, current);
  }

  lemma NightlyReads(tag: string, prefix: string)
    ensures forall v :: ParseNightlyTag(tag, prefix) == Some(v) <==> IsNightlyTag(tag, prefix, v)
  {
    forall v ensures ParseNightlyTag(tag, prefix) == Some(v) <==> IsNightlyTag(tag, prefix, v) {
      NightlyTagMeans(tag, prefix, v);
    }
  }

  /** The nightly channel likewise. */
  lemma PreviousNightly(locale: (string, string) -> int, currentTag: string, tags: seq<string>, prefix: string,
                        current: Nightly)
    ensures var r := ResolvePreviousReleaseTag(locale, NightlyChannel, currentTag, tags, prefix);
            && (r.Err? <==> !exists v :: IsNightlyTag(currentTag, prefix, v))
            && (IsNightlyTag(currentTag, prefix, current) ==>
                  && r.Ok?
                  && (r.value.Some? ==>
                        IsJustBelow(NightlyTexts(prefix), NightlyPrecedes(), current, tags, r.value.value))
                  && (r.value.None? <==>
                        !exists t, v :: t in tags && IsNightlyTag(t, prefix, v) && NightlyBelow(v, current)))
  {
    NightlyReads(currentTag, prefix);
    var r := ResolvePreviousReleaseTag(locale, NightlyChannel, currentTag, tags, prefix);
    if IsNightlyTag(currentTag, prefix, current) {
      CompareNightlyIsOrder();
      PreviousIsPrevious(NightlyParser(prefix), CompareNightly, current, tags);
      assert r == Ok(Previous(NightlyParser(prefix), CompareNightly, current, tags));
      NightlyJustBelow(current, tags, prefix, r.value);
    }
  }

  lemma NightlyJustBelow(current: Nightly, tags: seq<string>, prefix: string, r: Option<string>)
    requires IsPrevious(NightlyParser(prefix), CompareNightly, current, tags, r)
    ensures r.Some? ==> IsJustBelow(NightlyTexts(prefix), NightlyPrecedes(), current, tags, r.value)
    ensures r.None? <==> !exists t, v :: t in tags && IsNightlyTag(t, prefix, v) && NightlyBelow(v, current)
  {
    var parse, says, below := NightlyParser(prefix), NightlyTexts(prefix), NightlyPrecedes();
    forall t, v ensures parse(t) == Some(v) <==> says(t, v) {
      NightlyTagMeans(t, prefix, v);
    }
    forall a, b ensures CompareNightly(a, b) < 0 <==> below(a, b) {
      NightlyOrder(a, b);
    }
    CompareNightlyIsOrder();
    JustBelow(parse, CompareNightly, says, below, current, tags, r);
    assert forall t, v :: says(t, v) <==> IsNightlyTag(t, prefix, v);
    assert forall v :: below(v, current) <==> NightlyBelow(v, current);
  }
}
