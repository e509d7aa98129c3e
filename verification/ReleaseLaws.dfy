/**
 The next free version for any start, the fields of a nightly release, and sort keys, in terms of the texts.
 */
module ReleaseLaws {
  import opened Basics
  import opened Text
  import opened TextLaws
  import opened ReleaseVersions
  import opened ReleaseProofs
  import opened ReleaseTags

  // ---------------------------------------------------------------- cores

  predicate OnOneLine(s: string) {
    forall c | c in s :: var n := c as int; n != 0x0A && n != 0x0D && n != 0x2028 && n != 0x2029
  }

  /** Behind a core there may be a dash or a plus sign and anything on that line. */
  predicate IsSuffixText(s: string) { s == "" || ((s[0] == '-' || s[0] == '+') && OnOneLine(s[1..])) }

  /** The text of a core, whatever prerelease or build it has behind it. */
  ghost predicate SaysCore(version: string, core: Core) {
    exists a, b, c, suffix :: AreCore(a, b, c, core) && IsSuffixText(suffix) && version == Dotted(a, b, c) + suffix
  }

  lemma {:induction false} BeforeSuffixOf(front: string, suffix: string)
    requires (forall c | c in front :: IsDigit(c) || c == '.') && IsSuffixText(suffix)
    ensures BeforeSuffix(front + suffix) == front
    decreases |front|
  {
    if front == "" {
      assert front + suffix == suffix;
      assert suffix != "" ==> forall c | c in suffix[1..] :: !IsLineEnd(c);
    } else {
      assert front[0] in front && (front + suffix)[1..] == front[1..] + suffix && (front + suffix)[0] == front[0];
      BeforeSuffixOf(front[1..], suffix);
      assert [front[0]] + front[1..] == front;
    }
  }

  lemma {:induction false} SuffixTaken(version: string) returns (suffix: string)
    ensures version == BeforeSuffix(version) + suffix && IsSuffixText(suffix)
    decreases |version|
  {
    if version == "" {
      suffix := "";
    } else if version[0] in "-+" && forall c | c in version[1..] :: !IsLineEnd(c) {
      suffix := version;
      assert version[0] == '-' || version[0] == '+';
    } else {
      suffix := SuffixTaken(version[1..]);
      assert version == [version[0]] + version[1..] == [version[0]] + (BeforeSuffix(version[1..]) + suffix);
    }
  }

  lemma CoreChars(a: string, b: string, c: string, core: Core)
    requires AreCore(a, b, c, core)
    ensures forall x | x in Dotted(a, b, c) :: IsDigit(x) || x == '.'
  {
  }

  lemma CoreReads(a: string, b: string, c: string, core: Core, suffix: string)
    requires AreCore(a, b, c, core) && IsSuffixText(suffix)
    ensures ParseCore(Dotted(a, b, c) + suffix) == Ok(core)
  {
    CoreChars(a, b, c, core);
    BeforeSuffixOf(Dotted(a, b, c), suffix);
    TripleReads(a, b, c, core, "");
    assert Dotted(a, b, c) + "" == Dotted(a, b, c);
  }

  lemma CoreTaken(version: string)
    requires ParseCore(version).Ok?
    ensures SaysCore(version, ParseCore(version).value)
  {
    var suffix := SuffixTaken(version);
    var text := BeforeSuffix(version);
    var a, b, c := TripleTaken(text);
    assert Dotted(a, b, c) + "" == Dotted(a, b, c);
  }

  /** A version reads as a core exactly when it is the text of one. */
  lemma CoreMeans(version: string, core: Core)
    ensures ParseCore(version) == Ok(core) <==> SaysCore(version, core)
  {
    if SaysCore(version, core) {
      var a, b, c, suffix :| AreCore(a, b, c, core) && IsSuffixText(suffix) && version == Dotted(a, b, c) + suffix;
      CoreReads(a, b, c, core, suffix);
    }
    if ParseCore(version) == Ok(core) {
      CoreTaken(version);
    }
  }

  // ---------------------------------------------------------------- the next free version

  /** A start without white space around it and without a `v` or `V` in front. */
  ghost predicate IsStart(start: string, version: string) {
    exists w :: IsBare(start, IsScriptSpace, w)
      && (w == "v" + version || w == "V" + version
          || (w == version && (w == "" || (w[0] != 'v' && w[0] != 'V'))))
  }

  lemma StartMeans(start: string, version: string)
    ensures StripVersionPrefix(start) == version <==> IsStart(start, version)
  {
    var w := Trim(start, IsScriptSpace);
    TrimMeans(start, IsScriptSpace, w);
    if IsStart(start, version) {
      var x :| IsBare(start, IsScriptSpace, x)
        && (x == "v" + version || x == "V" + version || (x == version && (x == "" || (x[0] != 'v' && x[0] != 'V'))));
      BareIsUnique(start, IsScriptSpace, w, x);
      assert ("v" + version)[1..] == version && ("V" + version)[1..] == version;
    }
    if StripVersionPrefix(start) == version {
      assert w != "" ==> w == [w[0]] + w[1..];
    }
  }

  /**
   From any start: a version with a dash or a plus sign is taken as it is; else it is taken if its tag is free, and
   if not, the search goes on from its core with the next patch number, and fails if it has no core.
   */
  lemma NextMeans(start: string, version: string, tags: seq<string>, prefix: string, maxBumps: nat)
    requires IsStart(start, version)
    ensures var r := NextAvailable(start, tags, prefix, maxBumps);
            && ('-' in version || '+' in version || prefix + version !in tags ==> r == Ok(version))
            && ('-' !in version && '+' !in version && prefix + version in tags ==>
                  (if ParseCore(version).Err? then r == Err(InvalidSemverCore)
                   else if maxBumps == 0 then r == Err(NoFreeVersion)
                   else r == NextAvailable(FormatCore(Plus(ParseCore(version).value, 1)), tags, prefix, maxBumps - 1)))
  {
    StartMeans(start, version);
    if !IsPrerelease(version) {
      FirstTry(version, tags, prefix, maxBumps);
      if ParseCore(version).Ok? {
        FormattedHasNoSuffix(Plus(ParseCore(version).value, 1));
      }
    }
  }

  lemma FirstTry(version: string, tags: seq<string>, prefix: string, maxBumps: nat)
    ensures var all := set t | t in tags;
            Search(BumpPatch, version, all, prefix, maxBumps + 1)
            == if prefix + version !in tags then Ok(version)
               else if ParseCore(version).Err? then Err(ParseCore(version).error)
               else Search(BumpPatch, FormatCore(Plus(ParseCore(version).value, 1)), all, prefix, maxBumps)
  {
  }

  // ---------------------------------------------------------------- nightly releases

  /** Each field of a built nightly release. */
  lemma MetadataMeans(base: string, date: string, run: int, sha: string, product: Product, prefix: string)
    ensures match NightlyMetadata(base, date, run, sha, product, prefix)
            case Ok(m) =>
              && |date| == 8 && AllDigits(date) && run >= 1 && 7 <= |sha| <= 40
              && (forall c | c in sha :: '0' <= c <= '9' || 'a' <= c <= 'f' || 'A' <= c <= 'F')
              && m.baseVersion == base
              && m.version == base + "-nightly." + date + "." + Print(run)
              && m.tag == prefix + m.version
              && m.shortSha <= sha && |m.shortSha| == (if |sha| < 12 then |sha| else 12)
              && m.name == (if product.SymphonyProduct? then "Symphony" else "Kata CLI")
                           + " Nightly " + m.version + " (" + m.shortSha + ")"
            case Err(InvalidDate) => |date| != 8 || exists c :: c in date && !('0' <= c <= '9')
            case Err(InvalidRunNumber) => |date| == 8 && AllDigits(date) && run < 1
            case Err(InvalidSha) =>
              |date| == 8 && AllDigits(date) && run >= 1
              && (|sha| < 7 || |sha| > 40
                  || exists c :: c in sha && !('0' <= c <= '9' || 'a' <= c <= 'f' || 'A' <= c <= 'F'))
            case Err(_) => false
  {
    if |date| == 8 && AllDigits(date) && run >= 1 {
      assert base + ("-nightly." + date + "." + Print(run)) == base + "-nightly." + date + "." + Print(run);
    }
  }

  // ---------------------------------------------------------------- sort keys

  /** The text of a nightly version, with or without a `v`. */
  ghost predicate SaysNightly(text: string, v: Nightly) { IsNightlyTag(text, "", v) || IsNightlyTag(text, "v", v) }

  lemma NoV(text: string, v: Nightly)
    requires IsNightlyTag(text, "", v)
    ensures text != "" && IsDigit(text[0])
  {
    var a, b, c, tail :| AreCore(a, b, c, v.core) && IsNightlyTail(tail, v.date, v.run)
                         && text == "" + (Dotted(a, b, c) + tail);
    assert text[0] == a[0] && a[0] in a;
  }

  lemma NightlyVersionMeans(text: string, v: Nightly)
    ensures ReadNightlyVersion(text) == Some(v) <==> SaysNightly(text, v)
  {
    NightlyTagMeans(text, "", v);
    NightlyTagMeans(text, "v", v);
    PrefixChoices(text);
    if IsNightlyTag(text, "", v) {
      NoV(text, v);
    }
  }

  lemma PrefixChoices(text: string)
    ensures ParseNightlyTag(text, "") == ReadNightlyText(text)
    ensures ParseNightlyTag(text, "v") == if text != "" && text[0] == 'v' then ReadNightlyText(text[1..]) else None
  {
    assert text[|""|..] == text;
    if text != "" {
      assert text[..1] == [text[0]];
    }
  }

  /** A place in a tag where a version may begin: the start, or behind a dash. */
  predicate MayBegin(tag: string, k: int) { k == 0 || (0 < k <= |tag| && tag[k - 1] == '-') }

  /** The version that begins at the first place from which the rest of the tag is one. */
  ghost predicate IsSortKey(tag: string, v: Nightly) {
    exists k :: 0 <= k <= |tag| && MayBegin(tag, k) && SaysNightly(tag[k..], v)
                && forall j, w | 0 <= j < k && MayBegin(tag, j) :: !SaysNightly(tag[j..], w)
  }

  /** From behind the first dash on. */
  lemma {:induction false} AfterDashMeans<T>(read: string -> Option<T>, tag: string, from: nat)
    returns (k: nat)
    requires from <= |tag|
    ensures var r := FirstAfterDash(read, tag[from..]);
            && (r.Some? ==> from < k <= |tag| && tag[k - 1] == '-' && read(tag[k..]) == r)
            && (r.None? ==> k == |tag| + 1)
            && forall j | from < j < k && tag[j - 1] == '-' :: read(tag[j..]).None?
    decreases |tag| - from
  {
    var s := tag[from..];
    if s == "" {
      k := |tag| + 1;
    } else {
      assert s[1..] == tag[from + 1..] && s[0] == tag[from];
      if s[0] == '-' && read(s[1..]).Some? {
        k := from + 1;
      } else {
        k := AfterDashMeans(read, tag, from + 1);
      }
    }
  }

  lemma SortKeyMeans(tag: string, v: Nightly)
    ensures NightlySortKey(tag) == Some(v) <==> IsSortKey(tag, v)
  {
    forall text, w ensures ReadNightlyVersion(text) == Some(w) <==> SaysNightly(text, w) {
      NightlyVersionMeans(text, w);
    }
    assert tag[0..] == tag;
    var k := AfterDashMeans(ReadNightlyVersion, tag, 0);
    if ReadNightlyVersion(tag).Some? {
      KeyAtStart(tag, v);
    } else {
      KeyBehindDash(ReadNightlyVersion, tag, v, k, FirstAfterDash(ReadNightlyVersion, tag));
    }
  }

  lemma KeyAtStart(tag: string, v: Nightly)
    requires forall text, w :: ReadNightlyVersion(text) == Some(w) <==> SaysNightly(text, w)
    requires ReadNightlyVersion(tag).Some?
    ensures ReadNightlyVersion(tag) == Some(v) <==> IsSortKey(tag, v)
  {
    assert tag[0..] == tag;
    var w := ReadNightlyVersion(tag).value;
    assert MayBegin(tag, 0) && SaysNightly(tag[0..], w);
  }

  lemma KeyBehindDash(read: string -> Option<Nightly>, tag: string, v: Nightly, k: nat, r: Option<Nightly>)
    requires forall text, w :: read(text) == Some(w) <==> SaysNightly(text, w)
    requires read(tag).None?
    requires r.Some? ==> 0 < k <= |tag| && tag[k - 1] == '-' && read(tag[k..]) == r
    requires r.None? ==> k == |tag| + 1
    requires forall j | 0 < j < k && tag[j - 1] == '-' :: read(tag[j..]).None?
    ensures r == Some(v) <==> IsSortKey(tag, v)
  {
    assert tag[0..] == tag;
    forall j, w | 0 <= j < k && j <= |tag| && MayBegin(tag, j) ensures !SaysNightly(tag[j..], w) {
      assert read(tag[j..]).None?;
    }
    if k <= |tag| {
      assert MayBegin(tag, k) && SaysNightly(tag[k..], r.value);
    }
  }
}
