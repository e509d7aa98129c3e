/**
 Release versions: reading and printing them, ordering them, picking the tag before a given one, and
 bumping until a tag is free. Numbers are naturals, and a tag prefix is taken literally.
 */
module ReleaseVersions {
  import opened Basics
  import opened Text

  datatype Error =
    | InvalidSemverCore | NoFreeVersion
    | InvalidStableTag | InvalidNightlyTag
    | InvalidDate | InvalidRunNumber | InvalidSha

  // ---------------------------------------------------------------- cores

  datatype Core = Core(major: nat, minor: nat, patch: nat)

  /** Digits at the start of `s` and what follows them; none if there are no digits. */
  function ReadNumber(s: string): (r: Option<(nat, string)>) {
    var n := Span(s, IsDigit);
    if n == 0 then None
    else
      assert forall c | c in s[..n] :: IsDigit(c);
      Some((Number(s[..n]), s[n..]))
  }

  /** `\d+\.\d+\.\d+` at the start of `s`, and what follows it. */
  function ReadTriple(s: string): Option<(Core, string)> {
    match ReadNumber(s)
    case None => None
    case Some((major, r1)) =>
      if !StartsWith(r1, ".") then None
      else match ReadNumber(r1[1..])
        case None => None
        case Some((minor, r2)) =>
          if !StartsWith(r2, ".") then None
          else match ReadNumber(r2[1..])
            case None => None
            case Some((patch, r3)) => Some((Core(major, minor, patch), r3))
  }

  predicate IsLineEnd(c: char) { c == '\n' || c == '\r' || c == '\U{2028}' || c == '\U{2029}' }

  /** Removes the first `-` or `+` and all that follows; `.` in the pattern does not cross a line end. */
  function BeforeSuffix(version: string): string {
    if version == "" then ""
    else if version[0] in "-+" && (forall c | c in version[1..] :: !IsLineEnd(c)) then ""
    else [version[0]] + BeforeSuffix(version[1..])
  }

  function ParseCore(version: string): Result<Core, Error> {
    match ReadTriple(BeforeSuffix(version))
    case Some((core, rest)) => if rest == "" then Ok(core) else Err(InvalidSemverCore)
    case None => Err(InvalidSemverCore)
  }

  function FormatCore(core: Core): string {
    Print(core.major) + "." + Print(core.minor) + "." + Print(core.patch)
  }

  function BumpPatch(version: string): Result<string, Error> {
    match ParseCore(version)
    case Ok(core) => Ok(FormatCore(core.(patch := core.patch + 1)))
    case Err(e) => Err(e)
  }

  // ---------------------------------------------------------------- the next free version

  function StripVersionPrefix(raw: string): string {
    var t := Trim(raw, IsScriptSpace);
    if t != "" && (t[0] == 'v' || t[0] == 'V') then t[1..] else t
  }

  predicate IsPrerelease(version: string) { '-' in version || '+' in version }

  /** What the search loop returns when `left` more tags may be tried, starting with that of `version`. */
  function Search(bump: string -> Result<string, Error>, version: string, tags: set<string>, prefix: string, left: nat)
    : Result<string, Error>
    decreases left
  {
    if left == 0 then Err(NoFreeVersion)
    else if prefix + version !in tags then Ok(version)
    else match bump(version)
      case Ok(next) => Search(bump, next, tags, prefix, left - 1)
      case Err(e) => Err(e)
  }

  function Tries(maxBumps: int): nat { if maxBumps < 0 then 0 else maxBumps + 1 }

  function NextAvailable(start: string, tags: seq<string>, prefix: string, maxBumps: int): Result<string, Error> {
    var version := StripVersionPrefix(start);
    if IsPrerelease(version) then Ok(version)
    else Search(BumpPatch, version, (set t | t in tags), prefix, Tries(maxBumps))
  }

  /** The search loop: one tag is tried at a time, and the patch number bumped while it is taken. */
  method SearchLoop(bump: string -> Result<string, Error>, start: string, tags: set<string>, prefix: string,
                    maxBumps: int)
    returns (r: Result<string, Error>)
    ensures r == Search(bump, start, tags, prefix, Tries(maxBumps))
  {
    var version := start;
    var i := 0;
    while i <= maxBumps
      invariant 0 <= i <= Tries(maxBumps)
      invariant Search(bump, version, tags, prefix, Tries(maxBumps) - i)
                == Search(bump, start, tags, prefix, Tries(maxBumps))
    {
      if prefix + version !in tags {
        return Ok(version);
      }
      var next := bump(version);
      if next.Err? {
        return next;
      }
      version := next.value;
      i := i + 1;
    }
    r := Err(NoFreeVersion);
  }

  method NextAvailableExactVersion(start: string, tags: seq<string>, prefix: string, maxBumps: int)
    returns (r: Result<string, Error>)
    ensures r == NextAvailable(start, tags, prefix, maxBumps)
  {
    var version := StripVersionPrefix(start);
    if IsPrerelease(version) {
      return Ok(version);
    }
    r := SearchLoop(BumpPatch, version, (set t | t in tags), prefix, maxBumps);
  }

  // ---------------------------------------------------------------- tags

  /** `prerelease` holds the dot-separated identifiers; build metadata is not kept. */
  datatype Stable = Stable(core: Core, prerelease: seq<string>)
  datatype Nightly = Nightly(core: Core, date: nat, run: nat)

  predicate IsIdentifierChar(c: char) {
    IsDigit(c) || 'A' <= c <= 'Z' || 'a' <= c <= 'z' || c == '.' || c == '-'
  }

  /** `(?:\+[0-9A-Za-z.-]+)?$` */
  predicate IsBuildSuffix(s: string) {
    s == "" || (s[0] == '+' && |s| > 1 && forall c | c in s[1..] :: IsIdentifierChar(c))
  }

  /** What may follow the core in a stable tag: the prerelease identifiers, unless they mark a nightly. */
  function ReadStableSuffix(rest: string): Option<seq<string>> {
    if StartsWith(rest, "-") then
      var n := Span(rest[1..], IsIdentifierChar);
      if n == 0 || !IsBuildSuffix(rest[1 + n..]) then None
      else
        var identifiers := SplitOn(rest[1..1 + n], '.');
        if identifiers[0] == "nightly" then None else Some(identifiers)
    else if IsBuildSuffix(rest) then Some([])
    else None
  }

  function ParseStableTag(tag: string, prefix: string): Option<Stable> {
    if !StartsWith(tag, prefix) then None
    else match ReadTriple(tag[|prefix|..])
      case None => None
      case Some((core, rest)) =>
        match ReadStableSuffix(rest)
        case None => None
        case Some(identifiers) => Some(Stable(core, identifiers))
  }

  const NIGHTLY := "-nightly."

  /** `-nightly\.\d{8}\.\d+$` */
  function ReadNightlySuffix(s: string): Option<(nat, nat)> {
    if !StartsWith(s, NIGHTLY) then None
    else
      var t := s[|NIGHTLY|..];
      if Span(t, IsDigit) != 8 || !StartsWith(t[8..], ".") then None
      else match ReadNumber(t[9..])
        case None => None
        case Some((run, rest)) =>
          assert forall c | c in t[..8] :: IsDigit(c);
          if rest == "" then Some((Number(t[..8]), run)) else None
  }

  /** A nightly version as text, without prefix. */
  function ReadNightlyText(s: string): Option<Nightly> {
    match ReadTriple(s)
    case None => None
    case Some((core, rest)) =>
      match ReadNightlySuffix(rest)
      case None => None
      case Some((date, run)) => Some(Nightly(core, date, run))
  }

  function ParseNightlyTag(tag: string, prefix: string): Option<Nightly> {
    if StartsWith(tag, prefix) then ReadNightlyText(tag[|prefix|..]) else None
  }

  /** The text of the core in a nightly tag. */
  function ExtractStableCore(tag: string, prefix: string): Option<string> {
    if !StartsWith(tag, prefix) then None
    else
      var s := tag[|prefix|..];
      match ReadTriple(s)
      case None => None
      case Some((core, rest)) =>
        if |rest| <= |s| && ReadNightlySuffix(rest).Some? then Some(s[..|s| - |rest|]) else None
  }

  function WithoutV(s: string): string {
    if s != "" && s[0] == 'v' then s[1..] else s
  }

  /** A nightly version at the start of `s`, with or without a `v`, up to the end. */
  function ReadNightlyVersion(s: string): Option<Nightly> {
    ReadNightlyText(WithoutV(s))
  }

  /** `nightlySortKey`: the leftmost match at the start of the tag or after a dash. */
  function NightlySortKey(tag: string): Option<Nightly> {
    match ReadNightlyVersion(tag)
    case Some(n) => Some(n)
    case None => FirstAfterDash(ReadNightlyVersion, tag)
  }

  /** What `read` finds after the first dash after which it finds anything. */
  function FirstAfterDash<T>(read: string -> Option<T>, tag: string): Option<T> {
    if tag == "" then None
    else if tag[0] == '-' && read(tag[1..]).Some? then read(tag[1..])
    else FirstAfterDash(read, tag[1..])
  }

  // ---------------------------------------------------------------- order

  function CompareCores(a: Core, b: Core): int {
    if a.major != b.major then a.major - b.major
    else if a.minor != b.minor then a.minor - b.minor
    else a.patch - b.patch
  }

  /** `locale` stands for `localeCompare`. */
  function CompareIdentifiers(locale: (string, string) -> int, l: string, r: string): int {
    var ln, rn := l != "" && AllDigits(l), r != "" && AllDigits(r);
    if ln && rn then Number(l) - Number(r)
    else if ln then -1
    else if rn then 1
    else locale(l, r)
  }

  /** Identifier by identifier; when one list ends first it is the smaller. */
  function ComparePrereleases(locale: (string, string) -> int, l: seq<string>, r: seq<string>): int
    decreases |l|
  {
    if l == [] && r == [] then 0
    else if l == [] then -1
    else if r == [] then 1
    else
      var c := CompareIdentifiers(locale, l[0], r[0]);
      if c != 0 then c else ComparePrereleases(locale, l[1..], r[1..])
  }

  /** The indexed loop over prerelease identifiers. */
  method ComparePrereleaseLoop(locale: (string, string) -> int, l: seq<string>, r: seq<string>) returns (c: int)
    ensures c == ComparePrereleases(locale, l, r)
  {
    var max := if |l| >= |r| then |l| else |r|;
    for i := 0 to max
      invariant i <= |l| && i <= |r|
      invariant ComparePrereleases(locale, l[i..], r[i..]) == ComparePrereleases(locale, l, r)
    {
      if i >= |l| {
        return -1;
      }
      if i >= |r| {
        return 1;
      }
      assert l[i..][1..] == l[i + 1..] && r[i..][1..] == r[i + 1..];
      c := CompareIdentifiers(locale, l[i], r[i]);
      if c != 0 {
        return c;
      }
    }
    c := 0;
  }

  function CompareStable(locale: (string, string) -> int, a: Stable, b: Stable): int {
    var c := CompareCores(a.core, b.core);
    if c != 0 then c
    else if a.prerelease == [] && b.prerelease == [] then 0
    else if a.prerelease == [] then 1
    else if b.prerelease == [] then -1
    else ComparePrereleases(locale, a.prerelease, b.prerelease)
  }

  function CompareNightly(a: Nightly, b: Nightly): int {
    var c := CompareCores(a.core, b.core);
    if c != 0 then c
    else if a.date != b.date then a.date - b.date
    else a.run - b.run
  }

  function NightlyKey(n: Nightly): seq<int> {
    [n.core.major, n.core.minor, n.core.patch, n.date, n.run]
  }

  /** The loop that orders sort keys agrees with the comparison of versions. */
  method CompareNightlyKeys(a: Nightly, b: Nightly) returns (c: int)
    ensures c == CompareNightly(a, b)
  {
    var left, right := NightlyKey(a), NightlyKey(b);
    for i := 0 to 5
      invariant forall k | 0 <= k < i :: left[k] == right[k]
    {
      if left[i] != right[i] {
        assert i == 0 || i == 1 || i == 2 || i == 3 || i == 4;
        assert i > 0 ==> left[0] == right[0];
        assert i > 1 ==> left[1] == right[1];
        assert i > 2 ==> left[2] == right[2];
        assert i > 3 ==> left[3] == right[3];
        return left[i] - right[i];
      }
    }
    assert left[0] == right[0] && left[1] == right[1] && left[2] == right[2] && left[3] == right[3]
           && left[4] == right[4];
    c := 0;
  }

  // ---------------------------------------------------------------- the previous tag

  /** Stable sorting: `x` goes before the first element that does not come strictly before it. */
  function Insert<T>(order: (T, T) -> int, x: T, sorted: seq<T>): seq<T> {
    if sorted == [] || order(x, sorted[0]) <= 0 then [x] + sorted
    else [sorted[0]] + Insert(order, x, sorted[1..])
  }

  function Sorted<T>(order: (T, T) -> int, xs: seq<T>): seq<T> {
    if xs == [] then [] else Insert(order, xs[0], Sorted(order, xs[1..]))
  }

  /** The tags that read as versions strictly below `current`, with what they read as. */
  function Below<V>(parse: string -> Option<V>, compare: (V, V) -> int, current: V, tags: seq<string>)
    : seq<(string, V)>
  {
    if tags == [] then []
    else
      (match parse(tags[0])
       case Some(v) => if compare(v, current) < 0 then [(tags[0], v)] else []
       case None => [])
      + Below(parse, compare, current, tags[1..])
  }

  /** Filter, sort the newest first, take the first. */
  function Previous<V>(parse: string -> Option<V>, compare: (V, V) -> int, current: V, tags: seq<string>)
    : Option<string>
  {
    var candidates := Sorted(Newest(compare), Below(parse, compare, current, tags));
    if candidates == [] then None else Some(candidates[0].0)
  }

  function StableParser(prefix: string): string -> Option<Stable> { tag => ParseStableTag(tag, prefix) }
  function NightlyParser(prefix: string): string -> Option<Nightly> { tag => ParseNightlyTag(tag, prefix) }
  function StableOrder(locale: (string, string) -> int): (Stable, Stable) -> int {
    (a, b) => CompareStable(locale, a, b)
  }

  /** Newest first. */
  function Newest<V>(compare: (V, V) -> int): ((string, V), (string, V)) -> int {
    (a: (string, V), b: (string, V)) => compare(b.1, a.1)
  }

  datatype Channel = StableChannel | NightlyChannel

  function ResolvePreviousReleaseTag(locale: (string, string) -> int, channel: Channel, currentTag: string,
                                     tags: seq<string>, prefix: string): Result<Option<string>, Error> {
    match channel
    case StableChannel =>
      (match ParseStableTag(currentTag, prefix)
       case None => Err(InvalidStableTag)
       case Some(current) =>
         Ok(Previous(StableParser(prefix), StableOrder(locale), current, tags)))
    case NightlyChannel =>
      (match ParseNightlyTag(currentTag, prefix)
       case None => Err(InvalidNightlyTag)
       case Some(current) => Ok(Previous(NightlyParser(prefix), CompareNightly, current, tags)))
  }

  // ---------------------------------------------------------------- nightly releases

  function NightlyTargetVersion(version: string): Result<string, Error> {
    BumpPatch(BeforeSuffix(version))
  }

  predicate IsHex(c: char) { IsDigit(c) || 'a' <= c <= 'f' || 'A' <= c <= 'F' }

  datatype Product = SymphonyProduct | CliProduct

  datatype Metadata = Metadata(baseVersion: string, version: string, tag: string, name: string, shortSha: string)

  function NightlySuffix(date: string, run: nat): string {
    NIGHTLY + date + "." + Print(run)
  }

  function NightlyMetadata(base: string, date: string, run: int, sha: string, product: Product, tagPrefix: string)
    : Result<Metadata, Error>
  {
    if !(|date| == 8 && AllDigits(date)) then Err(InvalidDate)
    else if run < 1 then Err(InvalidRunNumber)
    else if !(7 <= |sha| <= 40 && forall c | c in sha :: IsHex(c)) then Err(InvalidSha)
    else
      var shortSha := if |sha| <= 12 then sha else sha[..12];
      var version := base + NightlySuffix(date, run);
      var productLabel := if product.CliProduct? then "Kata CLI" else "Symphony";
      Ok(Metadata(base, version, tagPrefix + version, productLabel + " Nightly " + version + " (" + shortSha + ")",
                  shortSha))
  }
}
