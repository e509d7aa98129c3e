/**
 The tracker adapter is rebuilt only when a key printed from the configuration changes.
 */
module AdapterCache {
  import opened Basics
  import opened Text
  import opened TextLaws

  datatype OwnerType = UserOwner | OrgOwner

  /** The tracker configuration fields the GitHub adapter is made from. */
  datatype Tracker = Tracker(
    endpoint: string, repoOwner: Option<string>, repoName: Option<string>, ownerType: Option<OwnerType>,
    projectNumber: Option<nat>, labelPrefix: Option<string>, assignee: Option<string>,
    activeStates: seq<string>, terminalStates: seq<string>, excludeLabels: seq<string>)

  datatype Inputs = Inputs(token: string, repoOwner: string, repoName: string, labelPrefix: string, endpoint: string)

  datatype Error = MissingToken | MissingRepoOwner | MissingRepoName

  /** A set and not blank text, trimmed. */
  function Present(s: Option<string>): Option<string> {
    if s.Some? && Trim(s.value, IsRustSpace) != "" then Some(Trim(s.value, IsRustSpace)) else None
  }

  function OrElse(s: Option<string>, default: string): string {
    if s.Some? then s.value else default
  }

  /** `github_adapter_inputs`; `token` is what token lookup gave. */
  function AdapterInputs(t: Tracker, token: Option<string>): Result<Inputs, Error> {
    if token.None? then Err(MissingToken)
    else if Present(t.repoOwner).None? then Err(MissingRepoOwner)
    else if Present(t.repoName).None? then Err(MissingRepoName)
    else Ok(Inputs(token.value, Present(t.repoOwner).value, Present(t.repoName).value,
                   OrElse(Present(t.labelPrefix), "symphony"),
                   OrElse(Present(Some(t.endpoint)), "https://api.github.com")))
  }

  const RECORD: char := '\U{1e}'
  const UNIT: char := '\U{1f}'

  function Join(parts: seq<string>, separator: char): string {
    if parts == [] then ""
    else if |parts| == 1 then parts[0]
    else parts[0] + [separator] + Join(parts[1..], separator)
  }

  /** The ten fields of the key. */
  function Fields(t: Tracker, i: Inputs): seq<string> {
    [i.token, i.repoOwner, i.repoName, i.labelPrefix, i.endpoint,
     match t.projectNumber case Some(n) => Print(n) case None => "",
     OrElse(t.assignee, ""),
     Join(t.activeStates, UNIT), Join(t.terminalStates, UNIT), Join(t.excludeLabels, UNIT)]
  }

  /** `build_adapter_cache_key` */
  function CacheKey(t: Tracker, i: Inputs): string {
    Join(Fields(t, i), RECORD)
  }

  /** An adapter remembers the client inputs and the tracker configuration it was built with. */
  datatype Adapter = Adapter(inputs: Inputs, tracker: Tracker)

  datatype Cache = Cache(adapter: Option<Adapter>, key: Option<string>)

  /** One call: what the cache holds afterwards. */
  function Refreshed(c: Cache, t: Tracker, token: Option<string>): Cache {
    match AdapterInputs(t, token)
    case Err(_) => c
    case Ok(i) =>
      if c.key == Some(CacheKey(t, i)) then c else Cache(Some(Adapter(i, t)), Some(CacheKey(t, i)))
  }

  class GithubPort {
    var cached: Option<Adapter>
    var key: Option<string>

    ghost function View(): Cache
      reads this
    {
      Cache(cached, key)
    }

    ghost predicate Valid()
      reads this
    {
      Coherent(View())
    }

    constructor ()
      ensures Valid() && View() == Cache(None, None)
    {
      cached, key := None, None;
    }

    /** `tracker_adapter`; the last error of the original cannot happen. */
    method TrackerAdapter(t: Tracker, token: Option<string>) returns (r: Result<Adapter, Error>)
      requires Valid()
      modifies this
      ensures Valid() && View() == Refreshed(old(View()), t, token)
      ensures match AdapterInputs(t, token)
              case Err(e) => r == Err(e)
              case Ok(i) =>
                r.Ok? && cached == Some(r.value)
                && CacheKey(r.value.tracker, r.value.inputs) == CacheKey(t, i)
    {
      var inputs := AdapterInputs(t, token);
      if inputs.Err? {
        return Err(inputs.error);
      }
      var cacheKey := CacheKey(t, inputs.value);
      if key != Some(cacheKey) {
        cached := Some(Adapter(inputs.value, t));
        key := Some(cacheKey);
      }
      r := Ok(cached.value);
    }
  }

  /** The key is that of the cached adapter. */
  ghost predicate Coherent(c: Cache) {
    match c.key
    case None => c.adapter == None
    case Some(k) => c.adapter.Some? && k == CacheKey(c.adapter.value.tracker, c.adapter.value.inputs)
  }

  // ---------------------------------------------------------------- what the adapter is made from

  ghost predicate Blank(field: Option<string>) { field.None? || Bare(field.value) == "" }

  lemma PresentMeans(field: Option<string>)
    ensures Present(field) == if Blank(field) then None else Some(Bare(field.value))
  {
    if field.Some? {
      TrimMeans(field.value, IsRustSpace, Bare(field.value));
    }
  }

  /**
   A token, an owner and a name are needed, missed in this order; texts count without white space around them;
   label prefix and endpoint have a default.
   */
  lemma InputsMean(t: Tracker, token: Option<string>)
    ensures match AdapterInputs(t, token)
            case Err(MissingToken) => token == None
            case Err(MissingRepoOwner) => token.Some? && Blank(t.repoOwner)
            case Err(MissingRepoName) => token.Some? && !Blank(t.repoOwner) && Blank(t.repoName)
            case Ok(i) =>
              && token == Some(i.token)
              && !Blank(t.repoOwner) && i.repoOwner == Bare(t.repoOwner.value)
              && !Blank(t.repoName) && i.repoName == Bare(t.repoName.value)
              && i.labelPrefix == (if Blank(t.labelPrefix) then "symphony" else Bare(t.labelPrefix.value))
              && i.endpoint == if Bare(t.endpoint) == "" then "https://api.github.com" else Bare(t.endpoint)
  {
    PresentMeans(t.repoOwner);
    PresentMeans(t.repoName);
    PresentMeans(t.labelPrefix);
    PresentMeans(Some(t.endpoint));
  }

  // ---------------------------------------------------------------- what a key determines

  predicate NoSeparators(s: string) { RECORD !in s && UNIT !in s }

  predicate AllClear(parts: seq<string>) { forall p | p in parts :: NoSeparators(p) }

  predicate ClearFields(t: Tracker, i: Inputs) {
    AllClear([i.token, i.repoOwner, i.repoName, i.labelPrefix, i.endpoint, OrElse(t.assignee, "")])
    && AllClear(t.activeStates) && AllClear(t.terminalStates) && AllClear(t.excludeLabels)
  }

  /** An empty list prints like a list of one empty text. */
  function Listed(parts: seq<string>): seq<string> { if parts == [] then [""] else parts }

  /** Everything a key can show: no assignee prints like an empty one, and the owner type is not printed. */
  function Shown(t: Tracker, i: Inputs): (Inputs, Option<nat>, string, seq<string>, seq<string>, seq<string>) {
    (i, t.projectNumber, OrElse(t.assignee, ""), Listed(t.activeStates),
     Listed(t.terminalStates), Listed(t.excludeLabels))
  }

  lemma {:induction false} JoinIsGlued(parts: seq<string>, separator: char)
    ensures Join(parts, separator) == Glued(Listed(parts), separator)
    decreases |parts|
  {
    if |parts| > 1 {
      JoinIsGlued(parts[1..], separator);
    }
  }

  lemma SplitJoin(parts: seq<string>, separator: char)
    requires forall p | p in parts :: separator !in p
    ensures SplitOn(Join(parts, separator), separator) == Listed(parts)
  {
    JoinIsGlued(parts, separator);
    SplitMeans(Join(parts, separator), separator, Listed(parts));
  }

  lemma {:induction false} JoinHasNo(parts: seq<string>, separator: char, c: char)
    requires c != separator && forall p | p in parts :: c !in p
    ensures c !in Join(parts, separator)
    decreases |parts|
  {
    if |parts| > 1 {
      JoinHasNo(parts[1..], separator, c);
      assert parts[0] in parts;
    } else if |parts| == 1 {
      assert parts[0] in parts;
    }
  }

  lemma ListsDetermined(a: seq<string>, b: seq<string>)
    requires AllClear(a) && AllClear(b)
    ensures Join(a, UNIT) == Join(b, UNIT) <==> Listed(a) == Listed(b)
    ensures RECORD !in Join(a, UNIT)
  {
    SplitJoin(a, UNIT);
    SplitJoin(b, UNIT);
    JoinHasNo(a, UNIT, RECORD);
    assert Join(a, UNIT) == Join(Listed(a), UNIT) && Join(b, UNIT) == Join(Listed(b), UNIT);
  }

  lemma NumbersDetermined(a: Option<nat>, b: Option<nat>)
    ensures var p := (n: Option<nat>) => match n case Some(k) => Print(k) case None => "";
            (p(a) == p(b) <==> a == b) && NoSeparators(p(a))
  {
    if a.Some? {
      NumberPrint(a.value);
    }
    if b.Some? {
      NumberPrint(b.value);
    }
  }

  lemma FieldsClear(t: Tracker, i: Inputs)
    requires ClearFields(t, i)
    ensures forall f | f in Fields(t, i) :: RECORD !in f
  {
    var first := [i.token, i.repoOwner, i.repoName, i.labelPrefix, i.endpoint, OrElse(t.assignee, "")];
    assert i.token in first && i.repoOwner in first && i.repoName in first && i.labelPrefix in first
           && i.endpoint in first && OrElse(t.assignee, "") in first;
    ListsDetermined(t.activeStates, t.activeStates);
    ListsDetermined(t.terminalStates, t.terminalStates);
    ListsDetermined(t.excludeLabels, t.excludeLabels);
    NumbersDetermined(t.projectNumber, t.projectNumber);
  }

  /** For fields free of the two separators, equal keys mean equal shown fields, and the other way round. */
  lemma KeyShowsFields(t1: Tracker, i1: Inputs, t2: Tracker, i2: Inputs)
    requires ClearFields(t1, i1) && ClearFields(t2, i2)
    ensures CacheKey(t1, i1) == CacheKey(t2, i2) <==> Shown(t1, i1) == Shown(t2, i2)
  {
    FieldsClear(t1, i1);
    FieldsClear(t2, i2);
    SplitJoin(Fields(t1, i1), RECORD);
    SplitJoin(Fields(t2, i2), RECORD);
    FieldsShow(t1, i1, t2, i2);
  }

  lemma FieldsShow(t1: Tracker, i1: Inputs, t2: Tracker, i2: Inputs)
    requires ClearFields(t1, i1) && ClearFields(t2, i2)
    ensures Fields(t1, i1) == Fields(t2, i2) <==> Shown(t1, i1) == Shown(t2, i2)
  {
    ListsDetermined(t1.activeStates, t2.activeStates);
    ListsDetermined(t1.terminalStates, t2.terminalStates);
    ListsDetermined(t1.excludeLabels, t2.excludeLabels);
    NumbersDetermined(t1.projectNumber, t2.projectNumber);
    var f, g := Fields(t1, i1), Fields(t2, i2);
    if f == g {
      assert f[0] == g[0] && f[1] == g[1] && f[2] == g[2] && f[3] == g[3] && f[4] == g[4];
      assert f[5] == g[5] && f[6] == g[6] && f[7] == g[7] && f[8] == g[8] && f[9] == g[9];
    }
  }

  // ---------------------------------------------------------------- over any sequence of reloads

  /** The cache after calls with these configurations. */
  function After(calls: seq<(Tracker, Option<string>)>): Cache {
    if calls == [] then Cache(None, None)
    else Refreshed(After(calls[..|calls| - 1]), calls[|calls| - 1].0, calls[|calls| - 1].1)
  }

  predicate ClearCall(call: (Tracker, Option<string>)) {
    match AdapterInputs(call.0, call.1) case Ok(i) => ClearFields(call.0, i) case Err(_) => true
  }

  lemma {:induction false} CacheCoherent(calls: seq<(Tracker, Option<string>)>)
    requires forall k | 0 <= k < |calls| :: ClearCall(calls[k])
    ensures Coherent(After(calls))
    ensures After(calls).adapter.Some? ==>
              ClearFields(After(calls).adapter.value.tracker, After(calls).adapter.value.inputs)
    decreases |calls|
  {
    if calls != [] {
      CacheCoherent(calls[..|calls| - 1]);
      assert ClearCall(calls[|calls| - 1]);
    }
  }

  /**
   After any reloads, a call that succeeds leaves an adapter that shows the current configuration, and it is the
   previous adapter exactly when that showed it already.
   */
  lemma AdapterIsCurrent(calls: seq<(Tracker, Option<string>)>, t: Tracker, token: Option<string>)
    requires forall k | 0 <= k < |calls| :: ClearCall(calls[k])
    requires ClearCall((t, token)) && AdapterInputs(t, token).Ok?
    ensures var i := AdapterInputs(t, token).value;
            var before, after := After(calls).adapter, Refreshed(After(calls), t, token).adapter;
            && after.Some? && Shown(after.value.tracker, after.value.inputs) == Shown(t, i)
            && (before.Some? && Shown(before.value.tracker, before.value.inputs) == Shown(t, i) ==> after == before)
            && (before.None? || Shown(before.value.tracker, before.value.inputs) != Shown(t, i) ==>
                  after == Some(Adapter(i, t)))
  {
    CacheCoherent(calls);
    var before := After(calls);
    if before.key.Some? {
      KeyShowsFields(before.adapter.value.tracker, before.adapter.value.inputs, t, AdapterInputs(t, token).value);
    }
  }

  /** What the key does not show goes stale: a new owner type alone leaves the old adapter in place. */
  lemma OwnerTypeGoesStale(t: Tracker, token: Option<string>, other: Option<OwnerType>)
    requires AdapterInputs(t, token).Ok? && other != t.ownerType
    ensures var before := Refreshed(Cache(None, None), t, token);
            var after := Refreshed(before, t.(ownerType := other), token);
            after == before && after.adapter.Some? && after.adapter.value.tracker.ownerType != other
  {
  }
}
