/**
 Scopes of shared context entries and the keys they are written as.
 */
module ContextScopes {
  import opened Basics
  import opened Text
  import opened TextLaws
  import opened ConfigChecks

  datatype Scope = Project | Milestone(id: string) | Labelled(name: string)

  predicate NotColon(c: char) { c != ':' }

  /** `ContextScope::parse` */
  function Parse(value: string): Option<Scope> {
    var normalized := Trimmed(value);
    if SameText(normalized, "project") then Some(Project)
    else
      var n := Span(normalized, NotColon);
      if n == |normalized| then None
      else
        var kind := Lower(Trimmed(normalized[..n]));
        var raw := Trimmed(normalized[n + 1..]);
        if raw == "" then None
        else if kind == "milestone" then Some(Milestone(raw))
        else if kind == "label" then Some(Labelled(Lower(raw)))
        else None
  }

  /** `as_scope_key` */
  function Key(s: Scope): string {
    match s
    case Project => "project"
    case Milestone(id) => "milestone" + ":" + id
    case Labelled(name) => "label" + ":" + name
  }

  // ---------------------------------------------------------------- what is parsed

  /** White space aside, the text is a kind, in any case, then a colon and `raw`. */
  ghost predicate HasParts(value: string, kind: string, raw: string) {
    exists w, k, bareKind, r ::
      IsBare(value, IsRustSpace, w) && w == k + ":" + r && ':' !in k
      && IsBare(k, IsRustSpace, bareKind) && IsFolded(bareKind, kind) && IsBare(r, IsRustSpace, raw)
  }

  /** The texts of a scope. */
  ghost predicate Says(value: string, s: Scope) {
    match s
    case Project => exists w :: IsBare(value, IsRustSpace, w) && IsFolded(w, "project")
    case Milestone(id) => id != "" && HasParts(value, "milestone", id)
    case Labelled(name) => exists raw :: raw != "" && HasParts(value, "label", raw) && IsFolded(raw, name)
  }

  /** The kind and the rest, as the parser takes them. */
  function Parts(value: string): Option<(string, string)> {
    var normalized := Trimmed(value);
    var n := Span(normalized, NotColon);
    if n == |normalized| then None
    else Some((Lower(Trimmed(normalized[..n])), Trimmed(normalized[n + 1..])))
  }

  lemma FirstColon(w: string, k: string, r: string)
    requires w == k + ":" + r && ':' !in k
    ensures Span(w, NotColon) == |k| && w[..|k|] == k && w[|k| + 1..] == r
  {
    assert w == k + (":" + r);
    SpanAppend(k, ":" + r, NotColon);
  }

  lemma PartsThere(value: string, kind: string, raw: string)
    requires Parts(value) == Some((kind, raw))
    ensures HasParts(value, kind, raw)
  {
    var w := Trimmed(value);
    var n := Span(w, NotColon);
    var k, r := w[..n], w[n + 1..];
    assert w == k + ":" + r && ':' !in k;
    TrimMeans(value, IsRustSpace, w);
    TrimMeans(k, IsRustSpace, Trimmed(k));
    LowerMeans(Trimmed(k), kind);
    TrimMeans(r, IsRustSpace, raw);
  }

  lemma PartsTaken(value: string, w: string, k: string, r: string, bareKind: string, kind: string, raw: string)
    requires IsBare(value, IsRustSpace, w) && w == k + ":" + r && ':' !in k
    requires IsBare(k, IsRustSpace, bareKind) && IsFolded(bareKind, kind) && IsBare(r, IsRustSpace, raw)
    ensures Parts(value) == Some((kind, raw))
  {
    TrimMeans(value, IsRustSpace, w);
    FirstColon(w, k, r);
    TrimMeans(k, IsRustSpace, bareKind);
    LowerMeans(bareKind, kind);
    TrimMeans(r, IsRustSpace, raw);
  }

  lemma PartsMean(value: string, kind: string, raw: string)
    ensures Parts(value) == Some((kind, raw)) <==> HasParts(value, kind, raw)
  {
    if Parts(value) == Some((kind, raw)) {
      PartsThere(value, kind, raw);
    }
    if HasParts(value, kind, raw) {
      var w, k, bareKind, r :|
        IsBare(value, IsRustSpace, w) && w == k + ":" + r && ':' !in k
        && IsBare(k, IsRustSpace, bareKind) && IsFolded(bareKind, kind) && IsBare(r, IsRustSpace, raw);
      PartsTaken(value, w, k, r, bareKind, kind, raw);
    }
  }

  lemma ProjectMeans(value: string)
    ensures SameText(Trimmed(value), "project") <==> Says(value, Project)
  {
    assert IsLetters("project");
    WordMeans(value, "project");
  }

  lemma WordMeans(value: string, word: string)
    requires IsLetters(word)
    ensures SameText(Trimmed(value), word) <==> exists w :: IsBare(value, IsRustSpace, w) && IsFolded(w, word)
  {
    LettersStay(word);
    TrimMeans(value, IsRustSpace, Trimmed(value));
    LowerMeans(Trimmed(value), word);
    if w :| IsBare(value, IsRustSpace, w) && IsFolded(w, word) {
      BareIsUnique(value, IsRustSpace, w, Trimmed(value));
    }
  }

  lemma PartsAreNotProject(value: string)
    requires Parts(value).Some?
    ensures !SameText(Trimmed(value), "project")
  {
    var w := Trimmed(value);
    assert w[Span(w, NotColon)] == ':';
    ColonIsNotWord(w, "project");
  }

  lemma LabelMeans(value: string, name: string)
    ensures Says(value, Labelled(name))
            <==> Parts(value).Some? && Parts(value).value.0 == "label" && Parts(value).value.1 != ""
                 && Lower(Parts(value).value.1) == name
  {
    if Parts(value).Some? {
      PartsMean(value, Parts(value).value.0, Parts(value).value.1);
      LowerMeans(Parts(value).value.1, name);
    }
    if Says(value, Labelled(name)) {
      var raw :| raw != "" && HasParts(value, "label", raw) && IsFolded(raw, name);
      PartsMean(value, "label", raw);
    }
  }

  /** A text is parsed to a scope exactly when it says that scope. */
  lemma ParseMeans(value: string, s: Scope)
    ensures Parse(value) == Some(s) <==> Says(value, s)
  {
    ProjectMeans(value);
    if Parts(value).Some? {
      PartsAreNotProject(value);
    }
    match s
    case Project =>
    case Milestone(id) => PartsMean(value, "milestone", id);
    case Labelled(name) => LabelMeans(value, name);
  }

  /** The scopes that survive: ids are trimmed and not empty, and labels are in lower case. */
  predicate Survives(s: Scope) {
    match s
    case Project => true
    case Milestone(id) => id != "" && IsTrimmed(id, IsRustSpace)
    case Labelled(name) => name != "" && IsTrimmed(name, IsRustSpace) && Lower(name) == name
  }

  lemma LowerTwice(s: string)
    ensures Lower(Lower(s)) == Lower(s)
  {
    assert forall c: char :: LowerChar(LowerChar(c)) == LowerChar(c);
  }

  lemma LowerIsTrimmed(s: string)
    requires IsTrimmed(s, IsRustSpace)
    ensures IsTrimmed(Lower(s), IsRustSpace)
  {
    if s != "" {
      LowerKeepsSpace(s[0]);
      LowerKeepsSpace(s[|s| - 1]);
    }
  }

  /** A text with a colon is not the same as a word without. */
  lemma ColonIsNotWord(s: string, word: string)
    requires ':' in s && ':' !in word
    ensures !SameText(s, word)
  {
    var i :| 0 <= i < |s| && s[i] == ':';
    assert Lower(s)[i] == ':';
    assert forall k | 0 <= k < |word| :: word[k] != ':' && Lower(word)[k] == LowerChar(word[k]);
  }

  /** A key of a kind and an id is trimmed, and falls apart at its first colon. */
  lemma PartsOfKey(kind: string, id: string, key: string)
    requires ':' !in kind && kind != "" && IsTrimmed(kind, IsRustSpace)
    requires id != "" && IsTrimmed(id, IsRustSpace)
    requires key == kind + ":" + id
    ensures Trimmed(key) == key && ':' in key && Span(key, NotColon) == |kind|
    ensures key[..|kind|] == kind && key[|kind| + 1..] == id
  {
    var rest := ":" + id;
    assert key == kind + rest && rest[0] == ':' && key[|kind|] == ':';
    assert key[0] == kind[0] && key[|key| - 1] == id[|id| - 1];
    TrimOfTrimmed(key, IsRustSpace);
    SpanAppend(kind, rest, NotColon);
  }

  /** What a key of a kind and an id parses to. */
  lemma KeyParses(kind: string, id: string)
    requires ':' !in kind && kind != "" && IsTrimmed(kind, IsRustSpace) && Lower(kind) == kind
    requires id != "" && IsTrimmed(id, IsRustSpace)
    ensures Parse(kind + ":" + id) ==
            if kind == "milestone" then Some(Milestone(id))
            else if kind == "label" then Some(Labelled(Lower(id)))
            else None
  {
    var key := kind + ":" + id;
    PartsOfKey(kind, id, key);
    TrimOfTrimmed(kind, IsRustSpace);
    TrimOfTrimmed(id, IsRustSpace);
    assert Parts(key) == Some((kind, id));
    ParseOfParts(key, kind, id);
  }

  lemma ParseOfParts(value: string, kind: string, raw: string)
    requires Parts(value) == Some((kind, raw)) && raw != ""
    ensures Parse(value) == if kind == "milestone" then Some(Milestone(raw))
                            else if kind == "label" then Some(Labelled(Lower(raw)))
                            else None
  {
    PartsAreNotProject(value);
  }

  predicate IsLetters(s: string) { forall i | 0 <= i < |s| :: 'a' <= s[i] <= 'z' }

  lemma LettersStay(s: string)
    requires IsLetters(s)
    ensures Lower(s) == s && ':' !in s
  {
    forall i | 0 <= i < |s| ensures Lower(s)[i] == s[i] {
      assert Lower(s)[i] == LowerChar(s[i]);
    }
  }

  lemma LetterIsNoSpace(c: char)
    requires 'a' <= c <= 'z'
    ensures !IsRustSpace(c)
  {
  }

  lemma LettersAreTrimmed(s: string)
    requires IsLetters(s)
    ensures IsTrimmed(s, IsRustSpace)
  {
    if s != "" {
      LetterIsNoSpace(s[0]);
      LetterIsNoSpace(s[|s| - 1]);
    }
  }

  lemma KindKeyParses(kind: string, id: string)
    requires kind == "milestone" || kind == "label"
    requires id != "" && IsTrimmed(id, IsRustSpace)
    ensures Parse(kind + ":" + id) == Some(if kind == "milestone" then Milestone(id) else Labelled(Lower(id)))
  {
    assert IsLetters(kind) && kind != "";
    LettersStay(kind);
    LettersAreTrimmed(kind);
    KeyParses(kind, id);
  }

  lemma ProjectParses(key: string)
    requires key == "project"
    ensures Parse(key) == Some(Project)
  {
    assert IsLetters(key);
    LettersAreTrimmed(key);
    TrimOfTrimmed(key, IsRustSpace);
  }

  lemma SurvivingScopeParses(s: Scope)
    requires Survives(s)
    ensures Parse(Key(s)) == Some(s)
  {
    match s
    case Project => ProjectParses(Key(s));
    case Milestone(id) => KindKeyParses("milestone", id);
    case Labelled(name) => KindKeyParses("label", name);
  }

  /** Whatever a text parses to survives. */
  lemma ParsedScopeSurvives(value: string)
    requires Parse(value).Some?
    ensures Survives(Parse(value).value)
  {
    var normalized := Trimmed(value);
    if !SameText(normalized, "project") {
      var raw := normalized[Span(normalized, NotColon) + 1..];
      TrimTrims(raw, IsRustSpace);
      LowerIsTrimmed(Trimmed(raw));
      LowerTwice(Trimmed(raw));
    }
  }

  /**
   A scope is read back from its key exactly when it survives; and for every text, parsing, printing and
   parsing again is parsing once.
   */
  lemma ScopeRoundTrip(s: Scope, value: string)
    ensures Parse(Key(s)) == Some(s) <==> Survives(s)
    ensures Parse(value).Some? ==> Parse(Key(Parse(value).value)) == Parse(value)
  {
    if Survives(s) {
      SurvivingScopeParses(s);
    }
    if Parse(Key(s)).Some? {
      ParsedScopeSurvives(Key(s));
    }
    if Parse(value).Some? {
      ParsedScopeSurvives(value);
      SurvivingScopeParses(Parse(value).value);
    }
  }
}
