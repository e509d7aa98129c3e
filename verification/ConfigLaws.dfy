/**
 The two checks of a configuration in terms of its fields.
 */
module ConfigLaws {
  import opened Basics
  import opened Text
  import opened TextLaws
  import opened ConfigChecks

  // ---------------------------------------------------------------- labels

  /** One text but for ASCII case. */
  ghost predicate Alike(a: string, b: string) { exists t :: IsFolded(a, t) && IsFolded(b, t) }

  lemma SameTextMeans(a: string, b: string)
    ensures SameText(a, b) <==> Alike(a, b)
  {
    LowerMeans(a, Lower(a));
    LowerMeans(b, Lower(b));
    if Alike(a, b) {
      var t :| IsFolded(a, t) && IsFolded(b, t);
      LowerMeans(a, t);
      LowerMeans(b, t);
    }
  }

  ghost predicate NoneBlank(labels: seq<string>) { forall s | s in labels :: Bare(s) != "" }

  ghost predicate AllDiffer(labels: seq<string>) {
    forall i, j | 0 <= i < j < |labels| :: Bare(labels[i]) != Bare(labels[j])
  }

  ghost predicate NoneAlike(labels: seq<string>) {
    forall i, j | 0 <= i < j < |labels| :: !Alike(Bare(labels[i]), Bare(labels[j]))
  }

  lemma BareIsTrimmed(s: string)
    ensures Trimmed(s) == Bare(s)
  {
    TrimMeans(s, IsRustSpace, Bare(s));
  }

  ghost predicate TriageApart(l: Labels) {
    var labels := [l.triageIntake, l.implement, l.specRoute, l.needsInformation, l.park, l.humanOwned];
    NoneBlank(labels) && AllDiffer(labels)
  }

  ghost predicate SpecApart(l: Labels) {
    var labels := [l.specIntake, l.approved, l.revise, l.approvalRoute];
    NoneBlank(labels) && NoneAlike(labels)
  }

  ghost predicate StagesApart(l: Labels) {
    && Alike(l.specRoute, l.specIntake)
    && forall d, t | d in [l.approved, l.revise]
                     && t in [l.triageIntake, l.implement, l.needsInformation, l.park, l.humanOwned] ::
         !Alike(Bare(d), Bare(t))
  }

  lemma TriageMeans(l: Labels)
    ensures TriageLabelsOk(l) <==> TriageApart(l)
  {
    var labels := [l.triageIntake, l.implement, l.specRoute, l.needsInformation, l.park, l.humanOwned];
    var routes := Routes(l);
    assert labels == [l.triageIntake] + routes;
    forall s | s in labels ensures Trimmed(s) == Bare(s) {
      BareIsTrimmed(s);
    }
    assert forall i | 0 <= i < 5 :: routes[i] == labels[i + 1];
    if TriageLabelsOk(l) {
      forall i, j | 0 <= i < j < 6 ensures Bare(labels[i]) != Bare(labels[j]) {
        assert labels[j] == routes[j - 1] && (i > 0 ==> labels[i] == routes[i - 1]);
      }
      forall s | s in labels ensures Bare(s) != "" {
        var i :| 0 <= i < 6 && labels[i] == s;
        assert i > 0 ==> labels[i] == routes[i - 1];
      }
    }
    if TriageApart(l) {
      forall i | 0 <= i < 5
        ensures Trimmed(routes[i]) != "" && Trimmed(routes[i]) != Trimmed(l.triageIntake)
      {
        assert labels[i + 1] in labels && labels[0] == l.triageIntake;
      }
    }
  }

  lemma SameLabelMeans(a: string, b: string)
    ensures SameLabel(a, b) <==> Alike(Bare(a), Bare(b))
  {
    BareIsTrimmed(a);
    BareIsTrimmed(b);
    SameTextMeans(Bare(a), Bare(b));
  }

  lemma SpecMeans(l: Labels)
    ensures SpecLabelsOk(l) <==> SpecApart(l)
  {
    var labels := [l.specIntake, l.approved, l.revise, l.approvalRoute];
    assert labels == SpecManaged(l);
    forall i, j | 0 <= i < j < 4
      ensures SameLabel(labels[i], labels[j]) <==> Alike(Bare(labels[i]), Bare(labels[j]))
    {
      SameLabelMeans(labels[i], labels[j]);
    }
    forall i | 0 <= i < 4 ensures Trimmed(labels[i]) == Bare(labels[i]) && labels[i] in labels {
      BareIsTrimmed(labels[i]);
    }
  }

  lemma StagesMean(l: Labels)
    ensures StagesOk(l) <==> StagesApart(l)
  {
    var ds, ts := [l.approved, l.revise], [l.triageIntake, l.implement, l.needsInformation, l.park, l.humanOwned];
    assert ds == Decisions(l) && ts == TriageManaged(l);
    SameTextMeans(l.specRoute, l.specIntake);
    forall d, t ensures SameLabel(d, t) <==> Alike(Bare(d), Bare(t)) {
      SameLabelMeans(d, t);
    }
    assert forall k | 0 <= k < 2 :: ds[k] in ds;
    assert forall k | 0 <= k < 5 :: ts[k] in ts;
  }

  /**
   Accepted is exactly this: with triage on, its six labels are not blank and differ; with the spec stage on, its
   four labels are not blank and differ in any case; with both on, the spec route is the spec intake in some case,
   and neither decision label is one of the other five triage labels in any case. White space around labels does
   not count, except between spec route and spec intake.
   */
  lemma AcceptedLabels(l: Labels)
    ensures LabelsOk(l) <==>
            && (l.triageEnabled ==> TriageApart(l))
            && (l.specEnabled ==> SpecApart(l))
            && (l.triageEnabled && l.specEnabled ==> StagesApart(l))
  {
    TriageMeans(l);
    SpecMeans(l);
    StagesMean(l);
  }

  // ---------------------------------------------------------------- verification commands

  /** The UTF-8 form of a character, section 3 of RFC 3629. */
  function Utf8Char(c: char): seq<nat> {
    var n := c as int;
    if n <= 0x7F then [n]
    else if n <= 0x7FF then [0xC0 + n / 0x40, 0x80 + n % 0x40]
    else if n <= 0xFFFF then [0xE0 + n / 0x1000, 0x80 + n / 0x40 % 0x40, 0x80 + n % 0x40]
    else [0xF0 + n / 0x4_0000, 0x80 + n / 0x1000 % 0x40, 0x80 + n / 0x40 % 0x40, 0x80 + n % 0x40]
  }

  function Utf8(s: string): seq<nat> {
    if s == "" then [] else Utf8(s[..|s| - 1]) + Utf8Char(s[|s| - 1])
  }

  lemma {:induction false} BytesAppend(s: string, c: char)
    ensures Bytes(s + [c]) == Bytes(s) + Bytes([c])
    decreases |s|
  {
    if s == "" {
      assert s + [c] == [c];
    } else {
      assert (s + [c])[1..] == s[1..] + [c];
      BytesAppend(s[1..], c);
    }
  }

  /** Counting bytes is counting those of the UTF-8 form. */
  lemma {:induction false} BytesMean(s: string)
    ensures Bytes(s) == |Utf8(s)|
    decreases |s|
  {
    if s != "" {
      var n := |s| - 1;
      BytesMean(s[..n]);
      BytesAppend(s[..n], s[n]);
      assert s == s[..n] + [s[n]];
      assert [s[n]][1..] == "";
    }
  }

  ghost predicate WellFormed(c: Command) {
    && 0 < |Bare(c.name)| && |Utf8(Bare(c.name))| <= 100
    && 0 < |Bare(c.command)| && |Utf8(c.command)| <= 4000
    && c.timeoutMs != 0
  }

  lemma CommandMeans(c: Command)
    ensures CommandOk(c) <==> WellFormed(c)
  {
    BareIsTrimmed(c.name);
    BareIsTrimmed(c.command);
    BytesMean(Bare(c.name));
    BytesMean(c.command);
  }

  /** Accepted are 1 to 20 such commands with different bare names, of which exactly one is the acceptance command. */
  lemma AcceptedCommands(commands: seq<Command>)
    ensures CommandsOk(commands) <==>
            && 1 <= |commands| <= 20
            && (forall c | c in commands :: WellFormed(c))
            && (forall i, j | 0 <= i < j < |commands| :: Bare(commands[i].name) != Bare(commands[j].name))
            && OneAccepts(commands)
  {
    forall c ensures CommandOk(c) <==> WellFormed(c) {
      CommandMeans(c);
    }
    forall s ensures Trimmed(s) == Bare(s) {
      BareIsTrimmed(s);
    }
    OneMeans(commands);
  }

  ghost predicate OneAccepts(commands: seq<Command>) {
    && (exists i :: 0 <= i < |commands| && commands[i].kind.Acceptance?)
    && forall i, j | 0 <= i < |commands| && 0 <= j < |commands| ::
         commands[i].kind.Acceptance? && commands[j].kind.Acceptance? ==> i == j
  }

  lemma OneMeans(commands: seq<Command>)
    ensures OneAcceptance(commands) <==> OneAccepts(commands)
  {
    if OneAccepts(commands) {
      var i :| 0 <= i < |commands| && commands[i].kind.Acceptance?;
      assert OnlyAcceptance(commands, i);
    }
  }
}
