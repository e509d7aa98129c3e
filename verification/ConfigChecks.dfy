/**
 Two checks of a workflow configuration: that labels which drive different stages stay apart, and that the
 list of verification commands is well formed.
 */
module ConfigChecks {
  import opened Basics
  import opened Text

  function LowerChar(c: char): char {
    if 'A' <= c <= 'Z' then (c as int + 32) as char else c
  }

  function Lower(s: string): (r: string)
    ensures |r| == |s| && forall i | 0 <= i < |s| :: r[i] == LowerChar(s[i])
  {
    if s == "" then "" else [LowerChar(s[0])] + Lower(s[1..])
  }

  /** `eq_ignore_ascii_case` */
  predicate SameText(a: string, b: string) { Lower(a) == Lower(b) }

  /** `t` is `s` with each of the letters A to Z in its small form, 32 code points on, and nothing else changed. */
  ghost predicate IsFolded(s: string, t: string) {
    && |s| == |t|
    && forall i | 0 <= i < |s| :: t[i] as int == s[i] as int + if 0x41 <= s[i] as int <= 0x5A then 32 else 0
  }

  lemma LowerMeans(s: string, t: string)
    ensures Lower(s) == t <==> IsFolded(s, t)
  {
    if IsFolded(s, t) {
      assert forall i | 0 <= i < |s| :: Lower(s)[i] == LowerChar(s[i]) == t[i];
    }
    if Lower(s) == t {
      assert forall i | 0 <= i < |s| :: t[i] == LowerChar(s[i]);
    }
  }

  /** The same label but for ASCII case and outer white space. */
  predicate SameLabel(a: string, b: string) { SameText(Trimmed(a), Trimmed(b)) }

  // ---------------------------------------------------------------- labels

  datatype Labels = Labels(
    triageEnabled: bool, triageIntake: string,
    implement: string, specRoute: string, needsInformation: string, park: string, humanOwned: string,
    specEnabled: bool, specIntake: string, approved: string, revise: string, approvalRoute: string)

  function Routes(l: Labels): seq<string> { [l.implement, l.specRoute, l.needsInformation, l.park, l.humanOwned] }
  function SpecManaged(l: Labels): seq<string> { [l.specIntake, l.approved, l.revise, l.approvalRoute] }
  function TriageManaged(l: Labels): seq<string> {
    [l.triageIntake, l.implement, l.needsInformation, l.park, l.humanOwned]
  }
  function Decisions(l: Labels): seq<string> { [l.approved, l.revise] }

  datatype LabelError =
    | BlankIntake | BlankRoute(route: nat) | RouteIsIntake(route: nat) | DuplicateRoute(route: nat)
    | BlankSpec(field: nat) | SpecDuplicate(left: nat, right: nat) | SpecRouteMismatch
    | DecisionClash(decision: nat)

  predicate TriageLabelsOk(l: Labels) {
    && Trimmed(l.triageIntake) != ""
    && (forall i | 0 <= i < 5 :: Trimmed(Routes(l)[i]) != "" && Trimmed(Routes(l)[i]) != Trimmed(l.triageIntake))
    && (forall i, j | 0 <= i < j < 5 :: Trimmed(Routes(l)[i]) != Trimmed(Routes(l)[j]))
  }

  predicate SpecLabelsOk(l: Labels) {
    && (forall i | 0 <= i < 4 :: Trimmed(SpecManaged(l)[i]) != "")
    && (forall i, j | 0 <= i < j < 4 :: !SameLabel(SpecManaged(l)[i], SpecManaged(l)[j]))
  }

  predicate StagesOk(l: Labels) {
    && SameText(l.specRoute, l.specIntake)
    && forall d, t | 0 <= d < 2 && 0 <= t < 5 :: !SameLabel(Decisions(l)[d], TriageManaged(l)[t])
  }

  /** What an accepted configuration satisfies. */
  predicate LabelsOk(l: Labels) {
    && (l.triageEnabled ==> TriageLabelsOk(l))
    && (l.specEnabled ==> SpecLabelsOk(l))
    && (l.triageEnabled && l.specEnabled ==> StagesOk(l))
  }

  /** The error names something that is wrong. */
  predicate Justified(l: Labels, e: LabelError) {
    match e
    case BlankIntake => l.triageEnabled && Trimmed(l.triageIntake) == ""
    case BlankRoute(i) => l.triageEnabled && i < 5 && Trimmed(Routes(l)[i]) == ""
    case RouteIsIntake(i) => l.triageEnabled && i < 5 && Trimmed(Routes(l)[i]) == Trimmed(l.triageIntake)
    case DuplicateRoute(i) =>
      l.triageEnabled && i < 5 && exists j | 0 <= j < i :: Trimmed(Routes(l)[i]) == Trimmed(Routes(l)[j])
    case BlankSpec(i) => l.specEnabled && i < 4 && Trimmed(SpecManaged(l)[i]) == ""
    case SpecDuplicate(i, j) => l.specEnabled && i < j < 4 && SameLabel(SpecManaged(l)[i], SpecManaged(l)[j])
    case SpecRouteMismatch => l.triageEnabled && l.specEnabled && !SameText(l.specRoute, l.specIntake)
    case DecisionClash(d) =>
      l.triageEnabled && l.specEnabled && d < 2
      && exists t | 0 <= t < 5 :: SameLabel(Decisions(l)[d], TriageManaged(l)[t])
  }

  method CheckTriageLabels(l: Labels) returns (r: Option<LabelError>)
    requires l.triageEnabled
    ensures r.None? <==> TriageLabelsOk(l)
    ensures r.Some? ==> Justified(l, r.value)
  {
    if Trimmed(l.triageIntake) == "" {
      return Some(BlankIntake);
    }
    var routes := Routes(l);
    for i := 0 to 5
      invariant forall k | 0 <= k < i :: Trimmed(routes[k]) != ""
    {
      if Trimmed(routes[i]) == "" {
        return Some(BlankRoute(i));
      }
    }
    for i := 0 to 5
      invariant forall k | 0 <= k < i :: Trimmed(routes[k]) != Trimmed(l.triageIntake)
    {
      if Trimmed(routes[i]) == Trimmed(l.triageIntake) {
        return Some(RouteIsIntake(i));
      }
    }
    var seen: seq<string> := [];
    for i := 0 to 5
      invariant |seen| == i && forall k | 0 <= k < i :: seen[k] == Trimmed(routes[k])
      invariant forall j, k | 0 <= j < k < i :: Trimmed(routes[j]) != Trimmed(routes[k])
    {
      if Trimmed(routes[i]) in seen {
        return Some(DuplicateRoute(i));
      }
      seen := seen + [Trimmed(routes[i])];
    }
    r := None;
  }

  method CheckSpecLabels(l: Labels) returns (r: Option<LabelError>)
    requires l.specEnabled
    ensures r.None? <==> SpecLabelsOk(l)
    ensures r.Some? ==> Justified(l, r.value)
  {
    var managed := SpecManaged(l);
    for i := 0 to 4
      invariant forall k | 0 <= k < i :: Trimmed(managed[k]) != ""
    {
      if Trimmed(managed[i]) == "" {
        return Some(BlankSpec(i));
      }
    }
    for i := 0 to 4
      invariant forall j, k | 0 <= j < i && j < k < 4 :: !SameLabel(managed[j], managed[k])
    {
      for j := i + 1 to 4
        invariant forall k | i < k < j :: !SameLabel(managed[i], managed[k])
      {
        if SameLabel(managed[i], managed[j]) {
          return Some(SpecDuplicate(i, j));
        }
      }
    }
    r := None;
  }

  method CheckStages(l: Labels) returns (r: Option<LabelError>)
    requires l.triageEnabled && l.specEnabled
    ensures r.None? <==> StagesOk(l)
    ensures r.Some? ==> Justified(l, r.value)
  {
    if !SameText(l.specRoute, l.specIntake) {
      return Some(SpecRouteMismatch);
    }
    var decisions, managed := Decisions(l), TriageManaged(l);
    for d := 0 to 2
      invariant forall e, t | 0 <= e < d && 0 <= t < 5 :: !SameLabel(decisions[e], managed[t])
    {
      for t := 0 to 5
        invariant forall u | 0 <= u < t :: !SameLabel(decisions[d], managed[u])
      {
        if SameLabel(decisions[d], managed[t]) {
          return Some(DecisionClash(d));
        }
      }
    }
    r := None;
  }

  /** The label checks of `validate`, in order: accepted exactly when the labels are apart, else a true reason. */
  method CheckLabels(l: Labels) returns (r: Option<LabelError>)
    ensures r.None? <==> LabelsOk(l)
    ensures r.Some? ==> Justified(l, r.value)
  {
    r := None;
    if l.triageEnabled {
      r := CheckTriageLabels(l);
    }
    if r.None? && l.specEnabled {
      r := CheckSpecLabels(l);
      if r.None? && l.triageEnabled {
        r := CheckStages(l);
      }
    }
  }

  // ---------------------------------------------------------------- what separation means

  lemma LowerKeepsSpace(c: char)
    ensures IsRustSpace(LowerChar(c)) == IsRustSpace(c)
  {
  }

  lemma {:induction false} TrimStartLower(s: string)
    ensures Lower(TrimStart(s, IsRustSpace)) == TrimStart(Lower(s), IsRustSpace)
    decreases |s|
  {
    if s != "" {
      LowerKeepsSpace(s[0]);
      assert Lower(s)[1..] == Lower(s[1..]);
      if IsRustSpace(s[0]) {
        TrimStartLower(s[1..]);
      }
    }
  }

  lemma {:induction false} TrimEndLower(s: string)
    ensures Lower(TrimEnd(s, IsRustSpace)) == TrimEnd(Lower(s), IsRustSpace)
    decreases |s|
  {
    if s != "" {
      LowerKeepsSpace(s[|s| - 1]);
      assert Lower(s)[..|s| - 1] == Lower(s[..|s| - 1]);
      if IsRustSpace(s[|s| - 1]) {
        TrimEndLower(s[..|s| - 1]);
      }
    }
  }

  /** Texts that differ in case only are the same label. */
  lemma SameTextSameLabel(a: string, b: string)
    requires SameText(a, b)
    ensures SameLabel(a, b)
  {
    TrimStartLower(a);
    TrimStartLower(b);
    TrimEndLower(TrimStart(a, IsRustSpace));
    TrimEndLower(TrimStart(b, IsRustSpace));
  }

  /**
   With both stages on, an accepted configuration has decision labels that differ, but for case and outer white
   space too, from each other and from every other label of both stages, the spec route included, for which
   there is no check of its own.
   */
  lemma DecisionsStandApart(l: Labels)
    requires l.triageEnabled && l.specEnabled && LabelsOk(l)
    ensures !SameLabel(l.approved, l.revise)
    ensures forall d | d in Decisions(l) ::
              !SameLabel(d, l.specIntake) && !SameLabel(d, l.approvalRoute) && !SameLabel(d, l.triageIntake)
              && forall route | route in Routes(l) :: !SameLabel(d, route)
  {
    SameTextSameLabel(l.specRoute, l.specIntake);
    var m, t, ds := SpecManaged(l), TriageManaged(l), Decisions(l);
    assert m[0] == l.specIntake && m[1] == l.approved && m[2] == l.revise && m[3] == l.approvalRoute;
    assert t[0] == l.triageIntake && t[1] == l.implement && t[2] == l.needsInformation && t[3] == l.park
           && t[4] == l.humanOwned;
    forall d | d in Decisions(l)
      ensures !SameLabel(d, l.specIntake) && !SameLabel(d, l.approvalRoute) && !SameLabel(d, l.triageIntake)
              && forall route | route in Routes(l) :: !SameLabel(d, route)
    {
      var k :| 0 <= k < 2 && ds[k] == d;
      assert forall u | 0 <= u < 5 :: !SameLabel(ds[k], t[u]);
      assert !SameLabel(m[0], m[1]) && !SameLabel(m[0], m[2]) && !SameLabel(m[1], m[3]) && !SameLabel(m[2], m[3]);
    }
  }

  /**
   Not so for the approval route: an accepted configuration accepts any new approval route that is not blank and
   differs from the other spec labels, whatever the triage labels are.
   */
  lemma ApprovalRouteMayClash(l: Labels, route: string)
    requires l.specEnabled && LabelsOk(l)
    ensures LabelsOk(l.(approvalRoute := route)) <==>
            Trimmed(route) != "" && forall i | 0 <= i < 3 :: !SameLabel(SpecManaged(l)[i], route)
  {
    var k := l.(approvalRoute := route);
    var m := SpecManaged(k);
    assert Routes(k) == Routes(l) && TriageManaged(k) == TriageManaged(l) && Decisions(k) == Decisions(l);
    assert m[3] == route;
    assert forall i | 0 <= i < 3 :: m[i] == SpecManaged(l)[i];
    if Trimmed(route) != "" && forall i | 0 <= i < 3 :: !SameLabel(m[i], route) {
      assert forall i, j | 0 <= i < j < 4 :: !SameLabel(m[i], m[j]);
    }
  }

  // ---------------------------------------------------------------- verification commands

  datatype CommandKind = Test | Acceptance
  datatype Command = Command(name: string, kind: CommandKind, command: string, timeoutMs: nat)

  const MAX_COMMANDS: nat := 20
  const NAME_MAX_BYTES: nat := 100
  const COMMAND_MAX_BYTES: nat := 4000

  datatype CommandError =
    | NoCommands | TooManyCommands | BlankName | LongName | DuplicateName | BlankCommand | LongCommand
    | ZeroTimeout | NotOneAcceptance

  /** The length of a text in UTF-8. */
  function Bytes(s: string): nat {
    if s == "" then 0
    else (if s[0] < '\U{80}' then 1 else if s[0] < '\U{800}' then 2 else if s[0] < '\U{10000}' then 3 else 4)
         + Bytes(s[1..])
  }

  predicate CommandOk(c: Command) {
    && Trimmed(c.name) != "" && Bytes(Trimmed(c.name)) <= NAME_MAX_BYTES
    && Trimmed(c.command) != "" && Bytes(c.command) <= COMMAND_MAX_BYTES
    && c.timeoutMs > 0
  }

  predicate EachOk(commands: seq<Command>) {
    forall c | c in commands :: CommandOk(c)
  }

  predicate NamesDistinct(commands: seq<Command>) {
    forall i, j | 0 <= i < j < |commands| :: Trimmed(commands[i].name) != Trimmed(commands[j].name)
  }

  /** There is exactly one acceptance command. */
  predicate OneAcceptance(commands: seq<Command>) {
    exists i | 0 <= i < |commands| :: OnlyAcceptance(commands, i)
  }

  predicate CommandsOk(commands: seq<Command>) {
    1 <= |commands| <= MAX_COMMANDS && EachOk(commands) && NamesDistinct(commands) && OneAcceptance(commands)
  }

  predicate OnlyCountWrong(commands: seq<Command>) {
    EachOk(commands) && NamesDistinct(commands) && !OneAcceptance(commands)
  }

  /** Where the acceptance commands are among the first `n`. */
  function AcceptancesAt(commands: seq<Command>, n: nat): set<int>
    requires n <= |commands|
  {
    set k | 0 <= k < n && commands[k].kind == Acceptance
  }

  lemma OneMoreCounted(commands: seq<Command>, n: nat)
    requires n < |commands|
    ensures |AcceptancesAt(commands, n + 1)| ==
            |AcceptancesAt(commands, n)| + (if commands[n].kind == Acceptance then 1 else 0)
  {
    var before := AcceptancesAt(commands, n);
    assert AcceptancesAt(commands, n + 1) == if commands[n].kind == Acceptance then before + {n} else before;
  }

  /** The command at `i` is the only acceptance command. */
  predicate OnlyAcceptance(commands: seq<Command>, i: nat) {
    && i < |commands| && commands[i].kind == Acceptance
    && forall j | 0 <= j < |commands| && j != i :: commands[j].kind != Acceptance
  }

  lemma OneElement(s: set<int>, i: int)
    requires |s| == 1 && i in s
    ensures s == {i}
  {
    assert |s - {i}| == 0;
    assert s == s - {i} + {i};
  }

  /** Counting one acceptance command means that there is one and no other. */
  lemma OneMeansCountOne(commands: seq<Command>)
    ensures |AcceptancesAt(commands, |commands|)| == 1 <==> OneAcceptance(commands)
  {
    var at := AcceptancesAt(commands, |commands|);
    if OneAcceptance(commands) {
      var i: nat :| i < |commands| && OnlyAcceptance(commands, i);
      assert at == {i};
    }
    if |at| == 1 {
      var i :| i in at;
      OneElement(at, i);
      forall j | 0 <= j < |commands| && j != i ensures commands[j].kind != Acceptance {
        assert j !in at;
      }
      assert OnlyAcceptance(commands, i);
    }
  }

  /** A command is well formed and its name is new. */
  predicate Fits(c: Command, names: set<string>) { CommandOk(c) && Trimmed(c.name) !in names }

  /** The error is true of the command, and what is checked before does not apply. */
  predicate FaultOf(c: Command, names: set<string>, e: CommandError) {
    var name := Trimmed(c.name);
    match e
    case BlankName => name == ""
    case LongName => name != "" && Bytes(name) > NAME_MAX_BYTES
    case DuplicateName => name in names
    case BlankCommand => name !in names && name != "" && Trimmed(c.command) == ""
    case LongCommand => name !in names && name != "" && Bytes(c.command) > COMMAND_MAX_BYTES
    case ZeroTimeout => Fits(c.(timeoutMs := 1), names) && c.timeoutMs == 0
    case _ => false
  }

  /** The command at `k` has the fault, and the commands before it have none. */
  predicate FirstFault(commands: seq<Command>, k: nat, e: CommandError) {
    && k < |commands|
    && FaultOf(commands[k], set j | 0 <= j < k :: Trimmed(commands[j].name), e)
    && (forall j | 0 <= j < k :: CommandOk(commands[j]))
    && NamesDistinct(commands[..k])
  }

  predicate TrueError(commands: seq<Command>, e: CommandError) {
    match e
    case NoCommands => commands == []
    case TooManyCommands => |commands| > MAX_COMMANDS
    case NotOneAcceptance => OnlyCountWrong(commands)
    case _ => exists k | 0 <= k < |commands| :: FirstFault(commands, k, e)
  }

  /** The checks of one command, given the names of the earlier ones. */
  method CheckCommand(c: Command, names: set<string>) returns (r: Option<CommandError>)
    ensures r.None? <==> Fits(c, names)
    ensures r.Some? ==> FaultOf(c, names, r.value)
  {
    r := if Trimmed(c.name) == "" then Some(BlankName)
    else if Bytes(Trimmed(c.name)) > NAME_MAX_BYTES then Some(LongName)
    else if Trimmed(c.name) in names then Some(DuplicateName)
    else if Trimmed(c.command) == "" then Some(BlankCommand)
    else if Bytes(c.command) > COMMAND_MAX_BYTES then Some(LongCommand)
    else if c.timeoutMs == 0 then Some(ZeroTimeout)
    else None;
  }

  /** The trimmed names, in order. */
  function Names(commands: seq<Command>): (names: seq<string>)
    ensures |names| == |commands|
  {
    seq(|commands|, i requires 0 <= i < |commands| => Trimmed(commands[i].name))
  }

  /** The first `n` names are distinct, and these. */
  predicate Lists(names: seq<string>, n: nat, seen: set<string>)
    requires n <= |names|
  {
    && (forall k | 0 <= k < n :: names[k] in seen)
    && (forall name | name in seen :: exists k | 0 <= k < n :: names[k] == name)
    && (forall j, k | 0 <= j < k < n :: names[j] != names[k])
  }

  lemma ListsOneMore(names: seq<string>, n: nat, seen: set<string>)
    requires n < |names| && Lists(names, n, seen) && names[n] !in seen
    ensures Lists(names, n + 1, seen + {names[n]})
  {
    forall name | name in seen + {names[n]} ensures exists k | 0 <= k < n + 1 :: names[k] == name {
      if name in seen {
        var k :| 0 <= k < n && names[k] == name;
      }
    }
  }

  lemma ListedTwice(commands: seq<Command>, n: nat, seen: set<string>)
    requires n < |commands| && Lists(Names(commands), n, seen) && Names(commands)[n] in seen
    ensures !NamesDistinct(commands)
  {
    var names := Names(commands);
    var k :| 0 <= k < n && names[k] == names[n];
    assert Trimmed(commands[k].name) == names[k];
  }

  /** What the loop knows after `n` commands. */
  predicate Checked(commands: seq<Command>, n: nat, seen: set<string>, count: nat)
    requires n <= |commands|
  {
    && Lists(Names(commands), n, seen)
    && (forall k | 0 <= k < n :: CommandOk(commands[k]))
    && count == |AcceptancesAt(commands, n)|
  }

  lemma NothingChecked(commands: seq<Command>)
    ensures Checked(commands, 0, {}, 0)
  {
  }

  lemma CheckedOneMore(commands: seq<Command>, n: nat, seen: set<string>, count: nat)
    requires n < |commands| && Checked(commands, n, seen, count) && Fits(commands[n], seen)
    ensures Checked(commands, n + 1, seen + {Trimmed(commands[n].name)},
                    count + if commands[n].kind == Acceptance then 1 else 0)
  {
    ListsOneMore(Names(commands), n, seen);
    OneMoreCounted(commands, n);
  }

  lemma FaultSpoils(commands: seq<Command>, n: nat, seen: set<string>, count: nat)
    requires n < |commands| && Checked(commands, n, seen, count) && !Fits(commands[n], seen)
    ensures !CommandsOk(commands)
  {
    if CommandOk(commands[n]) {
      ListedTwice(commands, n, seen);
    } else {
      assert commands[n] in commands;
    }
  }

  lemma FaultIsFirst(commands: seq<Command>, n: nat, seen: set<string>, count: nat, e: CommandError)
    requires n < |commands| && Checked(commands, n, seen, count) && FaultOf(commands[n], seen, e)
    ensures TrueError(commands, e)
  {
    var names, before := Names(commands), commands[..n];
    assert seen == set j | 0 <= j < n :: Trimmed(commands[j].name) by {
      assert forall j | 0 <= j < n :: names[j] == Trimmed(commands[j].name);
    }
    forall i, j | 0 <= i < j < n ensures Trimmed(before[i].name) != Trimmed(before[j].name) {
      assert names[i] != names[j];
    }
    assert FirstFault(commands, n, e);
  }

  lemma ListedAreDistinct(commands: seq<Command>, seen: set<string>)
    requires Lists(Names(commands), |commands|, seen)
    ensures NamesDistinct(commands)
  {
    var names := Names(commands);
    forall i, j | 0 <= i < j < |commands| ensures Trimmed(commands[i].name) != Trimmed(commands[j].name) {
      assert names[i] != names[j];
    }
  }

  lemma CountDecides(commands: seq<Command>, seen: set<string>, count: nat)
    requires 1 <= |commands| <= MAX_COMMANDS && Checked(commands, |commands|, seen, count)
    ensures CommandsOk(commands) <==> count == 1
    ensures count != 1 ==> OnlyCountWrong(commands)
  {
    OneMeansCountOne(commands);
    ListedAreDistinct(commands, seen);
  }

  /** `validate_verification_commands`: accepted exactly when the list is well formed, else the first fault. */
  method ValidateCommands(commands: seq<Command>) returns (r: Option<CommandError>)
    ensures r.None? <==> CommandsOk(commands)
    ensures r.Some? ==> TrueError(commands, r.value)
  {
    if commands == [] {
      return Some(NoCommands);
    }
    if |commands| > MAX_COMMANDS {
      return Some(TooManyCommands);
    }
    var names: set<string> := {};
    var acceptanceCount := 0;
    NothingChecked(commands);
    for i := 0 to |commands|
      invariant Checked(commands, i, names, acceptanceCount)
    {
      var fault := CheckCommand(commands[i], names);
      if fault.Some? {
        FaultSpoils(commands, i, names, acceptanceCount);
        FaultIsFirst(commands, i, names, acceptanceCount, fault.value);
        return fault;
      }
      CheckedOneMore(commands, i, names, acceptanceCount);
      names := names + {Trimmed(commands[i].name)};
      if commands[i].kind == Acceptance {
        acceptanceCount := acceptanceCount + 1;
      }
    }
    CountDecides(commands, names, acceptanceCount);
    r := if acceptanceCount != 1 then Some(NotOneAcceptance) else None;
  }
}
