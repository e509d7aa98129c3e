/**
 Navigation states and the keys under which they are remembered.
 */
module NavigationKeys {
  import opened Basics
  import opened Text

  datatype ChatFilter = AllChats | Flagged | ByState(id: string) | ByLabel(id: string) | ByView(id: string)
  datatype SourceType = Api | Mcp | Local
  datatype Subpage = App | Appearance | Workspace | Channels | Permissions | Labels | Shortcuts | Preferences

  datatype View =
    | Chats(filter: ChatFilter, session: Option<string>)
    | Sources(sourceFilter: Option<SourceType>, source: Option<string>)
    | Settings(subpage: Subpage)
    | Skills(skill: Option<string>)

  datatype Navigation = Navigation(view: View, sidebar: Option<string>)

  function SubpageName(p: Subpage): string {
    match p
    case App => "app"
    case Appearance => "appearance"
    case Workspace => "workspace"
    case Channels => "channels"
    case Permissions => "permissions"
    case Labels => "labels"
    case Shortcuts => "shortcuts"
    case Preferences => "preferences"
  }

  function SubpageNamed(s: string): Option<Subpage> {
    if s == "app" then Some(App)
    else if s == "appearance" then Some(Appearance)
    else if s == "workspace" then Some(Workspace)
    else if s == "channels" then Some(Channels)
    else if s == "permissions" then Some(Permissions)
    else if s == "labels" then Some(Labels)
    else if s == "shortcuts" then Some(Shortcuts)
    else if s == "preferences" then Some(Preferences)
    else None
  }

  function FilterKey(f: ChatFilter): string {
    match f
    case AllChats => "allChats"
    case Flagged => "flagged"
    case ByState(id) => "state:" + id
    case ByLabel(id) => "label:" + id
    case ByView(id) => "view:" + id
  }

  /** `getNavigationStateKey` */
  function Key(n: Navigation): string {
    match n.view
    case Sources(_, None) => "sources"
    case Sources(_, Some(slug)) => "sources/source/" + slug
    case Skills(None) => "skills"
    case Skills(Some(slug)) => "skills/skill/" + slug
    case Settings(subpage) => "settings:" + SubpageName(subpage)
    case Chats(filter, None) => FilterKey(filter)
    case Chats(filter, Some(session)) => FilterKey(filter) + "/chat/" + session
  }

  function NonEmpty(s: string): Option<string> { if s == "" then None else Some(s) }

  function ParseFilter(key: string): Option<ChatFilter> {
    if key == "allChats" then Some(AllChats)
    else if key == "flagged" then Some(Flagged)
    else if StartsWith(key, "state:") then (if key[6..] == "" then None else Some(ByState(key[6..])))
    else if StartsWith(key, "label:") then (if key[6..] == "" then None else Some(ByLabel(key[6..])))
    else if StartsWith(key, "view:") then (if key[5..] == "" then None else Some(ByView(key[5..])))
    else None
  }

  function ParseChats(filterKey: string, session: Option<string>): Option<Navigation> {
    match ParseFilter(filterKey)
    case None => None
    case Some(filter) =>
      Some(Navigation(Chats(filter, if session == Some("") then None else session), None))
  }

  function ParseChatsKey(key: string): Option<Navigation> {
    if Contains(key, "/chat/") then
      var parts := SplitOn(key, '/');
      ParseChats(parts[0], if |parts| > 2 then Some(parts[2]) else None)
    else ParseChats(key, None)
  }

  /** `parseNavigationStateKey` */
  function Parse(key: string): Option<Navigation> {
    if key == "sources" then Some(Navigation(Sources(None, None), None))
    else if StartsWith(key, "sources/source/") then Some(Navigation(Sources(None, NonEmpty(key[15..])), None))
    else if key == "skills" then Some(Navigation(Skills(None), None))
    else if StartsWith(key, "skills/skill/") then Some(Navigation(Skills(NonEmpty(key[13..])), None))
    else if key == "settings" then Some(Navigation(Settings(App), None))
    else if StartsWith(key, "settings:") && SubpageNamed(key[9..]).Some? then
      Some(Navigation(Settings(SubpageNamed(key[9..]).value), None))
    else ParseChatsKey(key)
  }

  // ---------------------------------------------------------------- round trips

  /** What a key does not record. */
  function Remembered(n: Navigation): Navigation {
    Navigation(match n.view case Sources(_, source) => Sources(None, source) case v => v, None)
  }

  function FilterId(f: ChatFilter): Option<string> {
    if f.AllChats? || f.Flagged? then None else Some(f.id)
  }

  /** The states that survive: ids are not empty and cannot be confused with the separators around them. */
  predicate Survives(n: Navigation) {
    match n.view
    case Sources(_, source) => source != Some("")
    case Skills(skill) => skill != Some("")
    case Settings(_) => true
    case Chats(filter, session) =>
      FilterId(filter) != Some("")
      && (match session
          case None => FilterId(filter).Some? ==> !Contains(FilterId(filter).value, "/chat/")
          case Some(s) => s != "" && '/' !in s && (FilterId(filter).Some? ==> '/' !in FilterId(filter).value))
  }

  lemma SubpageRoundTrip(p: Subpage)
    ensures SubpageNamed(SubpageName(p)) == Some(p)
  {
  }

  /** Filters and their keys determine each other, but for empty ids. */
  lemma FilterRoundTrip(f: ChatFilter, key: string)
    ensures ParseFilter(key) == Some(f) <==> key == FilterKey(f) && FilterId(f) != Some("")
  {
    match f {
      case ByState(id) => PrefixedKey("state:", id, key);
      case ByLabel(id) => PrefixedKey("label:", id, key);
      case ByView(id) => PrefixedKey("view:", id, key);
      case _ =>
    }
    FilterKeyStart(f);
    if key != "" {
      StartsDiffer(key, "allChats");
      StartsDiffer(key, "flagged");
      StartsDiffer(key, "state:");
      StartsDiffer(key, "label:");
      StartsDiffer(key, "view:");
    }
  }

  lemma FilterKeyStart(f: ChatFilter)
    ensures FilterKey(f) != ""
    ensures FilterKey(f)[0] == match f
            case AllChats => 'a'
            case Flagged => 'f'
            case ByState(_) => 's'
            case ByLabel(_) => 'l'
            case ByView(_) => 'v'
  {
  }

  lemma StartsDiffer(key: string, prefix: string)
    requires key != "" && prefix != ""
    ensures key[0] != prefix[0] ==> !StartsWith(key, prefix) && key != prefix
  {
  }

  lemma PrefixedKey(prefix: string, id: string, key: string)
    ensures key == prefix + id <==> StartsWith(key, prefix) && key[|prefix|..] == id
  {
    if StartsWith(key, prefix) {
      assert key == key[..|prefix|] + key[|prefix|..];
    }
  }

  /** No chat key is taken for one of the other kinds. */
  lemma ChatsKeyIsItsOwn(f: ChatFilter, rest: string)
    ensures Parse(FilterKey(f) + rest) == ParseChatsKey(FilterKey(f) + rest)
  {
    var key := FilterKey(f) + rest;
    assert key[0] == FilterKey(f)[0] && key[1] == FilterKey(f)[1];
    assert !StartsWith(key, "so") && !StartsWith(key, "sk") && !StartsWith(key, "se");
    assert "sources/source/"[..2] == "so" && "skills/skill/"[..2] == "sk" && "settings:"[..2] == "se";
  }

  lemma FilterKeyHasSlash(f: ChatFilter)
    ensures '/' in FilterKey(f) <==> FilterId(f).Some? && '/' in FilterId(f).value
    ensures Contains(FilterKey(f), "/chat/") <==> FilterId(f).Some? && Contains(FilterId(f).value, "/chat/")
  {
    match f
    case ByState(id) => InnerOccurrence("state:", id);
    case ByLabel(id) => InnerOccurrence("label:", id);
    case ByView(id) => InnerOccurrence("view:", id);
    case _ =>
      if Contains(FilterKey(f), "/chat/") {
        ContainsHasChar(FilterKey(f), "/chat/");
      }
  }

  lemma InnerOccurrence(prefix: string, id: string)
    requires '/' !in prefix
    ensures Contains(prefix + id, "/chat/") <==> Contains(id, "/chat/")
  {
    var s := prefix + id;
    if Contains(s, "/chat/") {
      var p :| 0 <= p <= |s| && OccursAt(s, "/chat/", p);
      assert s[p] == s[p..p + 6][0] == '/';
      assert p >= |prefix|;
      assert id[p - |prefix|..p - |prefix| + 6] == s[p..p + 6];
      assert OccursAt(id, "/chat/", p - |prefix|);
    }
    if Contains(id, "/chat/") {
      var p :| 0 <= p <= |id| && OccursAt(id, "/chat/", p);
      assert OccursAt(s, "/chat/", p + |prefix|) by {
        assert s[p + |prefix|..p + |prefix| + 6] == id[p..p + 6];
      }
    }
  }

  lemma {:induction false} FirstPiece(s: string, c: char)
    ensures |SplitOn(s, c)[0]| <= |s|
    ensures SplitOn(s, c)[0] == s <==> c !in s
    ensures SplitOn(s, c)[0] <= s
    decreases |s|
  {
    if s != "" && s[0] != c {
      FirstPiece(s[1..], c);
      assert SplitOn(s, c)[0] == [s[0]] + SplitOn(s[1..], c)[0];
      assert s == [s[0]] + s[1..];
    }
  }

  lemma SplitAround(a: string, c: char, mid: string, b: string)
    requires c !in mid
    ensures SplitOn(a + [c] + (mid + [c] + b), c) == SplitOn(a, c) + ([mid] + SplitOn(b, c))
  {
    SplitOnConcat(a, mid + [c] + b, c);
    SplitOnConcat(mid, b, c);
  }

  /** How a chat key with a session is cut. */
  lemma SessionCut(base: string, session: string)
    ensures SplitOn(base + "/chat/" + session, '/') == SplitOn(base, '/') + (["chat"] + SplitOn(session, '/'))
  {
    assert '/' !in "chat";
    SplitAround(base, '/', "chat", session);
    RegroupChat(base, session);
  }

  lemma RegroupChat(base: string, session: string)
    ensures base + "/chat/" + session == base + ['/'] + ("chat" + ['/'] + session)
  {
    assert "/chat/" == ['/'] + "chat" + ['/'];
  }

  lemma SessionPieces(base: string, session: string)
    ensures Contains(base + "/chat/" + session, "/chat/")
    ensures '/' !in base ==> |SplitOn(base + "/chat/" + session, '/')| > 2
                             && SplitOn(base + "/chat/" + session, '/')[0] == base
                             && SplitOn(base + "/chat/" + session, '/')[2] == SplitOn(session, '/')[0]
    ensures '/' in base ==> SplitOn(base + "/chat/" + session, '/')[0] == SplitOn(base, '/')[0]
  {
    assert OccursAt(base + "/chat/" + session, "/chat/", |base|);
    SessionCut(base, session);
    ThreePieces(SplitOn(base, '/'), SplitOn(session, '/'));
  }

  lemma ThreePieces(a: seq<string>, b: seq<string>)
    requires a != [] && b != []
    ensures (a + (["chat"] + b))[0] == a[0]
    ensures |a| == 1 ==> |a + (["chat"] + b)| > 2 && (a + (["chat"] + b))[2] == b[0]
  {
  }

  lemma ChatsRoundTrip(f: ChatFilter, session: Option<string>)
    ensures var n := Navigation(Chats(f, session), None);
            Parse(Key(n)) == Some(n) <==> Survives(n)
  {
    var n := Navigation(Chats(f, session), None);
    var base := FilterKey(f);
    FilterKeyHasSlash(f);
    FilterRoundTrip(f, base);
    match session
    case None =>
      assert base + "" == base;
      ChatsKeyIsItsOwn(f, "");
      FilterRoundTrip(f, SplitOn(base, '/')[0]);
      if Contains(base, "/chat/") {
        ContainsHasChar(base, "/chat/");
        FirstPiece(base, '/');
      }
    case Some(s) =>
      assert base + "/chat/" + s == base + ("/chat/" + s);
      ChatsKeyIsItsOwn(f, "/chat/" + s);
      SessionPieces(base, s);
      FirstPiece(s, '/');
      FirstPiece(base, '/');
      FilterRoundTrip(f, SplitOn(base, '/')[0]);
  }

  lemma ContainsHasChar(s: string, sub: string)
    requires sub != "" && Contains(s, sub)
    ensures sub[0] in s
  {
    var p :| 0 <= p <= |s| && OccursAt(s, sub, p);
    assert s[p] == s[p..p + |sub|][0];
  }

  /** Keys of the other kinds are told apart by their second character. */
  lemma SecondCharacter(key: string, prefix: string)
    requires |key| > 1 && |prefix| > 1 && key[1] != prefix[1]
    ensures !StartsWith(key, prefix) && key != prefix
  {
  }

  lemma PrefixedParts(prefix: string, rest: string)
    ensures StartsWith(prefix + rest, prefix) && (prefix + rest)[|prefix|..] == rest
  {
  }

  lemma SourceRoundTrip(slug: string)
    ensures Parse("sources/source/" + slug) == Some(Navigation(Sources(None, NonEmpty(slug)), None))
  {
    PrefixedParts("sources/source/", slug);
    assert |"sources/source/" + slug| > |"sources"|;
  }

  lemma SkillRoundTrip(slug: string)
    ensures Parse("skills/skill/" + slug) == Some(Navigation(Skills(NonEmpty(slug)), None))
  {
    var key := "skills/skill/" + slug;
    PrefixedParts("skills/skill/", slug);
    assert key[1] == 'k' && "sources/source/"[1] == 'o';
    SecondCharacter(key, "sources/source/");
    SecondCharacter(key, "sources");
    assert |key| > |"skills"|;
  }

  lemma SettingsRoundTrip(subpage: Subpage)
    ensures Parse("settings:" + SubpageName(subpage)) == Some(Navigation(Settings(subpage), None))
  {
    var key := "settings:" + SubpageName(subpage);
    SubpageRoundTrip(subpage);
    PrefixedParts("settings:", SubpageName(subpage));
    assert key[1] == 'e';
    SecondCharacter(key, "sources/source/");
    SecondCharacter(key, "sources");
    SecondCharacter(key, "skills/skill/");
    SecondCharacter(key, "skills");
    assert |key| > |"settings"|;
  }

  /** Parsing the key of a state gives back what the key records, exactly for the states that survive. */
  lemma StateRoundTrip(n: Navigation)
    ensures Parse(Key(n)) == Some(Remembered(n)) <==> Survives(n)
  {
    match n.view
    case Chats(f, session) => ChatsRoundTrip(f, session);
    case Settings(subpage) => SettingsRoundTrip(subpage);
    case Sources(_, Some(slug)) => SourceRoundTrip(slug);
    case Skills(Some(slug)) => SkillRoundTrip(slug);
    case _ =>
  }

  /** So surviving states with one key differ at most in what no key records. */
  lemma KeysInjective(a: Navigation, b: Navigation)
    requires Survives(a) && Survives(b) && Key(a) == Key(b)
    ensures Remembered(a) == Remembered(b)
  {
    StateRoundTrip(a);
    StateRoundTrip(b);
  }

  lemma ParsedChatsSurvive(key: string)
    requires ParseChatsKey(key).Some?
    ensures Survives(ParseChatsKey(key).value)
  {
    var parts := SplitOn(key, '/');
    if Contains(key, "/chat/") {
      assert parts[0] in parts;
      var f := ParseFilter(parts[0]).value;
      FilterRoundTrip(f, parts[0]);
      FilterKeyHasSlash(f);
      if |parts| > 2 {
        assert parts[2] in parts;
      }
      if FilterId(f).Some? && Contains(FilterId(f).value, "/chat/") {
        ContainsHasChar(FilterId(f).value, "/chat/");
      }
    } else {
      var f := ParseFilter(key).value;
      FilterRoundTrip(f, key);
      FilterKeyHasSlash(f);
    }
  }

  /** Whatever a string parses to survives: parsing, printing and parsing again is parsing once. */
  lemma ParseIsStable(key: string)
    requires Parse(key).Some?
    ensures Survives(Parse(key).value) && Parse(Key(Parse(key).value)) == Parse(key)
  {
    var n := Parse(key).value;
    if ParseChatsKey(key).Some? {
      ParsedChatsSurvive(key);
    }
    StateRoundTrip(n);
    assert Remembered(n) == n;
  }
}
