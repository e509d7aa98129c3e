/**
 The text of navigation keys: what each key means, and the key of each state.
 */
module NavigationLaws {
  import opened Basics
  import opened Text
  import opened TextLaws
  import opened NavigationKeys

  // ---------------------------------------------------------------- the texts

  predicate SaysSubpage(s: string, p: Subpage) {
    || (p.App? && s == "app") || (p.Appearance? && s == "appearance")
    || (p.Workspace? && s == "workspace") || (p.Channels? && s == "channels")
    || (p.Permissions? && s == "permissions") || (p.Labels? && s == "labels")
    || (p.Shortcuts? && s == "shortcuts") || (p.Preferences? && s == "preferences")
  }

  predicate SaysFilter(s: string, f: ChatFilter) {
    || (f.AllChats? && s == "allChats") || (f.Flagged? && s == "flagged")
    || (f.ByState? && s == "state:" + f.id) || (f.ByLabel? && s == "label:" + f.id)
    || (f.ByView? && s == "view:" + f.id)
  }

  /** The key of a state. */
  ghost predicate IsKeyOf(key: string, v: View) {
    match v
    case Sources(_, source) => key == if source.None? then "sources" else "sources/source/" + source.value
    case Skills(skill) => key == if skill.None? then "skills" else "skills/skill/" + skill.value
    case Settings(p) => exists s :: SaysSubpage(s, p) && key == "settings:" + s
    case Chats(f, session) =>
      exists s :: SaysFilter(s, f) && key == if session.None? then s else s + "/chat/" + session.value
  }

  /** Every state has this key and no other. */
  lemma KeyMeans(n: Navigation, key: string)
    ensures Key(n) == key <==> IsKeyOf(key, n.view)
  {
    match n.view
    case Settings(p) =>
      assert SaysSubpage(SubpageName(p), p);
      forall s | SaysSubpage(s, p) ensures s == SubpageName(p) {
      }
    case Chats(f, session) => ChatsKeyMeans(f, session, key);
    case _ =>
  }

  lemma FilterKeyMeans(f: ChatFilter, s: string)
    ensures FilterKey(f) == s <==> SaysFilter(s, f)
  {
  }

  lemma ChatsKeyMeans(f: ChatFilter, session: Option<string>, key: string)
    ensures Key(Navigation(Chats(f, session), None)) == key <==> IsKeyOf(key, Chats(f, session))
  {
    FilterKeyMeans(f, FilterKey(f));
    forall s | SaysFilter(s, f) ensures s == FilterKey(f) {
      FilterKeyMeans(f, s);
    }
  }

  // ---------------------------------------------------------------- what is parsed

  /** The pieces of a text between slashes. */
  ghost predicate ArePieces(key: string, pieces: seq<string>) {
    pieces != [] && Glued(pieces, '/') == key && forall p | p in pieces :: '/' !in p
  }

  ghost predicate HasChat(key: string) { exists front, back :: key == front + "/chat/" + back }

  /**
   What a key of chats stands for: without "/chat/" the filter it says; with it, the filter its first piece says
   and the session in its third piece, if there is one and it is not empty. Filters need a non-empty id.
   */
  ghost predicate StandsForChats(key: string, f: ChatFilter, session: Option<string>) {
    && (f.AllChats? || f.Flagged? || f.id != "")
    && (!HasChat(key) ==> SaysFilter(key, f) && session == None)
    && (HasChat(key) ==>
          exists pieces :: ArePieces(key, pieces) && SaysFilter(pieces[0], f)
                           && session == if |pieces| > 2 && pieces[2] != "" then Some(pieces[2]) else None)
  }

  /** What a key stands for. Settings without a page are the application's; an empty slug is none. */
  ghost predicate StandsFor(key: string, v: View) {
    match v
    case Sources(_, None) => v.sourceFilter == None && (key == "sources" || key == "sources/source/")
    case Sources(_, Some(slug)) => v.sourceFilter == None && slug != "" && key == "sources/source/" + slug
    case Skills(None) => key == "skills" || key == "skills/skill/"
    case Skills(Some(slug)) => slug != "" && key == "skills/skill/" + slug
    case Settings(p) => (key == "settings" && p == App) || exists s :: SaysSubpage(s, p) && key == "settings:" + s
    case Chats(f, session) => StandsForChats(key, f, session)
  }

  lemma HasChatMeans(key: string)
    ensures Contains(key, "/chat/") <==> HasChat(key)
  {
    if Contains(key, "/chat/") {
      var p :| 0 <= p <= |key| && OccursAt(key, "/chat/", p);
      assert key == key[..p] + "/chat/" + key[p + 6..];
    }
    if HasChat(key) {
      var front, back :| key == front + "/chat/" + back;
      assert OccursAt(key, "/chat/", |front|);
    }
  }

  lemma FilterMeans(s: string, f: ChatFilter)
    ensures ParseFilter(s) == Some(f) <==> SaysFilter(s, f) && (f.AllChats? || f.Flagged? || f.id != "")
  {
    FilterRoundTrip(f, s);
    FilterKeyMeans(f, s);
  }

  lemma PiecesMean(key: string, pieces: seq<string>)
    ensures pieces != [] ==> (SplitOn(key, '/') == pieces <==> ArePieces(key, pieces))
  {
    if pieces != [] {
      SplitMeans(key, '/', pieces);
    }
  }

  lemma ChatsMean(key: string, f: ChatFilter, session: Option<string>)
    ensures ParseChatsKey(key) == Some(Navigation(Chats(f, session), None)) <==> StandsForChats(key, f, session)
  {
    HasChatMeans(key);
    var parts := SplitOn(key, '/');
    PiecesMean(key, parts);
    FilterMeans(key, f);
    FilterMeans(parts[0], f);
    forall pieces | ArePieces(key, pieces) ensures pieces == parts {
      PiecesMean(key, pieces);
    }
  }

  lemma GluedStart(pieces: seq<string>, c: char) returns (rest: string)
    requires pieces != []
    ensures Glued(pieces, c) == pieces[0] + rest
  {
    if |pieces| == 1 {
      rest := "";
    } else {
      rest := [c] + Glued(pieces[1..], c);
    }
  }

  /** A chats key says its filter at its start. */
  lemma ChatsStart(key: string, f: ChatFilter, session: Option<string>) returns (rest: string)
    requires StandsForChats(key, f, session)
    ensures key == FilterKey(f) + rest
  {
    if HasChat(key) {
      var pieces :| ArePieces(key, pieces) && SaysFilter(pieces[0], f);
      FilterKeyMeans(f, pieces[0]);
      rest := GluedStart(pieces, '/');
    } else {
      FilterKeyMeans(f, key);
      rest := "";
    }
  }

  lemma ParseOfChats(key: string, f: ChatFilter, session: Option<string>)
    ensures Parse(key) == Some(Navigation(Chats(f, session), None)) <==> StandsForChats(key, f, session)
  {
    ChatsMean(key, f, session);
    if StandsForChats(key, f, session) {
      var rest := ChatsStart(key, f, session);
      ChatsKeyIsItsOwn(f, rest);
    }
  }

  lemma SubpageMeans(s: string, p: Subpage)
    ensures SubpageNamed(s) == Some(p) <==> SaysSubpage(s, p)
  {
  }

  lemma ParseOfSettings(key: string, p: Subpage)
    ensures Parse(key) == Some(Navigation(Settings(p), None)) <==> StandsFor(key, Settings(p))
  {
    if s :| SaysSubpage(s, p) && key == "settings:" + s {
      SubpageMeans(s, p);
      assert s == SubpageName(p);
      SettingsRoundTrip(p);
    }
    if Parse(key) == Some(Navigation(Settings(p), None)) && key != "settings" {
      SettingsTaken(key, p);
    }
  }

  lemma SettingsTaken(key: string, p: Subpage)
    requires Parse(key) == Some(Navigation(Settings(p), None)) && key != "settings"
    ensures SaysSubpage(key[|"settings:"|..], p) && key == "settings:" + key[|"settings:"|..]
  {
    PrefixedKey("settings:", key[9..], key);
    SubpageMeans(key[9..], p);
  }

  lemma ParseOfSources(key: string, source: Option<string>)
    ensures Parse(key) == Some(Navigation(Sources(None, source), None)) <==> StandsFor(key, Sources(None, source))
  {
    if StartsWith(key, "sources/source/") {
      assert key == "sources/source/" + key[15..];
    }
    if source.Some? {
      SourceRoundTrip(source.value);
    }
    SourceRoundTrip("");
    assert "sources/source/" + "" == "sources/source/";
  }

  lemma ParseOfSkills(key: string, skill: Option<string>)
    ensures Parse(key) == Some(Navigation(Skills(skill), None)) <==> StandsFor(key, Skills(skill))
  {
    if StartsWith(key, "skills/skill/") {
      assert key == "skills/skill/" + key[13..];
    }
    if skill.Some? {
      SkillRoundTrip(skill.value);
    }
    SkillRoundTrip("");
    assert "skills/skill/" + "" == "skills/skill/";
  }

  /** A key is parsed to a state exactly when it stands for it; no key shows or hides the sidebar. */
  lemma ParseMeans(key: string, n: Navigation)
    ensures Parse(key) == Some(n) <==> n.sidebar == None && StandsFor(key, n.view)
  {
    match n.view
    case Chats(f, session) => ParseOfChats(key, f, session);
    case Settings(p) => ParseOfSettings(key, p);
    case Sources(filter, source) => ParseOfSources(key, source);
    case Skills(skill) => ParseOfSkills(key, skill);
  }
}
