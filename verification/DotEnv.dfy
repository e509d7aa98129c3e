/**
 Reading `.env` files: values with quotes, escapes and comments, and lines that never override.
 */
module DotEnv {
  import opened Basics
  import opened Text

  /** `trim` in JavaScript. */
  function ScriptTrimmed(s: string): string { Trim(s, IsScriptSpace) }

  // ---------------------------------------------------------------- values

  /** What a backslash and `c` stand for between double quotes. */
  function Unescaped(c: char): string {
    if c == 'n' then "\n"
    else if c == 'r' then "\r"
    else if c == 't' then "\t"
    else if c == '"' then "\""
    else if c == '\\' then "\\"
    else ['\\', c]
  }

  function Decode(value: string): string {
    if value == "" then ""
    else if value[0] != '\\' || |value| == 1 then [value[0]] + Decode(value[1..])
    else Unescaped(value[1]) + Decode(value[2..])
  }

  /** The index loop of `decodeDoubleQuotedDotEnvValue`. */
  method DecodeDoubleQuoted(value: string) returns (decoded: string)
    ensures decoded == Decode(value)
  {
    decoded := "";
    var index := 0;
    while index < |value|
      invariant index <= |value|
      invariant decoded + Decode(value[index..]) == Decode(value)
    {
      ghost var rest := value[index..];
      if value[index] != '\\' || index == |value| - 1 {
        assert rest[1..] == value[index + 1..];
        decoded := decoded + [value[index]];
        index := index + 1;
      } else {
        assert rest[2..] == value[index + 2..];
        decoded := decoded + Unescaped(value[index + 1]);
        index := index + 2;
      }
    }
  }

  /** A quote at `i` that closes the value; before it a backslash protects a double quote. */
  predicate Closes(value: string, i: nat)
    requires 0 < i < |value|
  {
    value[i] == value[0] && !(value[0] == '"' && value[i - 1] == '\\')
  }

  /** The first closing quote at or after `from`, or the length. */
  function FindClose(value: string, from: nat): (i: nat)
    requires 0 < from <= |value|
    ensures from <= i <= |value|
    ensures i < |value| ==> Closes(value, i)
    ensures forall k | from <= k < i :: !Closes(value, k)
    decreases |value| - from
  {
    if from == |value| || Closes(value, from) then from else FindClose(value, from + 1)
  }

  /** Where a comment starts: white space followed by `#`. */
  function FindComment(value: string, from: nat): (i: nat)
    requires from <= |value|
    ensures from <= i <= |value|
    ensures i < |value| ==> i + 1 < |value| && IsScriptSpace(value[i]) && value[i + 1] == '#'
    decreases |value| - from
  {
    if from == |value| then from
    else if from + 1 < |value| && IsScriptSpace(value[from]) && value[from + 1] == '#' then from
    else FindComment(value, from + 1)
  }

  predicate IsQuoted(value: string) {
    |value| >= 2 && (value[0] == '"' || value[0] == '\'')
  }

  /** After a closing quote only white space and a comment may follow. */
  predicate EndsAt(value: string, i: nat)
    requires i < |value|
  {
    var trailing := ScriptTrimmed(value[i + 1..]);
    trailing == "" || trailing[0] == '#'
  }

  function ParseValue(raw: string): string {
    var value := ScriptTrimmed(raw);
    var close := if IsQuoted(value) then FindClose(value, 1) else |value|;
    if close < |value| && EndsAt(value, close) then
      if value[0] == '"' then Decode(value[1..close]) else value[1..close]
    else ScriptTrimmed(value[..FindComment(value, 0)])
  }

  /** The scan for the closing quote in `parseDotEnvValue`. */
  method ParseDotEnvValue(raw: string) returns (result: string)
    ensures result == ParseValue(raw)
  {
    var value := ScriptTrimmed(raw);
    if |value| >= 2 {
      var quote := value[0];
      if quote == '"' || quote == '\'' {
        var index := 1;
        while index < |value|
          invariant 1 <= index <= |value|
          invariant FindClose(value, index) == FindClose(value, 1)
        {
          var escaped := quote == '"' && value[index - 1] == '\\';
          if value[index] == quote && !escaped {
            var trailing := ScriptTrimmed(value[index + 1..]);
            if trailing == "" || trailing[0] == '#' {
              var inner := value[1..index];
              if quote == '"' {
                result := DecodeDoubleQuoted(inner);
              } else {
                result := inner;
              }
              return;
            }
            break;
          }
          index := index + 1;
        }
      }
    }
    result := ScriptTrimmed(value[..FindComment(value, 0)]);
  }

  // ---------------------------------------------------------------- writing a value

  function EscapeChar(c: char): string {
    if c == '\n' then "\\n"
    else if c == '\r' then "\\r"
    else if c == '\t' then "\\t"
    else if c == '"' then "\\\""
    else if c == '\\' then "\\\\"
    else [c]
  }

  function Escape(s: string): string {
    if s == "" then "" else EscapeChar(s[0]) + Escape(s[1..])
  }

  function Quote(s: string): string {
    ['"'] + Escape(s) + ['"']
  }

  // ---------------------------------------------------------------- lines

  predicate IsKey(key: string) {
    key != "" && !IsDigit(key[0]) && forall c | c in key :: IsDigit(c) || 'A' <= c <= 'Z' || 'a' <= c <= 'z' || c == '_'
  }

  predicate NotEquals(c: char) { c != '=' }

  type Env = map<string, string>

  /** What one line defines, if anything. */
  function ReadLine(rawLine: string): Option<(string, string)> {
    var line := ScriptTrimmed(rawLine);
    if line == "" || line[0] == '#' then None
    else
      var separator := Span(line, NotEquals);
      if separator == 0 || separator == |line| then None
      else
        var key := ScriptTrimmed(line[..separator]);
        if IsKey(key) then Some((key, ParseValue(ScriptTrimmed(line[separator + 1..])))) else None
  }

  /**
   `inherited` are the names that read as set on any environment object, since objects inherit them, such as
   `constructor` and `toString`: a line that defines one is skipped.
   */
  function LoadLine(inherited: set<string>, env: Env, rawLine: string): Env {
    match ReadLine(rawLine)
    case None => env
    case Some((key, value)) => if key in env || key in inherited then env else env[key := value]
  }

  function LoadLines(inherited: set<string>, env: Env, lines: seq<string>): Env
    decreases |lines|
  {
    if lines == [] then env else LoadLines(inherited, LoadLine(inherited, env, lines[0]), lines[1..])
  }

  /** The loop over the lines of a file; `\r` before a line end is trimmed away with each line. */
  method LoadDotEnv(inherited: set<string>, start: Env, content: string) returns (env: Env)
    ensures env == LoadLines(inherited, start, SplitOn(content, '\n'))
  {
    var lines := SplitOn(content, '\n');
    env := start;
    for i := 0 to |lines|
      invariant LoadLines(inherited, env, lines[i..]) == LoadLines(inherited, start, lines)
    {
      assert lines[i..][1..] == lines[i + 1..];
      env := LoadLine(inherited, env, lines[i]);
    }
  }

  // ---------------------------------------------------------------- round trip of a value

  lemma DecodeOne(c: char, rest: string)
    ensures Decode(EscapeChar(c) + rest) == [c] + Decode(rest)
  {
    var e := EscapeChar(c);
    var s := e + rest;
    if |e| == 1 {
      assert s[1..] == rest;
    } else {
      assert s[2..] == rest && s[1] == e[1] && s[0] == '\\';
      assert Unescaped(e[1]) == [c];
    }
  }

  lemma {:induction false} DecodeEscape(s: string)
    ensures Decode(Escape(s)) == s
    decreases |s|
  {
    if s != "" {
      DecodeEscape(s[1..]);
      DecodeOne(s[0], Escape(s[1..]));
    }
  }

  /** Every double quote in an escaped text has a backslash before it. */
  lemma {:induction false} EscapedQuotesProtected(s: string, k: nat)
    requires k < |Escape(s)| && Escape(s)[k] == '"'
    ensures k > 0 && Escape(s)[k - 1] == '\\'
    decreases |s|
  {
    var e := EscapeChar(s[0]);
    if k >= |e| {
      EscapedQuotesProtected(s[1..], k - |e|);
    }
  }

  lemma {:induction false} EscapeEnd(s: string)
    requires s != ""
    ensures Escape(s) != ""
    ensures Escape(s)[|Escape(s)| - 1] == '\\' <==> s[|s| - 1] == '\\'
    decreases |s|
  {
    if |s| > 1 {
      EscapeEnd(s[1..]);
    } else {
      assert Escape(s) == EscapeChar(s[0]) + Escape(s[1..]) == EscapeChar(s[0]) + "";
    }
  }

  predicate EndsInBackslash(s: string) { s != "" && s[|s| - 1] == '\\' }

  lemma QuoteIsTrimmed(s: string)
    ensures ScriptTrimmed(Quote(s)) == Quote(s) && IsQuoted(Quote(s)) && |Quote(s)| == |Escape(s)| + 2
  {
    TrimOfTrimmed(Quote(s), IsScriptSpace);
  }

  /** The look-back finds the closing quote at the very end, or nowhere. */
  lemma CloseOfQuote(s: string)
    ensures FindClose(Quote(s), 1) == if EndsInBackslash(s) then |Quote(s)| else |Quote(s)| - 1
  {
    var value, e := Quote(s), Escape(s);
    forall k | 1 <= k < |value| - 1 ensures !Closes(value, k) {
      assert value[k] == e[k - 1];
      if e[k - 1] == '"' {
        EscapedQuotesProtected(s, k - 1);
        assert value[k - 1] == e[k - 2];
      }
    }
    if s != "" {
      EscapeEnd(s);
      assert value[|value| - 2] == e[|e| - 1];
    }
    assert Closes(value, |value| - 1) <==> !EndsInBackslash(s);
  }

  /** Quote and backslash: the characters an unlucky value would have to consist of. */
  predicate IsMark(c: char) { c == '"' || c == '\\' }

  lemma {:induction false} MarksDouble(s: string, n: nat)
    requires n <= |s| && forall k | 0 <= k < n :: IsMark(s[k])
    ensures |Escape(s)| >= 2 * n && forall k | 0 <= k < 2 * n :: IsMark(Escape(s)[k])
    decreases n
  {
    if n > 0 {
      MarksDouble(s[1..], n - 1);
      var e, rest := EscapeChar(s[0]), Escape(s[1..]);
      assert |e| == 2 && IsMark(e[0]) && IsMark(e[1]);
      forall k | 0 <= k < 2 * n ensures IsMark(Escape(s)[k]) {
        if k >= 2 {
          assert Escape(s)[k] == rest[k - 2];
        }
      }
    }
  }

  /** If a text begins its own quoted form, it consists of marks. */
  lemma {:induction false} SelfPrefixIsMarks(s: string, n: nat)
    requires n <= |s| && s != "" && |s| <= |Quote(s)| && Quote(s)[..|s|] == s
    ensures forall k | 0 <= k < n :: IsMark(s[k])
    decreases n
  {
    if n > 0 {
      SelfPrefixIsMarks(s, n - 1);
      var i := n - 1;
      assert s[i] == Quote(s)[i];
      if i > 0 {
        MarksDouble(s, i);
        assert Quote(s)[i] == Escape(s)[i - 1];
      }
    }
  }

  lemma SelfPrefixGoesOn(s: string)
    requires s != "" && |s| < |Quote(s)| && Quote(s)[..|s|] == s
    ensures !IsScriptSpace(Quote(s)[|s|])
  {
    var n := |s|;
    SelfPrefixIsMarks(s, n);
    MarksDouble(s, n);
    assert Quote(s)[n] == Escape(s)[n - 1];
    assert IsMark(Quote(s)[n]);
  }

  /** Cut at white space and trimmed, a text is what precedes some white space. */
  lemma TrimmedCut(value: string, i: nat)
    requires i < |value| && IsScriptSpace(value[i]) && !IsScriptSpace(value[0])
    ensures var t := ScriptTrimmed(value[..i]);
            |t| < |value| && t == value[..|t|] && IsScriptSpace(value[|t|])
  {
    var cut := value[..i];
    TrimEndCuts(cut, IsScriptSpace);
    var t := ScriptTrimmed(cut);
    assert t == cut[..|t|] == value[..|t|];
    if |t| < i {
      assert cut[|t|] == value[|t|];
    }
  }

  /** A quoted text with no closing quote is never read as the text. */
  lemma UnclosedIsNotText(s: string)
    requires EndsInBackslash(s)
    ensures ScriptTrimmed(Quote(s)[..FindComment(Quote(s), 0)]) != s
  {
    var value := Quote(s);
    var i := FindComment(value, 0);
    EscapeNotShorter(s);
    QuoteIsTrimmed(s);
    if i == |value| {
      assert value[..i] == value;
    } else {
      TrimmedCut(value, i);
      if ScriptTrimmed(value[..i]) == s {
        SelfPrefixGoesOn(s);
      }
    }
  }

  lemma {:induction false} EscapeNotShorter(s: string)
    ensures |Escape(s)| >= |s|
    decreases |s|
  {
    if s != "" {
      EscapeNotShorter(s[1..]);
    }
  }

  lemma {:induction false} TrimEndCuts(s: string, space: char -> bool)
    ensures var t := TrimEnd(s, space);
            |t| <= |s| && t == s[..|t|] && forall k | |t| <= k < |s| :: space(s[k])
    decreases |s|
  {
    if s != "" && space(s[|s| - 1]) {
      TrimEndCuts(s[..|s| - 1], space);
    }
  }

  /** Reading a quoted value gives the text back exactly when the text does not end in a backslash. */
  lemma QuoteRoundTrip(s: string)
    ensures ParseValue(Quote(s)) == s <==> !EndsInBackslash(s)
  {
    var value := Quote(s);
    QuoteIsTrimmed(s);
    CloseOfQuote(s);
    if EndsInBackslash(s) {
      UnclosedIsNotText(s);
    } else {
      assert value[|value|..] == "";
      assert value[1..|value| - 1] == Escape(s);
      DecodeEscape(s);
    }
  }

  // ---------------------------------------------------------------- loading

  lemma KeyIsTrimmed(key: string)
    requires IsKey(key)
    ensures ScriptTrimmed(key) == key && '=' !in key && key[0] != '#'
  {
    assert key[0] in key && key[|key| - 1] in key;
    TrimOfTrimmed(key, IsScriptSpace);
  }

  /** A written definition reads back. */
  lemma WrittenLineReads(key: string, value: string)
    requires IsKey(key) && !EndsInBackslash(value)
    ensures ReadLine(key + "=" + Quote(value)) == Some((key, value))
  {
    var q := Quote(value);
    var line := key + ("=" + q);
    assert key + "=" + q == line;
    KeyIsTrimmed(key);
    assert line[|line| - 1] == '"' && line[0] == key[0] && key[0] in key;
    TrimOfTrimmed(line, IsScriptSpace);
    SpanAppend(key, "=" + q, NotEquals);
    assert line[..|key|] == key && line[|key| + 1..] == q;
    QuoteIsTrimmed(value);
    QuoteRoundTrip(value);
  }

  /** What the lines define, each. */
  function ReadLines(lines: seq<string>): seq<Option<(string, string)>> {
    seq(|lines|, i requires 0 <= i < |lines| => ReadLine(lines[i]))
  }

  /** The first definition of `key`, if any. */
  function FirstOf(definitions: seq<Option<(string, string)>>, key: string): Option<string> {
    if definitions == [] then None
    else match definitions[0]
      case Some((k, v)) => if k == key then Some(v) else FirstOf(definitions[1..], key)
      case None => FirstOf(definitions[1..], key)
  }

  function Defined(lines: seq<string>, key: string): Option<string> {
    FirstOf(ReadLines(lines), key)
  }

  /** What was set stays; what is inherited is never set; else the first definition counts; nothing else appears. */
  lemma {:induction false} FirstDefinitionWins(inherited: set<string>, env: Env, lines: seq<string>, key: string)
    ensures var r := LoadLines(inherited, env, lines);
            if key in env then key in r && r[key] == env[key]
            else if key in inherited then key !in r
            else match Defined(lines, key)
                 case Some(v) => key in r && r[key] == v
                 case None => key !in r
    decreases |lines|
  {
    if lines != [] {
      assert ReadLines(lines)[1..] == ReadLines(lines[1..]);
      FirstDefinitionWins(inherited, LoadLine(inherited, env, lines[0]), lines[1..], key);
    }
  }

  function WrittenLines(entries: seq<(string, string)>): seq<string> {
    if entries == [] then [] else [entries[0].0 + "=" + Quote(entries[0].1)] + WrittenLines(entries[1..])
  }

  /**
   A file of quoted definitions sets a key that was unset to its first value, exactly unless the name is
   inherited; an inherited name stays unset.
   */
  lemma WrittenFileLoads(inherited: set<string>, env: Env, entries: seq<(string, string)>, i: nat)
    requires i < |entries| && entries[i].0 !in env
    requires forall k | 0 <= k < |entries| :: IsKey(entries[k].0) && !EndsInBackslash(entries[k].1)
    requires forall k | 0 <= k < i :: entries[k].0 != entries[i].0
    ensures var r := LoadLines(inherited, env, WrittenLines(entries));
            && (entries[i].0 in r <==> entries[i].0 !in inherited)
            && (entries[i].0 in r ==> r[entries[i].0] == entries[i].1)
  {
    DefinedInWritten(entries, i);
    FirstDefinitionWins(inherited, env, WrittenLines(entries), entries[i].0);
  }

  /** So `constructor="x"` does nothing where objects inherit that name. */
  lemma InheritedNameIsSkipped(inherited: set<string>, env: Env, key: string, value: string)
    requires key == "constructor" && key in inherited && !EndsInBackslash(value)
    ensures IsKey(key) && LoadLines(inherited, env, [key + "=" + Quote(value)]) == env
  {
    assert forall i | 0 <= i < |key| :: 'a' <= key[i] <= 'z';
    SkippedLine(inherited, env, key, value);
  }

  lemma SkippedLine(inherited: set<string>, env: Env, key: string, value: string)
    requires IsKey(key) && key in inherited && !EndsInBackslash(value)
    ensures LoadLines(inherited, env, [key + "=" + Quote(value)]) == env
  {
    var line := key + "=" + Quote(value);
    WrittenLineReads(key, value);
    OneLine(inherited, env, line);
  }

  lemma OneLine(inherited: set<string>, env: Env, line: string)
    ensures LoadLines(inherited, env, [line]) == LoadLine(inherited, env, line)
  {
    assert [line][1..] == [];
  }

  lemma DefinedInWritten(entries: seq<(string, string)>, i: nat)
    requires i < |entries|
    requires forall k | 0 <= k < |entries| :: IsKey(entries[k].0) && !EndsInBackslash(entries[k].1)
    requires forall k | 0 <= k < i :: entries[k].0 != entries[i].0
    ensures Defined(WrittenLines(entries), entries[i].0) == Some(entries[i].1)
  {
    var lines := WrittenLines(entries);
    WrittenLinesAre(entries);
    forall k | 0 <= k < |entries| ensures ReadLines(lines)[k] == Some(entries[k]) {
      WrittenLineReads(entries[k].0, entries[k].1);
    }
    FirstIsFirst(ReadLines(lines), entries, i);
  }

  lemma {:induction false} WrittenLinesAre(entries: seq<(string, string)>)
    ensures |WrittenLines(entries)| == |entries|
    ensures forall k | 0 <= k < |entries| :: WrittenLines(entries)[k] == entries[k].0 + "=" + Quote(entries[k].1)
    decreases |entries|
  {
    if entries != [] {
      WrittenLinesAre(entries[1..]);
    }
  }

  lemma {:induction false} FirstIsFirst(definitions: seq<Option<(string, string)>>, entries: seq<(string, string)>,
                                        i: nat)
    requires |definitions| == |entries| && forall k | 0 <= k < |entries| :: definitions[k] == Some(entries[k])
    requires i < |entries| && forall k | 0 <= k < i :: entries[k].0 != entries[i].0
    ensures FirstOf(definitions, entries[i].0) == Some(entries[i].1)
    decreases i
  {
    if i > 0 {
      FirstIsFirst(definitions[1..], entries[1..], i - 1);
    }
  }
}
