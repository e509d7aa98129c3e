/**
 The format of `.env` files: which texts are values, definitions and comments, and what they stand for.
 */
module DotEnvLaws {
  import opened Basics
  import opened Text
  import opened TextLaws
  import opened DotEnv

  // ---------------------------------------------------------------- escapes

  /** The five escapes. */
  ghost predicate StandsFor(c: char, decoded: char) {
    || (c == 'n' && decoded as int == 10)
    || (c == 'r' && decoded as int == 13)
    || (c == 't' && decoded as int == 9)
    || (c == '"' && decoded == c)
    || (c == '\\' && decoded == c)
  }

  ghost predicate IsEscape(c: char) { exists d :: StandsFor(c, d) }

  /**
   `text` decodes to `decoded`: escapes give what they stand for; other characters, a backslash that begins no
   escape and the character after it, and a backslash at the end give themselves.
   */
  ghost predicate Decodes(text: string, decoded: string)
    decreases |text|
  {
    if |text| <= 1 then decoded == text
    else if text[0] != '\\' then decoded != "" && decoded[0] == text[0] && Decodes(text[1..], decoded[1..])
    else if IsEscape(text[1]) then decoded != "" && StandsFor(text[1], decoded[0]) && Decodes(text[2..], decoded[1..])
    else |decoded| >= 2 && decoded[..2] == text[..2] && Decodes(text[2..], decoded[2..])
  }

  lemma EscapeMeans(c: char)
    ensures match Unescaped(c)
            case r => if IsEscape(c) then |r| == 1 && StandsFor(c, r[0]) else r == ['\\', c]
  {
    if c == 'n' || c == 'r' || c == 't' || c == '"' || c == '\\' {
      assert StandsFor(c, Unescaped(c)[0]);
    }
  }

  lemma {:induction false} DecodeMeans(text: string, decoded: string)
    ensures Decode(text) == decoded <==> Decodes(text, decoded)
    decreases |text|
  {
    if |text| <= 1 {
      DecodeShort(text);
    } else if text[0] != '\\' {
      if decoded != "" {
        DecodeMeans(text[1..], decoded[1..]);
        assert decoded == [decoded[0]] + decoded[1..];
      }
    } else {
      DecodeEscaped(text, decoded);
    }
  }

  lemma DecodeShort(text: string)
    requires |text| <= 1
    ensures Decode(text) == text
  {
    if text != "" {
      assert text[1..] == "" && text == [text[0]];
    }
  }

  lemma {:induction false} DecodeEscaped(text: string, decoded: string)
    requires |text| >= 2 && text[0] == '\\'
    ensures Decode(text) == decoded <==> Decodes(text, decoded)
    decreases |text|, 0
  {
    var c := text[1];
    var e := Unescaped(c);
    EscapeMeans(c);
    assert Decode(text) == e + Decode(text[2..]);
    if |decoded| >= |e| && decoded[..|e|] == e {
      DecodeMeans(text[2..], decoded[|e|..]);
      assert decoded == e + decoded[|e|..];
    }
    if IsEscape(c) {
      OnlyOneEscape(c);
      assert decoded != "" ==> decoded[..1] == [decoded[0]];
    } else {
      assert text[..2] == ['\\', c];
    }
  }

  lemma OnlyOneEscape(c: char)
    ensures forall a, b | StandsFor(c, a) && StandsFor(c, b) :: a == b
  {
  }

  // ---------------------------------------------------------------- values

  /** White space, and then perhaps a comment. */
  ghost predicate OnlyComment(s: string) {
    AllSpace(s, IsScriptSpace) || exists pre, rest :: AllSpace(pre, IsScriptSpace) && s == pre + "#" + rest
  }

  /** Between the quotes there is no quote that would close; in double quotes a backslash before one protects it. */
  predicate StaysOpen(q: char, inner: string) {
    if q == '"' then
      (forall k | 0 <= k < |inner| && inner[k] == '"' :: k > 0 && inner[k - 1] == '\\')
      && (inner != "" ==> inner[|inner| - 1] != '\\')
    else '\'' !in inner
  }

  /** A quoted value and what follows it. */
  ghost predicate IsQuotedAs(w: string, q: char, inner: string) {
    && (q == '"' || q == '\'') && StaysOpen(q, inner)
    && exists tail :: OnlyComment(tail) && w == [q] + inner + [q] + tail
  }

  lemma CommentMeans(s: string)
    ensures var t := ScriptTrimmed(s);
            (t == "" || t[0] == '#') <==> OnlyComment(s)
  {
    var t := ScriptTrimmed(s);
    TrimMeans(s, IsScriptSpace, t);
    var pre, post :| AllSpace(pre, IsScriptSpace) && AllSpace(post, IsScriptSpace) && s == pre + t + post;
    if t == "" {
      assert s == pre + post;
    } else if t[0] == '#' {
      assert s == pre + "#" + (t[1..] + post);
    } else {
      NotOnlyComment(s, pre, t, post);
    }
  }

  lemma NotOnlyComment(s: string, pre: string, t: string, post: string)
    requires s == pre + t + post && AllSpace(pre, IsScriptSpace) && t != "" && t[0] != '#' && !IsScriptSpace(t[0])
    ensures !OnlyComment(s)
  {
    assert s == pre + (t + post) && (t + post)[0] == t[0] && s[|pre|] == t[0] && s[|pre|] in s;
    FirstInk(pre, t + post);
    forall pre2, rest | AllSpace(pre2, IsScriptSpace) ensures s != pre2 + "#" + rest {
      FirstInk(pre2, "#" + rest);
      assert pre2 + "#" + rest == pre2 + ("#" + rest) && (pre2 + ("#" + rest))[|pre2|] == '#';
    }
  }

  /** White space goes as far as the first character that is none. */
  lemma FirstInk(pre: string, rest: string)
    requires AllSpace(pre, IsScriptSpace) && rest != "" && !IsScriptSpace(rest[0])
    ensures Span(pre + rest, IsScriptSpace) == |pre|
  {
    SpanAppend(pre, rest, IsScriptSpace);
  }

  /** The closing quote is found where the inner text ends. */
  lemma ClosesThere(w: string, q: char, inner: string, tail: string)
    requires (q == '"' || q == '\'') && StaysOpen(q, inner) && w == [q] + inner + [q] + tail
    ensures FindClose(w, 1) == |inner| + 1
  {
    var n := |inner| + 1;
    assert w[0] == q && w[n] == q;
    forall k | 1 <= k < n ensures !Closes(w, k) && w[k] == inner[k - 1] {
      assert w[k] == inner[k - 1] && inner[k - 1] in inner;
      if k > 1 {
        assert w[k - 1] == inner[k - 2];
      }
    }
    assert Closes(w, n);
  }

  lemma QuotedReads(raw: string, w: string, q: char, inner: string)
    requires IsBare(raw, IsScriptSpace, w) && IsQuotedAs(w, q, inner)
    ensures ParseValue(raw) == if q == '"' then Decode(inner) else inner
  {
    var tail :| OnlyComment(tail) && w == [q] + inner + [q] + tail;
    TrimMeans(raw, IsScriptSpace, w);
    ClosesThere(w, q, inner, tail);
    assert w[|inner| + 1 + 1..] == tail && w[1..|inner| + 1] == inner;
    CommentMeans(tail);
  }

  lemma InnerStaysOpen(w: string, n: nat, inner: string)
    requires IsQuoted(w) && 1 <= n < |w| && inner == w[1..n]
    requires Closes(w, n) && forall k | 1 <= k < n :: !Closes(w, k)
    ensures StaysOpen(w[0], inner)
  {
    assert forall k | 0 <= k < |inner| :: inner[k] == w[k + 1] && !Closes(w, k + 1);
  }

  /** If the scan finds an end, the value is quoted so. */
  lemma FoundIsQuoted(w: string)
    requires IsQuoted(w) && FindClose(w, 1) < |w| && EndsAt(w, FindClose(w, 1))
    ensures IsQuotedAs(w, w[0], w[1..FindClose(w, 1)])
  {
    var n := FindClose(w, 1);
    var inner, tail := w[1..n], w[n + 1..];
    InnerStaysOpen(w, n, inner);
    CommentMeans(tail);
    CutAt(w, n);
    QuotedAs(w, w[0], inner, tail);
  }

  lemma CutAt(w: string, n: nat)
    requires 1 <= n < |w|
    ensures w == [w[0]] + w[1..n] + [w[n]] + w[n + 1..]
  {
  }

  lemma QuotedAs(w: string, q: char, inner: string, tail: string)
    requires (q == '"' || q == '\'') && StaysOpen(q, inner) && OnlyComment(tail) && w == [q] + inner + [q] + tail
    ensures IsQuotedAs(w, q, inner)
  {
  }

  /** `s` has a comment that begins at `i`. */
  predicate CommentAt(s: string, i: int) { 0 <= i && i + 1 < |s| && IsScriptSpace(s[i]) && s[i + 1] == '#' }

  /** `cut` is what comes before the first comment, if there is one. */
  ghost predicate IsCut(w: string, cut: string) {
    && cut <= w
    && (forall i | 0 <= i < |cut| :: !CommentAt(w, i))
    && (|cut| < |w| ==> CommentAt(w, |cut|))
  }

  lemma {:induction false} CutMeans(w: string, from: nat)
    requires from <= |w|
    ensures var n := FindComment(w, from);
            (forall i | from <= i < n :: !CommentAt(w, i)) && (n < |w| ==> CommentAt(w, n))
    decreases |w| - from
  {
    if from < |w| && !CommentAt(w, from) {
      CutMeans(w, from + 1);
    }
  }

  /** A value that is not quoted so ends where its first comment begins. */
  lemma UnquotedReads(raw: string, w: string, cut: string)
    requires IsBare(raw, IsScriptSpace, w) && IsCut(w, cut)
    requires forall q, inner :: !IsQuotedAs(w, q, inner)
    ensures IsBare(cut, IsScriptSpace, ParseValue(raw))
  {
    TrimMeans(raw, IsScriptSpace, w);
    CutMeans(w, 0);
    assert FindComment(w, 0) == |cut| && w[..|cut|] == cut;
    if IsQuoted(w) && FindClose(w, 1) < |w| && EndsAt(w, FindClose(w, 1)) {
      FoundIsQuoted(w);
    }
    TrimMeans(cut, IsScriptSpace, ScriptTrimmed(cut));
  }

  /**
   What a raw value stands for: in quotes with at most a comment behind them, what is between them, decoded if they
   are double; else all up to the first comment, without white space around it.
   */
  ghost predicate ValueIs(raw: string, r: string) {
    exists w :: IsBare(raw, IsScriptSpace, w)
      && ((exists inner :: IsQuotedAs(w, '"', inner) && Decodes(inner, r))
          || IsQuotedAs(w, '\'', r)
          || ((forall q, inner :: !IsQuotedAs(w, q, inner)) && EndsWhereCut(w, r)))
  }

  ghost predicate EndsWhereCut(w: string, r: string) {
    exists cut :: IsCut(w, cut) && IsBare(cut, IsScriptSpace, r)
  }

  /** Every raw value is read as what it stands for, and as nothing else. */
  lemma ValueMeans(raw: string, r: string)
    ensures ParseValue(raw) == r <==> ValueIs(raw, r)
  {
    if ValueIs(raw, r) {
      ValueIsRead(raw, r);
    }
    ValueThere(raw);
  }

  lemma ValueIsRead(raw: string, r: string)
    requires ValueIs(raw, r)
    ensures ParseValue(raw) == r
  {
    var w :| IsBare(raw, IsScriptSpace, w)
      && ((exists inner :: IsQuotedAs(w, '"', inner) && Decodes(inner, r))
          || IsQuotedAs(w, '\'', r)
          || ((forall q, inner :: !IsQuotedAs(w, q, inner)) && EndsWhereCut(w, r)));
    if inner :| IsQuotedAs(w, '"', inner) && Decodes(inner, r) {
      QuotedReads(raw, w, '"', inner);
      DecodeMeans(inner, r);
    } else if IsQuotedAs(w, '\'', r) {
      QuotedReads(raw, w, '\'', r);
    } else {
      var cut :| IsCut(w, cut) && IsBare(cut, IsScriptSpace, r);
      UnquotedReads(raw, w, cut);
      BareIsUnique(cut, IsScriptSpace, r, ParseValue(raw));
    }
  }

  lemma ValueThere(raw: string)
    ensures ValueIs(raw, ParseValue(raw))
  {
    var w := ScriptTrimmed(raw);
    TrimMeans(raw, IsScriptSpace, w);
    if q, inner :| IsQuotedAs(w, q, inner) {
      QuotedReads(raw, w, q, inner);
      DecodeMeans(inner, Decode(inner));
    } else {
      CutMeans(w, 0);
      var cut := w[..FindComment(w, 0)];
      assert IsCut(w, cut);
      UnquotedReads(raw, w, cut);
      assert EndsWhereCut(w, ParseValue(raw));
    }
  }

  /** A value that begins with `#` is no comment: white space before it was trimmed away. */
  lemma HashIsKept(raw: string, text: string)
    requires IsBare(raw, IsScriptSpace, text) && text != "" && text[0] == '#'
    requires forall i | 0 <= i < |text| :: !CommentAt(text, i)
    ensures ParseValue(raw) == text
  {
    forall q, inner ensures !IsQuotedAs(text, q, inner) {
      if IsQuotedAs(text, q, inner) {
        QuoteIsFirst(text, q, inner);
      }
    }
    assert IsCut(text, text);
    UnquotedReads(raw, text, text);
    assert "" + text + "" == text;
    BareIsUnique(text, IsScriptSpace, text, ParseValue(raw));
  }

  lemma QuoteIsFirst(w: string, q: char, inner: string)
    requires IsQuotedAs(w, q, inner)
    ensures w != "" && w[0] == q != '#'
  {
  }

  // ---------------------------------------------------------------- lines

  /** A letter or underscore, then letters, digits and underscores. */
  predicate IsName(k: string) {
    && k != "" && ('A' <= k[0] <= 'Z' || 'a' <= k[0] <= 'z' || k[0] == '_')
    && forall i | 0 <= i < |k| :: 'A' <= k[i] <= 'Z' || 'a' <= k[i] <= 'z' || '0' <= k[i] <= '9' || k[i] == '_'
  }

  /** A definition: a name, an equals sign, and a value, with white space where it does not matter. */
  ghost predicate Defines(raw: string, key: string, value: string) {
    exists line, left, right ::
      IsBare(raw, IsScriptSpace, line) && line == left + "=" + right && '=' !in left
      && IsBare(left, IsScriptSpace, key) && IsName(key) && ValueIs(right, value)
  }

  lemma KeyMeans(k: string)
    ensures IsKey(k) <==> IsName(k)
  {
    if IsKey(k) {
      assert k[0] in k && forall i | 0 <= i < |k| :: k[i] in k;
    }
  }

  lemma ParseOfTrimmed(raw: string)
    ensures ParseValue(ScriptTrimmed(raw)) == ParseValue(raw)
  {
    TrimTrims(raw, IsScriptSpace);
    TrimOfTrimmed(ScriptTrimmed(raw), IsScriptSpace);
  }

  lemma FirstEquals(line: string, left: string, right: string)
    requires line == left + "=" + right && '=' !in left
    ensures Span(line, NotEquals) == |left| && line[..|left|] == left && line[|left| + 1..] == right
  {
    assert line == left + ("=" + right);
    SpanAppend(left, "=" + right, NotEquals);
  }

  /** A line that begins a name does not begin a comment. */
  lemma NameAhead(line: string, left: string, right: string, key: string)
    requires line == left + "=" + right && IsBare(left, IsScriptSpace, key) && IsName(key)
    requires line == "" || !IsScriptSpace(line[0])
    ensures left != "" && line != "" && line[0] != '#'
  {
    var pre, post :| AllSpace(pre, IsScriptSpace) && AllSpace(post, IsScriptSpace) && left == pre + key + post;
    assert left == pre + (key + post) && (key + post)[0] == key[0] && left[0] == line[0];
    FirstInk(pre, key + post);
    assert left[|pre|] == key[0];
  }

  lemma DefinitionReads(raw: string, line: string, left: string, right: string, key: string, value: string)
    requires IsBare(raw, IsScriptSpace, line) && line == left + "=" + right && '=' !in left
    requires IsBare(left, IsScriptSpace, key) && IsName(key) && ValueIs(right, value)
    ensures ReadLine(raw) == Some((key, value))
  {
    TrimMeans(raw, IsScriptSpace, line);
    FirstEquals(line, left, right);
    NameAhead(line, left, right, key);
    TrimMeans(left, IsScriptSpace, key);
    KeyMeans(key);
    ParseOfTrimmed(right);
    ValueMeans(right, value);
  }

  lemma DefinitionTaken(raw: string)
    requires ReadLine(raw).Some?
    ensures Defines(raw, ReadLine(raw).value.0, ReadLine(raw).value.1)
  {
    var line := ScriptTrimmed(raw);
    var n := Span(line, NotEquals);
    var left, right := line[..n], line[n + 1..];
    var key, value := ReadLine(raw).value.0, ReadLine(raw).value.1;
    TrimMeans(raw, IsScriptSpace, line);
    assert line == left + "=" + right && '=' !in left;
    TrimMeans(left, IsScriptSpace, key);
    KeyMeans(key);
    ParseOfTrimmed(right);
    ValueMeans(right, value);
  }

  /** A line is read as a definition exactly when it is one. */
  lemma LineMeans(raw: string, key: string, value: string)
    ensures ReadLine(raw) == Some((key, value)) <==> Defines(raw, key, value)
  {
    if Defines(raw, key, value) {
      var line, left, right :|
        IsBare(raw, IsScriptSpace, line) && line == left + "=" + right && '=' !in left
        && IsBare(left, IsScriptSpace, key) && IsName(key) && ValueIs(right, value);
      DefinitionReads(raw, line, left, right, key, value);
    }
    if ReadLine(raw).Some? {
      DefinitionTaken(raw);
    }
  }
}
