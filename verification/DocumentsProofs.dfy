/**
 A comment list behaves like a map from titles to contents, as long as it is written with clean titles
 and contents and the list stays within what listing returns; outside that, exactly how it fails.
 */
module DocumentsProofs {
  import opened Basics
  import opened Text
  import opened Documents

  predicate NoArrow(s: string) { !Contains(s, ARROW) }

  /** A title that marks its comment unambiguously. */
  predicate CleanTitle(t: string) {
    t != "" && IsTrimmed(t, IsRustSpace) && NoArrow(t) && !Contains(t, PREFIX)
  }

  predicate CleanContent(c: string) {
    c != "" && IsTrimmed(c, IsRustSpace) && !Contains(c, PREFIX)
  }

  // ---------------------------------------------------------------- the first arrow

  lemma OccursMeans(s: string, sub: string, p: nat, k: nat)
    requires OccursAt(s, sub, p) && k < |sub|
    ensures s[p + k] == sub[k]
  {
    assert s[p..p + |sub|][k] == s[p + k];
  }

  /** In `t`, a space and an arrow, followed by anything, the first arrow is that one. */
  lemma FirstArrow(t: string, tail: string, p: nat)
    requires NoArrow(t) && OccursAt(t + " " + ARROW + tail, ARROW, p)
    ensures p >= |t| + 1
  {
    var s := t + " " + ARROW + tail;
    OccursMeans(s, ARROW, p, 0);
    OccursMeans(s, ARROW, p, 1);
    OccursMeans(s, ARROW, p, 2);
    if p + 3 <= |t| {
      assert t[p..p + 3] == s[p..p + 3];
      assert OccursAt(t, ARROW, p);
    }
  }

  lemma ArrowThere(t: string, tail: string)
    ensures OccursAt(t + " " + ARROW + tail, ARROW, |t| + 1)
  {
  }

  // ---------------------------------------------------------------- marker and parser undo each other

  /** A written document parses back to its title and content. */
  lemma ParseWritten(t: string, c: string)
    requires t != "" && IsTrimmed(t, IsRustSpace) && NoArrow(t) && c != "" && IsTrimmed(c, IsRustSpace)
    ensures ParseDocument(DocumentBody(t, c)) == Some((t, c))
  {
    var body := DocumentBody(t, c);
    var tail := GAP + c;
    var rest := t + " " + ARROW + tail;
    TrimOfTrimmed(t, IsRustSpace);
    assert body == PREFIX + rest;
    assert body[|PREFIX|..] == rest;
    ArrowThere(t, tail);
    var p := IndexFrom(rest, ARROW, 0).value;
    FirstArrow(t, tail, p);
    assert p == |t| + 1;
    assert rest[..p] == t + " " && rest[p + 3..] == tail;
    TrimEndsWithSpace(t);
    GapIsTrimmed(c);
  }

  lemma GapIsTrimmed(c: string)
    requires c != "" && IsTrimmed(c, IsRustSpace)
    ensures TrimStart(GAP + c, IsRustSpace) == c
  {
    var tail := GAP + c;
    assert tail[0] == '\n' && tail[1..] == "\n" + c;
    var line := "\n" + c;
    assert line[0] == '\n' && line[1..] == c;
    assert TrimStart(c, IsRustSpace) == c;
    assert TrimStart(line, IsRustSpace) == c;
  }

  lemma TrimEndsWithSpace(t: string)
    requires t != "" && IsTrimmed(t, IsRustSpace)
    ensures Trimmed(t + " ") == t
  {
    var s := t + " ";
    assert s[..|t|] == t && s[|s| - 1] == ' ' && s[0] == t[0];
    assert TrimStart(s, IsRustSpace) == s;
    assert TrimEnd(t, IsRustSpace) == t;
    assert TrimEnd(s, IsRustSpace) == t;
  }

  lemma ForeignDoesNotParse(body: string)
    requires !Contains(body, PREFIX)
    ensures ParseDocument(body) == None
  {
    if StartsWith(body, PREFIX) {
      assert OccursAt(body, PREFIX, 0);
    }
  }

  // ---------------------------------------------------------------- when a marker occurs in a document

  predicate IsSuffix(s: string, t: string) {
    |s| <= |t| && t[|t| - |s|..] == s
  }

  lemma PrefixHasOneBracket(k: nat)
    requires 0 < k < |PREFIX|
    ensures PREFIX[k] != '<'
  {
  }

  /**
   For titles without an arrow, the marker of `t` occurs in the document titled `u` exactly when the titles
   are equal, or `u` ends in an opened marker of `t`, or the content holds the marker.
   */
  lemma MarkerOccurs(t: string, u: string, c: string)
    requires IsTrimmed(t, IsRustSpace) && IsTrimmed(u, IsRustSpace) && NoArrow(t) && NoArrow(u)
    ensures Contains(DocumentBody(u, c), Marker(t))
            <==> t == u || IsSuffix(PREFIX + t, u) || Contains(c, Marker(t))
  {
    TrimOfTrimmed(t, IsRustSpace);
    TrimOfTrimmed(u, IsRustSpace);
    if t == u || IsSuffix(PREFIX + t, u) || Contains(c, Marker(t)) {
      MarkerOccursThen(t, u, c);
    }
    if Contains(DocumentBody(u, c), Marker(t)) {
      var p :| 0 <= p <= |DocumentBody(u, c)| && OccursAt(DocumentBody(u, c), Marker(t), p);
      OccurrenceMeans(t, u, c, p);
    }
  }

  lemma MarkerOccursThen(t: string, u: string, c: string)
    requires Trimmed(t) == t && Trimmed(u) == u
    requires t == u || IsSuffix(PREFIX + t, u) || Contains(c, Marker(t))
    ensures Contains(DocumentBody(u, c), Marker(t))
  {
    if t == u {
      assert OccursAt(DocumentBody(u, c), Marker(t), 0);
    } else if IsSuffix(PREFIX + t, u) {
      OpenedMarkerOccurs(t, u, c);
    } else {
      var q :| 0 <= q <= |c| && OccursAt(c, Marker(t), q);
      OccursLater(Marker(u) + GAP, c, Marker(t), q);
    }
  }

  lemma OpenedMarkerOccurs(t: string, u: string, c: string)
    requires Trimmed(t) == t && Trimmed(u) == u && IsSuffix(PREFIX + t, u)
    ensures Contains(DocumentBody(u, c), Marker(t))
  {
    var start := u[..|u| - |PREFIX + t|];
    var close := " " + ARROW;
    assert u == start + (PREFIX + t);
    assert Marker(t) == PREFIX + t + close && Marker(u) == PREFIX + u + close;
    assert Marker(u) == (PREFIX + start) + Marker(t);
    ThereItOccurs(PREFIX + start, Marker(t), GAP + c);
    assert (PREFIX + start) + Marker(t) + (GAP + c) == Marker(u) + GAP + c;
  }

  lemma OccursLater(before: string, s: string, sub: string, q: nat)
    requires OccursAt(s, sub, q)
    ensures Contains(before + s, sub)
  {
    assert (before + s)[|before| + q..|before| + q + |sub|] == s[q..q + |sub|];
    assert OccursAt(before + s, sub, |before| + q);
  }

  lemma ThereItOccurs(before: string, sub: string, after: string)
    ensures Contains(before + sub + after, sub)
  {
    assert OccursAt(before + sub + after, sub, |before|);
  }

  lemma OccurrenceMeans(t: string, u: string, c: string, p: nat)
    requires Trimmed(t) == t && Trimmed(u) == u && NoArrow(t) && NoArrow(u)
    requires OccursAt(DocumentBody(u, c), Marker(t), p)
    ensures t == u || IsSuffix(PREFIX + t, u) || Contains(c, Marker(t))
  {
    var body, m := DocumentBody(u, c), Marker(t);
    var e := |PREFIX| + |u| + 1;
    ArrowPosition(t, u, c, p);
    if p + |m| == e + 3 {
      SameEndMeans(t, u, c, p);
    } else {
      assert m[0] == '<';
      OccursMeans(body, m, p, 0);
      AfterMarker(u, c, p);
      var q: nat := p - |Marker(u)| - 2;
      assert body[|Marker(u)| + 2..] == c;
      assert c[q..q + |m|] == body[p..p + |m|];
      assert OccursAt(c, m, q);
    }
  }

  /** The arrow that ends the marker of `t` is the first one of the document, or lies beyond it altogether. */
  lemma ArrowPosition(t: string, u: string, c: string, p: nat)
    requires Trimmed(t) == t && Trimmed(u) == u && NoArrow(t) && NoArrow(u)
    requires OccursAt(DocumentBody(u, c), Marker(t), p)
    ensures var e := |PREFIX| + |u| + 1;
            p + |Marker(t)| == e + 3 || p > e
  {
    var body, m := DocumentBody(u, c), Marker(t);
    var e := |PREFIX| + |u| + 1;
    assert body == PREFIX + u + " " + ARROW + (GAP + c);
    MarkerArrows(t);
    OccursInside(body, m, p, ARROW, |m| - 3);
    PrefixHasNoArrow(u);
    FirstArrow(PREFIX + u, GAP + c, p + |m| - 3);
    ArrowThere(PREFIX + u, GAP + c);
    if p + |m| != e + 3 && p <= e {
      OccursInsideBack(body, m, p, ARROW, e - p);
    }
  }

  /** A marker has one arrow, at its end. */
  lemma MarkerArrows(t: string)
    requires Trimmed(t) == t && NoArrow(t)
    ensures OccursAt(Marker(t), ARROW, |Marker(t)| - 3)
    ensures forall k | 0 <= k < |Marker(t)| - 3 :: !OccursAt(Marker(t), ARROW, k)
  {
    PrefixHasNoArrow(t);
    assert Marker(t) == PREFIX + t + " " + ARROW + "";
    ArrowThere(PREFIX + t, "");
    forall k | 0 <= k < |Marker(t)| - 3 ensures !OccursAt(Marker(t), ARROW, k) {
      if OccursAt(Marker(t), ARROW, k) {
        FirstArrow(PREFIX + t, "", k);
      }
    }
  }

  lemma SliceOfSlice(s: string, p: nat, m: nat, k: nat, n: nat)
    requires p + m <= |s| && k + n <= m
    ensures s[p..p + m][k..k + n] == s[p + k..p + k + n]
  {
    var a, b := s[p..p + m][k..k + n], s[p + k..p + k + n];
    assert |a| == |b|;
    forall i | 0 <= i < n ensures a[i] == b[i] {
      assert a[i] == s[p..p + m][k + i] == s[p + (k + i)];
    }
  }

  lemma OccursInside(s: string, m: string, p: nat, sub: string, k: nat)
    requires OccursAt(s, m, p) && OccursAt(m, sub, k)
    ensures OccursAt(s, sub, p + k)
  {
    SliceOfSlice(s, p, |m|, k, |sub|);
  }

  lemma OccursInsideBack(s: string, m: string, p: nat, sub: string, k: nat)
    requires OccursAt(s, m, p) && OccursAt(s, sub, p + k) && k + |sub| <= |m|
    ensures OccursAt(m, sub, k)
  {
    SliceOfSlice(s, p, |m|, k, |sub|);
  }

  lemma PrefixHasNoArrow(t: string)
    requires NoArrow(t)
    ensures NoArrow(PREFIX + t)
  {
    forall p | 0 <= p <= |PREFIX + t| ensures !OccursAt(PREFIX + t, ARROW, p) {
      if OccursAt(PREFIX + t, ARROW, p) {
        OccursMeans(PREFIX + t, ARROW, p, 0);
        OccursMeans(PREFIX + t, ARROW, p, 1);
        OccursMeans(PREFIX + t, ARROW, p, 2);
        if p >= |PREFIX| {
          assert (PREFIX + t)[p..p + 3] == t[p - |PREFIX|..p - |PREFIX| + 3];
          assert OccursAt(t, ARROW, p - |PREFIX|);
        }
      }
    }
  }

  lemma AfterMarker(u: string, c: string, p: nat)
    requires Trimmed(u) == u && p < |DocumentBody(u, c)| && p > |PREFIX| + |u| + 1 && DocumentBody(u, c)[p] == '<'
    ensures p >= |Marker(u)| + 2
  {
  }

  lemma SameEndMeans(t: string, u: string, c: string, p: nat)
    requires Trimmed(t) == t && Trimmed(u) == u
    requires OccursAt(DocumentBody(u, c), Marker(t), p) && p + |Marker(t)| == |Marker(u)|
    ensures t == u || IsSuffix(PREFIX + t, u)
  {
    var body, m, n := DocumentBody(u, c), Marker(t), Marker(u);
    assert body[p..p + |m|] == n[p..];
    assert n == PREFIX + u + (" " + ARROW) && m == PREFIX + t + (" " + ARROW);
    if p == 0 {
      assert m[|PREFIX|..|m| - 4] == t && n[|PREFIX|..|n| - 4] == u;
    } else {
      assert n[p] == '<';
      if p < |PREFIX| {
        PrefixHasOneBracket(p);
      }
      assert n[p..|n| - 4] == u[p - |PREFIX|..];
      assert m[..|m| - 4] == PREFIX + t;
    }
  }

  // ---------------------------------------------------------------- the comment list as a map

  predicate IsDocument(body: string) {
    match ParseDocument(body)
    case None => false
    case Some((t, c)) => CleanTitle(t) && CleanContent(c) && body == DocumentBody(t, c)
  }

  predicate IsForeign(body: string) { !Contains(body, PREFIX) }

  function TitleOf(comment: Comment): Option<string> {
    if comment.body.Some? && ParseDocument(comment.body.value).Some?
    then Some(ParseDocument(comment.body.value).value.0) else None
  }

  /** Every comment is a clean document or has nothing to do with documents, and no title occurs twice. */
  ghost predicate Store(comments: seq<Comment>) {
    && (forall i | 0 <= i < |comments| :: comments[i].body.Some? ==>
          IsDocument(comments[i].body.value) || IsForeign(comments[i].body.value))
    && (forall i, j | 0 <= i < j < |comments| && TitleOf(comments[i]).Some? ::
          TitleOf(comments[i]) != TitleOf(comments[j]))
  }

  lemma ContainsTrans(s: string, m: string, sub: string)
    requires Contains(s, m) && StartsWith(m, sub)
    ensures Contains(s, sub)
  {
    var p :| 0 <= p <= |s| && OccursAt(s, m, p);
    assert s[p..p + |sub|] == s[p..p + |m|][..|sub|];
    assert OccursAt(s, sub, p);
  }

  /** In a store, the marker of a clean title occurs in the document with that title and nowhere else. */
  lemma MarkerFindsTitle(comment: Comment, t: string)
    requires CleanTitle(t)
    requires comment.body.Some? ==> IsDocument(comment.body.value) || IsForeign(comment.body.value)
    ensures comment.body.Some? && Contains(comment.body.value, Marker(t)) <==> TitleOf(comment) == Some(t)
  {
    if comment.body.Some? {
      var body := comment.body.value;
      if IsForeign(body) {
        ForeignDoesNotParse(body);
        if Contains(body, Marker(t)) {
          ContainsTrans(body, Marker(t), PREFIX);
        }
      } else {
        var (u, c) := ParseDocument(body).value;
        CleanCannotCollide(t, u, c);
      }
    }
  }

  lemma CleanCannotCollide(t: string, u: string, c: string)
    requires CleanTitle(t) && CleanTitle(u) && CleanContent(c)
    ensures Contains(DocumentBody(u, c), Marker(t)) <==> t == u
  {
    MarkerOccurs(t, u, c);
    if IsSuffix(PREFIX + t, u) {
      assert u == u[..|u| - |PREFIX + t|] + (PREFIX + t) + "";
      ThereItOccurs(u[..|u| - |PREFIX + t|], PREFIX + t, "");
      ContainsTrans(u, PREFIX + t, PREFIX);
    }
    if Contains(c, Marker(t)) {
      ContainsTrans(c, Marker(t), PREFIX);
    }
  }

  /** The comment a title is looked up in: the listed one with that title. */
  ghost predicate IsAt(comments: seq<Comment>, t: string, k: nat) {
    k < |comments| && TitleOf(comments[k]) == Some(t)
    && forall i | 0 <= i < k :: TitleOf(comments[i]) != Some(t)
  }

  ghost predicate Absent(comments: seq<Comment>, t: string) {
    forall i | 0 <= i < |comments| :: TitleOf(comments[i]) != Some(t)
  }

  lemma {:induction false} LookupFinds(comments: seq<Comment>, t: string, k: nat)
    requires IsAt(comments, t, k)
    ensures FindTitle(DocumentsIn(comments), t) == Some(ParseDocument(comments[k].body.value).value.1)
    decreases k
  {
    if k > 0 {
      assert TitleOf(comments[0]) != Some(t);
      LookupFinds(comments[1..], t, k - 1);
    }
    SkipFirst(comments, t);
  }

  lemma SkipFirst(comments: seq<Comment>, t: string)
    requires comments != []
    ensures TitleOf(comments[0]) != Some(t) ==>
              FindTitle(DocumentsIn(comments), t) == FindTitle(DocumentsIn(comments[1..]), t)
    ensures TitleOf(comments[0]) == Some(t) ==>
              FindTitle(DocumentsIn(comments), t) == Some(ParseDocument(comments[0].body.value).value.1)
  {
    var rest := DocumentsIn(comments[1..]);
    if TitleOf(comments[0]).Some? {
      var d := ParseDocument(comments[0].body.value).value;
      assert DocumentsIn(comments) == [d] + rest && ([d] + rest)[1..] == rest;
    } else {
      assert DocumentsIn(comments) == [] + rest == rest;
    }
  }

  lemma {:induction false} LookupMisses(comments: seq<Comment>, t: string)
    requires Absent(comments, t)
    ensures FindTitle(DocumentsIn(comments), t) == None
    decreases |comments|
  {
    if comments != [] {
      LookupMisses(comments[1..], t);
      SkipFirst(comments, t);
    }
  }

  /** The first listed comment with the marker is the one with the title. */
  lemma MarkedIsTitled(comments: seq<Comment>, t: string)
    requires Store(comments) && CleanTitle(t)
    ensures var r := FindMarked(comments, Marker(t), 0);
            if r.Some? then IsAt(comments, t, r.value) else Absent(comments, t)
  {
    forall i | 0 <= i < |comments|
      ensures comments[i].body.Some? && Contains(comments[i].body.value, Marker(t)) <==> TitleOf(comments[i]) == Some(t)
    {
      MarkerFindsTitle(comments[i], t);
    }
  }

  lemma MarkerIsTrimmed(t: string)
    ensures Trimmed(Marker(t)) == Marker(t)
  {
    TrimOfTrimmed(Marker(t), IsRustSpace);
  }

  lemma BodyHasMarker(t: string, c: string)
    ensures Contains(DocumentBody(t, c), Marker(t))
  {
    assert OccursAt(DocumentBody(t, c), Marker(t), 0);
  }

  /** What a write does to a store: the comment with the title gets the new text, or one comment is added. */
  lemma WriteShape(comments: seq<Comment>, title: string, content: string, id: nat)
    returns (t: string, c: string, after: seq<Comment>)
    requires Store(comments) && CleanTitle(Trimmed(title)) && CleanContent(Trimmed(content))
    ensures t == Trimmed(title) && c == Trimmed(content)
    ensures WriteDocument(comments, title, content, id) == Written(after)
    ensures IsDocument(DocumentBody(t, c)) && ParseDocument(DocumentBody(t, c)) == Some((t, c))
    ensures Absent(Listed(comments), t) ==> after == comments + [Comment(id, Some(DocumentBody(t, c)))]
    ensures !Absent(Listed(comments), t) ==>
              exists k :: 0 <= k < |Listed(comments)| && IsAt(comments, t, k)
                          && after == comments[k := Comment(comments[k].id, Some(DocumentBody(t, c)))]
  {
    t, c := Trimmed(title), Trimmed(content);
    after := WriteDocument(comments, title, content, id).comments;
    MarkerIsTrimmed(t);
    BodyHasMarker(t, c);
    ParseWritten(t, c);
    ListedIsStore(comments);
    MarkedIsTitled(Listed(comments), t);
    var r := FindMarked(Listed(comments), Marker(t), 0);
    if r.Some? {
      assert IsAt(comments, t, r.value);
    }
  }

  lemma ListedIsStore(comments: seq<Comment>)
    requires Store(comments)
    ensures Store(Listed(comments))
  {
  }

  /**
   One clean write to a store of at most 1000 comments. The store stays a store, so each title has at most one
   comment; every other title reads as before; the written title reads back as the trimmed content exactly when
   it was there already or a listed place was free; comments that are no documents are not touched.
   */
  lemma WriteIsMapUpdate(comments: seq<Comment>, title: string, content: string, id: nat)
    returns (after: seq<Comment>)
    requires Store(comments) && |comments| <= LIST_LIMIT
    requires CleanTitle(Trimmed(title)) && CleanContent(Trimmed(content))
    ensures WriteDocument(comments, title, content, id) == Written(after) && Store(after)
    ensures forall u | Trimmed(u) != Trimmed(title) :: ReadDocument(after, u) == ReadDocument(comments, u)
    ensures var kept := !Absent(comments, Trimmed(title)) || |comments| < LIST_LIMIT;
            ReadDocument(after, title) == if kept then Some(Trimmed(content)) else None
    ensures |after| == |comments| + (if Absent(comments, Trimmed(title)) then 1 else 0)
    ensures forall i | 0 <= i < |comments| && TitleOf(comments[i]) != Some(Trimmed(title)) :: after[i] == comments[i]
  {
    var t, c;
    t, c, after := WriteShape(comments, title, content, id);
    assert Listed(comments) == comments;
    var doc := Comment(id, Some(DocumentBody(t, c)));
    if Absent(comments, t) {
      AppendKeepsStore(comments, doc, t);
      AppendReads(comments, doc, t, c);
      AppendKeepsOthers(comments, doc, t);
    } else {
      var k :| 0 <= k < |comments| && IsAt(comments, t, k)
               && after == comments[k := Comment(comments[k].id, Some(DocumentBody(t, c)))];
      ReplaceIsUpdate(comments, k, after[k], t, c);
    }
  }

  /** Replacing the text of the comment with title `t`. */
  lemma ReplaceIsUpdate(comments: seq<Comment>, k: nat, comment: Comment, t: string, c: string)
    requires Store(comments) && |comments| <= LIST_LIMIT && IsAt(comments, t, k)
    requires comment.body.Some? && IsDocument(comment.body.value) && ParseDocument(comment.body.value) == Some((t, c))
    ensures var after := comments[k := comment];
            && Store(after)
            && FindTitle(DocumentsIn(Listed(after)), t) == Some(c)
            && (forall u | u != t :: FindTitle(DocumentsIn(Listed(after)), u) == FindTitle(DocumentsIn(comments), u))
            && (forall i | 0 <= i < |comments| && TitleOf(comments[i]) != Some(t) :: after[i] == comments[i])
  {
    var after := comments[k := comment];
    assert Listed(after) == after;
    assert forall i | 0 <= i < |comments| && i != k :: TitleOf(comments[i]) != Some(t);
    assert IsAt(after, t, k);
    LookupFinds(after, t, k);
    forall u | u != t ensures FindTitle(DocumentsIn(after), u) == FindTitle(DocumentsIn(comments), u) {
      SameTitlesRead(comments, after, k, u);
    }
  }

  lemma AppendKeepsStore(comments: seq<Comment>, comment: Comment, t: string)
    requires Store(comments) && Absent(comments, t) && TitleOf(comment) == Some(t)
    requires comment.body.Some? && IsDocument(comment.body.value)
    ensures Store(comments + [comment])
  {
  }

  lemma AppendReads(comments: seq<Comment>, comment: Comment, t: string, c: string)
    requires Absent(comments, t) && comment.body.Some? && ParseDocument(comment.body.value) == Some((t, c))
    requires |comments| <= LIST_LIMIT
    ensures FindTitle(DocumentsIn(Listed(comments + [comment])), t)
            == if |comments| < LIST_LIMIT then Some(c) else None
  {
    var after := comments + [comment];
    if |comments| < LIST_LIMIT {
      assert IsAt(after, t, |comments|);
      LookupFinds(after, t, |comments|);
    } else {
      assert Listed(after) == comments;
      LookupMisses(comments, t);
    }
  }

  lemma AppendKeepsOthers(comments: seq<Comment>, comment: Comment, t: string)
    requires TitleOf(comment) == Some(t) && |comments| <= LIST_LIMIT
    ensures forall u | u != t ::
              FindTitle(DocumentsIn(Listed(comments + [comment])), u) == FindTitle(DocumentsIn(comments), u)
  {
    forall u | u != t
      ensures FindTitle(DocumentsIn(Listed(comments + [comment])), u) == FindTitle(DocumentsIn(comments), u)
    {
      AppendKeepsOther(comments, comment, t, u);
    }
  }

  lemma AppendKeepsOther(comments: seq<Comment>, comment: Comment, t: string, u: string)
    requires TitleOf(comment) == Some(t) && u != t && |comments| <= LIST_LIMIT
    ensures FindTitle(DocumentsIn(Listed(comments + [comment])), u) == FindTitle(DocumentsIn(comments), u)
  {
    var after := comments + [comment];
    if |comments| == LIST_LIMIT {
      assert Listed(after) == comments;
    } else if Absent(comments, u) {
      assert Absent(after, u);
      LookupMisses(after, u);
      LookupMisses(comments, u);
    } else {
      var k := FirstAt(comments, u, 0);
      assert IsAt(after, u, k);
      LookupFinds(after, u, k);
      LookupFinds(comments, u, k);
    }
  }

  lemma FirstAt(comments: seq<Comment>, u: string, from: nat) returns (k: nat)
    requires from <= |comments| && !Absent(comments, u)
    requires forall i | 0 <= i < from :: TitleOf(comments[i]) != Some(u)
    ensures IsAt(comments, u, k)
    decreases |comments| - from
  {
    if TitleOf(comments[from]) == Some(u) {
      k := from;
    } else {
      k := FirstAt(comments, u, from + 1);
    }
  }

  /** Changing the text of one title does not change what other titles read as. */
  lemma SameTitlesRead(comments: seq<Comment>, after: seq<Comment>, k: nat, u: string)
    requires |after| == |comments| && k < |comments| && TitleOf(comments[k]) == TitleOf(after[k]) != Some(u)
    requires forall i | 0 <= i < |comments| && i != k :: after[i] == comments[i]
    ensures FindTitle(DocumentsIn(after), u) == FindTitle(DocumentsIn(comments), u)
  {
    if Absent(comments, u) {
      assert Absent(after, u);
      LookupMisses(after, u);
      LookupMisses(comments, u);
    } else {
      var j := FirstAt(comments, u, 0);
      assert IsAt(after, u, j);
      LookupFinds(after, u, j);
      LookupFinds(comments, u, j);
    }
  }

  // ---------------------------------------------------------------- whole runs of writes

  function WriteAll(comments: seq<Comment>, writes: seq<(string, string)>): seq<Comment> {
    if writes == [] then comments
    else
      var n := |writes| - 1;
      var before := WriteAll(comments, writes[..n]);
      var r := WriteDocument(before, writes[n].0, writes[n].1, |before|);
      if r.Written? then r.comments else before
  }

  function LastWritten(writes: seq<(string, string)>, t: string): Option<string> {
    if writes == [] then None
    else
      var n := |writes| - 1;
      if Trimmed(writes[n].0) == t then Some(Trimmed(writes[n].1)) else LastWritten(writes[..n], t)
  }

  /** The titles among the writes that no comment has yet. */
  ghost function NewTitles(comments: seq<Comment>, writes: seq<(string, string)>): set<string> {
    set i | 0 <= i < |writes| && Absent(comments, Trimmed(writes[i].0)) :: Trimmed(writes[i].0)
  }

  ghost predicate CleanWrites(writes: seq<(string, string)>) {
    forall i | 0 <= i < |writes| :: CleanTitle(Trimmed(writes[i].0)) && CleanContent(Trimmed(writes[i].1))
  }

  /** One more write adds its title, if no comment has it. */
  lemma NewTitlesGrow(comments: seq<Comment>, writes: seq<(string, string)>)
    requires writes != []
    ensures var n, t := |writes| - 1, Trimmed(writes[|writes| - 1].0);
            NewTitles(comments, writes) == NewTitles(comments, writes[..n]) + (if Absent(comments, t) then {t} else {})
  {
    var n, t := |writes| - 1, Trimmed(writes[|writes| - 1].0);
    var before, all := NewTitles(comments, writes[..n]), NewTitles(comments, writes);
    forall u | u in before ensures u in all {
      var i :| 0 <= i < n && Absent(comments, Trimmed(writes[..n][i].0)) && Trimmed(writes[..n][i].0) == u;
      assert writes[i] == writes[..n][i];
    }
    forall u | u in all && u != t ensures u in before {
      var i :| 0 <= i < |writes| && Absent(comments, Trimmed(writes[i].0)) && Trimmed(writes[i].0) == u;
      assert writes[..n][i] == writes[i];
    }
    forall u | u in all ensures Absent(comments, u) {
    }
    assert Absent(comments, t) ==> t in all;
  }

  lemma SubsetSize(a: set<string>, b: set<string>)
    requires a <= b
    ensures |a| <= |b|
  {
    assert b == a + (b - a);
  }

  /** After a write its title is there, and no other has come or gone. */
  lemma TitlesAfter(comments: seq<Comment>, title: string, content: string, id: nat)
    requires Store(comments) && |comments| <= LIST_LIMIT
    requires CleanTitle(Trimmed(title)) && CleanContent(Trimmed(content))
    ensures var r := WriteDocument(comments, title, content, id);
            r.Written? && forall u :: Absent(r.comments, u) <==> Absent(comments, u) && u != Trimmed(title)
  {
    var t, c, after := WriteShape(comments, title, content, id);
    assert Listed(comments) == comments;
    if Absent(comments, t) {
      TitlesAppended(comments, Comment(id, Some(DocumentBody(t, c))), t);
    } else {
      var k :| 0 <= k < |comments| && IsAt(comments, t, k)
               && after == comments[k := Comment(comments[k].id, Some(DocumentBody(t, c)))];
      TitlesReplaced(comments, k, after[k], t);
    }
  }

  lemma TitlesAppended(comments: seq<Comment>, comment: Comment, t: string)
    requires TitleOf(comment) == Some(t)
    ensures forall u :: Absent(comments + [comment], u) <==> Absent(comments, u) && u != t
  {
    var after := comments + [comment];
    forall u ensures Absent(after, u) <==> Absent(comments, u) && u != t {
      assert after[|comments|] == comment && forall i | 0 <= i < |comments| :: after[i] == comments[i];
    }
  }

  lemma TitlesReplaced(comments: seq<Comment>, k: nat, comment: Comment, t: string)
    requires k < |comments| && TitleOf(comments[k]) == TitleOf(comment) == Some(t)
    ensures forall u :: Absent(comments[k := comment], u) <==> Absent(comments, u) && u != t
  {
    var after := comments[k := comment];
    forall u ensures Absent(after, u) <==> Absent(comments, u) && u != t {
      assert forall i | 0 <= i < |comments| :: TitleOf(after[i]) == TitleOf(comments[i]);
      assert TitleOf(comments[k]) == Some(t);
    }
  }

  /** Room for all the writes is room for those before the last. */
  lemma RoomBefore(comments: seq<Comment>, writes: seq<(string, string)>)
    requires writes != [] && CleanWrites(writes)
    ensures CleanWrites(writes[..|writes| - 1])
    ensures |NewTitles(comments, writes[..|writes| - 1])| <= |NewTitles(comments, writes)|
  {
    NewTitlesGrow(comments, writes);
    SubsetSize(NewTitles(comments, writes[..|writes| - 1]), NewTitles(comments, writes));
  }

  /** After adding the titles `added` to those of `comments`, these are there. */
  ghost predicate HasAdded(comments: seq<Comment>, after: seq<Comment>, added: set<string>) {
    && |after| == |comments| + |added|
    && forall u :: Absent(after, u) <==> Absent(comments, u) && u !in added
  }

  lemma OneMoreAdded(comments: seq<Comment>, before: seq<Comment>, after: seq<Comment>, added: set<string>, t: string)
    requires HasAdded(comments, before, added)
    requires |after| == |before| + (if Absent(before, t) then 1 else 0)
    requires forall u :: Absent(after, u) <==> Absent(before, u) && u != t
    ensures HasAdded(comments, after, added + (if Absent(comments, t) then {t} else {}))
  {
    var more := added + (if Absent(comments, t) then {t} else {});
    if Absent(before, t) {
      assert t !in added && more == added + {t};
    } else {
      assert more == added;
    }
  }

  /** The writes add one comment for each new title. */
  lemma {:induction false} WritesAddTitles(comments: seq<Comment>, writes: seq<(string, string)>)
    requires Store(comments) && CleanWrites(writes)
    requires |comments| + |NewTitles(comments, writes)| <= LIST_LIMIT
    ensures Store(WriteAll(comments, writes))
    ensures HasAdded(comments, WriteAll(comments, writes), NewTitles(comments, writes))
    decreases |writes|
  {
    if writes != [] {
      var n := |writes| - 1;
      RoomBefore(comments, writes);
      WritesAddTitles(comments, writes[..n]);
      var before := WriteAll(comments, writes[..n]);
      var after := WriteIsMapUpdate(before, writes[n].0, writes[n].1, |before|);
      TitlesAfter(before, writes[n].0, writes[n].1, |before|);
      OneMoreAdded(comments, before, after, NewTitles(comments, writes[..n]), Trimmed(writes[n].0));
      NewTitlesGrow(comments, writes);
    }
  }

  lemma WritesFit(comments: seq<Comment>, writes: seq<(string, string)>)
    requires Store(comments) && CleanWrites(writes)
    requires |comments| + |NewTitles(comments, writes)| <= LIST_LIMIT
    ensures Store(WriteAll(comments, writes))
    ensures |WriteAll(comments, writes)| == |comments| + |NewTitles(comments, writes)| <= LIST_LIMIT
  {
    WritesAddTitles(comments, writes);
  }

  /**
   After any clean writes with room for their new titles, each title reads as last written, or as before, and
   the comments are as many as before and one more for each new title.
   */
  lemma {:induction false} WritesRefineMap(comments: seq<Comment>, writes: seq<(string, string)>, u: string)
    requires Store(comments) && CleanWrites(writes)
    requires |comments| + |NewTitles(comments, writes)| <= LIST_LIMIT
    ensures Store(WriteAll(comments, writes))
    ensures |WriteAll(comments, writes)| == |comments| + |NewTitles(comments, writes)|
    ensures ReadDocument(WriteAll(comments, writes), u)
            == match LastWritten(writes, Trimmed(u)) case Some(c) => Some(c) case None => ReadDocument(comments, u)
    decreases |writes|
  {
    WritesFit(comments, writes);
    if writes != [] {
      RoomBefore(comments, writes);
      WritesRefineMap(comments, writes[..|writes| - 1], u);
      LastWriteReads(comments, writes, u);
    }
  }

  /** What the last write does to one title. */
  lemma LastWriteReads(comments: seq<Comment>, writes: seq<(string, string)>, u: string)
    requires writes != [] && CleanWrites(writes)
    requires var before := WriteAll(comments, writes[..|writes| - 1]);
             Store(before) && |before| <= LIST_LIMIT && |WriteAll(comments, writes)| <= LIST_LIMIT
    ensures var n := |writes| - 1;
            ReadDocument(WriteAll(comments, writes), u)
            == if Trimmed(u) == Trimmed(writes[n].0) then Some(Trimmed(writes[n].1))
               else ReadDocument(WriteAll(comments, writes[..n]), u)
  {
    var n := |writes| - 1;
    var before := WriteAll(comments, writes[..n]);
    var after := WriteIsMapUpdate(before, writes[n].0, writes[n].1, |before|);
    assert ReadDocument(after, u) == FindTitle(DocumentsIn(Listed(after)), Trimmed(u));
  }

  // ---------------------------------------------------------------- where the map breaks

  predicate HasMarker(comment: Comment, t: string) {
    comment.body.Some? && Contains(comment.body.value, Marker(t))
  }

  /** The document with title `u` and content `c`, in comment `i`, is the first to have the marker of `t`. */
  ghost predicate IsHit(comments: seq<Comment>, i: nat, u: string, c: string, t: string)
    requires i < |comments|
  {
    (IsSuffix(PREFIX + t, u) || Contains(c, Marker(t))) && forall k | 0 <= k < i :: !HasMarker(comments[k], t)
  }

  lemma WhatIsFound(comments: seq<Comment>, i: nat, u: string, c: string, t: string)
    requires i < |Listed(comments)| && comments[i].body == Some(DocumentBody(u, c)) && t != u
    requires IsTrimmed(t, IsRustSpace) && IsTrimmed(u, IsRustSpace) && NoArrow(t) && NoArrow(u)
    ensures FindMarked(Listed(comments), Marker(t), 0) == Some(i) <==> IsHit(comments, i, u, c, t)
  {
    MarkerOccurs(t, u, c);
    var r := FindMarked(Listed(comments), Marker(t), 0);
    assert forall k | 0 <= k < i :: Listed(comments)[k] == comments[k];
    if r == Some(i) {
      assert HasMarker(comments[i], t);
    } else if IsHit(comments, i, u, c, t) {
      assert HasMarker(Listed(comments)[i], t);
      assert r.Some? && HasMarker(Listed(comments)[r.value], t);
    }
  }

  /**
   Whatever the other comments hold: a write under `t` takes the place of the listed document `u` exactly when
   that is the first comment with the marker of `t`, because its title ends in the opened marker or its content
   quotes the marker. Else that document is left alone and still read.
   */
  lemma WriteSparesOrHits(comments: seq<Comment>, i: nat, u: string, c: string, title: string, content: string, id: nat)
    returns (after: seq<Comment>)
    requires i < |Listed(comments)| && comments[i].body == Some(DocumentBody(u, c)) && u != "" && c != ""
    requires IsTrimmed(u, IsRustSpace) && NoArrow(u) && IsTrimmed(c, IsRustSpace)
    requires forall j | 0 <= j < |comments| && j != i :: TitleOf(comments[j]) != Some(u)
    requires Trimmed(title) != "" && Trimmed(title) != u && NoArrow(Trimmed(title)) && Trimmed(content) != ""
    ensures WriteDocument(comments, title, content, id) == Written(after) && |after| >= |comments|
    ensures var hit := IsHit(comments, i, u, c, Trimmed(title));
            && after[i].body == Some(if hit then DocumentBody(Trimmed(title), Trimmed(content)) else DocumentBody(u, c))
            && after[i].id == comments[i].id
            && ReadDocument(after, u) == if hit then None else Some(c)
  {
    var t, d := Trimmed(title), Trimmed(content);
    TrimTrims(title, IsRustSpace);
    TrimTrims(content, IsRustSpace);
    MarkerIsTrimmed(t);
    BodyHasMarker(t, d);
    WhatIsFound(comments, i, u, c, t);
    ParseWritten(t, d);
    ParseWritten(u, c);
    after := WriteDocument(comments, title, content, id).comments;
    var body := DocumentBody(t, d);
    var r := FindMarked(Listed(comments), Marker(t), 0);
    assert after == match r case Some(k) => comments[k := comments[k].(body := Some(body))]
                            case None => comments + [Comment(id, Some(body))];
    TrimOfTrimmed(u, IsRustSpace);
    StillRead(comments, after, i, u, c, t, r);
  }

  /** Where the new text went decides what is read under `u`. */
  lemma StillRead(comments: seq<Comment>, after: seq<Comment>, i: nat, u: string, c: string, t: string, r: Option<nat>)
    requires i < |Listed(comments)| && |after| >= |comments| && t != u
    requires comments[i].body.Some? && ParseDocument(comments[i].body.value) == Some((u, c))
    requires forall j | 0 <= j < |comments| && j != i :: TitleOf(comments[j]) != Some(u)
    requires forall j | 0 <= j < |after| ::
               if j == (if r.Some? then r.value else |comments|) then TitleOf(after[j]) == Some(t)
               else j < |comments| && after[j] == comments[j]
    ensures FindTitle(DocumentsIn(Listed(after)), u) == if r == Some(i) then None else Some(c)
  {
    if r == Some(i) {
      assert Absent(Listed(after), u);
      LookupMisses(Listed(after), u);
    } else {
      assert IsAt(Listed(after), u, i);
      LookupFinds(Listed(after), u, i);
    }
  }

  /** A title that ends in an opened marker loses its document to a write under the other title. */
  lemma OpenedMarkerIsOverwritten(start: string, t: string, c0: string, c1: string, id: nat)
    requires CleanTitle(t) && c0 != "" && c1 != "" && IsTrimmed(c0, IsRustSpace) && IsTrimmed(c1, IsRustSpace)
    requires start != "" && !IsRustSpace(start[0]) && NoArrow(start + PREFIX + t)
    ensures var u := start + PREFIX + t;
            var comments := [Comment(id, Some(DocumentBody(u, c0)))];
            && ReadDocument(comments, u) == Some(c0)
            && WriteDocument(comments, t, c1, id + 1) == Written([Comment(id, Some(DocumentBody(t, c1)))])
            && ReadDocument([Comment(id, Some(DocumentBody(t, c1)))], u) == None
  {
    var u := start + PREFIX + t;
    assert IsTrimmed(u, IsRustSpace);
    assert u[|start|..] == PREFIX + t;
    TrimOfTrimmed(u, IsRustSpace);
    TrimOfTrimmed(t, IsRustSpace);
    TrimOfTrimmed(c1, IsRustSpace);
    ParseWritten(u, c0);
    ParseWritten(t, c1);
    SingleRead(Comment(id, Some(DocumentBody(u, c0))), u);
    SingleRead(Comment(id, Some(DocumentBody(t, c1))), u);
    MarkerOccurs(t, u, c0);
    MarkerIsTrimmed(t);
    BodyHasMarker(t, c1);
    SingleUpsert(Comment(id, Some(DocumentBody(u, c0))), Marker(t), DocumentBody(t, c1), id + 1);
  }

  lemma SingleRead(comment: Comment, u: string)
    requires Trimmed(u) == u && comment.body.Some? && ParseDocument(comment.body.value).Some?
    ensures var d := ParseDocument(comment.body.value).value;
            ReadDocument([comment], u) == if d.0 == u then Some(d.1) else None
  {
    if TitleOf(comment) == Some(u) {
      LookupFinds([comment], u, 0);
    } else {
      LookupMisses([comment], u);
    }
  }

  lemma SingleUpsert(comment: Comment, marker: string, body: string, id: nat)
    requires Trimmed(marker) == marker != "" && Contains(body, marker)
    requires comment.body.Some? && Contains(comment.body.value, marker)
    ensures Upsert([comment], Some(marker), body, id) == [Comment(comment.id, Some(body))]
  {
  }

  /** Past 1000 comments a new title is added again by every write and is never read. */
  lemma PastLimitIsLost(comments: seq<Comment>, title: string, content: string, id: nat)
    requires Store(comments) && |comments| >= LIST_LIMIT && Absent(Listed(comments), Trimmed(title))
    requires CleanTitle(Trimmed(title)) && CleanContent(Trimmed(content))
    ensures var r := WriteDocument(comments, title, content, id);
            && r == Written(comments + [Comment(id, Some(DocumentBody(Trimmed(title), Trimmed(content))))])
            && ReadDocument(r.comments, title) == None
            && Listed(r.comments) == Listed(comments)
  {
    var t, c, after := WriteShape(comments, title, content, id);
    assert Listed(after) == Listed(comments);
    LookupMisses(Listed(comments), t);
  }
}
