/**
 The text of a document comment, and which document a read gives.
 */
module DocumentLaws {
  import opened Basics
  import opened Text
  import opened TextLaws
  import opened Documents
  import opened DocumentsProofs

  ghost predicate NoArrowIn(s: string) { forall front, back :: s != front + "-->" + back }

  /** A body is that of a document if it is the opening, a title, the first arrow, and the content behind it. */
  ghost predicate IsDocumentText(body: string, title: string, content: string) {
    exists inside, rest ::
      body == "<!-- symphony:document:" + (inside + ("-->" + rest)) && NoArrowIn(inside + "--")
      && title == Bare(inside) && title != "" && content == TrimStart(rest, IsRustSpace)
  }

  lemma ArrowIsFirst(inside: string, rest: string)
    requires NoArrowIn(inside + "--")
    ensures IndexFrom(inside + ("-->" + rest), "-->", 0) == Some(|inside|)
  {
    var s := inside + ("-->" + rest);
    forall p | 0 <= p < |inside| ensures !OccursAt(s, "-->", p) {
      if OccursAt(s, "-->", p) {
        ArrowInside(inside, rest, p);
      }
    }
    FirstIsThere(inside, "-->", rest);
  }

  lemma FirstIsThere(inside: string, arrow: string, rest: string)
    requires forall p | 0 <= p < |inside| :: !OccursAt(inside + (arrow + rest), arrow, p)
    ensures IndexFrom(inside + (arrow + rest), arrow, 0) == Some(|inside|)
  {
    assert OccursAt(inside + (arrow + rest), arrow, |inside|);
  }

  lemma ArrowInside(inside: string, rest: string, p: nat)
    requires p < |inside| && OccursAt(inside + ("-->" + rest), "-->", p)
    ensures !NoArrowIn(inside + "--")
  {
    var s, t := inside + ("-->" + rest), inside + "--";
    assert s == t + (">" + rest) && s[p..p + 3] == t[p..p + 3];
    assert t == t[..p] + "-->" + t[p + 3..];
  }

  lemma FirstArrowIs(s: string, p: nat) returns (inside: string, rest: string)
    requires IndexFrom(s, "-->", 0) == Some(p)
    ensures s == inside + ("-->" + rest) && |inside| == p && NoArrowIn(inside + "--")
  {
    inside, rest := s[..p], s[p + 3..];
    assert s == inside + ("-->" + rest);
    forall front, back ensures inside + "--" != front + "-->" + back {
      if inside + "--" == front + "-->" + back {
        ArrowBefore(inside, rest, front, back);
      }
    }
  }

  lemma ArrowBefore(inside: string, rest: string, front: string, back: string)
    requires inside + "--" == front + "-->" + back
    ensures |front| < |inside| && OccursAt(inside + ("-->" + rest), "-->", |front|)
  {
    var q, t := |front|, inside + "--";
    assert t[q..q + 3] == "-->" && |t| == q + 3 + |back|;
    assert inside + ("-->" + rest) == t + (">" + rest);
    assert (t + (">" + rest))[q..q + 3] == t[q..q + 3];
  }

  lemma PrefixIs(s: string)
    ensures PREFIX + s == "<!-- symphony:document:" + s && ARROW == "-->"
    ensures StartsWith(PREFIX + s, PREFIX) && (PREFIX + s)[|PREFIX|..] == s
  {
  }

  /** A comment is read as a document exactly when its body is the text of one. */
  lemma DocumentMeans(body: string, title: string, content: string)
    ensures ParseDocument(body) == Some((title, content)) <==> IsDocumentText(body, title, content)
  {
    if IsDocumentText(body, title, content) {
      var inside, rest :|
        body == "<!-- symphony:document:" + (inside + ("-->" + rest)) && NoArrowIn(inside + "--")
        && title == Bare(inside) && title != "" && content == TrimStart(rest, IsRustSpace);
      TextIsRead(inside, rest);
      PrefixIs(inside + ("-->" + rest));
    }
    if ParseDocument(body) == Some((title, content)) {
      DocumentThere(body, title, content);
    }
  }

  lemma TextIsRead(inside: string, rest: string)
    requires NoArrowIn(inside + "--") && Bare(inside) != ""
    ensures ParseDocument(PREFIX + (inside + ("-->" + rest))) == Some((Bare(inside), TrimStart(rest, IsRustSpace)))
  {
    var s := inside + ("-->" + rest);
    PrefixIs(s);
    ArrowIsFirst(inside, rest);
    assert s[..|inside|] == inside && s[|inside| + 3..] == rest;
    TrimMeans(inside, IsRustSpace, Bare(inside));
  }

  lemma DocumentThere(body: string, title: string, content: string)
    requires ParseDocument(body) == Some((title, content))
    ensures IsDocumentText(body, title, content)
  {
    var s := body[|PREFIX|..];
    assert body == PREFIX + s;
    PrefixIs(s);
    var p := IndexFrom(s, ARROW, 0).value;
    var inside, rest := FirstArrowIs(s, p);
    assert s[..p] == inside && s[p + |ARROW|..] == rest;
    TrimMeans(inside, IsRustSpace, title);
    BareIsUnique(inside, IsRustSpace, title, Bare(inside));
  }

  /** A write is refused exactly for a title or content that is blank; else this text is upserted under its marker. */
  lemma WriteMeans(comments: seq<Comment>, title: string, content: string, newId: nat)
    ensures var r := WriteDocument(comments, title, content, newId);
            var marker := "<!-- symphony:document:" + Bare(title) + " -->";
            if Bare(title) == "" || Bare(content) == "" then r == MissingField
            else r == Written(Upsert(comments, Some(marker), marker + "\n\n" + Bare(content), newId))
  {
    TrimMeans(title, IsRustSpace, Bare(title));
    TrimMeans(content, IsRustSpace, Bare(content));
    MarkerIs(Bare(title));
    assert WriteDocument(comments, title, content, newId)
           == if Bare(title) == "" || Bare(content) == "" then MissingField
              else Written(Upsert(comments, Some(Marker(Bare(title))),
                                  Marker(Bare(title)) + GAP + Bare(content), newId));
  }

  lemma MarkerIs(t: string)
    requires t == "" || (!IsRustSpace(t[0]) && !IsRustSpace(t[|t| - 1]))
    ensures Marker(t) == "<!-- symphony:document:" + t + " -->" && GAP == "\n\n"
  {
    TrimOfTrimmed(t, IsRustSpace);
    assert PREFIX + t + " " + "-->" == "<!-- symphony:document:" + t + (" " + "-->");
  }

  /** A page holds a hundred items, and pages follow each other. */
  lemma PageMeans<T>(all: seq<T>, page: nat, i: nat)
    requires page >= 1
    ensures |Page(all, page)| <= 100 && (i < |Page(all, page)| <==> i < 100 && 100 * (page - 1) + i < |all|)
    ensures i < |Page(all, page)| ==> Page(all, page)[i] == all[100 * (page - 1) + i]
  {
  }

  ghost predicate IsDocumentComment(comment: Comment, title: string, content: string) {
    comment.body.Some? && IsDocumentText(comment.body.value, title, content)
  }

  ghost predicate HasTitle(comment: Comment, title: string) { exists c :: IsDocumentComment(comment, title, c) }

  /** The first of the comments that is a document with the title has this content. */
  ghost predicate FirstSays(comments: seq<Comment>, title: string, content: string) {
    exists k :: 0 <= k < |comments| && IsDocumentComment(comments[k], title, content)
                && forall i | 0 <= i < k :: !HasTitle(comments[i], title)
  }

  lemma FoundIsFirst(comments: seq<Comment>, title: string, content: string)
    ensures FindTitle(DocumentsIn(comments), title) == Some(content) <==> FirstSays(comments, title, content)
  {
    TitlesMean(comments, title);
    if FirstSays(comments, title, content) {
      var k: nat :| k < |comments| && IsDocumentComment(comments[k], title, content)
                    && forall i | 0 <= i < k :: !HasTitle(comments[i], title);
      TitleMeans(comments[k], title);
      LookupFinds(comments, title, k);
    }
    if Absent(comments, title) {
      LookupMisses(comments, title);
    } else {
      var k := FirstAt(comments, title, 0);
      LookupFinds(comments, title, k);
      TitleMeans(comments[k], title);
      DocumentMeans(comments[k].body.value, title, ParseDocument(comments[k].body.value).value.1);
    }
  }

  lemma TitlesMean(comments: seq<Comment>, title: string)
    ensures forall i | 0 <= i < |comments| :: TitleOf(comments[i]) == Some(title) <==> HasTitle(comments[i], title)
  {
    forall i | 0 <= i < |comments| ensures TitleOf(comments[i]) == Some(title) <==> HasTitle(comments[i], title) {
      TitleMeans(comments[i], title);
    }
  }

  /** Reading a title gives the content of the first of the listed 1000 comments that has it, if any has. */
  lemma ReadMeans(comments: seq<Comment>, title: string, content: string)
    ensures var listed := if |comments| <= 1000 then comments else comments[..1000];
            ReadDocument(comments, title) == Some(content) <==> FirstSays(listed, Bare(title), content)
  {
    TrimMeans(title, IsRustSpace, Bare(title));
    FoundIsFirst(Listed(comments), Bare(title), content);
  }

  lemma TitleMeans(comment: Comment, t: string)
    ensures TitleOf(comment) == Some(t) <==> HasTitle(comment, t)
    ensures forall c | IsDocumentComment(comment, t, c) :: ParseDocument(comment.body.value) == Some((t, c))
  {
    if comment.body.Some? {
      forall u, c
        ensures ParseDocument(comment.body.value) == Some((u, c)) <==> IsDocumentText(comment.body.value, u, c)
      {
        DocumentMeans(comment.body.value, u, c);
      }
      if ParseDocument(comment.body.value).Some? {
        var d := ParseDocument(comment.body.value).value;
        assert IsDocumentComment(comment, d.0, d.1);
      }
    }
  }
}
