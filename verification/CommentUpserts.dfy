/**
 What an upsert does to the comments of an issue, for any marker and body.
 */
module CommentUpserts {
  import opened Basics
  import opened Text
  import opened Documents

  /** The marker that counts: trimmed, and none if that leaves nothing. */
  predicate IsMarker(marker: Option<string>, m: string) {
    marker.Some? && m == Trimmed(marker.value) && m != ""
  }

  ghost predicate Holds(comment: Comment, m: string) {
    comment.body.Some? && exists front, back :: comment.body.value == front + m + back
  }

  lemma HoldsMeans(comment: Comment, m: string)
    ensures Holds(comment, m) <==> comment.body.Some? && Contains(comment.body.value, m)
  {
    if comment.body.Some? && Contains(comment.body.value, m) {
      var text := comment.body.value;
      var p :| 0 <= p <= |text| && OccursAt(text, m, p);
      assert text == text[..p] + m + text[p + |m|..];
    }
    if Holds(comment, m) {
      var front, back :| comment.body.value == front + m + back;
      assert OccursAt(comment.body.value, m, |front|);
    }
  }

  /** One place is written: `text` under the id that was there, or under the new id at the end. */
  ghost predicate WritesAt(before: seq<Comment>, after: seq<Comment>, k: nat, text: string, newId: nat) {
    && k <= |before| && k < |after| && |after| == (if k < |before| then |before| else |before| + 1)
    && (forall i | 0 <= i < |before| && i != k :: after[i] == before[i])
    && after[k].body == Some(text) && after[k].id == if k < |before| then before[k].id else newId
  }

  /** The comment a marker finds: the first of the listed 1000 that holds it, else one more. */
  ghost predicate IsPlace(comments: seq<Comment>, m: string, k: nat) {
    && (k < |comments| ==> k < 1000 && Holds(comments[k], m))
    && (forall i | 0 <= i < k && i < 1000 && i < |comments| :: !Holds(comments[i], m))
    && k <= |comments|
  }

  /**
   Exactly one comment is written, and its text ends in the body. With a marker it is the one the marker finds,
   and the text is the body behind the marker and a blank line, or the body alone if that holds the marker;
   without one it is a new comment with the body as it is.
   */
  lemma UpsertEffect(comments: seq<Comment>, marker: Option<string>, body: string, newId: nat)
    returns (k: nat, text: string)
    ensures WritesAt(comments, Upsert(comments, marker, body, newId), k, text, newId)
    ensures forall m | IsMarker(marker, m) ::
              && IsPlace(comments, m, k)
              && text == if Holds(Comment(0, Some(body)), m) then body else m + "\n\n" + body
    ensures (forall m :: !IsMarker(marker, m)) ==> k == |comments| && text == body
  {
    if marker.None? || Trimmed(marker.value) == "" {
      k, text := |comments|, body;
    } else {
      var m := Trimmed(marker.value);
      assert IsMarker(marker, m);
      var r := FindMarked(Listed(comments), m, 0);
      k := if r.Some? then r.value else |comments|;
      text := if Contains(body, m) then body else m + GAP + body;
      FoundIsPlace(comments, m, k);
      HoldsMeans(Comment(0, Some(body)), m);
    }
  }

  lemma FoundIsPlace(comments: seq<Comment>, m: string, k: nat)
    requires var r := FindMarked(Listed(comments), m, 0); k == if r.Some? then r.value else |comments|
    ensures IsPlace(comments, m, k)
  {
    forall i | 0 <= i < |comments|
      ensures Holds(comments[i], m) <==> comments[i].body.Some? && Contains(comments[i].body.value, m)
    {
      HoldsMeans(comments[i], m);
    }
    assert forall i | 0 <= i < |Listed(comments)| :: Listed(comments)[i] == comments[i];
  }

  /** The text written under a marker holds it and ends in the body. */
  lemma TextHoldsMarker(m: string, body: string, text: string)
    requires text == if Holds(Comment(0, Some(body)), m) then body else m + "\n\n" + body
    ensures Holds(Comment(0, Some(text)), m) && |body| <= |text| && text[|text| - |body|..] == body
    ensures !Holds(Comment(0, Some(body)), m) ==> |text| == |m| + 2 + |body| && text[..|m|] == m
  {
    if !Holds(Comment(0, Some(body)), m) {
      assert text == "" + m + ("\n\n" + body);
    }
  }

  /** A second upsert under the same marker writes the same comment again, if that is listed. */
  lemma UpsertAgain(comments: seq<Comment>, marker: Option<string>, m: string, body1: string, id1: nat,
                    body2: string, id2: nat)
    returns (k: nat, text1: string, text2: string)
    requires IsMarker(marker, m)
    ensures text1 == (if Holds(Comment(0, Some(body1)), m) then body1 else m + "\n\n" + body1)
    ensures text2 == (if Holds(Comment(0, Some(body2)), m) then body2 else m + "\n\n" + body2)
    ensures var once := Upsert(comments, marker, body1, id1);
            && WritesAt(comments, once, k, text1, id1)
            && (k < 1000 ==> WritesAt(once, Upsert(once, marker, body2, id2), k, text2, id2)
                             && |Upsert(once, marker, body2, id2)| == |once|)
            && (k >= 1000 ==> |Upsert(once, marker, body2, id2)| == |once| + 1)
  {
    var once := Upsert(comments, marker, body1, id1);
    k, text1 := UpsertEffect(comments, marker, body1, id1);
    TextHoldsMarker(m, body1, text1);
    var k2;
    k2, text2 := UpsertEffect(once, marker, body2, id2);
    SamePlace(comments, once, m, k, text1, id1, k2);
  }

  lemma SamePlace(comments: seq<Comment>, once: seq<Comment>, m: string, k: nat, text: string, id: nat, k2: nat)
    requires WritesAt(comments, once, k, text, id) && IsPlace(comments, m, k) && Holds(Comment(0, Some(text)), m)
    requires IsPlace(once, m, k2)
    ensures k < 1000 ==> k2 == k
    ensures k >= 1000 ==> k2 == |once|
  {
    assert Holds(once[k], m);
    forall i | 0 <= i < k && i < 1000 ensures !Holds(once[i], m) {
      assert once[i] == comments[i];
    }
  }
}
