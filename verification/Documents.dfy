/**
 Titled documents kept in the comments of an issue: each is a comment that starts with a marker naming
 its title. Writing replaces the first listed comment that contains the marker, or adds one.
 */
module Documents {
  import opened Basics
  import opened Text

  datatype Comment = Comment(id: nat, body: Option<string>)

  const PREFIX := "<!-- symphony:document:"
  const ARROW := "-->"
  const GAP := "\n\n"

  /** Listing comments stops after ten pages of a hundred. */
  const LIST_LIMIT: nat := 1000

  function Marker(title: string): string {
    PREFIX + Trimmed(title) + " " + ARROW
  }

  /** `parse_symphony_document_comment` */
  function ParseDocument(body: string): Option<(string, string)> {
    if !StartsWith(body, PREFIX) then None
    else
      var rest := body[|PREFIX|..];
      match IndexFrom(rest, ARROW, 0)
      case None => None
      case Some(p) =>
        var title := Trimmed(rest[..p]);
        if title == "" then None else Some((title, TrimStart(rest[p + |ARROW|..], IsRustSpace)))
  }

  function Listed(comments: seq<Comment>): seq<Comment> {
    if |comments| <= LIST_LIMIT then comments else comments[..LIST_LIMIT]
  }

  /** The first of the comments whose body contains the marker, if any. */
  function FindMarked(comments: seq<Comment>, marker: string, from: nat): (r: Option<nat>)
    requires from <= |comments|
    ensures r.Some? ==>
              from <= r.value < |comments|
              && comments[r.value].body.Some? && Contains(comments[r.value].body.value, marker)
    ensures forall k | from <= k < (if r.Some? then r.value else |comments|) ::
              comments[k].body.None? || !Contains(comments[k].body.value, marker)
    decreases |comments| - from
  {
    if from == |comments| then None
    else if comments[from].body.Some? && Contains(comments[from].body.value, marker) then Some(from)
    else FindMarked(comments, marker, from + 1)
  }

  /** `github_upsert_comment`; `newId` is the id a new comment gets. A blank marker counts as none. */
  function Upsert(comments: seq<Comment>, marker: Option<string>, body: string, newId: nat): seq<Comment> {
    if marker.None? || Trimmed(marker.value) == "" then comments + [Comment(newId, Some(body))]
    else
      var m := Trimmed(marker.value);
      var text := if Contains(body, m) then body else m + GAP + body;
      match FindMarked(Listed(comments), m, 0)
      case Some(k) => comments[k := comments[k].(body := Some(text))]
      case None => comments + [Comment(newId, Some(text))]
  }

  datatype WriteResult = Written(comments: seq<Comment>) | MissingField

  /** The body written for a document. */
  function DocumentBody(title: string, content: string): string {
    Marker(title) + GAP + content
  }

  /** `document.write`: both fields are trimmed and must not be blank. */
  function WriteDocument(comments: seq<Comment>, title: string, content: string, newId: nat): WriteResult {
    var t, c := Trimmed(title), Trimmed(content);
    if t == "" || c == "" then MissingField
    else Written(Upsert(comments, Some(Marker(t)), DocumentBody(t, c), newId))
  }

  function DocumentsIn(comments: seq<Comment>): seq<(string, string)> {
    if comments == [] then []
    else
      (if comments[0].body.Some? && ParseDocument(comments[0].body.value).Some?
       then [ParseDocument(comments[0].body.value).value] else [])
      + DocumentsIn(comments[1..])
  }

  function FindTitle(documents: seq<(string, string)>, title: string): Option<string> {
    if documents == [] then None
    else if documents[0].0 == title then Some(documents[0].1)
    else FindTitle(documents[1..], title)
  }

  /** `document.read` with a title. */
  function ReadDocument(comments: seq<Comment>, title: string): Option<string> {
    FindTitle(DocumentsIn(Listed(comments)), Trimmed(title))
  }

  /** The comments of one issue, as the server keeps them. */
  class Issue {
    var comments: seq<Comment>
    var nextId: nat

    constructor ()
      ensures comments == [] && nextId == 1
    {
      comments, nextId := [], 1;
    }

    method UpsertComment(marker: Option<string>, body: string)
      modifies this
      ensures comments == Upsert(old(comments), marker, body, old(nextId))
      ensures nextId == old(nextId) + (if |comments| > |old(comments)| then 1 else 0)
    {
      var m := if marker.Some? then Trimmed(marker.value) else "";
      var text := body;
      if m != "" && !Contains(body, m) {
        text := m + GAP + body;
      }
      if m != "" {
        var existing := FindMarked(Listed(comments), m, 0);
        if existing.Some? {
          comments := comments[existing.value := comments[existing.value].(body := Some(text))];
          return;
        }
      }
      comments := comments + [Comment(nextId, Some(text))];
      nextId := nextId + 1;
    }

    method Write(title: string, content: string) returns (ok: bool)
      modifies this
      ensures var r := WriteDocument(old(comments), title, content, old(nextId));
              if r.Written? then ok && comments == r.comments else !ok && comments == old(comments)
    {
      var t, c := Trimmed(title), Trimmed(content);
      if t == "" || c == "" {
        return false;
      }
      UpsertComment(Some(Marker(t)), DocumentBody(t, c));
      ok := true;
    }
  }

  const PAGE_SIZE: nat := 100

  /** What the server sends for a page, pages counted from 1. */
  function Page<T>(all: seq<T>, page: nat): seq<T>
    requires page >= 1
  {
    var from := (page - 1) * PAGE_SIZE;
    if from >= |all| then []
    else if from + PAGE_SIZE <= |all| then all[from..from + PAGE_SIZE]
    else all[from..]
  }

  /** The loop that collects pages until one is empty or short; it collects everything. */
  method GetPaginated<T>(all: seq<T>) returns (items: seq<T>)
    ensures items == all
  {
    var page := 1;
    items := [];
    while true
      invariant page >= 1 && (page - 1) * PAGE_SIZE <= |all|
      invariant items == all[..(page - 1) * PAGE_SIZE]
      decreases |all| - (page - 1) * PAGE_SIZE
    {
      var batch := Page(all, page);
      if |batch| == 0 {
        break;
      }
      items := items + batch;
      if |batch| < PAGE_SIZE {
        break;
      }
      page := page + 1;
    }
  }
}
