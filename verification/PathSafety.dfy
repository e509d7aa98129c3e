/**
 Paths and the symlink-resolving canonicaliser.

 A path is a string of characters; the file system is any function from an absolute
 sequence of names to what `lstat` and `readlink` would report there.
 */
module PathSafety {
  import opened Basics

  // ---------------------------------------------------------------- paths as strings

  /** The pieces of a path between slashes; empty pieces are kept. */
  function SplitSlash(p: string): (parts: seq<string>)
    ensures |parts| >= 1
  {
    if p == "" then [""]
    else
      var rest := SplitSlash(p[1..]);
      if p[0] == '/' then [""] + rest else [[p[0]] + rest[0]] + rest[1..]
  }

  /** Drops the pieces that a path iterator never yields: empty ones and `.`. */
  function Keep(parts: seq<string>): seq<string> {
    if parts == [] then []
    else (if parts[0] == "" || parts[0] == "." then [] else [parts[0]]) + Keep(parts[1..])
  }

  /** The components of a path after its root: names and `..`. */
  function Components(p: string): seq<string> {
    Keep(SplitSlash(p))
  }

  predicate IsAbsolute(p: string) {
    p != "" && p[0] == '/'
  }

  /** Appending one path to another: an absolute one replaces, and a separator is added only when missing. */
  function Push(path: string, p: string): string {
    if IsAbsolute(p) then p
    else if path != "" && path[|path| - 1] != '/' then path + "/" + p
    else path + p
  }

  function Joined(segments: seq<string>): string {
    if segments == [] then "/"
    else Push(Joined(segments[..|segments| - 1]), segments[|segments| - 1])
  }

  /** The loop of `join_path`. */
  method JoinPath(segments: seq<string>) returns (path: string)
    ensures path == Joined(segments)
  {
    path := "/";
    for i := 0 to |segments|
      invariant path == Joined(segments[..i])
    {
      assert segments[..i + 1][..i] == segments[..i];
      path := Push(path, segments[i]);
    }
    assert segments[..|segments|] == segments;
  }

  predicate IsName(s: string) {
    s != "" && s != "." && s != ".." && '/' !in s
  }

  predicate AllNames(segments: seq<string>) {
    forall s | s in segments :: IsName(s)
  }

  // ---------------------------------------------------------------- folding `..`

  function Parent(segments: seq<string>): seq<string> {
    if segments == [] then [] else segments[..|segments| - 1]
  }

  /** One turn of the loop over components: `..` pops, a name is pushed. */
  function FoldOne(done: seq<string>, c: string): seq<string> {
    if c == ".." then Parent(done) else done + [c]
  }

  function Fold(done: seq<string>, components: seq<string>): seq<string>
    decreases |components|
  {
    if components == [] then done
    else Fold(FoldOne(done, components[0]), components[1..])
  }

  datatype Error = NotAbsolute | SymlinkLoop(at: string) | Io

  /** What splitting an absolute path means. */
  function Normalized(p: string): Result<seq<string>, Error> {
    if IsAbsolute(p) then Ok(Fold([], Components(p))) else Err(NotAbsolute)
  }

  /** The push-and-pop loop of `split_and_normalize`. */
  method SplitAndNormalize(p: string) returns (r: Result<seq<string>, Error>)
    ensures r == Normalized(p)
  {
    if !IsAbsolute(p) {
      return Err(NotAbsolute);
    }
    var components := Components(p);
    var segments: seq<string> := [];
    for i := 0 to |components|
      invariant Fold(segments, components[i..]) == Fold([], components)
    {
      if components[i] == ".." {
        if segments != [] {
          segments := segments[..|segments| - 1];
        }
      } else {
        segments := segments + [components[i]];
      }
    }
    r := Ok(segments);
  }

  // ---------------------------------------------------------------- the resolver

  /**
   `UnreadableLink` is a link whose target cannot be read; `Failed` is an `lstat` error other than "not found".
   `Plain` is anything else, and `searchable` if it is a directory one may pass through.
   */
  datatype Entry = Missing | Link(target: string) | UnreadableLink | Plain(searchable: bool) | Failed

  type FileSystem = seq<string> -> Entry

  const MAX_SYMLINK_HOPS: nat := 40

  /** Where a link found in directory `base` leads, before the rest of the path is appended. */
  function TargetSegments(base: seq<string>, target: string): Result<seq<string>, Error> {
    Normalized(if IsAbsolute(target) then target else Push(Joined(base), target))
  }

  /** `resolve_segments`: after every link the walk starts again from the root. */
  function Resolve(fs: FileSystem, resolved: seq<string>, remaining: seq<string>, hops: nat): Result<string, Error>
    decreases hops, |remaining|
  {
    if remaining == [] then Ok(Joined(resolved))
    else
      var candidate := resolved + [remaining[0]];
      var rest := remaining[1..];
      match fs(candidate)
      case Link(target) =>
        if hops == 0 then Err(SymlinkLoop(Joined(candidate)))
        else (match TargetSegments(resolved, target)
              case Ok(segments) => Resolve(fs, [], segments + rest, hops - 1)
              case Err(e) => Err(e))
      case UnreadableLink => if hops == 0 then Err(SymlinkLoop(Joined(candidate))) else Err(Io)
      case Plain(_) => Resolve(fs, candidate, rest, hops)
      case Missing => Ok(Joined(candidate + rest))
      case Failed => Err(Io)
  }

  /** The path made absolute; `cwd` is what the working-directory lookup gave. */
  function Expanded(cwd: Result<string, Error>, path: string): string
    requires IsAbsolute(path) || cwd.Ok?
  {
    if IsAbsolute(path) then path else Push(cwd.value, path)
  }

  /** `canonicalize` */
  function Canonicalize(fs: FileSystem, cwd: Result<string, Error>, path: string): Result<string, Error> {
    if !IsAbsolute(path) && cwd.Err? then Err(Io)
    else match Normalized(Expanded(cwd, path))
      case Err(e) => Err(e)
      case Ok(segments) => Resolve(fs, [], segments, MAX_SYMLINK_HOPS)
  }
}
