/**
 When the canonicaliser is POSIX path resolution, and when it is not: it cancels `name/..` in the text of the
 path and of each link target, and drops `.` and a slash at the end, before it looks at the name.
 */
module PathPosix {
  import opened Basics
  import opened PathSafety
  import opened PathSafetyProofs

  // ---------------------------------------------------------------- the reference

  function NonEmpty(parts: seq<string>): seq<string> {
    if parts == [] then []
    else (if parts[0] == "" then [] else [parts[0]]) + NonEmpty(parts[1..])
  }

  /** What POSIX resolution reads in a path: `.` stays, and a slash at the end stands for one more `.`. */
  ghost function PosixComponents(p: string): seq<string> {
    NonEmpty(SplitSlash(p)) + if p != "" && p[|p| - 1] == '/' then ["."] else []
  }

  /** A relative path is read behind the working directory. */
  ghost function StartPieces(cwd: Result<string, Error>, path: string): seq<string>
    requires IsAbsolute(path) || cwd.Ok?
  {
    if IsAbsolute(path) then PosixComponents(path) else PosixComponents(cwd.value) + PosixComponents(path)
  }

  /** Resolution in the style of section 4.13 of IEEE Std 1003.1-2017, missing tails kept as text. */
  ghost function Posix(fs: FileSystem, cwd: Result<string, Error>, path: string): Result<string, Error>
    requires IsAbsolute(path) || cwd.Ok?
  {
    InPlace(fs, PosixComponents, [], StartPieces(cwd, path), MAX_SYMLINK_HOPS)
  }

  ghost predicate IsDots(s: string) { s == "." || s == ".." }

  ghost predicate AllPieces(pieces: seq<string>) { forall s | s in pieces :: IsDots(s) || IsName(s) }

  lemma {:induction false} KeepOfNonEmpty(parts: seq<string>)
    ensures Keep(NonEmpty(parts)) == Keep(parts)
  {
    if parts != [] {
      KeepOfNonEmpty(parts[1..]);
      KeepConcat(if parts[0] == "" then [] else [parts[0]], NonEmpty(parts[1..]));
      if parts[0] != "" {
        KeepOfPiece(parts[0], []);
      }
    }
  }

  lemma KeepOfPiece(s: string, rest: seq<string>)
    requires s != ""
    ensures Keep([s] + rest) == if s == "." then Keep(rest) else [s] + Keep(rest)
  {
    assert ([s] + rest)[1..] == rest;
  }

  lemma {:induction false} NonEmptyPieces(parts: seq<string>)
    requires forall s | s in parts :: '/' !in s
    ensures AllPieces(NonEmpty(parts))
  {
    if parts != [] {
      NonEmptyPieces(parts[1..]);
    }
  }

  /** The components are the pieces other than `.`. */
  lemma PiecesOfPath(p: string)
    ensures AllPieces(PosixComponents(p)) && Components(p) == Keep(PosixComponents(p))
  {
    SplitSlashPieces(p);
    NonEmptyPieces(SplitSlash(p));
    KeepOfNonEmpty(SplitSlash(p));
    KeepConcat(NonEmpty(SplitSlash(p)), PosixComponents(p)[|NonEmpty(SplitSlash(p))|..]);
    KeepOfPiece(".", []);
  }

  lemma {:induction false} KeepOfPieces(c: seq<string>)
    requires AllPieces(c)
    ensures AllComponents(Keep(c))
  {
    if c != [] {
      KeepOfPieces(c[1..]);
    }
  }

  lemma PiecesSplit(s: string, rest: seq<string>)
    requires AllPieces([s] + rest)
    ensures (IsDots(s) || IsName(s)) && AllPieces(rest)
  {
    assert ([s] + rest)[0] == s && forall t | t in rest :: t in [s] + rest;
  }

  // ---------------------------------------------------------------- reducing from the front

  lemma {:induction false} ReduceUp(rest: seq<string>)
    ensures var (ups, names) := Reduce(rest); Reduce([".."] + rest) == (ups + 1, names)
    decreases |rest|
  {
    var c := [".."] + rest;
    if rest == [] {
      assert c[..0] == [];
    } else {
      var n := |rest| - 1;
      ReduceUp(rest[..n]);
      assert c[..|c| - 1] == [".."] + rest[..n];
    }
  }

  /** A name goes in front, unless the rest climbs: then it is cancelled. */
  lemma {:induction false} ReduceName(s: string, rest: seq<string>)
    requires s != ".."
    ensures var (ups, names) := Reduce(rest);
            Reduce([s] + rest) == if ups == 0 then (0, [s] + names) else (ups - 1, names)
    decreases |rest|
  {
    var c := [s] + rest;
    if rest == [] {
      assert c[..0] == [] && [] + [s] == [s] + [];
    } else {
      var n := |rest| - 1;
      ReduceName(s, rest[..n]);
      assert c[..|c| - 1] == [s] + rest[..n];
      var (ups, names) := Reduce(rest[..n]);
      if ups == 0 {
        assert names != [] ==> Parent([s] + names) == [s] + Parent(names);
        assert [s] + names + [rest[n]] == [s] + (names + [rest[n]]);
      }
    }
  }

  lemma {:induction false} ReduceConcat(a: seq<string>, b: seq<string>)
    requires Reduce(b).0 == 0
    ensures Reduce(a + b) == (Reduce(a).0, Reduce(a).1 + Reduce(b).1)
    decreases |b|
  {
    if b == [] {
      assert a + b == a && Reduce(a).1 + [] == Reduce(a).1;
    } else {
      var n := |b| - 1;
      ReduceConcat(a, b[..n]);
      assert (a + b)[..|a + b| - 1] == a + b[..n];
      var names, more := Reduce(a).1, Reduce(b[..n]).1;
      assert more != [] ==> Parent(names + more) == names + Parent(more);
      assert names + more + [b[n]] == names + (more + [b[n]]);
    }
  }

  ghost predicate AllComponents(components: seq<string>) { forall s | s in components :: IsComponent(s) }

  /** What cancelling leaves of pieces. */
  ghost function Cancel(pieces: seq<string>): (nat, seq<string>) { Reduce(Keep(pieces)) }

  lemma CancelDot(rest: seq<string>)
    ensures Cancel(["."] + rest) == Cancel(rest)
  {
    KeepOfPiece(".", rest);
  }

  lemma CancelUp(rest: seq<string>)
    ensures Cancel([".."] + rest) == (Cancel(rest).0 + 1, Cancel(rest).1)
  {
    KeepOfPiece("..", rest);
    ReduceUp(Keep(rest));
  }

  lemma CancelName(s: string, rest: seq<string>)
    requires IsName(s)
    ensures var (ups, names) := Cancel(rest);
            Cancel([s] + rest) == if ups == 0 then (0, [s] + names) else (ups - 1, names)
  {
    KeepOfPiece(s, rest);
    ReduceName(s, Keep(rest));
  }

  lemma CancelConcat(a: seq<string>, b: seq<string>)
    requires Cancel(b).0 == 0
    ensures Cancel(a + b) == (Cancel(a).0, Cancel(a).1 + Cancel(b).1)
  {
    KeepConcat(a, b);
    ReduceConcat(Keep(a), Keep(b));
  }

  lemma FoldIsCancel(base: seq<string>, pieces: seq<string>)
    requires AllPieces(pieces)
    ensures AllNames(Cancel(pieces).1)
    ensures Fold(base, Keep(pieces)) == Ancestor(base, Cancel(pieces).0) + Cancel(pieces).1
  {
    KeepOfPieces(pieces);
    FoldIsReduce(base, Keep(pieces));
  }

  // ---------------------------------------------------------------- where the two part

  /** A later `..` takes back the name in front. */
  ghost predicate Cancelled(remaining: seq<string>) {
    remaining != [] && IsName(remaining[0]) && Cancel(remaining[1..]).0 > 0
  }

  /**
   `e` gives the pieces a link target stands for, and `r` the same reduced. The proofs are for any such pair;
   in the end these are `PosixComponents` and `Reduced`.
   */
  ghost predicate Reduces(e: Expansion, r: Expansion) {
    forall t :: AllPieces(e(t)) && r(t) == Ups(Cancel(e(t)).0) + Cancel(e(t)).1
  }

  /** A point of the POSIX walk. */
  datatype Point = Point(here: seq<string>, remaining: seq<string>, hops: nat)

  /**
   The first point at which the walk meets a name that is no plain entry and will be cancelled, or one that
   blocks it.
   */
  ghost function FirstDetour(fs: FileSystem, e: Expansion, here: seq<string>, remaining: seq<string>,
                             hops: nat): Option<Point>
    decreases hops, |remaining|
  {
    if remaining == [] then None
    else if remaining[0] == ".." then FirstDetour(fs, e, Parent(here), remaining[1..], hops)
    else if remaining[0] == "." then FirstDetour(fs, e, here, remaining[1..], hops)
    else
      var next, rest := here + [remaining[0]], remaining[1..];
      if Blocked(fs(next), rest) then Some(Point(here, remaining, hops))
      else if fs(next).Plain? then FirstDetour(fs, e, next, rest, hops)
      else if Cancelled(remaining) then Some(Point(here, remaining, hops))
      else if fs(next).Link? && hops > 0 then
        FirstDetour(fs, e, if IsAbsolute(fs(next).target) then [] else here, e(fs(next).target) + rest, hops - 1)
      else None
  }

  /** From the point on, cancelling first: what is left of the text is resolved from where it starts. */
  ghost function Lexically(fs: FileSystem, r: Expansion, p: Point): Result<string, Error> {
    InPlace(fs, r, Ancestor(p.here, Cancel(p.remaining).0), Cancel(p.remaining).1, p.hops)
  }

  ghost function Onwards(fs: FileSystem, e: Expansion, p: Point): Result<string, Error> {
    InPlace(fs, e, p.here, p.remaining, p.hops)
  }

  /** The name at which the walk stands. */
  ghost function At(p: Point): seq<string>
    requires p.remaining != []
  {
    p.here + [p.remaining[0]]
  }

  ghost predicate IsDetour(fs: FileSystem, p: Point) {
    && p.remaining != [] && IsName(p.remaining[0])
    && (Blocked(fs(At(p)), p.remaining[1..]) || (Cancelled(p.remaining) && !fs(At(p)).Plain?))
    && AllPieces(p.remaining) && AllNames(p.here) && Solid(fs, p.here)
  }

  /** Both walks reach the first detour together; without one they end together. */
  ghost predicate PartAt(fs: FileSystem, e: Expansion, r: Expansion, p: Point, detour: Option<Point>) {
    match detour
    case None => Onwards(fs, e, p) == Lexically(fs, r, p)
    case Some(d) =>
      IsDetour(fs, d) && Onwards(fs, e, p) == Onwards(fs, e, d) && Lexically(fs, r, p) == Lexically(fs, r, d)
  }

  lemma {:induction false} WalksPartAtDetour(fs: FileSystem, e: Expansion, r: Expansion, here: seq<string>,
                                             remaining: seq<string>, hops: nat)
    requires Reduces(e, r)
    requires AllPieces(remaining) && AllNames(here) && Solid(fs, here)
    ensures PartAt(fs, e, r, Point(here, remaining, hops), FirstDetour(fs, e, here, remaining, hops))
    decreases hops, |remaining|, 1
  {
    if remaining == [] {
      NothingLeft(fs, e, r, here, hops);
    } else {
      var s, rest := remaining[0], remaining[1..];
      assert remaining == [s] + rest;
      PiecesSplit(s, rest);
      if IsDots(s) {
        PartPastDots(fs, e, r, here, s, rest, hops);
      } else {
        PartPastName(fs, e, r, here, s, rest, hops);
      }
    }
  }

  lemma {:induction false} PartPastDots(fs: FileSystem, e: Expansion, r: Expansion, here: seq<string>, s: string,
                                        rest: seq<string>, hops: nat)
    requires Reduces(e, r)
    requires IsDots(s) && AllPieces(rest) && AllNames(here) && Solid(fs, here)
    ensures PartAt(fs, e, r, Point(here, [s] + rest, hops), FirstDetour(fs, e, here, [s] + rest, hops))
    decreases hops, |rest| + 1, 0
  {
    var to := if s == ".." then Parent(here) else here;
    DotsStep(fs, e, r, here, s, rest, hops);
    WalksPartAtDetour(fs, e, r, to, rest, hops);
    StillPart(fs, e, r, Point(here, [s] + rest, hops), Point(to, rest, hops), FirstDetour(fs, e, to, rest, hops));
    assert ([s] + rest)[1..] == rest;
  }

  lemma {:induction false} PartPastName(fs: FileSystem, e: Expansion, r: Expansion, here: seq<string>, s: string,
                                        rest: seq<string>, hops: nat)
    requires Reduces(e, r)
    requires IsName(s) && AllPieces([s] + rest) && AllPieces(rest) && AllNames(here) && Solid(fs, here)
    ensures PartAt(fs, e, r, Point(here, [s] + rest, hops), FirstDetour(fs, e, here, [s] + rest, hops))
    decreases hops, |rest| + 1, 0
  {
    DetourPastName(fs, e, here, s, rest, hops);
    if Blocked(fs(here + [s]), rest) {
    } else if fs(here + [s]).Plain? {
      SolidExtend(fs, here, s);
      WalksPartAtDetour(fs, e, r, here + [s], rest, hops);
      PlainStep(fs, e, r, here, s, rest, hops);
      StillPart(fs, e, r, Point(here, [s] + rest, hops), Point(here + [s], rest, hops),
                FirstDetour(fs, e, here + [s], rest, hops));
    } else if Cancelled([s] + rest) {
    } else if fs(here + [s]).Link? && hops > 0 {
      var target := fs(here + [s]).target;
      var q := Behind(e, here, target, rest, hops);
      FollowStep(fs, e, r, here, s, rest, hops, target, q.here, e(target));
      PiecesBehind(e, r, here, target, rest, hops);
      WalksPartAtDetour(fs, e, r, q.here, q.remaining, q.hops);
      StillPart(fs, e, r, Point(here, [s] + rest, hops), q, FirstDetour(fs, e, q.here, q.remaining, q.hops));
    } else {
      StopStep(fs, e, r, here, s, rest, hops);
    }
  }

  /** Where the walk stands after following a link found in `here`. */
  ghost function Behind(e: Expansion, here: seq<string>, target: string, rest: seq<string>, hops: nat): Point
    requires hops > 0
  {
    Point(if IsAbsolute(target) then [] else here, e(target) + rest, hops - 1)
  }

  lemma PiecesBehind(e: Expansion, r: Expansion, here: seq<string>, target: string, rest: seq<string>, hops: nat)
    requires Reduces(e, r) && AllPieces(rest) && hops > 0
    ensures AllPieces(Behind(e, here, target, rest, hops).remaining)
  {
  }

  lemma DetourPastName(fs: FileSystem, e: Expansion, here: seq<string>, s: string, rest: seq<string>, hops: nat)
    requires IsName(s)
    ensures FirstDetour(fs, e, here, [s] + rest, hops)
            == if Blocked(fs(here + [s]), rest) then Some(Point(here, [s] + rest, hops))
               else if fs(here + [s]).Plain? then FirstDetour(fs, e, here + [s], rest, hops)
               else if Cancelled([s] + rest) then Some(Point(here, [s] + rest, hops))
               else if fs(here + [s]).Link? && hops > 0
               then (var q := Behind(e, here, fs(here + [s]).target, rest, hops);
                     FirstDetour(fs, e, q.here, q.remaining, q.hops))
               else None
  {
    assert ([s] + rest)[1..] == rest;
  }

  lemma NothingLeft(fs: FileSystem, e: Expansion, r: Expansion, here: seq<string>, hops: nat)
    ensures PartAt(fs, e, r, Point(here, [], hops), FirstDetour(fs, e, here, [], hops))
  {
    assert Ancestor(here, 0) == here;
  }

  lemma StillPart(fs: FileSystem, e: Expansion, r: Expansion, p: Point, q: Point, detour: Option<Point>)
    requires Onwards(fs, e, p) == Onwards(fs, e, q) && Lexically(fs, r, p) == Lexically(fs, r, q)
    requires PartAt(fs, e, r, q, detour)
    ensures PartAt(fs, e, r, p, detour)
  {
  }

  lemma DotsStep(fs: FileSystem, e: Expansion, r: Expansion, here: seq<string>, s: string, rest: seq<string>, hops: nat)
    requires IsDots(s) && AllNames(here) && Solid(fs, here)
    ensures var to := if s == ".." then Parent(here) else here;
            && AllNames(to) && Solid(fs, to)
            && Onwards(fs, e, Point(here, [s] + rest, hops)) == Onwards(fs, e, Point(to, rest, hops))
            && Lexically(fs, r, Point(here, [s] + rest, hops)) == Lexically(fs, r, Point(to, rest, hops))
  {
    assert ([s] + rest)[1..] == rest;
    if s == ".." {
      CancelUp(rest);
      assert Ancestor(here, Cancel(rest).0 + 1) == Ancestor(Parent(here), Cancel(rest).0);
    } else {
      CancelDot(rest);
    }
  }

  /** Past a plain entry the two go on alike, whether its name is cancelled later or not. */
  lemma PlainStep(fs: FileSystem, e: Expansion, r: Expansion, here: seq<string>, s: string, rest: seq<string>,
                  hops: nat)
    requires IsName(s) && AllPieces(rest) && fs(here + [s]).Plain? && !Blocked(fs(here + [s]), rest)
    ensures Onwards(fs, e, Point(here, [s] + rest, hops)) == Onwards(fs, e, Point(here + [s], rest, hops))
    ensures Lexically(fs, r, Point(here, [s] + rest, hops)) == Lexically(fs, r, Point(here + [s], rest, hops))
  {
    InPlaceStep(fs, e, here, s, rest, hops);
    CancelName(s, rest);
    var (ups, names) := Cancel(rest);
    if ups == 0 {
      FoldIsCancel([], rest);
      assert names != [] ==> IsName(names[0]);
      InPlaceStep(fs, r, here, s, names, hops);
      assert Ancestor(here, 0) == here && Ancestor(here + [s], 0) == here + [s];
    } else {
      assert Ancestor(here + [s], ups) == Ancestor(here, ups - 1);
    }
  }

  lemma NameStays(here: seq<string>, s: string, rest: seq<string>)
    requires IsName(s) && !Cancelled([s] + rest)
    ensures Cancel(rest).0 == 0 && Cancel([s] + rest) == (0, [s] + Cancel(rest).1) && Ancestor(here, 0) == here
  {
    CancelName(s, rest);
    assert ([s] + rest)[1..] == rest;
  }

  /** At a name that stays both walks end alike, unless it is a link they follow. */
  lemma StopStep(fs: FileSystem, e: Expansion, r: Expansion, here: seq<string>, s: string, rest: seq<string>,
                 hops: nat)
    requires IsName(s) && !Cancelled([s] + rest) && AllPieces(rest)
    requires !fs(here + [s]).Plain? && !(fs(here + [s]).Link? && hops > 0)
    ensures Onwards(fs, e, Point(here, [s] + rest, hops)) == Lexically(fs, r, Point(here, [s] + rest, hops))
  {
    NameStays(here, s, rest);
    var names := Cancel(rest).1;
    FoldIsCancel(here + [s], rest);
    KeepsNames(names);
    FoldOfNames(here + [s], names);
    assert Ancestor(here + [s], 0) == here + [s];
    EndsAlike(fs, e, r, here, s, rest, names, hops);
  }

  lemma EndsAlike(fs: FileSystem, e: Expansion, r: Expansion, here: seq<string>, s: string, rest: seq<string>,
                  names: seq<string>, hops: nat)
    requires IsName(s) && !fs(here + [s]).Plain? && !(fs(here + [s]).Link? && hops > 0)
    requires Fold(here + [s], Keep(rest)) == Fold(here + [s], Keep(names))
    ensures InPlace(fs, e, here, [s] + rest, hops) == InPlace(fs, r, here, [s] + names, hops)
  {
    assert ([s] + rest)[1..] == rest && ([s] + names)[1..] == names;
  }

  /** Both follow a link, to the same place. */
  lemma FollowStep(fs: FileSystem, e: Expansion, r: Expansion, here: seq<string>, s: string, rest: seq<string>,
                   hops: nat, target: string, base: seq<string>, c: seq<string>)
    requires IsName(s) && !Cancelled([s] + rest) && fs(here + [s]) == Link(target) && hops > 0 && c == e(target)
    requires base == (if IsAbsolute(target) then [] else here) && r(target) == Ups(Cancel(c).0) + Cancel(c).1
    ensures Onwards(fs, e, Point(here, [s] + rest, hops)) == Onwards(fs, e, Point(base, c + rest, hops - 1))
    ensures Lexically(fs, r, Point(here, [s] + rest, hops)) == Lexically(fs, r, Point(base, c + rest, hops - 1))
  {
    LinkStep(fs, e, here, s, rest, hops, target);
    LexicallyFollows(fs, r, here, s, rest, hops, target, base, c);
  }

  lemma LexicallyFollows(fs: FileSystem, r: Expansion, here: seq<string>, s: string, rest: seq<string>,
                         hops: nat, target: string, base: seq<string>, c: seq<string>)
    requires IsName(s) && !Cancelled([s] + rest) && fs(here + [s]) == Link(target) && hops > 0
    requires base == (if IsAbsolute(target) then [] else here) && r(target) == Ups(Cancel(c).0) + Cancel(c).1
    ensures Lexically(fs, r, Point(here, [s] + rest, hops)) == Lexically(fs, r, Point(base, c + rest, hops - 1))
  {
    NameStays(here, s, rest);
    LexicallyConcat(fs, r, base, c, rest, hops - 1);
    LinkStep(fs, r, here, s, Cancel(rest).1, hops, target);
  }

  lemma LinkStep(fs: FileSystem, e: Expansion, here: seq<string>, s: string, rest: seq<string>, hops: nat,
                 target: string)
    requires IsName(s) && fs(here + [s]) == Link(target) && hops > 0
    ensures InPlace(fs, e, here, [s] + rest, hops)
            == InPlace(fs, e, if IsAbsolute(target) then [] else here, e(target) + rest, hops - 1)
  {
    InPlaceStep(fs, e, here, s, rest, hops);
  }

  lemma LexicallyConcat(fs: FileSystem, r: Expansion, base: seq<string>, c: seq<string>, rest: seq<string>, hops: nat)
    requires Cancel(rest).0 == 0
    ensures Lexically(fs, r, Point(base, c + rest, hops))
            == InPlace(fs, r, base, Ups(Cancel(c).0) + Cancel(c).1 + Cancel(rest).1, hops)
  {
    CancelConcat(c, rest);
    ReducedTargetClimbs(fs, r, base, Cancel(c).0, Cancel(c).1, Cancel(rest).1, hops);
  }

  // ---------------------------------------------------------------- agreement on one file system

  lemma CanonicalizeIsLexical(fs: FileSystem, cwd: Result<string, Error>, path: string)
    requires IsAbsolute(path) || (cwd.Ok? && IsAbsolute(cwd.value))
    ensures var start := Point([], StartPieces(cwd, path), MAX_SYMLINK_HOPS);
            && Canonicalize(fs, cwd, path) == Lexically(fs, Reduced, start)
            && AllPieces(start.remaining)
  {
    var c := StartPieces(cwd, path);
    CanonicalizeIsInPlace(fs, cwd, path);
    StartIsFold(cwd, path);
    FoldIsCancel([], c);
    assert Ancestor([], Cancel(c).0) == [];
    assert [] + Cancel(c).1 == Cancel(c).1;
  }

  lemma StartIsFold(cwd: Result<string, Error>, path: string)
    requires IsAbsolute(path) || cwd.Ok?
    ensures AllPieces(StartPieces(cwd, path))
    ensures Fold([], Keep(StartPieces(cwd, path)))
            == Fold(if IsAbsolute(path) then [] else Fold([], Components(cwd.value)), Components(path))
  {
    PiecesOfPath(path);
    if !IsAbsolute(path) {
      PiecesOfPath(cwd.value);
      KeepConcat(PosixComponents(cwd.value), PosixComponents(path));
      FoldConcat([], Components(cwd.value), Components(path));
    }
  }

  lemma ReducedReduces()
    ensures Reduces(PosixComponents, Reduced)
  {
    forall t
      ensures AllPieces(PosixComponents(t))
      ensures Reduced(t) == Ups(Cancel(PosixComponents(t)).0) + Cancel(PosixComponents(t)).1
    {
      PiecesOfPath(t);
    }
  }

  /** Where the path of a detour would lead without it. */
  ghost function LexicalPath(p: Point): seq<string> {
    Ancestor(p.here, Cancel(p.remaining).0) + Cancel(p.remaining).1
  }

  /** At a missing name the POSIX walk ends in the text of the path; the other goes on, and may find more. */
  lemma MissingDetour(fs: FileSystem, e: Expansion, d: Point)
    requires IsDetour(fs, d) && fs(At(d)) == Missing
    ensures Onwards(fs, e, d) == Lexically(fs, Reduced, d) <==> Settled(fs, LexicalPath(d))
  {
    var s, rest := d.remaining[0], d.remaining[1..];
    assert d.remaining == [s] + rest;
    CancelName(s, rest);
    FoldIsCancel(d.here + [s], rest);
    InPlaceStep(fs, e, d.here, s, rest, d.hops);
    var (ups, names) := Cancel(d.remaining);
    assert Ancestor(d.here + [s], ups + 1) == Ancestor(d.here, ups);
    SolidAncestor(fs, d.here, ups);
    SettledOrNot(fs, Ancestor(d.here, ups), names, d.hops);
  }

  lemma SettledOrNot(fs: FileSystem, up: seq<string>, names: seq<string>, hops: nat)
    requires Solid(fs, up) && AllNames(up) && AllNames(names)
    ensures InPlace(fs, Reduced, up, names, hops) == Ok(Joined(up + names)) <==> Settled(fs, up + names)
  {
    RestartIsInPlace(fs, up, names, hops);
    RewalkFromRoot(fs, up, names, [], hops);
    assert up + names + [] == up + names && names + [] == names;
    if Settled(fs, up + names) {
      SettledStays(fs, up + names, hops);
    }
    if Resolve(fs, up, names, hops) == Ok(Joined(up + names)) {
      var r := ResolveSettles(fs, up, names, hops);
      JoinedInjective(r, up + names);
    }
  }

  /** At the detour the POSIX walk fails. */
  ghost predicate FailsAt(fs: FileSystem, d: Point)
    requires d.remaining != []
  {
    Blocked(fs(At(d)), d.remaining[1..]) || fs(At(d)) == Failed || (fs(At(d)) == UnreadableLink && d.hops > 0)
  }

  /** At the detour its budget is used up. */
  ghost predicate LoopsAt(fs: FileSystem, d: Point)
    requires d.remaining != []
  {
    (fs(At(d)).Link? || fs(At(d)) == UnreadableLink) && d.hops == 0
  }

  /** Then the other walk fails exactly when it meets a failure later. */
  lemma FailingDetour(fs: FileSystem, e: Expansion, r: Expansion, d: Point)
    requires IsDetour(fs, d) && FailsAt(fs, d)
    ensures Onwards(fs, e, d) == Lexically(fs, r, d)
            <==> MeetsFailure(fs, r, Ancestor(d.here, Cancel(d.remaining).0), Cancel(d.remaining).1, d.hops)
  {
    FailsIffMeetsFailure(fs, r, Ancestor(d.here, Cancel(d.remaining).0), Cancel(d.remaining).1, d.hops);
  }

  lemma LoopingDetour(fs: FileSystem, e: Expansion, r: Expansion, d: Point)
    requires IsDetour(fs, d) && LoopsAt(fs, d)
    ensures Onwards(fs, e, d) == Lexically(fs, r, d)
            <==> exists at :: Joined(at) == Joined(At(d))
                   && MeetsLinks(fs, r, Ancestor(d.here, Cancel(d.remaining).0), Cancel(d.remaining).1, [at])
  {
    var up, names := Ancestor(d.here, Cancel(d.remaining).0), Cancel(d.remaining).1;
    assert Onwards(fs, e, d) == Err(SymlinkLoop(Joined(At(d))));
    if Lexically(fs, r, d) == Err(SymlinkLoop(Joined(At(d)))) {
      var links := LoopMeetsLinks(fs, r, up, names, 0);
      assert links == [links[0]];
    }
    forall at | MeetsLinks(fs, r, up, names, [at]) ensures Lexically(fs, r, d) == Err(SymlinkLoop(Joined(at))) {
      MeetingLinksLoops(fs, r, up, names, 0, [at]);
    }
  }

  /**
   On any file system: without a detour, canonicalizing is POSIX resolution, budget included. If the first
   detour is a missing name, it still is exactly when the path with the detour cancelled is settled; if POSIX
   resolution fails there, or runs out of budget, exactly when the rest of that path meets such a failure, or the
   same link first.
   */
  lemma CanonicalizeIsPosix(fs: FileSystem, cwd: Result<string, Error>, path: string)
    requires IsAbsolute(path) || (cwd.Ok? && IsAbsolute(cwd.value))
    ensures match FirstDetour(fs, PosixComponents, [], StartPieces(cwd, path), MAX_SYMLINK_HOPS)
            case None => Canonicalize(fs, cwd, path) == Posix(fs, cwd, path)
            case Some(d) =>
              IsDetour(fs, d)
              && (var same, (ups, names) := Canonicalize(fs, cwd, path) == Posix(fs, cwd, path), Cancel(d.remaining);
                  && (fs(At(d)) == Missing ==> (same <==> Settled(fs, LexicalPath(d))))
                  && (FailsAt(fs, d) ==> (same <==> MeetsFailure(fs, Reduced, Ancestor(d.here, ups), names, d.hops)))
                  && (LoopsAt(fs, d) ==>
                        (same <==> exists at :: Joined(at) == Joined(At(d))
                                     && MeetsLinks(fs, Reduced, Ancestor(d.here, ups), names, [at]))))
  {
    CanonicalizeIsLexical(fs, cwd, path);
    ReducedReduces();
    var c := StartPieces(cwd, path);
    WalksPartAtDetour(fs, PosixComponents, Reduced, [], c, MAX_SYMLINK_HOPS);
    match FirstDetour(fs, PosixComponents, [], c, MAX_SYMLINK_HOPS)
    case None =>
    case Some(d) => DetourDecides(fs, PosixComponents, d);
  }

  lemma DetourDecides(fs: FileSystem, e: Expansion, d: Point)
    requires IsDetour(fs, d)
    ensures var same, (ups, names) := Onwards(fs, e, d) == Lexically(fs, Reduced, d), Cancel(d.remaining);
            && (fs(At(d)) == Missing ==> (same <==> Settled(fs, LexicalPath(d))))
            && (FailsAt(fs, d) ==> (same <==> MeetsFailure(fs, Reduced, Ancestor(d.here, ups), names, d.hops)))
            && (LoopsAt(fs, d) ==>
                  (same <==> exists at :: Joined(at) == Joined(At(d))
                               && MeetsLinks(fs, Reduced, Ancestor(d.here, ups), names, [at])))
  {
    if fs(At(d)) == Missing {
      MissingDetour(fs, e, d);
    }
    if FailsAt(fs, d) {
      FailingDetour(fs, e, Reduced, d);
    }
    if LoopsAt(fs, d) {
      LoopingDetour(fs, e, Reduced, d);
    }
  }
}
