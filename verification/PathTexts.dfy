/**
 Which texts of paths and link targets are safe on every file system: there canonicalizing them is POSIX
 resolution, and for every other text there is a file system on which it is not.
 */
module PathTexts {
  import opened Basics
  import opened PathSafety
  import opened PathSafetyProofs
  import opened PathPosix

  // ---------------------------------------------------------------- agreement on every file system

  /** Names and `.`, with a name at the end. */
  ghost predicate Descends(pieces: seq<string>) {
    ".." !in pieces && (pieces != [] ==> pieces[|pieces| - 1] != ".")
  }

  /** `..` comes before all names, and what comes after them does not end in `.`. */
  ghost predicate ClimbsFirst(pieces: seq<string>) {
    if pieces != [] && IsDots(pieces[0]) then ClimbsFirst(pieces[1..]) else Descends(pieces)
  }

  ghost predicate TargetsClimbFirst(fs: FileSystem, e: Expansion) {
    forall p :: fs(p).Link? ==> ClimbsFirst(e(fs(p).target))
  }

  /** What lies behind a file, or a directory one may not pass through, cannot be examined. */
  ghost predicate FilesEnd(fs: FileSystem) {
    forall p, s :: fs(p) == Plain(false) ==> fs(p + [s]) == Failed
  }

  lemma DescendingClimbsFirst(c: seq<string>)
    requires Descends(c)
    ensures ClimbsFirst(c)
    decreases |c|
  {
    if c != [] && IsDots(c[0]) {
      assert c == [c[0]] + c[1..];
      DescendsBehind(c[0], c[1..]);
      DescendingClimbsFirst(c[1..]);
    }
  }

  lemma DescendsBehind(s: string, rest: seq<string>)
    requires Descends([s] + rest)
    ensures Descends(rest) && (IsDots(s) ==> s == "." && rest != [])
  {
    assert forall t | t in rest :: t in [s] + rest;
    assert s in [s] + rest && ([s] + rest)[|rest|] == if rest == [] then s else rest[|rest| - 1];
  }

  lemma {:induction false} ClimbsAndDescends(c: seq<string>, rest: seq<string>)
    requires ClimbsFirst(c) && Descends(rest)
    ensures ClimbsFirst(c + rest)
    decreases |c|
  {
    if c != [] && IsDots(c[0]) {
      assert (c + rest)[0] == c[0] && (c + rest)[1..] == c[1..] + rest;
      ClimbsAndDescends(c[1..], rest);
    } else {
      assert rest != [] ==> (c + rest)[|c + rest| - 1] == rest[|rest| - 1];
      assert rest == [] ==> c + rest == c;
      DescendingClimbsFirst(c + rest);
    }
  }

  /** What descends cancels nothing, and if it begins with `.`, a name follows. */
  lemma {:induction false} DescendingStays(c: seq<string>)
    requires AllPieces(c) && Descends(c)
    ensures Cancel(c) == (0, Keep(c)) && AllNames(Keep(c)) && (c != [] ==> Keep(c) != [])
    decreases |c|
  {
    if c != [] {
      var s, rest := c[0], c[1..];
      assert c == [s] + rest && s in c;
      PiecesSplit(s, rest);
      KeepOfPiece(s, rest);
      DescendsBehind(s, rest);
      DescendingStays(rest);
      if s == "." {
        CancelDot(rest);
      } else {
        CancelName(s, rest);
      }
    }
  }

  /** The only detours that climbing first leaves open block the walk, with a name to come. */
  ghost predicate BlockedAtMost(fs: FileSystem, detour: Option<Point>) {
    match detour
    case None => true
    case Some(d) =>
      d.remaining != [] && IsName(d.remaining[0]) && AllPieces(d.remaining) && Descends(d.remaining)
      && Blocked(fs(At(d)), d.remaining[1..])
  }

  lemma {:induction false} HardlyADetour(fs: FileSystem, e: Expansion, here: seq<string>, remaining: seq<string>,
                                         hops: nat)
    requires TargetsClimbFirst(fs, e) && (forall t :: AllPieces(e(t)))
    requires AllPieces(remaining) && ClimbsFirst(remaining)
    ensures BlockedAtMost(fs, FirstDetour(fs, e, here, remaining, hops))
    decreases hops, |remaining|, 1
  {
    if remaining != [] {
      var s, rest := remaining[0], remaining[1..];
      assert remaining == [s] + rest;
      PiecesSplit(s, rest);
      if IsDots(s) {
        HardlyADetour(fs, e, if s == ".." then Parent(here) else here, rest, hops);
      } else {
        DetourPastName(fs, e, here, s, rest, hops);
        HardlyPastName(fs, e, here, s, rest, hops);
      }
    }
  }

  lemma {:induction false} HardlyPastName(fs: FileSystem, e: Expansion, here: seq<string>, s: string,
                                          rest: seq<string>, hops: nat)
    requires TargetsClimbFirst(fs, e) && (forall t :: AllPieces(e(t)))
    requires IsName(s) && AllPieces([s] + rest) && AllPieces(rest) && Descends([s] + rest)
    ensures BlockedAtMost(fs, FirstDetour(fs, e, here, [s] + rest, hops))
    decreases hops, |rest| + 1, 0
  {
    DetourPastName(fs, e, here, s, rest, hops);
    DescendsBehind(s, rest);
    DescendingStays(rest);
    assert ([s] + rest)[1..] == rest && !Cancelled([s] + rest);
    if fs(here + [s]).Plain? {
      DescendingClimbsFirst(rest);
      HardlyADetour(fs, e, here + [s], rest, hops);
    } else if fs(here + [s]).Link? && hops > 0 {
      var q := Behind(e, here, fs(here + [s]).target, rest, hops);
      ClimbsAndDescends(e(fs(here + [s]).target), rest);
      HardlyADetour(fs, e, q.here, q.remaining, q.hops);
    }
  }

  /** With a name to come, the other walk fails there, too. */
  lemma BlockedFailsLater(fs: FileSystem, r: Expansion, d: Point)
    requires FilesEnd(fs) && BlockedAtMost(fs, Some(d))
    ensures MeetsFailure(fs, r, Ancestor(d.here, Cancel(d.remaining).0), Cancel(d.remaining).1, d.hops)
  {
    var s, rest := d.remaining[0], d.remaining[1..];
    assert d.remaining == [s] + rest;
    PiecesSplit(s, rest);
    DescendsBehind(s, rest);
    DescendingStays(rest);
    CancelName(s, rest);
    FailsBehind(fs, r, d.here, s, Keep(rest), d.hops);
    assert Ancestor(d.here, 0) == d.here;
  }

  lemma FailsBehind(fs: FileSystem, r: Expansion, here: seq<string>, s: string, names: seq<string>, hops: nat)
    requires FilesEnd(fs) && IsName(s) && AllNames(names) && names != [] && fs(here + [s]) == Plain(false)
    ensures MeetsFailure(fs, r, here, [s] + names, hops)
  {
    assert IsName(names[0]) && fs(here + [s] + [names[0]]) == Failed;
    assert ([s] + names)[1..] == names;
    assert MeetsFailure(fs, r, here + [s], names, hops);
  }

  lemma ClimbingTextAgrees(fs: FileSystem, cwd: Result<string, Error>, path: string)
    requires IsAbsolute(path) && FilesEnd(fs) && TargetsClimbFirst(fs, PosixComponents)
    requires ClimbsFirst(PosixComponents(path))
    ensures Canonicalize(fs, cwd, path) == Posix(fs, cwd, path)
  {
    forall t ensures AllPieces(PosixComponents(t)) {
      PiecesOfPath(t);
    }
    HardlyADetour(fs, PosixComponents, [], PosixComponents(path), MAX_SYMLINK_HOPS);
    CanonicalizeIsPosix(fs, cwd, path);
    match FirstDetour(fs, PosixComponents, [], PosixComponents(path), MAX_SYMLINK_HOPS)
    case None =>
    case Some(d) => BlockedFailsLater(fs, Reduced, d);
  }

  // ---------------------------------------------------------------- what climbs first, and what does not

  /** Some `..`, then names. */
  ghost predicate UpsThenNames(components: seq<string>) {
    exists k | 0 <= k <= |components| :: components[..k] == Ups(k) && AllNames(components[k..])
  }

  lemma NamesOnly(c: seq<string>)
    requires AllNames(c)
    ensures UpsThenNames(c)
  {
    assert c[..0] == Ups(0) && c[0..] == c;
  }

  lemma UpsGoOn(rest: seq<string>)
    requires UpsThenNames(rest)
    ensures UpsThenNames([".."] + rest)
  {
    var c := [".."] + rest;
    var k :| 0 <= k <= |rest| && rest[..k] == Ups(k) && AllNames(rest[k..]);
    assert c[..k + 1] == [".."] + rest[..k] == Ups(k + 1);
    assert c[k + 1..] == rest[k..];
  }

  /** Ends in `.`, a name coming before. */
  ghost predicate EndsInDot(c: seq<string>) {
    c != [] && c[|c| - 1] == "." && exists s | s in c :: IsName(s)
  }

  /** Text that does not climb first has a name before a `..`, or at least before a `.` at the end. */
  lemma {:induction false} TwoWaysToFail(c: seq<string>)
    requires AllPieces(c) && !ClimbsFirst(c) && UpsThenNames(Keep(c))
    ensures EndsInDot(c)
    decreases |c|
  {
    if c != [] {
      var s, rest := c[0], c[1..];
      assert c == [s] + rest && s in c;
      PiecesSplit(s, rest);
      KeepOfPiece(s, rest);
      if IsDots(s) {
        UpsStay(s, rest);
        TwoWaysToFail(rest);
        assert c[|c| - 1] == rest[|rest| - 1];
      } else {
        NoUpsAfterName(s, rest);
      }
    }
  }

  lemma UpsStay(s: string, rest: seq<string>)
    requires IsDots(s) && UpsThenNames(Keep([s] + rest))
    ensures UpsThenNames(Keep(rest))
  {
    KeepOfPiece(s, rest);
    if s == ".." {
      var c, more := Keep([s] + rest), Keep(rest);
      assert c[0] == ".." && c[1..] == more;
      var k :| 0 <= k <= |c| && c[..k] == Ups(k) && AllNames(c[k..]);
      FirstOfUps(c, k);
      assert more[..k - 1] == c[..k][1..] == Ups(k - 1) && more[k - 1..] == c[k..];
    }
  }

  lemma NoUpsAfterName(s: string, rest: seq<string>)
    requires IsName(s) && UpsThenNames(Keep([s] + rest))
    ensures AllNames([s] + Keep(rest)) && ".." !in [s] + rest
  {
    KeepOfPiece(s, rest);
    var c := Keep([s] + rest);
    assert c[0] == s;
    var k :| 0 <= k <= |c| && c[..k] == Ups(k) && AllNames(c[k..]);
    FirstOfUps(c, k);
    assert c[0..] == c;
    KeepsUps([s] + rest);
  }

  lemma FirstOfUps(c: seq<string>, k: nat)
    requires c != [] && k <= |c| && c[..k] == Ups(k) && AllNames(c[k..])
    ensures if k == 0 then IsName(c[0]) else c[0] == ".."
  {
    if k == 0 {
      assert c[k..] == c && c[0] in c;
    } else {
      assert c[0] == c[..k][0];
    }
  }

  lemma {:induction false} KeepsUps(c: seq<string>)
    ensures ".." in c ==> ".." in Keep(c)
  {
    if c != [] {
      assert c == [c[0]] + c[1..];
      KeepsUps(c[1..]);
    }
  }

  lemma {:induction false} ReduceUpsThenNames(k: nat, names: seq<string>)
    requires AllNames(names)
    ensures Reduce(Ups(k) + names) == (k, names)
    decreases |names|, k
  {
    var c := Ups(k) + names;
    if names != [] {
      var n := |names| - 1;
      assert c[..|c| - 1] == Ups(k) + names[..n];
      assert IsName(names[n]) && c[|c| - 1] == names[n];
      ReduceUpsThenNames(k, names[..n]);
      assert names[..n] + [names[n]] == names;
    } else if k > 0 {
      assert c[..|c| - 1] == Ups(k - 1) + [];
      ReduceUpsThenNames(k - 1, []);
    }
  }

  // ---------------------------------------------------------------- a file system for every other text

  /** The first name right before a `..`: before it are only `..` and names. */
  lemma {:induction false} FindCancelled(c: seq<string>) returns (ups: nat, names: seq<string>, a: string,
                                         post: seq<string>)
    requires AllComponents(c) && !UpsThenNames(c)
    ensures c == Ups(ups) + (names + [a] + ([".."] + post)) && AllNames(names + [a])
    decreases |c|
  {
    if c == [] || AllNames(c) {
      NamesOnly(c);
    }
    var rest := c[1..];
    assert c == [c[0]] + rest && AllComponents(rest) && IsComponent(c[0]);
    if c[0] == ".." {
      if UpsThenNames(rest) {
        UpsGoOn(rest);
      }
      ups, names, a, post := FindCancelled(rest);
      OneMoreUp(ups, names + [a] + ([".."] + post));
      ups := ups + 1;
    } else {
      ups := 0;
      names, a, post := FirstUp(c);
      assert Ups(0) + c == c;
    }
  }

  lemma OneMoreUp(ups: nat, c: seq<string>)
    ensures [".."] + (Ups(ups) + c) == Ups(ups + 1) + c
  {
  }

  /** The first `..` after names. */
  lemma {:induction false} FirstUp(c: seq<string>) returns (names: seq<string>, a: string, post: seq<string>)
    requires AllComponents(c) && c != [] && c[0] != ".." && !AllNames(c)
    ensures c == names + [a] + ([".."] + post) && AllNames(names + [a])
    decreases |c|
  {
    var rest := c[1..];
    assert c == [c[0]] + rest && IsComponent(c[0]) && AllComponents(rest);
    assert !AllNames(rest);
    if rest[0] == ".." {
      names, a, post := [], c[0], rest[1..];
      assert rest == [".."] + post;
    } else {
      names, a, post := FirstUp(rest);
      NameBefore(c[0], names, a, post);
      names := [c[0]] + names;
    }
  }

  lemma NameBefore(s: string, names: seq<string>, a: string, post: seq<string>)
    requires IsName(s) && AllNames(names + [a])
    ensures [s] + (names + [a] + ([".."] + post)) == [s] + names + [a] + ([".."] + post)
    ensures AllNames([s] + names + [a])
  {
    assert [s] + names + [a] == [s] + (names + [a]);
  }

  /** A directory `n` levels deep, each named `x`. */
  ghost function Deep(x: string, n: nat): seq<string> { seq(n, _ => x) }

  /** One link at `p`, to a deep directory, and one at `l`; everything else is there. */
  ghost function Detour(p: seq<string>, x: string, n: nat, l: string, t: string): FileSystem {
    q => if q == p then Link(Joined(Deep(x, n))) else if q == [l] then Link(t) else Plain(true)
  }

  ghost predicate StartsAt(q: seq<string>, x: string) { q != [] && q[0] == x }

  /** Along plain entries the walk just goes on. */
  lemma {:induction false} WalkPlain(fs: FileSystem, e: Expansion, here: seq<string>,
                                     names: seq<string>, rest: seq<string>, hops: nat)
    requires AllNames(names) && forall j | 0 < j <= |names| :: fs(here + names[..j]) == Plain(true)
    ensures InPlace(fs, e, here, names + rest, hops) == InPlace(fs, e, here + names, rest, hops)
    decreases |names|
  {
    if names == [] {
      assert names + rest == rest && here + names == here;
    } else {
      var s, more := names[0], names[1..];
      assert IsName(s) && (names + rest)[1..] == more + rest && here + [s] == here + names[..1];
      forall j | 0 < j <= |more| ensures fs(here + [s] + more[..j]) == Plain(true) {
        assert here + [s] + more[..j] == here + names[..j + 1];
      }
      WalkPlain(fs, e, here + [s], more, rest, hops);
      assert here + [s] + more == here + names;
    }
  }

  /** Deep inside, where everything is plain, a walk that cannot climb out is a fold. */
  lemma {:induction false} FoldInside(fs: FileSystem, e: Expansion, here: seq<string>, rest: seq<string>,
                                      x: string, hops: nat)
    requires StartsAt(here, x) && |rest| < |here| && forall q :: StartsAt(q, x) ==> fs(q) == Plain(true)
    requires AllComponents(rest)
    ensures InPlace(fs, e, here, rest, hops) == Ok(Joined(Fold(here, rest)))
    decreases |rest|
  {
    if rest != [] {
      assert IsComponent(rest[0]) && rest == [rest[0]] + rest[1..];
      assert StartsAt(FoldOne(here, rest[0]), x);
      FoldInside(fs, e, FoldOne(here, rest[0]), rest[1..], x, hops);
    }
  }

  lemma {:induction false} FoldElements(done: seq<string>, c: seq<string>)
    ensures forall s | s in Fold(done, c) :: s in done || s in c
    decreases |c|
  {
    if c != [] {
      FoldElements(FoldOne(done, c[0]), c[1..]);
    }
  }

  lemma {:induction false} ReduceElements(c: seq<string>)
    ensures forall s | s in Reduce(c).1 :: s in c
    ensures Reduce(c).0 <= |c|
    decreases |c|
  {
    if c != [] {
      ReduceElements(c[..|c| - 1]);
    }
  }

  /** The POSIX walk follows the link, and ends deep inside. */
  lemma DetourFollowed(fs: FileSystem, e: Expansion, names: seq<string>, a: string, post: seq<string>, x: string,
                       n: nat, l: string, t: string, hops: nat)
    requires fs == Detour(names + [a], x, n, l, t) && IsName(x) && AllNames(names + [a]) && AllComponents(post)
    requires x !in names + [a] && l !in names + [a] && l != x && hops > 0 && n > |post| + 1
    requires e(Joined(Deep(x, n))) == Deep(x, n)
    ensures InPlace(fs, e, [], names + [a] + ([".."] + post), hops) == Ok(Joined(Fold(Deep(x, n - 1), post)))
  {
    var rest := [".."] + post;
    DeepIsAbsolute(x, n);
    DetourReached(fs, e, names, a, x, n, l, t, rest, hops);
    NothingElseInside(fs, names + [a], x, n, l, t);
    AfterDetour(fs, e, x, n, post, hops - 1);
  }

  lemma AfterDetour(fs: FileSystem, e: Expansion, x: string, n: nat, post: seq<string>, hops: nat)
    requires IsName(x) && AllComponents(post) && n > |post| + 1 && forall q :: StartsAt(q, x) ==> fs(q) == Plain(true)
    ensures InPlace(fs, e, [], Deep(x, n) + ([".."] + post), hops) == Ok(Joined(Fold(Deep(x, n - 1), post)))
  {
    GoesDeep(fs, e, x, n, [".."] + post, hops);
    ClimbOnce(fs, e, x, n, post, hops);
  }

  lemma DeepIsAbsolute(x: string, n: nat)
    requires IsName(x)
    ensures IsAbsolute(Joined(Deep(x, n)))
  {
    JoinedRoundTrip(Deep(x, n));
  }

  lemma GoesDeep(fs: FileSystem, e: Expansion, x: string, n: nat, rest: seq<string>, hops: nat)
    requires IsName(x) && n > 0 && forall q :: StartsAt(q, x) ==> fs(q) == Plain(true)
    ensures InPlace(fs, e, [], Deep(x, n) + rest, hops) == InPlace(fs, e, Deep(x, n), rest, hops)
  {
    var deep := Deep(x, n);
    InsidePlain(fs, deep, x);
    WalkPlain(fs, e, [], deep, rest, hops);
    assert [] + deep == deep;
  }

  lemma ClimbOnce(fs: FileSystem, e: Expansion, x: string, n: nat, post: seq<string>, hops: nat)
    requires forall q :: StartsAt(q, x) ==> fs(q) == Plain(true)
    requires AllComponents(post) && n > |post| + 1
    ensures InPlace(fs, e, Deep(x, n), [".."] + post, hops) == Ok(Joined(Fold(Deep(x, n - 1), post)))
  {
    assert ([".."] + post)[1..] == post && Parent(Deep(x, n)) == Deep(x, n - 1);
    FoldInside(fs, e, Deep(x, n - 1), post, x, hops);
  }

  lemma InsidePlain(fs: FileSystem, names: seq<string>, x: string)
    requires StartsAt(names, x) && forall q :: StartsAt(q, x) ==> fs(q) == Plain(true)
    ensures forall j | 0 < j <= |names| :: fs([] + names[..j]) == Plain(true)
  {
    forall j | 0 < j <= |names| ensures fs([] + names[..j]) == Plain(true) {
      assert StartsAt([] + names[..j], x);
    }
  }

  /** Up to the link everything is plain, and the link leads into the deep directory. */
  lemma DetourReached(fs: FileSystem, e: Expansion, names: seq<string>, a: string, x: string, n: nat,
                      l: string, t: string, rest: seq<string>, hops: nat)
    requires fs == Detour(names + [a], x, n, l, t) && AllNames(names + [a]) && l !in names + [a] && hops > 0
    requires IsAbsolute(Joined(Deep(x, n)))
    ensures InPlace(fs, e, [], names + [a] + rest, hops)
            == InPlace(fs, e, [], e(Joined(Deep(x, n))) + rest, hops - 1)
  {
    var p := names + [a];
    assert AllNames(names) && IsName(a) by {
      assert forall s | s in names :: s in p;
      assert a in p;
    }
    assert p + rest == names + ([a] + rest);
    forall j | 0 < j <= |names| ensures fs([] + names[..j]) == Plain(true) {
      PlainBefore(fs, p, x, n, l, t, names[..j]);
      assert [] + names[..j] == names[..j];
    }
    WalkPlain(fs, e, [], names, [a] + rest, hops);
    assert [] + names == names && ([a] + rest)[1..] == rest;
  }

  lemma PlainBefore(fs: FileSystem, p: seq<string>, x: string, n: nat, l: string, t: string, q: seq<string>)
    requires fs == Detour(p, x, n, l, t) && q != [] && q != p && l !in q
    ensures fs(q) == Plain(true)
  {
    assert q[0] in q;
  }

  lemma NothingElseInside(fs: FileSystem, p: seq<string>, x: string, n: nat, l: string, t: string)
    requires fs == Detour(p, x, n, l, t) && x !in p && l != x
    ensures forall q :: StartsAt(q, x) ==> fs(q) == Plain(true)
  {
    forall q | StartsAt(q, x) ensures fs(q) == Plain(true) {
      assert q[0] in q;
    }
  }

  /** The other walk follows it only if what is left after cancelling leads there. */
  lemma DetourCancelled(fs: FileSystem, e: Expansion, p: seq<string>, x: string, n: nat, l: string, t: string,
                        q: seq<string>, hops: nat)
    requires fs == Detour(p, x, n, l, t) && IsName(x) && AllNames(q) && p != [] && n > 0
    requires x !in p && l != x && l !in q && x !in q && hops > 0 && e(Joined(Deep(x, n))) == Deep(x, n)
    ensures InPlace(fs, e, [], q, hops) == Ok(Joined(if p <= q then Deep(x, n) + q[|p|..] else q))
  {
    if p <= q {
      var more := q[|p|..];
      assert q == p + more;
      assert AllNames(p) && AllNames(more) && l !in p by {
        assert forall s | s in p || s in more :: s in q;
      }
      DetourThrough(fs, e, p, x, n, l, t, more, hops);
    } else {
      DetourMissed(fs, e, p, x, n, l, t, q, hops);
    }
  }

  lemma DetourThrough(fs: FileSystem, e: Expansion, p: seq<string>, x: string, n: nat, l: string, t: string,
                      more: seq<string>, hops: nat)
    requires fs == Detour(p, x, n, l, t) && IsName(x) && AllNames(p) && AllNames(more) && p != [] && n > 0
    requires x !in p && l != x && l !in p && hops > 0 && e(Joined(Deep(x, n))) == Deep(x, n)
    ensures InPlace(fs, e, [], p + more, hops) == Ok(Joined(Deep(x, n) + more))
  {
    var names, a := p[..|p| - 1], p[|p| - 1];
    assert p == names + [a];
    DeepIsAbsolute(x, n);
    DetourReached(fs, e, names, a, x, n, l, t, more, hops);
    NothingElseInside(fs, p, x, n, l, t);
    EndsInside(fs, e, x, n, more, hops - 1);
  }

  lemma DetourMissed(fs: FileSystem, e: Expansion, p: seq<string>, x: string, n: nat, l: string, t: string,
                     q: seq<string>, hops: nat)
    requires fs == Detour(p, x, n, l, t) && AllNames(q) && !(p <= q) && l !in q
    ensures InPlace(fs, e, [], q, hops) == Ok(Joined(q))
  {
    forall j | 0 < j <= |q| ensures fs([] + q[..j]) == Plain(true) {
      assert q[..j] <= q && l !in q[..j];
      PlainBefore(fs, p, x, n, l, t, q[..j]);
      assert [] + q[..j] == q[..j];
    }
    WalkPlain(fs, e, [], q, [], hops);
    assert q + [] == q && [] + q == q;
  }

  lemma {:induction false} JoinedSplits(names: seq<string>)
    requires AllNames(names) && names != []
    ensures SplitSlash(Joined(names)) == [""] + names
    ensures Joined(names) != "" && Joined(names)[|Joined(names)| - 1] != '/'
    decreases |names|
  {
    var n := |names| - 1;
    var last := names[n];
    assert IsName(last) && names == names[..n] + [last];
    SplitSlashOfName(last);
    if n == 0 {
      assert Joined(names) == "" + "/" + last;
      SplitSlashConcat("", last);
    } else {
      JoinedSplits(names[..n]);
      SplitSlashConcat(Joined(names[..n]), last);
    }
  }

  lemma {:induction false} NonEmptyOfNames(names: seq<string>)
    requires AllNames(names)
    ensures NonEmpty(names) == names
    decreases |names|
  {
    if names != [] {
      assert names == [names[0]] + names[1..] && IsName(names[0]);
      NonEmptyOfNames(names[1..]);
    }
  }

  /** Written as an absolute path, names stand for themselves. */
  lemma NamesAsTarget(names: seq<string>)
    requires AllNames(names) && names != []
    ensures IsAbsolute(Joined(names)) && PosixComponents(Joined(names)) == Components(Joined(names)) == names
    ensures Reduced(Joined(names)) == names && ClimbsFirst(names)
  {
    JoinedRoundTrip(names);
    JoinedSplits(names);
    NonEmptyOfNames(names);
    PiecesOfSplit(Joined(names), names);
    ReduceUpsThenNames(0, names);
    assert Ups(0) + names == names;
    NamesDescend(names);
    DescendingClimbsFirst(names);
  }

  lemma PiecesOfSplit(p: string, names: seq<string>)
    requires SplitSlash(p) == [""] + names && NonEmpty(names) == names && p != "" && p[|p| - 1] != '/'
    ensures PosixComponents(p) == names
  {
    assert ([""] + names)[1..] == names;
  }

  lemma NamesDescend(names: seq<string>)
    requires AllNames(names)
    ensures Descends(names)
  {
    assert names != [] ==> IsName(names[|names| - 1]);
    assert !IsName("..");
  }

  lemma DeepTarget(x: string, n: nat)
    requires IsName(x) && n > 0
    ensures IsAbsolute(Joined(Deep(x, n))) && ClimbsFirst(Deep(x, n))
    ensures var t := Joined(Deep(x, n)); PosixComponents(t) == Components(t) == Reduced(t) == Deep(x, n)
  {
    NamesAsTarget(Deep(x, n));
  }

  lemma EndsInside(fs: FileSystem, e: Expansion, x: string, n: nat, more: seq<string>, hops: nat)
    requires IsName(x) && AllNames(more) && n > 0 && forall q :: StartsAt(q, x) ==> fs(q) == Plain(true)
    ensures InPlace(fs, e, [], Deep(x, n) + more, hops) == Ok(Joined(Deep(x, n) + more))
  {
    var all := Deep(x, n) + more;
    InsidePlain(fs, all, x);
    WalkPlain(fs, e, [], all, [], hops);
    assert all + [] == all && [] + all == all;
  }

  /** Where the two walks end is not the same place. */
  lemma EndsDiffer(x: string, n: nat, p: seq<string>, post: seq<string>, q: seq<string>)
    requires x !in post && x !in q && AllComponents(post) && n == |post| + 2
    ensures Fold(Deep(x, n - 1), post) != if p <= q then Deep(x, n) + q[|p|..] else q
  {
    var (ups, names) := Reduce(post);
    FoldIsReduce(Deep(x, n - 1), post);
    ReduceElements(post);
    var deep := Ancestor(Deep(x, n - 1), ups);
    var f, g := deep + names, if p <= q then Deep(x, n) + q[|p|..] else q;
    assert |deep| == n - 1 - ups && f[0] == deep[0] == x;
    if p <= q {
      if names != [] {
        assert names[0] in post && f[|deep|] == names[0] && g[|deep|] == x;
      }
    } else if q != [] {
      assert g[0] in q;
    }
  }

  /** With a name before a `..`, a file system on which cancelling first leads elsewhere. */
  lemma DetourSeparates(c: seq<string>, x: string, l: string, t: string, hops: nat)
    returns (p: seq<string>, n: nat)
    requires AllComponents(c) && !UpsThenNames(c) && IsName(x) && x !in c && l !in c && l != x && hops > 0
    ensures n > 0 && p != [l]
    ensures InPlace(Detour(p, x, n, l, t), Components, [], c, hops)
            != InPlace(Detour(p, x, n, l, t), Reduced, [], Fold([], c), hops)
  {
    var ups, names, a, post := FindCancelled(c);
    p, n := names + [a], |post| + 2;
    var fs, q := Detour(p, x, n, l, t), Fold([], c);
    assert forall s | s in p || s in post :: s in c;
    DeepTarget(x, n);
    InPlaceClimbs(fs, Components, [], ups, p + ([".."] + post), hops);
    assert Ancestor([], ups) == [];
    DetourFollowed(fs, Components, names, a, post, x, n, l, t, hops);
    FoldGivesNames([], c);
    FoldElements([], c);
    DetourCancelled(fs, Reduced, p, x, n, l, t, q, hops);
    EndsApart(x, n, p, post, q);
  }

  lemma EndsApart(x: string, n: nat, p: seq<string>, post: seq<string>, q: seq<string>)
    requires IsName(x) && x !in post && x !in q && AllComponents(post) && AllNames(q) && n == |post| + 2
    ensures Joined(Fold(Deep(x, n - 1), post)) != Joined(if p <= q then Deep(x, n) + q[|p|..] else q)
  {
    EndsDiffer(x, n, p, post, q);
    FoldGivesNames(Deep(x, n - 1), post);
    assert AllNames(if p <= q then Deep(x, n) + q[|p|..] else q);
    JoinedApart(Fold(Deep(x, n - 1), post), if p <= q then Deep(x, n) + q[|p|..] else q);
  }

  lemma JoinedApart(a: seq<string>, b: seq<string>)
    requires AllNames(a) && AllNames(b) && a != b
    ensures Joined(a) != Joined(b)
  {
    if Joined(a) == Joined(b) {
      JoinedInjective(a, b);
    }
  }

  /** Longer than all of them. */
  ghost function Longer(c: seq<string>): (n: nat)
    ensures n > 0 && forall s | s in c :: |s| < n
  {
    if c == [] then 1 else if Longer(c[1..]) > |c[0]| then Longer(c[1..]) else |c[0]| + 1
  }

  lemma FreshNames(c: seq<string>) returns (x: string, l: string)
    ensures IsName(x) && IsName(l) && x !in c && l !in c && l != x
  {
    x, l := seq(Longer(c), _ => 'x'), seq(Longer(c) + 1, _ => 'x');
    assert x[0] == l[0] == 'x' && |l| == |x| + 1;
  }

  /** Where all plain entries may be passed through, `.` makes no difference. */
  lemma {:induction false} DotsIgnored(fs: FileSystem, e: Expansion, k: Expansion, here: seq<string>, c: seq<string>,
                                       hops: nat)
    requires (forall q :: fs(q) != Plain(false)) && (forall t :: AllPieces(e(t)) && k(t) == Keep(e(t)))
    requires AllPieces(c)
    ensures InPlace(fs, e, here, c, hops) == InPlace(fs, k, here, Keep(c), hops)
    decreases hops, |c|, 1
  {
    if c != [] {
      var s, rest := c[0], c[1..];
      assert c == [s] + rest;
      PiecesSplit(s, rest);
      KeepOfPiece(s, rest);
      if IsDots(s) {
        assert s == ".." ==> ([s] + Keep(rest))[1..] == Keep(rest);
        DotsIgnored(fs, e, k, if s == ".." then Parent(here) else here, rest, hops);
      } else {
        DotsIgnoredPastName(fs, e, k, here, s, rest, hops);
      }
    }
  }

  lemma {:induction false} DotsIgnoredPastName(fs: FileSystem, e: Expansion, k: Expansion, here: seq<string>, s: string,
                                               rest: seq<string>, hops: nat)
    requires (forall q :: fs(q) != Plain(false)) && (forall t :: AllPieces(e(t)) && k(t) == Keep(e(t)))
    requires IsName(s) && AllPieces(rest)
    ensures InPlace(fs, e, here, [s] + rest, hops) == InPlace(fs, k, here, [s] + Keep(rest), hops)
    decreases hops, |rest| + 1, 0
  {
    if fs(here + [s]).Plain? {
      InPlaceStep(fs, e, here, s, rest, hops);
      InPlaceStep(fs, k, here, s, Keep(rest), hops);
      DotsIgnored(fs, e, k, here + [s], rest, hops);
    } else if fs(here + [s]).Link? && hops > 0 {
      var t := fs(here + [s]).target;
      var base := if IsAbsolute(t) then [] else here;
      DotsIgnored(fs, e, k, base, e(t) + rest, hops - 1);
      DotsPastLink(fs, e, k, here, s, rest, hops, t, base, e(t));
    } else {
      KeepTwice(rest);
      EndsAlike(fs, e, k, here, s, rest, Keep(rest), hops);
    }
  }

  lemma DotsPastLink(fs: FileSystem, e: Expansion, k: Expansion, here: seq<string>, s: string, rest: seq<string>,
                     hops: nat, target: string, base: seq<string>, c: seq<string>)
    requires IsName(s) && fs(here + [s]) == Link(target) && hops > 0 && c == e(target) && k(target) == Keep(c)
    requires base == if IsAbsolute(target) then [] else here
    requires InPlace(fs, e, base, c + rest, hops - 1) == InPlace(fs, k, base, Keep(c + rest), hops - 1)
    ensures InPlace(fs, e, here, [s] + rest, hops) == InPlace(fs, k, here, [s] + Keep(rest), hops)
  {
    KeepConcat(c, rest);
    LinkStep(fs, e, here, s, rest, hops, target);
    LinkStep(fs, k, here, s, Keep(rest), hops, target);
  }

  lemma {:induction false} KeepTwice(c: seq<string>)
    ensures Keep(Keep(c)) == Keep(c)
  {
    if c != [] {
      KeepTwice(c[1..]);
      KeepConcat(if c[0] == "" || c[0] == "." then [] else [c[0]], Keep(c[1..]));
    }
  }

  /** A file at `p`, and a link at `l`; everything else is there, but nothing behind the file. */
  ghost function FileAt(p: seq<string>, l: string, t: string): FileSystem {
    q => if q == p then Plain(false) else if p <= q then Failed else if q == [l] then Link(t) else Plain(true)
  }

  /** A `.` at the end needs a directory, so the file ends the POSIX walk. */
  lemma {:induction false} FileBlocks(fs: FileSystem, e: Expansion, here: seq<string>, c: seq<string>,
                                      names: seq<string>, hops: nat)
    requires AllPieces(c) && ".." !in c && c != [] && c[|c| - 1] == "." && Keep(c) == names && names != []
    requires fs(here + names) == Plain(false) && forall j | 0 < j < |names| :: fs(here + names[..j]) == Plain(true)
    ensures InPlace(fs, e, here, c, hops) == Err(Io)
    decreases |c|
  {
    var s, rest := c[0], c[1..];
    assert c == [s] + rest && s in c && forall t | t in rest :: t in c;
    PiecesSplit(s, rest);
    KeepOfPiece(s, rest);
    if s == "." {
      FileBlocks(fs, e, here, rest, names, hops);
    } else {
      assert rest[|rest| - 1] == c[|c| - 1];
      if names == [s] {
        OnlyDots(rest);
      } else {
        NamesBehind(fs, here, s, names);
        FileBlocks(fs, e, here + [s], rest, names[1..], hops);
      }
      InPlaceStep(fs, e, here, s, rest, hops);
    }
  }

  lemma NamesBehind(fs: FileSystem, here: seq<string>, s: string, names: seq<string>)
    requires |names| > 1 && names[0] == s
    requires fs(here + names) == Plain(false) && forall j | 0 < j < |names| :: fs(here + names[..j]) == Plain(true)
    ensures fs(here + [s]) == Plain(true) && fs(here + [s] + names[1..]) == Plain(false)
    ensures forall j | 0 < j < |names[1..]| :: fs(here + [s] + names[1..][..j]) == Plain(true)
  {
    assert here + [s] == here + names[..1] && here + [s] + names[1..] == here + names;
    forall j | 0 < j < |names[1..]| ensures fs(here + [s] + names[1..][..j]) == Plain(true) {
      assert here + [s] + names[1..][..j] == here + names[..j + 1];
    }
  }

  lemma OnlyDots(rest: seq<string>)
    requires AllPieces(rest) && rest != [] && Keep(rest) == []
    ensures rest[0] == "."
  {
    assert rest == [rest[0]] + rest[1..] && rest[0] in rest;
    KeepOfPiece(rest[0], rest[1..]);
  }

  /** From the root, leading `..` and `.` lead nowhere. */
  lemma {:induction false} FileBlocksFromRoot(fs: FileSystem, e: Expansion, c: seq<string>, p: seq<string>, hops: nat)
    requires AllPieces(c) && UpsThenNames(Keep(c)) && EndsInDot(c) && p == Fold([], Keep(c))
    requires fs(p) == Plain(false) && forall j | 0 < j < |p| :: fs(p[..j]) == Plain(true)
    ensures AllNames(p) && p != [] && (forall s | s in p :: s in Keep(c)) && InPlace(fs, e, [], c, hops) == Err(Io)
    decreases |c|
  {
    var s, rest := c[0], c[1..];
    assert c == [s] + rest && s in c;
    PiecesSplit(s, rest);
    KeepOfPiece(s, rest);
    if IsDots(s) {
      UpsStay(s, rest);
      DotsInFront(s, rest);
      FileBlocksFromRoot(fs, e, rest, p, hops);
    } else {
      NoUpsAfterName(s, rest);
      FoldOfNames([], Keep(c));
      assert [] + Keep(c) == Keep(c);
      FileInPath(fs, e, c, p, hops);
    }
  }

  lemma FileInPath(fs: FileSystem, e: Expansion, c: seq<string>, p: seq<string>, hops: nat)
    requires AllPieces(c) && ".." !in c && c != [] && c[|c| - 1] == "." && Keep(c) == p && p != []
    requires fs(p) == Plain(false) && forall j | 0 < j < |p| :: fs(p[..j]) == Plain(true)
    ensures InPlace(fs, e, [], c, hops) == Err(Io)
  {
    assert [] + p == p;
    forall j | 0 < j < |p| ensures fs([] + p[..j]) == Plain(true) {
      assert [] + p[..j] == p[..j];
    }
    FileBlocks(fs, e, [], c, p, hops);
  }

  lemma DotsInFront(s: string, rest: seq<string>)
    requires IsDots(s) && EndsInDot([s] + rest)
    ensures EndsInDot(rest) && Fold([], Keep([s] + rest)) == Fold([], Keep(rest))
  {
    var c := [s] + rest;
    var n :| n in c && IsName(n);
    assert n in rest && c[|c| - 1] == rest[|rest| - 1];
    KeepOfPiece(s, rest);
    if s == ".." {
      FoldStep([], "..", Keep(rest));
    }
  }

  lemma FileReached(fs: FileSystem, e: Expansion, p: seq<string>, hops: nat)
    requires AllNames(p) && p != [] && fs(p) == Plain(false) && forall j | 0 < j < |p| :: fs(p[..j]) == Plain(true)
    ensures InPlace(fs, e, [], p, hops) == Ok(Joined(p))
  {
    var names, a := p[..|p| - 1], p[|p| - 1];
    assert p == names + [a] + [] && IsName(a);
    forall j | 0 < j <= |names| ensures fs([] + names[..j]) == Plain(true) {
      assert [] + names[..j] == p[..j];
    }
    WalkPlain(fs, e, [], names, [a], hops);
    assert [] + names == names && [a] + [] == [a] && names + [a] == p;
    InPlaceStep(fs, e, names, a, [], hops);
  }

  ghost predicate OthersClimbFirst(fs: FileSystem, t: string) {
    forall p :: fs(p).Link? ==> fs(p).target == t || ClimbsFirst(PosixComponents(fs(p).target))
  }

  lemma FileSeparates(c: seq<string>, l: string, t: string, hops: nat)
    requires AllPieces(c) && UpsThenNames(Keep(c)) && EndsInDot(c) && IsName(l) && l !in Keep(c)
    ensures var fs := FileAt(Fold([], Keep(c)), l, t);
            && FilesEnd(fs) && fs([l]) == Link(t) && OthersClimbFirst(fs, t)
            && InPlace(fs, PosixComponents, [], c, hops) != InPlace(fs, Reduced, [], Fold([], Keep(c)), hops)
  {
    var p := Fold([], Keep(c));
    var fs := FileAt(p, l, t);
    FoldElements([], Keep(c));
    OnlyOneFile(p, l, t);
    FileBlocksFromRoot(fs, PosixComponents, c, p, hops);
    FileReached(fs, Reduced, p, hops);
    assert p[0] in p;
  }

  lemma OnlyOneFile(p: seq<string>, l: string, t: string)
    requires l !in p
    ensures var fs := FileAt(p, l, t);
            && FilesEnd(fs) && OthersClimbFirst(fs, t) && (p != [] ==> fs([l]) == Link(t))
            && forall j | 0 < j < |p| :: fs(p[..j]) == Plain(true)
  {
    var fs := FileAt(p, l, t);
    forall j | 0 < j < |p| ensures fs(p[..j]) == Plain(true) {
      assert p[..j][0] == p[0] && p[0] in p;
    }
    forall q, s | fs(q) == Plain(false) ensures fs(q + [s]) == Failed {
      assert q == p && p <= p + [s] && |p + [s]| > |p|;
    }
    if p != [] {
      assert p[0] in p && !(p <= [l]);
    }
  }

  /** For text that does not climb first, a file system on which the two differ. */
  lemma TextSeparates(c: seq<string>, t: string, hops: nat) returns (fs: FileSystem, l: string)
    requires AllPieces(c) && !ClimbsFirst(c) && hops > 0
    ensures FilesEnd(fs) && OthersClimbFirst(fs, t) && IsName(l) && fs([l]) == Link(t)
    ensures InPlace(fs, PosixComponents, [], c, hops) != InPlace(fs, Reduced, [], Fold([], Keep(c)), hops)
  {
    var x;
    x, l := FreshNames(Keep(c));
    if UpsThenNames(Keep(c)) {
      TwoWaysToFail(c);
      FileSeparates(c, l, t, hops);
      fs := FileAt(Fold([], Keep(c)), l, t);
    } else {
      KeepOfPieces(c);
      var p, n := DetourSeparates(Keep(c), x, l, t, hops);
      fs := Detour(p, x, n, l, t);
      DetourTargets(p, x, n, l, t);
      DotsOfPaths(fs, c, hops);
    }
  }

  lemma DotsOfPaths(fs: FileSystem, c: seq<string>, hops: nat)
    requires AllPieces(c) && forall q :: fs(q) != Plain(false)
    ensures InPlace(fs, PosixComponents, [], c, hops) == InPlace(fs, Components, [], Keep(c), hops)
  {
    PiecesEverywhere();
    DotsIgnored(fs, PosixComponents, Components, [], c, hops);
  }

  lemma PiecesEverywhere()
    ensures forall t :: AllPieces(PosixComponents(t)) && Components(t) == Keep(PosixComponents(t))
  {
    forall t ensures AllPieces(PosixComponents(t)) && Components(t) == Keep(PosixComponents(t)) {
      PiecesOfPath(t);
    }
  }

  lemma DetourTargets(p: seq<string>, x: string, n: nat, l: string, t: string)
    requires IsName(x) && n > 0
    ensures var fs := Detour(p, x, n, l, t); OthersClimbFirst(fs, t) && forall q :: fs(q) != Plain(false)
  {
    DeepTarget(x, n);
  }

  /**
   The path texts with which canonicalizing is POSIX resolution on every file system whose link targets climb
   first: exactly those that climb first, so that `..` comes only before any name and no slash or `.` at the end
   comes after one.
   */
  lemma PathTextsThatAgree(path: string)
    requires IsAbsolute(path)
    ensures ClimbsFirst(PosixComponents(path))
            <==> forall fs: FileSystem :: FilesEnd(fs) && TargetsClimbFirst(fs, PosixComponents) ==>
                   Canonicalize(fs, Err(Io), path) == Posix(fs, Err(Io), path)
  {
    if ClimbsFirst(PosixComponents(path)) {
      forall fs: FileSystem | FilesEnd(fs) && TargetsClimbFirst(fs, PosixComponents)
        ensures Canonicalize(fs, Err(Io), path) == Posix(fs, Err(Io), path)
      {
        ClimbingTextAgrees(fs, Err(Io), path);
      }
    } else {
      var fs := PathThatDiffers(path);
    }
  }

  lemma PathThatDiffers(path: string) returns (fs: FileSystem)
    requires IsAbsolute(path) && !ClimbsFirst(PosixComponents(path))
    ensures FilesEnd(fs) && TargetsClimbFirst(fs, PosixComponents)
    ensures Canonicalize(fs, Err(Io), path) != Posix(fs, Err(Io), path)
  {
    PiecesOfPath(path);
    var l;
    fs, l := TextSeparates(PosixComponents(path), "/", MAX_SYMLINK_HOPS);
    CanonicalizeIsInPlace(fs, Err(Io), path);
    RootClimbsFirst();
  }

  lemma RootClimbsFirst()
    ensures ClimbsFirst(PosixComponents("/"))
  {
    assert SplitSlash("/") == ["", ""];
    assert [".", ""][1..] == [""] && ["."][1..] == [];
    assert PosixComponents("/") == ["."];
  }

  /** Likewise the target texts: those that may be added to targets that climb first are the ones that climb first. */
  lemma TargetTextsThatAgree(t: string)
    ensures ClimbsFirst(PosixComponents(t))
            <==> forall fs: FileSystem, path: string ::
                   FilesEnd(fs) && OthersClimbFirst(fs, t) && IsAbsolute(path) && ClimbsFirst(PosixComponents(path)) ==>
                     Canonicalize(fs, Err(Io), path) == Posix(fs, Err(Io), path)
  {
    if ClimbsFirst(PosixComponents(t)) {
      forall fs: FileSystem, path: string
        | FilesEnd(fs) && OthersClimbFirst(fs, t) && IsAbsolute(path) && ClimbsFirst(PosixComponents(path))
        ensures Canonicalize(fs, Err(Io), path) == Posix(fs, Err(Io), path)
      {
        ClimbingTextAgrees(fs, Err(Io), path);
      }
    } else {
      var fs, path := TargetThatDiffers(t);
    }
  }

  lemma TargetThatDiffers(t: string) returns (fs: FileSystem, path: string)
    requires !ClimbsFirst(PosixComponents(t))
    ensures FilesEnd(fs) && OthersClimbFirst(fs, t) && IsAbsolute(path) && ClimbsFirst(PosixComponents(path))
    ensures Canonicalize(fs, Err(Io), path) != Posix(fs, Err(Io), path)
  {
    PiecesOfPath(t);
    var l;
    fs, l := TextSeparates(PosixComponents(t), t, MAX_SYMLINK_HOPS - 1);
    path := Joined([l]);
    NamesAsTarget([l]);
    LinkAtRoot(fs, l, t);
  }

  /** Both walks take a link in the root right to its target. */
  lemma LinkAtRoot(fs: FileSystem, l: string, t: string)
    requires IsName(l) && fs([l]) == Link(t)
    ensures IsAbsolute(Joined([l]))
    ensures Canonicalize(fs, Err(Io), Joined([l]))
            == InPlace(fs, Reduced, [], Fold([], Components(t)), MAX_SYMLINK_HOPS - 1)
    ensures Posix(fs, Err(Io), Joined([l]))
            == InPlace(fs, PosixComponents, [], PosixComponents(t), MAX_SYMLINK_HOPS - 1)
  {
    NamesAsTarget([l]);
    FoldOfNames([], [l]);
    CanonicalizeIsInPlace(fs, Err(Io), Joined([l]));
    LinkFollowed(fs, PosixComponents, l, t, MAX_SYMLINK_HOPS);
    LinkFollowed(fs, Reduced, l, t, MAX_SYMLINK_HOPS);
    assert [] + [l] == [l];
    TargetFromRoot(fs, t, MAX_SYMLINK_HOPS - 1);
  }

  lemma TargetFromRoot(fs: FileSystem, t: string, hops: nat)
    ensures InPlace(fs, Reduced, [], Reduced(t), hops) == InPlace(fs, Reduced, [], Fold([], Components(t)), hops)
  {
    ComponentsAreComponents(t);
    ReducedFromRoot(fs, Components(t), hops);
  }

  lemma LinkFollowed(fs: FileSystem, e: Expansion, l: string, t: string, hops: nat)
    requires IsName(l) && fs([l]) == Link(t) && hops > 0
    ensures InPlace(fs, e, [], [l], hops) == InPlace(fs, e, [], e(t), hops - 1)
  {
    assert [] + [l] == [l] && [l] + [] == [l] && e(t) + [] == e(t);
    InPlaceStep(fs, e, [], l, [], hops);
  }

  lemma ReducedFromRoot(fs: FileSystem, c: seq<string>, hops: nat)
    requires AllComponents(c)
    ensures InPlace(fs, Reduced, [], Ups(Reduce(c).0) + Reduce(c).1, hops)
            == InPlace(fs, Reduced, [], Fold([], c), hops)
  {
    var (ups, names) := Reduce(c);
    FoldIsReduce([], c);
    assert Ancestor([], ups) == [] && [] + names == names;
    InPlaceClimbs(fs, Reduced, [], ups, names, hops);
  }

  // ---------------------------------------------------------------- the same in small

  /** `/l` leads to `a/../b`, and `/a` to `/x/y`; nothing else is there. */
  function InteriorParent(l: string, a: string, b: string, x: string, y: string): FileSystem {
    p => if p == [l] then Link(a + "/" + (".." + "/" + b))
         else if p == [a] then Link(Joined([x, y]))
         else if p == [x] || p == [x, y] then Plain(true)
         else Missing
  }

  ghost predicate Apart(l: string, a: string, b: string, x: string, y: string) {
    && IsName(l) && IsName(a) && IsName(b) && IsName(x) && IsName(y)
    && l != a && l != b && l != x && a != b && a != x && b != x && b != y
  }

  lemma ParentText(a: string, b: string)
    requires IsName(a) && IsName(b)
    ensures var t := a + "/" + (".." + "/" + b);
            && !IsAbsolute(t) && Components(t) == Components("/" + t) == [a, "..", b]
            && PosixComponents(t) == PosixComponents("/" + t) == [a, "..", b]
  {
    SplitSlashOfName(a);
    SplitSlashOfName("..");
    SplitSlashOfName(b);
    SplitSlashConcat("..", b);
    SplitSlashConcat(a, ".." + "/" + b);
    var t, c := a + "/" + (".." + "/" + b), [a, "..", b];
    assert SplitSlash(t) == c;
    KeepsAll(a, b);
    assert ("/" + t)[1..] == t && SplitSlash("/" + t) == [""] + c && ([""] + c)[1..] == c;
    assert t[|t| - 1] == b[|b| - 1] && ("/" + t)[|t|] == t[|t| - 1];
  }

  lemma FoldCancels(a: string, b: string)
    requires IsName(a) && IsName(b)
    ensures Fold([], [a, "..", b]) == [b] && AllComponents([a, "..", b])
  {
    assert [a, "..", b] == [a] + ([".."] + [b]) && [] + [a] == [a] && [b] == [b] + [] && [] + [b] == [b];
    FoldStep([], a, [".."] + [b]);
    FoldStep([a], "..", [b]);
    FoldStep([], b, []);
    assert Parent([a]) == [];
  }

  lemma FoldStep(done: seq<string>, s: string, rest: seq<string>)
    ensures Fold(done, [s] + rest) == Fold(FoldOne(done, s), rest)
  {
    assert ([s] + rest)[1..] == rest;
  }

  lemma KeepsAll(a: string, b: string)
    requires IsName(a) && IsName(b)
    ensures Keep([a, "..", b]) == NonEmpty([a, "..", b]) == [a, "..", b]
  {
    var c := [a, "..", b];
    assert c[1..] == ["..", b] && c[1..][1..] == [b];
    assert Keep([b]) == NonEmpty([b]) == [b];
    assert Keep(c[1..]) == NonEmpty(c[1..]) == c[1..];
  }

  /** With `a/../b` in a target, and with it in the path: as text it is `b`, for POSIX it is `/x/b`. */
  lemma InteriorParentDiffers(l: string, a: string, b: string, x: string, y: string)
    requires Apart(l, a, b, x, y)
    ensures var fs, path := InteriorParent(l, a, b, x, y), "/" + (a + "/" + (".." + "/" + b));
            && Canonicalize(fs, Err(Io), Joined([l])) == Canonicalize(fs, Err(Io), path) == Ok(Joined([b]))
            && IsAbsolute(Joined([l]))
            && Posix(fs, Err(Io), Joined([l])) == Posix(fs, Err(Io), path) == Ok(Joined([x, b]))
  {
    var t := a + "/" + (".." + "/" + b);
    ParentText(a, b);
    InTargetDiffers(InteriorParent(l, a, b, x, y), l, a, b, x, y, t);
    InPathDiffers(InteriorParent(l, a, b, x, y), l, a, b, x, y, "/" + t);
  }

  lemma InTargetDiffers(fs: FileSystem, l: string, a: string, b: string, x: string, y: string, t: string)
    requires fs == InteriorParent(l, a, b, x, y) && Apart(l, a, b, x, y)
    requires fs([l]) == Link(t) && Components(t) == PosixComponents(t) == [a, "..", b]
    ensures IsAbsolute(Joined([l]))
    ensures Canonicalize(fs, Err(Io), Joined([l])) == Ok(Joined([b]))
    ensures Posix(fs, Err(Io), Joined([l])) == Ok(Joined([x, b]))
  {
    LinkAtRoot(fs, l, t);
    FoldCancels(a, b);
    NamesAsTarget([x, y]);
    InteriorParentLexical(fs, l, a, b, x, y, MAX_SYMLINK_HOPS - 1);
    InteriorParentPosix(fs, PosixComponents, l, a, b, x, y, MAX_SYMLINK_HOPS - 1);
  }

  lemma InPathDiffers(fs: FileSystem, l: string, a: string, b: string, x: string, y: string, path: string)
    requires fs == InteriorParent(l, a, b, x, y) && Apart(l, a, b, x, y)
    requires IsAbsolute(path) && Components(path) == PosixComponents(path) == [a, "..", b]
    ensures Canonicalize(fs, Err(Io), path) == Ok(Joined([b])) && Posix(fs, Err(Io), path) == Ok(Joined([x, b]))
  {
    CanonicalizeIsInPlace(fs, Err(Io), path);
    FoldCancels(a, b);
    NamesAsTarget([x, y]);
    InteriorParentLexical(fs, l, a, b, x, y, MAX_SYMLINK_HOPS);
    InteriorParentPosix(fs, PosixComponents, l, a, b, x, y, MAX_SYMLINK_HOPS);
  }

  lemma InteriorParentLexical(fs: FileSystem, l: string, a: string, b: string, x: string, y: string, hops: nat)
    requires fs == InteriorParent(l, a, b, x, y) && Apart(l, a, b, x, y)
    ensures InPlace(fs, Reduced, [], [b], hops) == Ok(Joined([b]))
  {
    assert [] + [b] == [b] && [b] + [] == [b];
    InPlaceStep(fs, Reduced, [], b, [], hops);
  }

  lemma InteriorParentPosix(fs: FileSystem, e: Expansion, l: string, a: string, b: string, x: string, y: string,
                            hops: nat)
    requires fs == InteriorParent(l, a, b, x, y) && Apart(l, a, b, x, y) && hops > 0
    requires e(Joined([x, y])) == [x, y] && IsAbsolute(Joined([x, y]))
    ensures InPlace(fs, e, [], [a, "..", b], hops) == Ok(Joined([x, b]))
  {
    var t := ["..", b];
    assert [a, "..", b] == [a] + t && [] + [a] == [a];
    InPlaceStep(fs, e, [], a, t, hops);
    InAndOut(fs, e, x, y, b, hops - 1);
  }

  /** Into `/x/y`, up, and down to `b`. */
  lemma InAndOut(fs: FileSystem, e: Expansion, x: string, y: string, b: string, hops: nat)
    requires IsName(x) && IsName(y) && IsName(b) && fs([x]) == fs([x, y]) == Plain(true)
    requires fs([x, b]) == Plain(true) || fs([x, b]) == Missing
    ensures InPlace(fs, e, [], [x, y] + ["..", b], hops) == Ok(Joined([x, b]))
  {
    assert [x, y] + ["..", b] == [x] + ([y] + ["..", b]) && [] + [x] == [x] && [x] + [y] == [x, y];
    InPlaceStep(fs, e, [], x, [y] + ["..", b], hops);
    InPlaceStep(fs, e, [x], y, ["..", b], hops);
    UpAndDown(fs, e, x, y, b, hops);
  }

  lemma UpAndDown(fs: FileSystem, e: Expansion, x: string, y: string, b: string, hops: nat)
    requires IsName(b) && (fs([x, b]) == Plain(true) || fs([x, b]) == Missing)
    ensures InPlace(fs, e, [x, y], ["..", b], hops) == Ok(Joined([x, b]))
  {
    assert ["..", b][1..] == [b] + [] && [b] + [] == [b] && Parent([x, y]) == [x] && [x] + [b] == [x, b];
    InPlaceStep(fs, e, [x], b, [], hops);
  }

  /** With a file at `/f`, POSIX resolution of `/f/../b` and `/f/` fails; canonicalizing gives `/b` and `/f`. */
  lemma FileDiffers(fs: FileSystem, f: string, b: string)
    requires IsName(f) && IsName(b) && fs([f]) == Plain(false) && fs([b]).Plain?
    ensures var path := "/" + (f + "/" + (".." + "/" + b));
            Canonicalize(fs, Err(Io), path) == Ok(Joined([b])) && Posix(fs, Err(Io), path) == Err(Io)
    ensures var path := "/" + (f + "/");
            Canonicalize(fs, Err(Io), path) == Ok(Joined([f])) && Posix(fs, Err(Io), path) == Err(Io)
  {
    ParentText(f, b);
    FoldCancels(f, b);
    SlashText(f);
    assert [f, "..", b] == [f] + ["..", b] && [f, "."] == [f] + ["."];
    BlockedByFile(fs, PosixComponents, f, ["..", b], MAX_SYMLINK_HOPS);
    BlockedByFile(fs, PosixComponents, f, ["."], MAX_SYMLINK_HOPS);
    PlainAtRoot(fs, "/" + (f + "/" + (".." + "/" + b)), b);
    PlainAtRoot(fs, "/" + (f + "/"), f);
  }

  lemma SlashText(f: string)
    requires IsName(f)
    ensures var t := "/" + (f + "/");
            IsAbsolute(t) && Components(t) == [f] && PosixComponents(t) == [f, "."] && Fold([], [f]) == [f]
  {
    var t := "/" + (f + "/");
    SplitSlashOfName(f);
    SplitSlashConcat(f, "");
    assert f + "/" + "" == f + "/" && t[1..] == f + "/" && t[|t| - 1] == '/';
    assert SplitSlash(f + "/") == [f] + [""];
    assert SplitSlash(t) == [""] + [f, ""] && ([""] + [f, ""])[1..] == [f, ""];
    NameAndNothing(f);
    FoldOfNames([], [f]);
    assert [] + [f] == [f];
  }

  lemma NameAndNothing(f: string)
    requires IsName(f)
    ensures NonEmpty([f, ""]) == Keep([f, ""]) == [f]
  {
    var c: seq<string> := [f, ""];
    assert c[1..] == [""] && c[1..][1..] == [];
    assert NonEmpty(c[1..]) == Keep(c[1..]) == [];
  }

  lemma BlockedByFile(fs: FileSystem, e: Expansion, f: string, rest: seq<string>, hops: nat)
    requires IsName(f) && fs([f]) == Plain(false) && rest != [] && IsDots(rest[0])
    ensures InPlace(fs, e, [], [f] + rest, hops) == Err(Io)
  {
    assert [] + [f] == [f];
    InPlaceStep(fs, e, [], f, rest, hops);
  }

  lemma PlainAtRoot(fs: FileSystem, path: string, b: string)
    requires IsAbsolute(path) && IsName(b) && fs([b]).Plain? && Fold([], Components(path)) == [b]
    ensures Canonicalize(fs, Err(Io), path) == Ok(Joined([b]))
  {
    CanonicalizeIsInPlace(fs, Err(Io), path);
    assert [] + [b] == [b] && [b] + [] == [b];
    InPlaceStep(fs, Reduced, [], b, [], MAX_SYMLINK_HOPS);
  }

  /** `/a` leads to `/d/a`. */
  function BackUnderSameName(a: string, d: string): FileSystem {
    p => if p == [a] then Link(Joined([d, a])) else if p == [d] || p == [d, a] then Plain(true) else Missing
  }

  /** A detour through a link may still lead to the same place: so no condition on kinds of entries alone is exact. */
  lemma DetourMayAgree(a: string, d: string)
    requires IsName(a) && IsName(d) && a != d
    ensures var fs, path := BackUnderSameName(a, d), "/" + (a + "/" + (".." + "/" + a));
            && FirstDetour(fs, PosixComponents, [], PosixComponents(path), MAX_SYMLINK_HOPS)
               == Some(Point([], PosixComponents(path), MAX_SYMLINK_HOPS))
            && fs([PosixComponents(path)[0]]).Link?
            && Canonicalize(fs, Err(Io), path) == Posix(fs, Err(Io), path) == Ok(Joined([d, a]))
  {
    var fs, path := BackUnderSameName(a, d), "/" + (a + "/" + (".." + "/" + a));
    ParentText(a, a);
    FoldCancels(a, a);
    NamesAsTarget([d, a]);
    CanonicalizeIsInPlace(fs, Err(Io), path);
    BackWalk(fs, PosixComponents, a, d, MAX_SYMLINK_HOPS);
    BackWalkDirect(fs, Reduced, a, d, MAX_SYMLINK_HOPS);
    BackIsDetour(fs, PosixComponents, a, d, MAX_SYMLINK_HOPS);
  }

  lemma BackWalkDirect(fs: FileSystem, e: Expansion, a: string, d: string, hops: nat)
    requires fs == BackUnderSameName(a, d) && IsName(a) && IsName(d) && a != d && hops > 0
    requires e(Joined([d, a])) == [d, a] && IsAbsolute(Joined([d, a]))
    ensures InPlace(fs, e, [], [a], hops) == Ok(Joined([d, a]))
  {
    assert [a] == [a] + [] && [] + [a] == [a] && [d, a] + [] == [d] + [a] && [] + [d] == [d] && [d] + [a] == [d, a];
    InPlaceStep(fs, e, [], a, [], hops);
    InPlaceStep(fs, e, [], d, [a], hops - 1);
    InPlaceStep(fs, e, [d], a, [], hops - 1);
  }

  lemma BackWalk(fs: FileSystem, e: Expansion, a: string, d: string, hops: nat)
    requires fs == BackUnderSameName(a, d) && IsName(a) && IsName(d) && a != d && hops > 0
    requires e(Joined([d, a])) == [d, a] && IsAbsolute(Joined([d, a]))
    ensures InPlace(fs, e, [], [a, "..", a], hops) == Ok(Joined([d, a]))
  {
    var t := ["..", a];
    assert [a, "..", a] == [a] + t && [] + [a] == [a];
    InPlaceStep(fs, e, [], a, t, hops);
    InAndOut(fs, e, d, a, a, hops - 1);
  }

  lemma BackIsDetour(fs: FileSystem, e: Expansion, a: string, d: string, hops: nat)
    requires fs == BackUnderSameName(a, d) && IsName(a) && IsName(d) && a != d
    ensures FirstDetour(fs, e, [], [a, "..", a], hops) == Some(Point([], [a, "..", a], hops)) && fs([a]).Link?
  {
    CancelUp([a]);
    assert [a, "..", a][1..] == [".."] + [a] && [] + [a] == [a];
  }
}
