/**
 What the canonicaliser guarantees: it equals an in-place resolver, its budget only ever
 turns a long chain of links into an error, and its results are fixed points.
 */
module PathSafetyProofs {
  import opened Basics
  import opened PathSafety

  // ---------------------------------------------------------------- printing and splitting undo each other

  lemma {:induction false} SplitSlashConcat(a: string, b: string)
    ensures SplitSlash(a + "/" + b) == SplitSlash(a) + SplitSlash(b)
  {
    if a == "" {
      assert (a + "/" + b)[1..] == b;
    } else {
      assert (a + "/" + b)[1..] == a[1..] + "/" + b;
      SplitSlashConcat(a[1..], b);
    }
  }

  lemma {:induction false} KeepConcat(a: seq<string>, b: seq<string>)
    ensures Keep(a + b) == Keep(a) + Keep(b)
  {
    if a == [] {
      assert a + b == b;
    } else {
      assert (a + b)[1..] == a[1..] + b;
      KeepConcat(a[1..], b);
    }
  }

  lemma {:induction false} SplitSlashOfName(s: string)
    requires '/' !in s
    ensures SplitSlash(s) == [s]
  {
    if s != "" {
      SplitSlashOfName(s[1..]);
      assert [s[0]] + s[1..] == s;
    }
  }

  /** Components of a pushed relative path: those of the base, then those of the path. */
  lemma ComponentsOfPush(base: string, p: string)
    requires IsAbsolute(base) && !IsAbsolute(p)
    ensures Components(Push(base, p)) == Components(base) + Components(p)
    ensures IsAbsolute(Push(base, p))
  {
    if base[|base| - 1] != '/' {
      SplitSlashConcat(base, p);
      KeepConcat(SplitSlash(base), SplitSlash(p));
    } else {
      var b := base[..|base| - 1];
      assert base == b + "/" + "";
      assert Push(base, p) == b + "/" + p;
      SplitSlashConcat(b, p);
      SplitSlashConcat(b, "");
      KeepConcat(SplitSlash(b), SplitSlash(p));
      KeepConcat(SplitSlash(b), SplitSlash(""));
    }
  }

  lemma {:induction false} JoinedRoundTrip(segments: seq<string>)
    requires AllNames(segments)
    ensures IsAbsolute(Joined(segments)) && Components(Joined(segments)) == segments
  {
    if segments == [] {
      assert SplitSlash("/") == ["", ""];
    } else {
      var n := |segments| - 1;
      JoinedRoundTrip(segments[..n]);
      assert IsName(segments[n]);
      ComponentsOfPushedName(Joined(segments[..n]), segments[n]);
      assert segments == segments[..n] + [segments[n]];
    }
  }

  lemma ComponentsOfPushedName(base: string, s: string)
    requires IsAbsolute(base) && IsName(s)
    ensures Components(Push(base, s)) == Components(base) + [s]
    ensures IsAbsolute(Push(base, s))
  {
    ComponentsOfPush(base, s);
    SplitSlashOfName(s);
    assert Keep([s]) == [s];
  }

  lemma JoinedInjective(a: seq<string>, b: seq<string>)
    requires AllNames(a) && AllNames(b) && Joined(a) == Joined(b)
    ensures a == b
  {
    JoinedRoundTrip(a);
    JoinedRoundTrip(b);
  }

  // ---------------------------------------------------------------- folding

  ghost predicate IsComponent(s: string) { s == ".." || IsName(s) }

  lemma {:induction false} SplitSlashPieces(p: string)
    ensures forall s | s in SplitSlash(p) :: '/' !in s
  {
    if p != "" {
      SplitSlashPieces(p[1..]);
      var rest := SplitSlash(p[1..]);
      forall s | s in SplitSlash(p) ensures '/' !in s {
        assert rest[0] in rest;
        if p[0] != '/' && s != [p[0]] + rest[0] {
          assert s in rest[1..];
        }
      }
    }
  }

  lemma {:induction false} KeepPieces(parts: seq<string>)
    requires forall s | s in parts :: '/' !in s
    ensures forall s | s in Keep(parts) :: IsComponent(s)
  {
    if parts != [] {
      KeepPieces(parts[1..]);
    }
  }

  lemma ComponentsAreComponents(p: string)
    ensures forall s | s in Components(p) :: IsComponent(s)
  {
    SplitSlashPieces(p);
    KeepPieces(SplitSlash(p));
  }

  lemma {:induction false} FoldConcat(done: seq<string>, a: seq<string>, b: seq<string>)
    ensures Fold(done, a + b) == Fold(Fold(done, a), b)
    decreases |a|
  {
    if a == [] {
      assert a + b == b;
    } else {
      assert (a + b)[1..] == a[1..] + b;
      FoldConcat(FoldOne(done, a[0]), a[1..], b);
    }
  }

  lemma {:induction false} FoldOfNames(done: seq<string>, names: seq<string>)
    requires AllNames(names)
    ensures Fold(done, names) == done + names
    decreases |names|
  {
    if names != [] {
      assert IsName(names[0]);
      FoldOfNames(done + [names[0]], names[1..]);
      assert done + [names[0]] + names[1..] == done + names;
    }
  }

  lemma {:induction false} FoldGivesNames(done: seq<string>, components: seq<string>)
    requires AllNames(done) && forall s | s in components :: IsComponent(s)
    ensures AllNames(Fold(done, components))
    decreases |components|
  {
    if components != [] {
      assert IsComponent(components[0]);
      FoldGivesNames(FoldOne(done, components[0]), components[1..]);
    }
  }

  lemma NormalizedGivesNames(p: string)
    ensures Normalized(p).Ok? ==> AllNames(Normalized(p).value)
  {
    ComponentsAreComponents(p);
    FoldGivesNames([], Components(p));
  }

  /** The joined-and-split target is the target folded onto the directory, never an error. */
  lemma TargetSegmentsMeaning(base: seq<string>, target: string)
    requires AllNames(base)
    ensures TargetSegments(base, target)
            == Ok(Fold(if IsAbsolute(target) then [] else base, Components(target)))
    ensures AllNames(TargetSegments(base, target).value)
  {
    if IsAbsolute(target) {
      NormalizedGivesNames(target);
    } else {
      JoinedRoundTrip(base);
      ComponentsOfPush(Joined(base), target);
      FoldConcat([], base, Components(target));
      FoldOfNames([], base);
      assert [] + base == base;
      NormalizedGivesNames(Push(Joined(base), target));
    }
  }

  // ---------------------------------------------------------------- settled paths

  /** Every step along `p` exists and is not a link. */
  ghost predicate Solid(fs: FileSystem, p: seq<string>) {
    p == [] || (fs(p).Plain? && Solid(fs, p[..|p| - 1]))
  }

  /** `p` has no link in its existing part: it is solid, or solid up to a name that is missing. */
  ghost predicate Settled(fs: FileSystem, p: seq<string>) {
    Solid(fs, p) || exists k | 0 <= k < |p| :: Solid(fs, p[..k]) && fs(p[..k + 1]) == Missing
  }

  lemma {:induction false} SolidPrefix(fs: FileSystem, p: seq<string>, k: nat)
    requires Solid(fs, p) && k <= |p|
    ensures Solid(fs, p[..k]) && (k > 0 ==> fs(p[..k]).Plain?)
    decreases |p|
  {
    if k == |p| {
      assert p[..k] == p;
    } else {
      SolidPrefix(fs, p[..|p| - 1], k);
      assert p[..|p| - 1][..k] == p[..k];
    }
  }

  lemma SolidAncestor(fs: FileSystem, p: seq<string>, n: nat)
    requires Solid(fs, p) && AllNames(p)
    ensures Solid(fs, Ancestor(p, n)) && AllNames(Ancestor(p, n))
  {
    SolidPrefix(fs, p, |Ancestor(p, n)|);
  }

  lemma SolidExtend(fs: FileSystem, p: seq<string>, s: string)
    requires Solid(fs, p) && fs(p + [s]).Plain?
    ensures Solid(fs, p + [s])
  {
    assert (p + [s])[..|p + [s]| - 1] == p;
  }

  /** Walking again over a link-free prefix changes nothing and costs no hop. */
  lemma {:induction false} Rewalk(fs: FileSystem, done: seq<string>, p: seq<string>, q: seq<string>, hops: nat)
    requires Solid(fs, done + p)
    ensures Resolve(fs, done, p + q, hops) == Resolve(fs, done + p, q, hops)
    decreases |p|
  {
    if p == [] {
      assert p + q == q && done + p == done;
    } else {
      assert (p + q)[1..] == p[1..] + q;
      SolidPrefix(fs, done + p, |done| + 1);
      assert done + [p[0]] == (done + p)[..|done| + 1];
      assert done + [p[0]] + p[1..] == done + p;
      Rewalk(fs, done + [p[0]], p[1..], q, hops);
    }
  }

  lemma RewalkFromRoot(fs: FileSystem, p: seq<string>, q: seq<string>, r: seq<string>, hops: nat)
    requires Solid(fs, p)
    ensures Resolve(fs, [], p + q + r, hops) == Resolve(fs, p, q + r, hops)
  {
    assert [] + p == p;
    assert p + q + r == p + (q + r);
    Rewalk(fs, [], p, q + r, hops);
  }

  // ---------------------------------------------------------------- the in-place resolver

  /** Gives the components that stand for a link target. */
  type Expansion = string -> seq<string>

  /** A file, or a directory one may not pass through, with `.` or `..` to follow. */
  ghost predicate Blocked(entry: Entry, rest: seq<string>) {
    entry.Plain? && !entry.searchable && rest != [] && (rest[0] == "." || rest[0] == "..")
  }

  /**
   Path resolution in the style of section 4.13 of IEEE Std 1003.1-2017: one pass, a link is
   replaced by its target where it stands, `..` leaves the directory actually reached, and `.` and `..` need
   a directory before them. A missing name ends the walk and the rest is kept as text.
   */
  ghost function InPlace(fs: FileSystem, expand: Expansion, here: seq<string>,
                         remaining: seq<string>, hops: nat): Result<string, Error>
    decreases hops, |remaining|
  {
    if remaining == [] then Ok(Joined(here))
    else if remaining[0] == ".." then InPlace(fs, expand, Parent(here), remaining[1..], hops)
    else if remaining[0] == "." then InPlace(fs, expand, here, remaining[1..], hops)
    else
      var next, rest := here + [remaining[0]], remaining[1..];
      match fs(next)
      case Plain(_) => if Blocked(fs(next), rest) then Err(Io) else InPlace(fs, expand, next, rest, hops)
      case Missing => Ok(Joined(Fold(next, Keep(rest))))
      case Failed => Err(Io)
      case UnreadableLink => if hops == 0 then Err(SymlinkLoop(Joined(next))) else Err(Io)
      case Link(target) =>
        if hops == 0 then Err(SymlinkLoop(Joined(next)))
        else InPlace(fs, expand, if IsAbsolute(target) then [] else here, expand(target) + rest, hops - 1)
  }

  lemma {:induction false} KeepsNames(names: seq<string>)
    requires AllNames(names)
    ensures Keep(names) == names
    decreases |names|
  {
    if names != [] {
      assert names == [names[0]] + names[1..] && IsName(names[0]);
      KeepsNames(names[1..]);
    }
  }

  /** `n` copies of `..`. */
  ghost function Ups(n: nat): seq<string> {
    seq(n, _ => "..")
  }

  /** Removes each `name/..` pair from the text of a target: what is left is some `..` and then names. */
  ghost function Reduce(components: seq<string>): (r: (nat, seq<string>)) {
    if components == [] then (0, [])
    else
      var (ups, names) := Reduce(components[..|components| - 1]);
      var last := components[|components| - 1];
      if last != ".." then (ups, names + [last])
      else if names == [] then (ups + 1, [])
      else (ups, Parent(names))
  }

  ghost function Reduced(target: string): seq<string> {
    var (ups, names) := Reduce(Components(target));
    Ups(ups) + names
  }

  ghost function Ancestor(base: seq<string>, n: nat): seq<string> {
    if n <= |base| then base[..|base| - n] else []
  }

  /** Folding a target onto a directory is folding its reduced form onto it. */
  lemma {:induction false} FoldIsReduce(base: seq<string>, components: seq<string>)
    requires forall s | s in components :: IsComponent(s)
    ensures var (ups, names) := Reduce(components);
            AllNames(names) && Fold(base, components) == Ancestor(base, ups) + names
    decreases |components|
  {
    if components != [] {
      var n := |components| - 1;
      var (ups, names) := Reduce(components[..n]);
      FoldIsReduce(base, components[..n]);
      assert components == components[..n] + [components[n]];
      FoldConcat(base, components[..n], [components[n]]);
      assert IsComponent(components[n]);
      FoldOneIsReduce(base, ups, names, components[n]);
    }
  }

  lemma FoldOneIsReduce(base: seq<string>, ups: nat, names: seq<string>, c: string)
    ensures FoldOne(Ancestor(base, ups) + names, c)
            == if c != ".." then Ancestor(base, ups) + (names + [c])
               else if names == [] then Ancestor(base, ups + 1)
               else Ancestor(base, ups) + Parent(names)
  {
    var up := Ancestor(base, ups);
    assert up + names + [c] == up + (names + [c]);
    if names == [] {
      assert up + names == up && Parent(up) == Ancestor(base, ups + 1);
    } else {
      assert Parent(up + names) == up + Parent(names);
    }
  }

  /** Leading `..` climb from the directory reached so far. */
  lemma {:induction false} InPlaceClimbs(fs: FileSystem, expand: Expansion, here: seq<string>,
                                         ups: nat, rest: seq<string>, hops: nat)
    ensures InPlace(fs, expand, here, Ups(ups) + rest, hops) == InPlace(fs, expand, Ancestor(here, ups), rest, hops)
    decreases ups
  {
    if ups == 0 {
      assert Ups(0) + rest == rest && Ancestor(here, 0) == here;
    } else {
      assert (Ups(ups) + rest)[1..] == Ups(ups - 1) + rest;
      InPlaceClimbs(fs, expand, Parent(here), ups - 1, rest, hops);
      assert Ancestor(Parent(here), ups - 1) == Ancestor(here, ups);
    }
  }

  lemma ReducedTargetClimbs(fs: FileSystem, expand: Expansion, here: seq<string>,
                            ups: nat, names: seq<string>, rest: seq<string>, hops: nat)
    ensures InPlace(fs, expand, here, Ups(ups) + names + rest, hops)
            == InPlace(fs, expand, Ancestor(here, ups), names + rest, hops)
  {
    assert Ups(ups) + names + rest == Ups(ups) + (names + rest);
    InPlaceClimbs(fs, expand, here, ups, names + rest, hops);
  }

  /** One step of the restarting walk. */
  lemma ResolveStep(fs: FileSystem, here: seq<string>, s: string, rest: seq<string>, hops: nat)
    ensures fs(here + [s]).Plain? ==> Resolve(fs, here, [s] + rest, hops) == Resolve(fs, here + [s], rest, hops)
    ensures fs(here + [s]) == Missing ==> Resolve(fs, here, [s] + rest, hops) == Ok(Joined(here + [s] + rest))
    ensures fs(here + [s]).Link? && hops > 0 ==>
              Resolve(fs, here, [s] + rest, hops)
              == match TargetSegments(here, fs(here + [s]).target)
                 case Ok(segments) => Resolve(fs, [], segments + rest, hops - 1)
                 case Err(error) => Err(error)
  {
    assert ([s] + rest)[1..] == rest;
  }

  /** One step of the walk in place, past a name. */
  lemma InPlaceStep(fs: FileSystem, e: Expansion, here: seq<string>, s: string, rest: seq<string>, hops: nat)
    requires s != ".." && s != "."
    ensures fs(here + [s]).Plain? && !Blocked(fs(here + [s]), rest) ==>
              InPlace(fs, e, here, [s] + rest, hops) == InPlace(fs, e, here + [s], rest, hops)
    ensures Blocked(fs(here + [s]), rest) ==> InPlace(fs, e, here, [s] + rest, hops) == Err(Io)
    ensures fs(here + [s]) == Missing ==>
              InPlace(fs, e, here, [s] + rest, hops) == Ok(Joined(Fold(here + [s], Keep(rest))))
    ensures fs(here + [s]).Link? && hops > 0 ==>
              InPlace(fs, e, here, [s] + rest, hops)
              == InPlace(fs, e, if IsAbsolute(fs(here + [s]).target) then [] else here,
                         e(fs(here + [s]).target) + rest, hops - 1)
  {
    assert ([s] + rest)[1..] == rest;
  }

  /** Where nothing is followed, both walks end alike. */
  lemma SameEnd(fs: FileSystem, e: Expansion, here: seq<string>, s: string, rest: seq<string>, hops: nat)
    requires IsName(s) && AllNames(rest) && !fs(here + [s]).Plain? && !(fs(here + [s]).Link? && hops > 0)
    ensures Resolve(fs, here, [s] + rest, hops) == InPlace(fs, e, here, [s] + rest, hops)
  {
    assert ([s] + rest)[1..] == rest;
    KeepsNames(rest);
    FoldOfNames(here + [s], rest);
  }

  /**
   On every file system, and for every budget (so also in the number of hops used), restarting
   from the root is the one-pass resolver in which targets are reduced as text first.
   */
  lemma {:induction false} RestartIsInPlace(fs: FileSystem, resolved: seq<string>, remaining: seq<string>, hops: nat)
    requires AllNames(resolved) && AllNames(remaining) && Solid(fs, resolved)
    ensures Resolve(fs, resolved, remaining, hops) == InPlace(fs, Reduced, resolved, remaining, hops)
    decreases hops, 0, |remaining|, 1
  {
    if remaining != [] {
      assert remaining == [remaining[0]] + remaining[1..] && IsName(remaining[0]);
      RestartPastName(fs, resolved, remaining[0], remaining[1..], hops);
    }
  }

  lemma {:induction false} RestartPastName(fs: FileSystem, resolved: seq<string>, s: string, rest: seq<string>,
                                           hops: nat)
    requires AllNames(resolved) && IsName(s) && AllNames(rest) && Solid(fs, resolved)
    ensures Resolve(fs, resolved, [s] + rest, hops) == InPlace(fs, Reduced, resolved, [s] + rest, hops)
    decreases hops, 0, |rest| + 1, 0
  {
    if fs(resolved + [s]).Plain? {
      SolidExtend(fs, resolved, s);
      RestartIsInPlace(fs, resolved + [s], rest, hops);
      SamePastPlain(fs, Reduced, resolved, s, rest, hops);
    } else if fs(resolved + [s]).Link? && hops > 0 {
      var target := fs(resolved + [s]).target;
      var base := if IsAbsolute(target) then [] else resolved;
      var segments, c, end := LinkStepIsInPlace(fs, resolved, target, base, rest, hops - 1);
      SamePastLink(fs, Reduced, resolved, s, rest, hops, target, base, segments, c, end);
    } else {
      SameEnd(fs, Reduced, resolved, s, rest, hops);
    }
  }

  lemma SamePastPlain(fs: FileSystem, e: Expansion, here: seq<string>, s: string, rest: seq<string>, hops: nat)
    requires IsName(s) && AllNames(rest) && fs(here + [s]).Plain?
    requires Resolve(fs, here + [s], rest, hops) == InPlace(fs, e, here + [s], rest, hops)
    ensures Resolve(fs, here, [s] + rest, hops) == InPlace(fs, e, here, [s] + rest, hops)
  {
    ResolveStep(fs, here, s, rest, hops);
    assert rest != [] ==> IsName(rest[0]);
    InPlaceStep(fs, e, here, s, rest, hops);
  }

  lemma SamePastLink(fs: FileSystem, e: Expansion, here: seq<string>, s: string, rest: seq<string>, hops: nat,
                     target: string, base: seq<string>, segments: seq<string>, c: seq<string>,
                     end: Result<string, Error>)
    requires IsName(s) && fs(here + [s]) == Link(target) && hops > 0 && base == if IsAbsolute(target) then [] else here
    requires TargetSegments(here, target) == Ok(segments) && e(target) == c
    requires Resolve(fs, [], segments + rest, hops - 1) == end == InPlace(fs, e, base, c + rest, hops - 1)
    ensures Resolve(fs, here, [s] + rest, hops) == end == InPlace(fs, e, here, [s] + rest, hops)
  {
    ResolveStep(fs, here, s, rest, hops);
    InPlaceStep(fs, e, here, s, rest, hops);
  }

  /** A followed link puts the walk at some ancestor of the directory, with names to go. */
  lemma TargetLands(fs: FileSystem, resolved: seq<string>, target: string)
    returns (ups: nat, up: seq<string>, names: seq<string>)
    requires AllNames(resolved) && Solid(fs, resolved)
    ensures Reduced(target) == Ups(ups) + names
    ensures up == Ancestor(if IsAbsolute(target) then [] else resolved, ups)
    ensures TargetSegments(resolved, target) == Ok(up + names)
    ensures AllNames(up) && AllNames(names) && Solid(fs, up)
  {
    var base := if IsAbsolute(target) then [] else resolved;
    ups, names := Reduce(Components(target)).0, Reduce(Components(target)).1;
    up := Ancestor(base, ups);
    TargetSegmentsMeaning(resolved, target);
    ComponentsAreComponents(target);
    FoldIsReduce(base, Components(target));
    SolidAncestor(fs, base, ups);
  }

  lemma {:induction false} LinkStepIsInPlace(fs: FileSystem, resolved: seq<string>, target: string,
                                             base: seq<string>, rest: seq<string>, hops: nat)
    returns (segments: seq<string>, c: seq<string>, end: Result<string, Error>)
    requires AllNames(resolved) && AllNames(rest) && Solid(fs, resolved)
    requires base == if IsAbsolute(target) then [] else resolved
    ensures TargetSegments(resolved, target) == Ok(segments) && Reduced(target) == c
    ensures Resolve(fs, [], segments + rest, hops) == end == InPlace(fs, Reduced, base, c + rest, hops)
    decreases hops, 1, 0
  {
    var ups, up, names := TargetLands(fs, resolved, target);
    segments, c := up + names, Ups(ups) + names;
    RewalkFromRoot(fs, up, names, rest, hops);
    RestartIsInPlace(fs, up, names + rest, hops);
    ReducedTargetClimbs(fs, Reduced, base, ups, names, rest, hops);
    end := Resolve(fs, [], segments + rest, hops);
  }

  /**
   With no condition on the file system: canonicalizing resolves the components of the path, from the root or
   onto those of the working directory, in place over reduced targets. It fails at once exactly when the path
   is relative and the working directory is unknown or not absolute.
   */
  lemma CanonicalizeIsInPlace(fs: FileSystem, cwd: Result<string, Error>, path: string)
    ensures IsAbsolute(path) ==>
              && AllNames(Fold([], Components(path)))
              && Canonicalize(fs, cwd, path)
                 == InPlace(fs, Reduced, [], Fold([], Components(path)), MAX_SYMLINK_HOPS)
    ensures !IsAbsolute(path) && cwd.Ok? && IsAbsolute(cwd.value) ==>
              var base := Fold([], Components(cwd.value));
              && AllNames(Fold(base, Components(path)))
              && Canonicalize(fs, cwd, path)
                 == InPlace(fs, Reduced, [], Fold(base, Components(path)), MAX_SYMLINK_HOPS)
    ensures !IsAbsolute(path) && cwd.Ok? && !IsAbsolute(cwd.value) ==> Canonicalize(fs, cwd, path) == Err(NotAbsolute)
    ensures !IsAbsolute(path) && cwd.Err? ==> Canonicalize(fs, cwd, path) == Err(Io)
  {
    if IsAbsolute(path) {
      TextIsInPlace(fs, path);
    } else if cwd.Ok? && IsAbsolute(cwd.value) {
      ComponentsOfPush(cwd.value, path);
      FoldConcat([], Components(cwd.value), Components(path));
      TextIsInPlace(fs, Push(cwd.value, path));
    }
  }

  lemma TextIsInPlace(fs: FileSystem, full: string)
    requires IsAbsolute(full)
    ensures var names := Fold([], Components(full));
            && AllNames(names) && Normalized(full) == Ok(names)
            && Resolve(fs, [], names, MAX_SYMLINK_HOPS) == InPlace(fs, Reduced, [], names, MAX_SYMLINK_HOPS)
  {
    NormalizedGivesNames(full);
    RestartIsInPlace(fs, [], Fold([], Components(full)), MAX_SYMLINK_HOPS);
  }

  /** A relative path is resolved from the directory it starts in; for an absolute one that does not matter. */
  lemma RelativeFromDirectory(fs: FileSystem, d: seq<string>, path: string, cwd: Result<string, Error>)
    requires AllNames(d)
    ensures !IsAbsolute(path) ==>
              Canonicalize(fs, Ok(Joined(d)), path)
              == InPlace(fs, Reduced, [], Fold(d, Components(path)), MAX_SYMLINK_HOPS)
    ensures IsAbsolute(path) ==> Canonicalize(fs, cwd, path) == Canonicalize(fs, Ok(Joined(d)), path)
  {
    JoinedRoundTrip(d);
    FoldOfNames([], d);
    assert [] + d == d;
    CanonicalizeIsInPlace(fs, Ok(Joined(d)), path);
    CanonicalizeIsInPlace(fs, cwd, path);
  }

  // ---------------------------------------------------------------- the hop budget

  /** Walking with no budget, the walk meets these links, in this order. */
  ghost predicate MeetsLinks(fs: FileSystem, expand: Expansion, here: seq<string>,
                             remaining: seq<string>, links: seq<seq<string>>)
    decreases |links|, |remaining|
  {
    if links == [] then true
    else if remaining == [] then false
    else if remaining[0] == ".." then MeetsLinks(fs, expand, Parent(here), remaining[1..], links)
    else if remaining[0] == "." then MeetsLinks(fs, expand, here, remaining[1..], links)
    else
      var next := here + [remaining[0]];
      match fs(next)
      case Plain(_) => !Blocked(fs(next), remaining[1..]) && MeetsLinks(fs, expand, next, remaining[1..], links)
      case Link(target) =>
        links[0] == next
        && MeetsLinks(fs, expand, if IsAbsolute(target) then [] else here, expand(target) + remaining[1..], links[1..])
      case UnreadableLink => links == [next]
      case _ => false
  }

  lemma {:induction false} LoopMeetsLinks(fs: FileSystem, expand: Expansion, here: seq<string>,
                                          remaining: seq<string>, hops: nat) returns (links: seq<seq<string>>)
    requires InPlace(fs, expand, here, remaining, hops).Err?
    requires InPlace(fs, expand, here, remaining, hops).error.SymlinkLoop?
    ensures |links| == hops + 1 && MeetsLinks(fs, expand, here, remaining, links)
    ensures InPlace(fs, expand, here, remaining, hops).error.at == Joined(links[hops])
    decreases hops, |remaining|
  {
    var rest := remaining[1..];
    if remaining[0] == ".." {
      links := LoopMeetsLinks(fs, expand, Parent(here), rest, hops);
    } else if remaining[0] == "." {
      links := LoopMeetsLinks(fs, expand, here, rest, hops);
    } else {
      var next := here + [remaining[0]];
      match fs(next)
      case Plain(_) => links := LoopMeetsLinks(fs, expand, next, rest, hops);
      case Link(target) =>
        links := [];
        if hops > 0 {
          links := LoopMeetsLinks(fs, expand, if IsAbsolute(target) then [] else here, expand(target) + rest, hops - 1);
        }
        links := [next] + links;
      case UnreadableLink => links := [next];
    }
  }

  lemma {:induction false} MeetingLinksLoops(fs: FileSystem, expand: Expansion, here: seq<string>,
                                             remaining: seq<string>, hops: nat, links: seq<seq<string>>)
    requires |links| == hops + 1 && MeetsLinks(fs, expand, here, remaining, links)
    ensures InPlace(fs, expand, here, remaining, hops) == Err(SymlinkLoop(Joined(links[hops])))
    decreases hops, |remaining|
  {
    var rest := remaining[1..];
    if remaining[0] == ".." {
      MeetingLinksLoops(fs, expand, Parent(here), rest, hops, links);
    } else if remaining[0] == "." {
      MeetingLinksLoops(fs, expand, here, rest, hops, links);
    } else {
      var next := here + [remaining[0]];
      match fs(next)
      case Plain(_) => MeetingLinksLoops(fs, expand, next, rest, hops, links);
      case Link(target) =>
        if hops > 0 {
          MeetingLinksLoops(fs, expand, if IsAbsolute(target) then [] else here, expand(target) + rest, hops - 1,
                            links[1..]);
        }
      case UnreadableLink =>
    }
  }

  /** Within its budget the walk meets what cannot be examined, or passed through, before it ends. */
  ghost predicate MeetsFailure(fs: FileSystem, expand: Expansion, here: seq<string>, remaining: seq<string>, hops: nat)
    decreases hops, |remaining|
  {
    if remaining == [] then false
    else if remaining[0] == ".." then MeetsFailure(fs, expand, Parent(here), remaining[1..], hops)
    else if remaining[0] == "." then MeetsFailure(fs, expand, here, remaining[1..], hops)
    else
      var next := here + [remaining[0]];
      match fs(next)
      case Plain(_) => Blocked(fs(next), remaining[1..]) || MeetsFailure(fs, expand, next, remaining[1..], hops)
      case Missing => false
      case Failed => true
      case UnreadableLink => hops > 0
      case Link(target) =>
        hops > 0 && MeetsFailure(fs, expand, if IsAbsolute(target) then [] else here,
                                 expand(target) + remaining[1..], hops - 1)
  }

  lemma {:induction false} FailsIffMeetsFailure(fs: FileSystem, expand: Expansion, here: seq<string>,
                                                remaining: seq<string>, hops: nat)
    ensures InPlace(fs, expand, here, remaining, hops) == Err(Io) <==> MeetsFailure(fs, expand, here, remaining, hops)
    decreases hops, |remaining|
  {
    if remaining != [] {
      var rest := remaining[1..];
      if remaining[0] == ".." {
        FailsIffMeetsFailure(fs, expand, Parent(here), rest, hops);
      } else if remaining[0] == "." {
        FailsIffMeetsFailure(fs, expand, here, rest, hops);
      } else if fs(here + [remaining[0]]).Plain? {
        FailsIffMeetsFailure(fs, expand, here + [remaining[0]], rest, hops);
      } else if fs(here + [remaining[0]]).Link? && hops > 0 {
        var target := fs(here + [remaining[0]]).target;
        FailsIffMeetsFailure(fs, expand, if IsAbsolute(target) then [] else here, expand(target) + rest, hops - 1);
      }
    }
  }

  /** The loop error is given exactly when the walk meets a 41st link, and it names that link. */
  lemma LoopIffTooManyLinks(fs: FileSystem, cwd: Result<string, Error>, path: string, at: string)
    requires IsAbsolute(path) || (cwd.Ok? && IsAbsolute(cwd.value))
    ensures var base := if IsAbsolute(path) then [] else Fold([], Components(cwd.value));
            Canonicalize(fs, cwd, path) == Err(SymlinkLoop(at))
            <==> exists links: seq<seq<string>> :: |links| == 41 && Joined(links[40]) == at
                   && MeetsLinks(fs, Reduced, [], Fold(base, Components(path)), links)
  {
    CanonicalizeIsInPlace(fs, cwd, path);
    var base := if IsAbsolute(path) then [] else Fold([], Components(cwd.value));
    var start := Fold(base, Components(path));
    if Canonicalize(fs, cwd, path) == Err(SymlinkLoop(at)) {
      var links := LoopMeetsLinks(fs, Reduced, [], start, MAX_SYMLINK_HOPS);
    }
    forall links: seq<seq<string>> | |links| == 41 && MeetsLinks(fs, Reduced, [], start, links)
      ensures Canonicalize(fs, cwd, path) == Err(SymlinkLoop(Joined(links[40])))
    {
      MeetingLinksLoops(fs, Reduced, [], start, MAX_SYMLINK_HOPS, links);
    }
  }

  /** A larger budget changes nothing but the loop error. */
  lemma {:induction false} BudgetOnlyTurnsIntoLoop(fs: FileSystem, resolved: seq<string>, remaining: seq<string>,
                                                   hops: nat, more: nat)
    requires hops <= more
    ensures var r := Resolve(fs, resolved, remaining, hops);
            r == Resolve(fs, resolved, remaining, more) || (r.Err? && r.error.SymlinkLoop?)
    decreases hops, |remaining|
  {
    if remaining != [] {
      var s, rest := remaining[0], remaining[1..];
      assert remaining == [s] + rest;
      ResolveStep(fs, resolved, s, rest, hops);
      ResolveStep(fs, resolved, s, rest, more);
      if fs(resolved + [s]).Plain? {
        BudgetOnlyTurnsIntoLoop(fs, resolved + [s], rest, hops, more);
      } else if fs(resolved + [s]).Link? && hops > 0 {
        var segments := TargetSegments(resolved, fs(resolved + [s]).target);
        if segments.Ok? {
          BudgetOnlyTurnsIntoLoop(fs, [], segments.value + rest, hops - 1, more - 1);
        }
      }
    }
  }

  // ---------------------------------------------------------------- results are settled and fixed

  lemma SettledAtMissing(fs: FileSystem, resolved: seq<string>, s: string, rest: seq<string>)
    requires Solid(fs, resolved) && fs(resolved + [s]) == Missing
    ensures Settled(fs, resolved + [s] + rest)
  {
    var r := resolved + [s] + rest;
    assert r[..|resolved|] == resolved && r[..|resolved| + 1] == resolved + [s];
  }

  lemma {:induction false} ResolveSettles(fs: FileSystem, resolved: seq<string>, remaining: seq<string>, hops: nat)
    returns (r: seq<string>)
    requires AllNames(resolved) && AllNames(remaining) && Solid(fs, resolved)
    requires Resolve(fs, resolved, remaining, hops).Ok?
    ensures Resolve(fs, resolved, remaining, hops) == Ok(Joined(r)) && AllNames(r) && Settled(fs, r)
    decreases hops, 0, |remaining|
  {
    if remaining == [] {
      return resolved;
    }
    var s, rest := remaining[0], remaining[1..];
    assert remaining == [s] + rest && IsName(s);
    NamesOfParts(resolved, s, rest);
    match fs(resolved + [s])
    case Plain(_) =>
      SolidExtend(fs, resolved, s);
      r := ResolveSettles(fs, resolved + [s], rest, hops);
    case Missing =>
      r := resolved + [s] + rest;
      SettledAtMissing(fs, resolved, s, rest);
    case Link(target) => r := LinkSettles(fs, resolved, target, rest, hops - 1);
  }

  lemma {:induction false} LinkSettles(fs: FileSystem, resolved: seq<string>, target: string, rest: seq<string>,
                                       hops: nat)
    returns (r: seq<string>)
    requires AllNames(resolved) && AllNames(rest) && TargetSegments(resolved, target).Ok?
    requires Resolve(fs, [], TargetSegments(resolved, target).value + rest, hops).Ok?
    ensures Resolve(fs, [], TargetSegments(resolved, target).value + rest, hops) == Ok(Joined(r))
    ensures AllNames(r) && Settled(fs, r)
    decreases hops, 1, 0
  {
    TargetSegmentsMeaning(resolved, target);
    r := ResolveSettles(fs, [], TargetSegments(resolved, target).value + rest, hops);
  }

  lemma NamesOfParts(a: seq<string>, s: string, b: seq<string>)
    requires AllNames(a) && IsName(s) && AllNames([s] + b)
    ensures AllNames(b) && AllNames(a + [s]) && AllNames(a + b) && AllNames(a + [s] + b)
  {
    forall n | n in b ensures IsName(n) {
      assert n in [s] + b;
    }
  }

  lemma SettledStays(fs: FileSystem, r: seq<string>, hops: nat)
    requires Settled(fs, r)
    ensures Resolve(fs, [], r, hops) == Ok(Joined(r))
  {
    if Solid(fs, r) {
      assert r == r + [] + [];
      RewalkFromRoot(fs, r, [], [], hops);
    } else {
      var k :| 0 <= k < |r| && Solid(fs, r[..k]) && fs(r[..k + 1]) == Missing;
      assert r == r[..k] + r[k..k + 1] + r[k + 1..];
      assert r[k..k + 1] == [r[k]] && r[..k] + [r[k]] == r[..k + 1];
      RewalkFromRoot(fs, r[..k], r[k..k + 1], r[k + 1..], hops);
      assert r[k..k + 1] + r[k + 1..] == r[k..];
    }
  }

  /** A path of names is its own canonical form exactly when its existing part has no link. */
  lemma FixedIffSettled(fs: FileSystem, cwd: Result<string, Error>, r: seq<string>)
    requires AllNames(r)
    ensures Canonicalize(fs, cwd, Joined(r)) == Ok(Joined(r)) <==> Settled(fs, r)
  {
    JoinedRoundTrip(r);
    FoldOfNames([], r);
    assert [] + r == r;
    if Settled(fs, r) {
      SettledStays(fs, r, MAX_SYMLINK_HOPS);
    }
    if Canonicalize(fs, cwd, Joined(r)) == Ok(Joined(r)) {
      var s := ResolveSettles(fs, [], r, MAX_SYMLINK_HOPS);
      JoinedInjective(r, s);
    }
  }

  /**
   Every result is the text of a sequence of names (so no `.`, `..` or empty piece), has no link in
   its existing part, and canonicalizing it again, from any working directory, gives it back.
   */
  lemma CanonicalizeIdempotent(fs: FileSystem, cwd: Result<string, Error>, path: string, cwd2: Result<string, Error>)
    returns (r: seq<string>)
    requires Canonicalize(fs, cwd, path).Ok?
    ensures Canonicalize(fs, cwd, path) == Ok(Joined(r)) && AllNames(r) && Settled(fs, r)
    ensures Canonicalize(fs, cwd2, Joined(r)) == Ok(Joined(r))
  {
    var full := Expanded(cwd, path);
    NormalizedGivesNames(full);
    r := ResolveSettles(fs, [], Normalized(full).value, MAX_SYMLINK_HOPS);
    FixedIffSettled(fs, cwd2, r);
  }
}
