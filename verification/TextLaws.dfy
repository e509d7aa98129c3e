/**
 What the text operations mean, said without them: the laws the other modules state their formats with.
 */
module TextLaws {
  import opened Basics
  import opened Text

  // ---------------------------------------------------------------- white space

  predicate AllSpace(s: string, space: char -> bool) { forall c | c in s :: space(c) }

  /** `s` is `r` with white space around it, and `r` has none at its ends. */
  ghost predicate IsBare(s: string, space: char -> bool, r: string) {
    && (r == "" || (!space(r[0]) && !space(r[|r| - 1])))
    && exists pre, post :: AllSpace(pre, space) && AllSpace(post, space) && s == pre + r + post
  }

  lemma {:induction false} TrimStartTakes(s: string, space: char -> bool) returns (pre: string)
    ensures s == pre + TrimStart(s, space) && AllSpace(pre, space)
    decreases |s|
  {
    if s != "" && space(s[0]) {
      var rest := TrimStartTakes(s[1..], space);
      pre := [s[0]] + rest;
      Regrouped(s[0], s[1..], rest, TrimStart(s[1..], space));
      assert s == [s[0]] + s[1..];
    } else {
      pre := "";
    }
  }

  lemma Regrouped(c: char, s: string, a: string, b: string)
    requires s == a + b
    ensures [c] + s == [c] + a + b
  {
  }

  lemma {:induction false} TrimEndTakes(s: string, space: char -> bool) returns (post: string)
    ensures s == TrimEnd(s, space) + post && AllSpace(post, space)
    decreases |s|
  {
    if s != "" && space(s[|s| - 1]) {
      var n := |s| - 1;
      post := TrimEndTakes(s[..n], space);
      assert s == s[..n] + [s[n]] == TrimEnd(s[..n], space) + (post + [s[n]]);
      post := post + [s[n]];
    } else {
      post := "";
    }
  }

  lemma {:induction false} TrimStartSkips(pre: string, r: string, space: char -> bool)
    requires AllSpace(pre, space)
    ensures TrimStart(pre + r, space) == TrimStart(r, space)
    decreases |pre|
  {
    if pre == "" {
      assert pre + r == r;
    } else {
      assert (pre + r)[0] == pre[0] && pre[0] in pre && (pre + r)[1..] == pre[1..] + r;
      TrimStartSkips(pre[1..], r, space);
    }
  }

  lemma {:induction false} TrimEndSkips(r: string, post: string, space: char -> bool)
    requires AllSpace(post, space)
    ensures TrimEnd(r + post, space) == TrimEnd(r, space)
    decreases |post|
  {
    if post == "" {
      assert r + post == r;
    } else {
      var n := |post| - 1;
      assert post[n] in post && (r + post)[..|r + post| - 1] == r + post[..n];
      TrimEndSkips(r, post[..n], space);
    }
  }

  /** Trimming gives the one text without white space at its ends that `s` is but for white space around it. */
  lemma TrimMeans(s: string, space: char -> bool, r: string)
    ensures Trim(s, space) == r <==> IsBare(s, space, r)
  {
    if IsBare(s, space, r) {
      var pre, post :| AllSpace(pre, space) && AllSpace(post, space) && s == pre + r + post;
      TrimOfBare(pre, r, post, space);
      assert s == pre + (r + post);
    }
    if Trim(s, space) == r {
      TrimTrims(s, space);
      var pre := TrimStartTakes(s, space);
      var post := TrimEndTakes(TrimStart(s, space), space);
      assert s == pre + r + post;
    }
  }

  lemma TrimOfBare(pre: string, r: string, post: string, space: char -> bool)
    requires AllSpace(pre, space) && AllSpace(post, space) && IsTrimmed(r, space)
    ensures Trim(pre + (r + post), space) == r
  {
    TrimStartSkips(pre, r + post, space);
    if r == "" {
      assert r + post == post && post + "" == post && "" + post == post;
      TrimStartSkips(post, "", space);
    } else {
      assert (r + post)[0] == r[0];
      TrimEndSkips(r, post, space);
    }
  }

  /** The bare text of a field, for `trim` in Rust. */
  ghost function Bare(s: string): (r: string)
    ensures IsBare(s, IsRustSpace, r)
  {
    TrimMeans(s, IsRustSpace, Trimmed(s));
    Trimmed(s)
  }

  lemma BareIsUnique(s: string, space: char -> bool, r: string, t: string)
    requires IsBare(s, space, r) && IsBare(s, space, t)
    ensures r == t
  {
    TrimMeans(s, space, r);
    TrimMeans(s, space, t);
  }

  /** The code points of white space: `trim` in Rust takes U+0085 and not U+FEFF, in JavaScript the other way round. */
  lemma SpacesAre(c: char)
    ensures var n := c as int;
            var common := n in {0x20, 0xA0, 0x1680, 0x2028, 0x2029, 0x202F, 0x205F, 0x3000}
                          || 0x09 <= n <= 0x0D || 0x2000 <= n <= 0x200A;
            (IsRustSpace(c) <==> common || n == 0x85) && (IsScriptSpace(c) <==> common || n == 0xFEFF)
  {
  }

  // ---------------------------------------------------------------- pieces

  /** The pieces with the separator between them. */
  function Glued(parts: seq<string>, c: char): string
    requires parts != []
  {
    if |parts| == 1 then parts[0] else parts[0] + [c] + Glued(parts[1..], c)
  }

  /** Cutting gives the only pieces without the separator that make the text when put together. */
  lemma SplitMeans(s: string, c: char, parts: seq<string>)
    requires parts != []
    ensures SplitOn(s, c) == parts <==> Glued(parts, c) == s && forall p | p in parts :: c !in p
  {
    if SplitOn(s, c) == parts {
      SplitGlues(s, c);
    }
    if Glued(parts, c) == s && forall p | p in parts :: c !in p {
      GlueSplits(parts, c);
    }
  }

  lemma {:induction false} SplitGlues(s: string, c: char)
    ensures Glued(SplitOn(s, c), c) == s
    decreases |s|
  {
    if s != "" {
      SplitGlues(s[1..], c);
      assert s == [s[0]] + s[1..];
      var rest := SplitOn(s[1..], c);
      assert SplitOn(s, c) == Prepend(s[0], c, rest);
      GluePrepended(s[0], c, rest);
    }
  }

  lemma GluePrepended(x: char, c: char, rest: seq<string>)
    requires rest != []
    ensures Glued(Prepend(x, c, rest), c) == [x] + Glued(rest, c)
  {
    var all := Prepend(x, c, rest);
    if x == c {
      assert all[1..] == rest;
      assert Glued(all, c) == "" + [c] + Glued(rest, c);
    } else {
      assert all[1..] == rest[1..];
    }
  }

  lemma {:induction false} GlueSplits(parts: seq<string>, c: char)
    requires parts != [] && forall p | p in parts :: c !in p
    ensures SplitOn(Glued(parts, c), c) == parts
    decreases |parts|
  {
    assert parts[0] in parts;
    if |parts| > 1 {
      assert forall p | p in parts[1..] :: p in parts;
      GlueSplits(parts[1..], c);
      SplitOnConcat(parts[0], Glued(parts[1..], c), c);
      assert parts == [parts[0]] + parts[1..];
    }
  }

  lemma {:induction false} GluedChars(parts: seq<string>, c: char)
    requires parts != []
    ensures forall p, x | p in parts && x in p :: x in Glued(parts, c)
    ensures forall x | x in Glued(parts, c) :: x == c || exists p :: p in parts && x in p
    decreases |parts|
  {
    assert parts[0] in parts;
    if |parts| > 1 {
      GluedChars(parts[1..], c);
      assert forall p :: p in parts <==> p == parts[0] || p in parts[1..];
    }
  }

  // ---------------------------------------------------------------- decimal numbers

  /** Positional notation, most significant digit first. */
  function Positional(digits: seq<nat>): nat {
    if digits == [] then 0 else Positional(digits[..|digits| - 1]) * 10 + digits[|digits| - 1]
  }

  ghost predicate Digits(s: string, digits: seq<nat>) {
    |s| == |digits| && forall i | 0 <= i < |s| :: digits[i] < 10 && s[i] as int == '0' as int + digits[i]
  }

  lemma {:induction false} NumberMeans(s: string, digits: seq<nat>)
    requires Digits(s, digits)
    ensures AllDigits(s) && Number(s) == Positional(digits)
    decreases |s|
  {
    if s != "" {
      var n := |s| - 1;
      assert s == s[..n] + [s[n]];
      NumberMeans(s[..n], digits[..n]);
      assert forall c | c in s :: c in s[..n] || c == s[n];
    }
  }

  /** Digits are 0 to 9. */
  lemma DigitsAre(s: string) returns (digits: seq<nat>)
    requires AllDigits(s)
    ensures Digits(s, digits)
  {
    assert forall i | 0 <= i < |s| :: s[i] in s;
    digits := seq(|s|, i requires 0 <= i < |s| => s[i] as int - '0' as int);
  }

  /** A number prints without a zero in front. */
  lemma {:induction false} PrintMeans(n: nat)
    ensures Print(n) != "" && AllDigits(Print(n)) && Number(Print(n)) == n && (Print(n)[0] == '0' ==> n == 0)
    decreases n
  {
    NumberPrint(n);
    if n >= 10 {
      PrintMeans(n / 10);
    }
  }
}
