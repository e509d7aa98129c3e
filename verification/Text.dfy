/**
 Text: trimming, splitting and decimal numbers, as the other modules need them.
 */
module Text {
  import opened Basics

  // ---------------------------------------------------------------- white space

  predicate IsCommonSpace(c: char) {
    c == ' ' || ('\t' <= c <= '\r') || c == '\U{a0}' || c == '\U{1680}' || ('\U{2000}' <= c <= '\U{200a}')
    || c == '\U{2028}' || c == '\U{2029}' || c == '\U{202f}' || c == '\U{205f}' || c == '\U{3000}'
  }

  /** White space and line ends for `trim` and `\s` in JavaScript. */
  predicate IsScriptSpace(c: char) {
    IsCommonSpace(c) || c == '\U{feff}'
  }

  /** White space for `trim` in Rust. */
  predicate IsRustSpace(c: char) {
    IsCommonSpace(c) || c == '\U{85}'
  }

  function TrimStart(s: string, space: char -> bool): string {
    if s != "" && space(s[0]) then TrimStart(s[1..], space) else s
  }

  function TrimEnd(s: string, space: char -> bool): string {
    if s != "" && space(s[|s| - 1]) then TrimEnd(s[..|s| - 1], space) else s
  }

  function Trim(s: string, space: char -> bool): string {
    TrimEnd(TrimStart(s, space), space)
  }

  /** `trim` in Rust. */
  function Trimmed(s: string): string { Trim(s, IsRustSpace) }

  predicate IsTrimmed(s: string, space: char -> bool) {
    s == "" || (!space(s[0]) && !space(s[|s| - 1]))
  }

  lemma TrimOfTrimmed(s: string, space: char -> bool)
    requires IsTrimmed(s, space)
    ensures Trim(s, space) == s
  {
  }

  lemma {:induction false} TrimStartShape(s: string, space: char -> bool)
    ensures var t := TrimStart(s, space); t == "" || !space(t[0])
    decreases |s|
  {
    if s != "" && space(s[0]) {
      TrimStartShape(s[1..], space);
    }
  }

  lemma {:induction false} TrimEndShape(s: string, space: char -> bool)
    requires s == "" || !space(s[0])
    ensures IsTrimmed(TrimEnd(s, space), space)
    decreases |s|
  {
    if s != "" && space(s[|s| - 1]) {
      assert |s| > 1;
      TrimEndShape(s[..|s| - 1], space);
    }
  }

  lemma TrimTrims(s: string, space: char -> bool)
    ensures IsTrimmed(Trim(s, space), space)
  {
    TrimStartShape(s, space);
    TrimEndShape(TrimStart(s, space), space);
  }

  // ---------------------------------------------------------------- pieces

  predicate StartsWith(s: string, prefix: string) {
    |prefix| <= |s| && s[..|prefix|] == prefix
  }

  predicate OccursAt(s: string, sub: string, p: nat) {
    p + |sub| <= |s| && s[p..p + |sub|] == sub
  }

  predicate Contains(s: string, sub: string) {
    exists p | 0 <= p <= |s| :: OccursAt(s, sub, p)
  }

  /** The first place at or after `from` where `sub` occurs. */
  function IndexFrom(s: string, sub: string, from: nat): (r: Option<nat>)
    requires from <= |s|
    ensures r.Some? ==> from <= r.value && OccursAt(s, sub, r.value)
    ensures r.Some? ==> forall p | from <= p < r.value :: !OccursAt(s, sub, p)
    ensures r.None? ==> forall p | from <= p <= |s| :: !OccursAt(s, sub, p)
    decreases |s| - from
  {
    if OccursAt(s, sub, from) then Some(from)
    else if from == |s| then None
    else IndexFrom(s, sub, from + 1)
  }

  /** `s` is cut at every `c`; the pieces between are kept, empty ones too. */
  function SplitOn(s: string, c: char): (parts: seq<string>)
    ensures |parts| >= 1
    ensures c !in s ==> parts == [s]
    ensures forall p | p in parts :: c !in p
  {
    if s == "" then [""]
    else
      var rest := SplitOn(s[1..], c);
      assert rest[0] in rest;
      assert forall p | p in rest[1..] :: p in rest;
      assert [s[0]] + s[1..] == s;
      if s[0] == c then [""] + rest else [[s[0]] + rest[0]] + rest[1..]
  }

  /** Putting one more character before a cut text. */
  function Prepend(x: char, c: char, parts: seq<string>): seq<string>
    requires |parts| >= 1
  {
    if x == c then [""] + parts else [[x] + parts[0]] + parts[1..]
  }

  lemma PrependConcat(x: char, c: char, p: seq<string>, q: seq<string>)
    requires |p| >= 1
    ensures Prepend(x, c, p + q) == Prepend(x, c, p) + q
  {
    assert (p + q)[1..] == p[1..] + q;
  }

  lemma {:induction false} SplitOnConcat(a: string, b: string, c: char)
    ensures SplitOn(a + [c] + b, c) == SplitOn(a, c) + SplitOn(b, c)
    decreases |a|
  {
    if a == "" {
      assert (a + [c] + b)[1..] == b;
    } else {
      assert (a + [c] + b)[1..] == a[1..] + [c] + b;
      SplitOnConcat(a[1..], b, c);
      PrependConcat(a[0], c, SplitOn(a[1..], c), SplitOn(b, c));
      assert SplitOn(a, c) == Prepend(a[0], c, SplitOn(a[1..], c));
    }
  }

  /** How many characters at the start of `s` satisfy `p`. */
  function Span(s: string, p: char -> bool): (n: nat)
    ensures n <= |s|
    ensures forall k | 0 <= k < n :: p(s[k])
    ensures n < |s| ==> !p(s[n])
  {
    if s != "" && p(s[0]) then 1 + Span(s[1..], p) else 0
  }

  lemma {:induction false} SpanAppend(a: string, b: string, p: char -> bool)
    requires forall c | c in a :: p(c)
    requires b == "" || !p(b[0])
    ensures Span(a + b, p) == |a|
    decreases |a|
  {
    if a == "" {
      assert a + b == b;
    } else {
      assert (a + b)[1..] == a[1..] + b;
      SpanAppend(a[1..], b, p);
    }
  }

  // ---------------------------------------------------------------- decimal numbers

  predicate IsDigit(c: char) { '0' <= c <= '9' }

  predicate AllDigits(s: string) { forall c | c in s :: IsDigit(c) }

  function Digit(n: nat): char
    requires n < 10
  {
    '0' + n as char
  }

  function Print(n: nat): string {
    if n < 10 then [Digit(n)] else Print(n / 10) + [Digit(n % 10)]
  }

  /** The value of a string of digits. */
  function Number(s: string): nat
    requires AllDigits(s)
  {
    if s == "" then 0
    else
      assert IsDigit(s[|s| - 1]);
      10 * Number(s[..|s| - 1]) + (s[|s| - 1] as nat - '0' as nat)
  }

  lemma {:induction false} NumberPrint(n: nat)
    ensures Print(n) != "" && AllDigits(Print(n)) && Number(Print(n)) == n
    decreases n
  {
    if n >= 10 {
      NumberPrint(n / 10);
      var s := Print(n);
      assert s[..|s| - 1] == Print(n / 10);
    } else {
      assert Print(n)[..0] == "";
    }
  }
}
