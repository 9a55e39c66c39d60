/** The redirect marker test of the per-user pass: `re.match` of
    `^\s*#(виж|redirect)\s+\[\[` with `re.I` against the text of a page's
    oldest revision. */
module Redirect {

  /** The characters `\s` matches in a `str` pattern: those for which
      `str.isspace()` holds. */
  predicate IsSpace(c: char) {
    var n := c as int;
    || 0x09 <= n <= 0x0D
    || 0x1C <= n <= 0x20
    || n == 0x85
    || n == 0xA0
    || n == 0x1680
    || 0x2000 <= n <= 0x200A
    || n == 0x2028
    || n == 0x2029
    || n == 0x202F
    || n == 0x205F
    || n == 0x3000
  }

  /** Simple lower-casing of the Basic Latin and basic Cyrillic capitals;
      every other character is left as it is. */
  function Lower(c: char): char {
    var n := c as int;
    if 'A' as int <= n <= 'Z' as int then (n + 32) as char
    else if 0x410 <= n <= 0x42F then (n + 32) as char
    else if 0x400 <= n <= 0x40F then (n + 80) as char
    else c
  }

  /** The Bulgarian token "виж". */
  const Viz: string := "\U{0432}\U{0438}\U{0436}"
  const RedirectWord: string := "redirect"
  /** The two alternatives of the token group, both in lower case. */
  const Tokens: seq<string> := [Viz, RedirectWord]

  /** `t` holds `tok` at position `i`, ignoring case. */
  predicate TokenAt(t: string, i: nat, tok: string) {
    && i + |tok| <= |t|
    && forall j :: 0 <= j < |tok| ==> Lower(t[i + j]) == tok[j]
  }

  /** The first position at or after `i` that is not whitespace: what a
      greedy `\s*` consumes from `i`. */
  function SkipSpace(t: string, i: nat): (r: nat)
    requires i <= |t|
    ensures i <= r <= |t|
    ensures forall j :: i <= j < r ==> IsSpace(t[j])
    ensures r == |t| || !IsSpace(t[r])
    decreases |t| - i
  {
    if i < |t| && IsSpace(t[i]) then SkipSpace(t, i + 1) else i
  }

  /** From position `i`: the token `tok`, at least one whitespace, then `[[`. */
  predicate TailAt(t: string, i: nat, tok: string) {
    && TokenAt(t, i, tok)
    && var c := i + |tok|;
    && c < |t|
    && IsSpace(t[c])
    && var b := SkipSpace(t, c);
    && b + 2 <= |t|
    && t[b] == '['
    && t[b + 1] == '['
  }

  /** The marker test as the source runs it: skip leading whitespace, then
      `#`, then either alternative of the token group. */
  predicate IsRedirect(t: string) {
    var a := SkipSpace(t, 0);
    && a < |t|
    && t[a] == '#'
    && (TailAt(t, a + 1, Viz) || TailAt(t, a + 1, RedirectWord))
  }

  /** Reference reading of the pattern: `t` starts with `a` whitespace
      characters, `#`, the token `tok` in any case, a non-empty run of
      whitespace ending at `b`, and `[[`. */
  ghost predicate MarkerAt(t: string, a: nat, tok: string, b: nat) {
    && a < |t|
    && (forall j :: 0 <= j < a ==> IsSpace(t[j]))
    && t[a] == '#'
    && TokenAt(t, a + 1, tok)
    && a + 1 + |tok| < b
    && b + 2 <= |t|
    && (forall j :: a + 1 + |tok| <= j < b ==> IsSpace(t[j]))
    && t[b] == '['
    && t[b + 1] == '['
  }

  ghost predicate MatchesPattern(t: string) {
    exists a: nat, tok: string, b: nat :: tok in Tokens && MarkerAt(t, a, tok, b)
  }

  /** Any whitespace run ending at a non-whitespace character is the one
      `SkipSpace` finds. */
  lemma SkipSpaceUnique(t: string, i: nat, r: nat)
    requires i <= r < |t|
    requires forall j :: i <= j < r ==> IsSpace(t[j])
    requires !IsSpace(t[r])
    ensures SkipSpace(t, i) == r
  {
  }

  /** Every text the scanning test accepts matches the pattern. */
  lemma IsRedirectSound(t: string)
    requires IsRedirect(t)
    ensures MatchesPattern(t)
  {
    var a := SkipSpace(t, 0);
    var tok := if TailAt(t, a + 1, Viz) then Viz else RedirectWord;
    var b := SkipSpace(t, a + 1 + |tok|);
    assert tok in Tokens;
    assert MarkerAt(t, a, tok, b);
  }

  /** Every text the pattern matches is accepted by the scanning test. */
  lemma IsRedirectComplete(t: string)
    requires MatchesPattern(t)
    ensures IsRedirect(t)
  {
    var a: nat, tok: string, b: nat :| tok in Tokens && MarkerAt(t, a, tok, b);
    SkipSpaceUnique(t, 0, a);
    SkipSpaceUnique(t, a + 1 + |tok|, b);
    assert TailAt(t, a + 1, tok);
  }

  /** The scanning test accepts exactly the texts the pattern matches:
      greedy whitespace and the different first letters of the two tokens
      leave the regular expression nothing to backtrack into. */
  lemma IsRedirectMatchesPattern(t: string)
    ensures IsRedirect(t) <==> MatchesPattern(t)
  {
    if IsRedirect(t) {
      IsRedirectSound(t);
    }
    if MatchesPattern(t) {
      IsRedirectComplete(t);
    }
  }
}
