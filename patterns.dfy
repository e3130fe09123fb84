/// The fixed regular expressions of main.py, each written as a predicate or
/// as a function giving the end of its match. Python's classes `\s`, `\d`
/// and `\w` are taken over ASCII (see module Text).
module Patterns {
  import opened Text

  /** `re.match('^P$', t)` for a pattern `P` whose full matches are the texts
      satisfying `p`: Python's `$` matches at the end of the text and also
      just before a newline that ends it. */
  predicate MatchesWhole(p: string -> bool, t: string) {
    p(t) || (|t| > 0 && t[|t| - 1] == '\n' && p(t[..|t| - 1]))
  }

  /** `\s+` */
  predicate IsBlankText(s: string) {
    |s| > 0 && forall i :: 0 <= i < |s| ==> IsSpace(s[i])
  }

  /** `#.*`, where `.` matches anything but a newline. */
  predicate IsCommentText(s: string) {
    |s| > 0 && s[0] == '#' && '\n' !in s[1..]
  }

  predicate IsQuote(c: char) { c == '"' || c == '\'' }

  /** `(f)?["'][^"']*["']`: an optional `f`, then a quote, characters other
      than quotes (newlines included), and a quote of either kind. */
  predicate IsQuotedText(s: string) {
    var q := if |s| > 0 && s[0] == 'f' then s[1..] else s;
    |q| >= 2 && IsQuote(q[0]) && IsQuote(q[|q| - 1])
    && forall i :: 0 < i < |q| - 1 ==> !IsQuote(q[i])
  }

  /** `\[.*\]` */
  predicate IsBracketText(s: string) {
    |s| >= 2 && s[0] == '[' && s[|s| - 1] == ']' && '\n' !in s[1..|s| - 1]
  }

  /** `\d+` */
  predicate IsDigits(s: string) {
    |s| > 0 && forall i :: 0 <= i < |s| ==> IsDigit(s[i])
  }

  /** `\d+(?:\.\d+)?` */
  predicate IsNumberText(s: string) {
    IsDigits(s)
    || exists k :: 0 < k < |s| && s[k] == '.' && IsDigits(s[..k]) && IsDigits(s[k + 1..])
  }

  // `[+*/=<>!&|%^-]`
  predicate IsOperatorChar(c: char) {
    c == '+' || c == '*' || c == '/' || c == '=' || c == '<' || c == '>' || c == '!'
    || c == '&' || c == '|' || c == '%' || c == '^' || c == '-'
  }

  // `[+*/=<>!&|%^-]+`
  predicate IsOperatorText(s: string) {
    |s| > 0 && forall i :: 0 <= i < |s| ==> IsOperatorChar(s[i])
  }

  /** `[(),:]` */
  predicate IsGroupingChar(c: char) {
    c == '(' || c == ')' || c == ',' || c == ':'
  }

  /** The characters with a special meaning in a Python regular expression
      outside a character class. */
  const RegexMeta: set<char> :=
    {'.', '^', '$', '*', '+', '?', '{', '}', '[', ']', '\\', '|', '(', ')'}

  /** A keyword that, written into a regular expression, matches only itself. */
  predicate IsPlainKey(k: string) {
    forall i :: 0 <= i < |k| ==> k[i] !in RegexMeta
  }

  /** The alternatives of `'(' + '|'.join(keys) + ')'`: with no keys the
      group is empty and matches the empty text. */
  function KeyAlternatives(keys: seq<string>): (alts: seq<string>)
    ensures |alts| > 0
    ensures forall k :: k in keys ==> k in alts
    ensures forall k :: k in alts ==> k in keys || (keys == [] && k == "")
  {
    if |keys| == 0 then [""] else keys
  }

  /** `'^(' + '|'.join(keys) + ')$'` for keys that are all plain. */
  predicate IsKeywordText(t: string, keys: seq<string>) {
    MatchesWhole(s => s in KeyAlternatives(keys), t)
  }

  /** `^\s*#`: optional leading whitespace (newlines included), then `#`. */
  predicate StartsWithComment(line: string) {
    var k := RunEnd(line, 0, IsSpace);
    k < |line| && line[k] == '#'
  }

  /** End of the greedy match of `\d+(?:\.\d+)?` at `i`: the digits, then a
      point and the digits after it when there are any. */
  function NumberEnd(s: string, i: nat): (e: nat)
    requires i < |s| && IsDigit(s[i])
    ensures i < e <= |s| && IsNumberText(s[i..e])
    ensures e < |s| ==> !IsDigit(s[e])
    ensures IsDigits(s[i..e]) && e + 1 < |s| ==> !(s[e] == '.' && IsDigit(s[e + 1]))
  {
    var d := RunEnd(s, i, IsDigit);
    assert IsDigits(s[i..d]);
    if d + 1 < |s| && s[d] == '.' && IsDigit(s[d + 1]) then
      var e := RunEnd(s, d + 1, IsDigit);
      assert s[i..e][..d - i] == s[i..d] && s[i..e][d - i + 1..] == s[d + 1..e];
      assert IsDigits(s[d + 1..e]);
      assert !IsDigits(s[i..e]) by { assert s[i..e][d - i] == '.'; }
      e
    else
      d
  }

  /** Each anchored pattern fixes the class of the first character of the
      texts it matches. */
  lemma AnchoredFirstChar(t: string)
    requires |t| > 0
    ensures MatchesWhole(IsBlankText, t) ==> IsSpace(t[0])
    ensures MatchesWhole(IsCommentText, t) ==> t[0] == '#'
    ensures MatchesWhole(IsQuotedText, t) ==> t[0] == 'f' || IsQuote(t[0])
    ensures MatchesWhole(IsQuotedText, t) && t[0] == 'f' ==> |t| > 1 && IsQuote(t[1])
    ensures MatchesWhole(IsBracketText, t) ==> t[0] == '['
    ensures MatchesWhole(IsNumberText, t) ==> IsDigit(t[0])
    ensures MatchesWhole(IsOperatorText, t) ==> IsOperatorChar(t[0])
  {
  }

  /** For a text that does not end with a newline, the keyword pattern is
      exact membership in the keys (with no keys it matches only the empty
      text). */
  lemma KeywordIsMembership(t: string, keys: seq<string>)
    requires |t| > 0 && t[|t| - 1] != '\n'
    ensures IsKeywordText(t, keys) <==> t in keys
  {
    assert IsKeywordText(t, keys) <==> t in KeyAlternatives(keys);
  }
}
