/// The tokenizer of `highlight_line` (main.py:63): `re.findall` with the
/// alternation
///
///     "[^"]*" | '[^']*' | f"[^"]*" | \[.*?\] | \b\d+(?:\.\d+)?\b
///             | \b[a-zA-Z_]\w*\b | [+*/=<>!&|%^-]+ | [(),:] | \s+
///
/// written as a leftmost-first scan: at each position the alternatives are
/// tried in order and the first that matches gives the next token; where none
/// matches, the character is passed over and is not part of any token.
module Scanner {
  import opened Text
  import opened Patterns

  /** `\b` at position `p`: exactly one of the characters on either side is
      a word character (outside the text counts as not one). */
  predicate Boundary(s: string, p: nat)
    requires p <= |s|
  {
    (p > 0 && IsWordChar(s[p - 1])) != (p < |s| && IsWordChar(s[p]))
  }

  /** `"[^"]*"` for `q == '"'` and `'[^']*'` for `q == '\''`: the quote, the
      characters up to the next such quote (newlines included), and that
      quote; no match when the quote is not closed. */
  function QuotedAt(s: string, i: nat, q: char): (n: nat)
    requires i < |s|
    ensures i + n <= |s|
    ensures n > 0 ==> n >= 2 && s[i] == q && s[i + n - 1] == q
  {
    if s[i] != q then 0
    else
      var e := RunEnd(s, i + 1, c => c != q);
      if e < |s| then e + 1 - i else 0
  }

  /** `f"[^"]*"` */
  function FStringAt(s: string, i: nat): (n: nat)
    requires i < |s|
    ensures i + n <= |s|
    ensures n > 0 ==> n >= 3 && s[i] == 'f' && s[i + 1] == '"' && s[i + n - 1] == '"'
  {
    if s[i] == 'f' && i + 1 < |s| && QuotedAt(s, i + 1, '"') > 0 then 1 + QuotedAt(s, i + 1, '"')
    else 0
  }

  /** `\[.*?\]`: the lazy `.*?` stops at the first `]`, and `.` does not
      match a newline, so a newline before any `]` means no match. */
  function BracketAt(s: string, i: nat): (n: nat)
    requires i < |s|
    ensures i + n <= |s|
    ensures n > 0 ==> n >= 2 && s[i] == '[' && s[i + n - 1] == ']'
  {
    if s[i] != '[' then 0
    else
      var e := RunEnd(s, i + 1, c => c != ']' && c != '\n');
      if e < |s| && s[e] == ']' then e + 1 - i else 0
  }

  /** `\b\d+(?:\.\d+)?\b`. The regex engine backtracks from the longest
      candidate: a shorter run of digits would end between two digits, where
      `\b` fails, so only two candidates remain, the digits with their
      fraction and the digits alone. */
  function NumberAt(s: string, i: nat): (n: nat)
    requires i < |s|
    ensures i + n <= |s|
    ensures n > 0 ==> IsDigit(s[i]) && IsDigit(s[i + n - 1])
  {
    if !IsDigit(s[i]) || !Boundary(s, i) then 0
    else
      var d := RunEnd(s, i, IsDigit);
      if d + 1 < |s| && s[d] == '.' && IsDigit(s[d + 1]) && Boundary(s, RunEnd(s, d + 1, IsDigit)) then
        RunEnd(s, d + 1, IsDigit) - i
      else if Boundary(s, d) then d - i
      else 0
  }

  /** `\b[a-zA-Z_]\w*\b`: the run of word characters always ends at a
      boundary, so only the boundary before it is tested. */
  function WordAt(s: string, i: nat): (n: nat)
    requires i < |s|
    ensures i + n <= |s|
    ensures n > 0 <==> IsWordStart(s[i]) && Boundary(s, i)
    ensures n > 0 ==> IsWordChar(s[i + n - 1])
    ensures n > 0 ==> i + n == |s| || !IsWordChar(s[i + n])
  {
    if IsWordStart(s[i]) && Boundary(s, i) then RunEnd(s, i, IsWordChar) - i else 0
  }

  // `[+*/=<>!&|%^-]+`
  function OperatorAt(s: string, i: nat): (n: nat)
    requires i < |s|
    ensures i + n <= |s|
    ensures n > 0 ==> IsOperatorChar(s[i]) && IsOperatorChar(s[i + n - 1])
    ensures IsOperatorChar(s[i]) ==> n > 0
    ensures n > 0 ==> i + n == |s| || !IsOperatorChar(s[i + n])
  {
    if IsOperatorChar(s[i]) then RunEnd(s, i, IsOperatorChar) - i else 0
  }

  /** `[(),:]` */
  function GroupingAt(s: string, i: nat): (n: nat)
    requires i < |s|
    ensures i + n <= |s|
    ensures n > 0 ==> n == 1 && IsGroupingChar(s[i])
    ensures IsGroupingChar(s[i]) ==> n > 0
  {
    if IsGroupingChar(s[i]) then 1 else 0
  }

  /** `\s+` */
  function SpaceAt(s: string, i: nat): (n: nat)
    requires i < |s|
    ensures i + n <= |s|
    ensures n > 0 ==> IsBlankText(s[i..i + n])
    ensures IsSpace(s[i]) ==> n > 0
    ensures n > 0 ==> i + n == |s| || !IsSpace(s[i + n])
  {
    if IsSpace(s[i]) then RunEnd(s, i, IsSpace) - i else 0
  }

  /** A quoted match holds no other quote of its kind. */
  lemma QuotedAtInside(s: string, i: nat, q: char)
    requires i < |s| && QuotedAt(s, i, q) > 0
    ensures forall k :: i < k < i + QuotedAt(s, i, q) - 1 ==> s[k] != q
  {
  }

  /** A quote closed later in the text always gives a match, which ends at
      the first closing quote at the latest. */
  lemma QuotedAtFound(s: string, i: nat, q: char, e: nat)
    requires i < e < |s| && s[i] == q && s[e] == q
    ensures 0 < QuotedAt(s, i, q) <= e + 1 - i
  {
  }

  /** An f-string holds no `"` between its quotes. */
  lemma FStringAtInside(s: string, i: nat)
    requires i < |s| && FStringAt(s, i) > 0
    ensures forall k :: i + 1 < k < i + FStringAt(s, i) - 1 ==> s[k] != '"'
  {
    QuotedAtInside(s, i + 1, '"');
  }

  /** `f"` closed later in the text always gives a match. */
  lemma FStringAtFound(s: string, i: nat, e: nat)
    requires i + 1 < e < |s| && s[i] == 'f' && s[i + 1] == '"' && s[e] == '"'
    ensures 0 < FStringAt(s, i) <= e + 1 - i
  {
    QuotedAtFound(s, i + 1, '"', e);
  }

  /** A bracket match stops at the first `]` and does not cross a newline. */
  lemma BracketAtInside(s: string, i: nat)
    requires i < |s| && BracketAt(s, i) > 0
    ensures forall k :: i < k < i + BracketAt(s, i) - 1 ==> s[k] != ']' && s[k] != '\n'
  {
  }

  /** `[` followed, before any newline, by `]` always gives a match, which
      ends at that `]` at the latest. */
  lemma BracketAtFound(s: string, i: nat, e: nat)
    requires i < e < |s| && s[i] == '[' && s[e] == ']'
    requires forall k :: i < k < e ==> s[k] != '\n'
    ensures 0 < BracketAt(s, i) <= e + 1 - i
  {
  }

  /** A word match is the whole run of word characters that starts there. */
  lemma WordAtRun(s: string, i: nat)
    requires i < |s|
    ensures forall k :: i <= k < i + WordAt(s, i) ==> IsWordChar(s[k])
  {
  }

  /** The lengths at which `\b\d+(?:\.\d+)?\b` matches at `i`. */
  predicate NumberCandidate(s: string, i: nat, m: nat) {
    0 < m && i + m <= |s| && IsNumberText(s[i..i + m]) && Boundary(s, i) && Boundary(s, i + m)
  }

  /** The number match is a candidate, and no candidate is longer: the
      backtracking engine tries the digits with their fraction first. */
  lemma NumberAtLongest(s: string, i: nat)
    requires i < |s|
    ensures NumberAt(s, i) > 0 ==> NumberCandidate(s, i, NumberAt(s, i))
    ensures forall m: nat :: NumberCandidate(s, i, m) ==> m <= NumberAt(s, i)
  {
    if NumberAt(s, i) > 0 {
      NumberAtIsCandidate(s, i);
    }
    forall m: nat | NumberCandidate(s, i, m) ensures m <= NumberAt(s, i) {
      CandidateBelowNumberAt(s, i, m);
    }
  }

  lemma NumberAtIsCandidate(s: string, i: nat)
    requires i < |s| && NumberAt(s, i) > 0
    ensures NumberCandidate(s, i, NumberAt(s, i))
  {
    var d := RunEnd(s, i, IsDigit);
    assert IsDigits(s[i..d]);
    if d + 1 < |s| && s[d] == '.' && IsDigit(s[d + 1]) && Boundary(s, RunEnd(s, d + 1, IsDigit)) {
      var e := RunEnd(s, d + 1, IsDigit);
      assert IsDigits(s[d + 1..e]);
      FractionIsNumberText(s, i, d, e);
      assert NumberAt(s, i) == e - i;
    } else {
      assert NumberAt(s, i) == d - i;
    }
  }

  /** Digits, a point and digits make a number text. */
  lemma FractionIsNumberText(s: string, i: nat, d: nat, e: nat)
    requires i < d && d + 1 < e <= |s| && s[d] == '.'
    requires IsDigits(s[i..d]) && IsDigits(s[d + 1..e])
    ensures IsNumberText(s[i..e])
  {
    var t := s[i..e];
    assert t[..d - i] == s[i..d] && t[d - i + 1..] == s[d + 1..e];
    assert t[d - i] == '.';
  }

  /** A run of digits from `i` to `j` lies inside the run `RunEnd` finds. */
  lemma DigitsWithinRun(s: string, i: nat, j: nat)
    requires i <= j <= |s| && IsDigits(s[i..j])
    ensures j <= RunEnd(s, i, IsDigit)
  {
    forall k | i <= k < j ensures IsDigit(s[k]) {
      assert s[i..j][k - i] == s[k];
    }
  }

  lemma CandidateBelowNumberAt(s: string, i: nat, m: nat)
    requires NumberCandidate(s, i, m)
    ensures m <= NumberAt(s, i)
  {
    var t := s[i..i + m];
    if IsDigits(t) {
      IntegerBelowNumberAt(s, i, m);
    } else {
      var k :| 0 < k < |t| && t[k] == '.' && IsDigits(t[..k]) && IsDigits(t[k + 1..]);
      assert t[..k] == s[i..i + k] && t[k + 1..] == s[i + k + 1..i + m];
      FractionBelowNumberAt(s, i, m, k);
    }
  }

  lemma IntegerBelowNumberAt(s: string, i: nat, m: nat)
    requires NumberCandidate(s, i, m) && IsDigits(s[i..i + m])
    ensures m <= NumberAt(s, i)
  {
    DigitsWithinRun(s, i, i + m);
    var d := RunEnd(s, i, IsDigit);
    assert d == i + m && Boundary(s, d);
  }

  lemma FractionBelowNumberAt(s: string, i: nat, m: nat, k: nat)
    requires i + m <= |s| && Boundary(s, i) && Boundary(s, i + m)
    requires 0 < k < m && s[i + k] == '.' && IsDigits(s[i..i + k]) && IsDigits(s[i + k + 1..i + m])
    ensures m <= NumberAt(s, i)
  {
    DigitsWithinRun(s, i, i + k);
    var d := RunEnd(s, i, IsDigit);
    assert d == i + k;
    DigitsWithinRun(s, d + 1, i + m);
    var e := RunEnd(s, d + 1, IsDigit);
    assert e == i + m && Boundary(s, e);
  }

  /** An operator match is a run of operator characters. */
  lemma OperatorAtRun(s: string, i: nat)
    requires i < |s| && OperatorAt(s, i) > 0
    ensures IsOperatorText(s[i..i + OperatorAt(s, i)])
  {
  }

  /** Length of the match of the whole alternation at `i` (0 for none): the
      first alternative, in the order written, that matches. */
  function MatchAt(s: string, i: nat): (n: nat)
    requires i < |s|
    ensures i + n <= |s|
    ensures n > 0 ==> s[i] != '#'
    ensures n == 0 ==> !IsSpace(s[i]) && !IsOperatorChar(s[i]) && !IsGroupingChar(s[i])
    ensures n > 0 ==> n == QuotedAt(s, i, '"') || n == QuotedAt(s, i, '\'') || n == FStringAt(s, i)
                      || n == BracketAt(s, i) || n == NumberAt(s, i) || n == WordAt(s, i)
                      || n == OperatorAt(s, i) || n == GroupingAt(s, i) || n == SpaceAt(s, i)
    ensures FStringAt(s, i) > 0 ==> n == FStringAt(s, i)
  {
    if QuotedAt(s, i, '"') > 0 then QuotedAt(s, i, '"')
    else if QuotedAt(s, i, '\'') > 0 then QuotedAt(s, i, '\'')
    else if FStringAt(s, i) > 0 then FStringAt(s, i)
    else if BracketAt(s, i) > 0 then BracketAt(s, i)
    else if NumberAt(s, i) > 0 then NumberAt(s, i)
    else if WordAt(s, i) > 0 then WordAt(s, i)
    else if OperatorAt(s, i) > 0 then OperatorAt(s, i)
    else if GroupingAt(s, i) > 0 then GroupingAt(s, i)
    else SpaceAt(s, i)
  }

  /** The texts the alternatives match in full: `"[^"]*"` for `q == '"'`
      and `'[^']*'` for `q == '\''`. */
  predicate IsQuotedToken(t: string, q: char) {
    |t| >= 2 && t[0] == q && t[|t| - 1] == q && forall k :: 0 < k < |t| - 1 ==> t[k] != q
  }

  /** `[a-zA-Z_]\w*` */
  predicate IsWordText(t: string) {
    |t| > 0 && IsWordStart(t[0]) && forall k :: 0 <= k < |t| ==> IsWordChar(t[k])
  }

  /** A text one of the nine alternatives matches in full, boundaries aside. */
  predicate IsAlternativeText(t: string) {
    IsQuotedToken(t, '"') || IsQuotedToken(t, '\'')
    || (|t| > 0 && t[0] == 'f' && IsQuotedToken(t[1..], '"'))
    || IsBracketText(t) || IsNumberText(t) || IsWordText(t) || IsOperatorText(t)
    || (|t| == 1 && IsGroupingChar(t[0])) || IsBlankText(t)
  }

  /** Whichever alternative matches gives the whole match: the alternatives
      start with disjoint classes of characters, except that an `f` can start
      both an f-string and a word, and then the f-string, written first, wins. */
  lemma MatchAtAlternative(s: string, i: nat)
    requires i < |s|
    ensures QuotedAt(s, i, '"') > 0 ==> MatchAt(s, i) == QuotedAt(s, i, '"')
    ensures QuotedAt(s, i, '\'') > 0 ==> MatchAt(s, i) == QuotedAt(s, i, '\'')
    ensures FStringAt(s, i) > 0 ==> MatchAt(s, i) == FStringAt(s, i)
    ensures BracketAt(s, i) > 0 ==> MatchAt(s, i) == BracketAt(s, i)
    ensures NumberAt(s, i) > 0 ==> MatchAt(s, i) == NumberAt(s, i)
    ensures WordAt(s, i) > 0 && FStringAt(s, i) == 0 ==> MatchAt(s, i) == WordAt(s, i)
    ensures OperatorAt(s, i) > 0 ==> MatchAt(s, i) == OperatorAt(s, i)
    ensures GroupingAt(s, i) > 0 ==> MatchAt(s, i) == GroupingAt(s, i)
    ensures SpaceAt(s, i) > 0 ==> MatchAt(s, i) == SpaceAt(s, i)
  {
  }

  /** No match at `i` exactly when none of the nine alternatives matches. */
  lemma MatchAtNone(s: string, i: nat)
    requires i < |s|
    ensures MatchAt(s, i) == 0 <==>
              QuotedAt(s, i, '"') == 0 && QuotedAt(s, i, '\'') == 0 && FStringAt(s, i) == 0
              && BracketAt(s, i) == 0 && NumberAt(s, i) == 0 && WordAt(s, i) == 0
              && OperatorAt(s, i) == 0 && GroupingAt(s, i) == 0 && SpaceAt(s, i) == 0
  {
  }

  /** Every match is a text of one of the alternatives. */
  lemma MatchAtText(s: string, i: nat)
    requires i < |s| && MatchAt(s, i) > 0
    ensures IsAlternativeText(s[i..i + MatchAt(s, i)])
  {
    if QuotedAt(s, i, '"') > 0 || QuotedAt(s, i, '\'') > 0 {
      QuotedMatchAtText(s, i);
    } else if FStringAt(s, i) > 0 || BracketAt(s, i) > 0 {
      FStringOrBracketMatchAtText(s, i);
    } else if NumberAt(s, i) > 0 || WordAt(s, i) > 0 {
      NumberOrWordMatchAtText(s, i);
    } else {
      SymbolMatchAtText(s, i);
    }
  }

  lemma QuotedMatchAtText(s: string, i: nat)
    requires i < |s| && (QuotedAt(s, i, '"') > 0 || QuotedAt(s, i, '\'') > 0)
    ensures IsAlternativeText(s[i..i + MatchAt(s, i)])
  {
    if QuotedAt(s, i, '"') > 0 {
      QuotedAtText(s, i, '"');
    } else {
      QuotedAtText(s, i, '\'');
    }
  }

  lemma FStringOrBracketMatchAtText(s: string, i: nat)
    requires i < |s| && QuotedAt(s, i, '"') == 0 && QuotedAt(s, i, '\'') == 0
    requires FStringAt(s, i) > 0 || BracketAt(s, i) > 0
    ensures IsAlternativeText(s[i..i + MatchAt(s, i)])
  {
    if FStringAt(s, i) > 0 {
      FStringAtText(s, i);
    } else {
      BracketAtText(s, i);
    }
  }

  lemma NumberOrWordMatchAtText(s: string, i: nat)
    requires i < |s| && QuotedAt(s, i, '"') == 0 && QuotedAt(s, i, '\'') == 0
    requires FStringAt(s, i) == 0 && BracketAt(s, i) == 0
    requires NumberAt(s, i) > 0 || WordAt(s, i) > 0
    ensures IsAlternativeText(s[i..i + MatchAt(s, i)])
  {
    if NumberAt(s, i) > 0 {
      NumberAtText(s, i);
      assert MatchAt(s, i) == NumberAt(s, i);
    } else {
      WordAtText(s, i);
      assert MatchAt(s, i) == WordAt(s, i);
    }
  }

  lemma SymbolMatchAtText(s: string, i: nat)
    requires i < |s| && MatchAt(s, i) > 0
    requires QuotedAt(s, i, '"') == 0 && QuotedAt(s, i, '\'') == 0
    requires FStringAt(s, i) == 0 && BracketAt(s, i) == 0
    requires NumberAt(s, i) == 0 && WordAt(s, i) == 0
    ensures IsAlternativeText(s[i..i + MatchAt(s, i)])
  {
    if OperatorAt(s, i) > 0 {
      OperatorAtText(s, i);
    } else if GroupingAt(s, i) > 0 {
      GroupingAtText(s, i);
    } else {
      SpaceAtText(s, i);
    }
  }

  lemma NumberAtText(s: string, i: nat)
    requires i < |s| && NumberAt(s, i) > 0
    ensures IsAlternativeText(s[i..i + NumberAt(s, i)])
  {
    NumberAtIsCandidate(s, i);
  }

  lemma OperatorAtText(s: string, i: nat)
    requires i < |s| && OperatorAt(s, i) > 0
    ensures IsAlternativeText(s[i..i + OperatorAt(s, i)])
  {
    OperatorAtRun(s, i);
  }

  lemma GroupingAtText(s: string, i: nat)
    requires i < |s| && GroupingAt(s, i) > 0
    ensures IsAlternativeText(s[i..i + GroupingAt(s, i)])
  {
    assert s[i..i + 1][0] == s[i];
  }

  lemma SpaceAtText(s: string, i: nat)
    requires i < |s| && SpaceAt(s, i) > 0
    ensures IsAlternativeText(s[i..i + SpaceAt(s, i)])
  {
  }

  lemma QuotedAtText(s: string, i: nat, q: char)
    requires i < |s| && QuotedAt(s, i, q) > 0
    ensures IsQuotedToken(s[i..i + QuotedAt(s, i, q)], q)
    ensures q == '"' || q == '\'' ==> IsAlternativeText(s[i..i + QuotedAt(s, i, q)])
  {
    QuotedAtInside(s, i, q);
  }

  lemma FStringAtText(s: string, i: nat)
    requires i < |s| && FStringAt(s, i) > 0
    ensures IsAlternativeText(s[i..i + FStringAt(s, i)])
  {
    var n := FStringAt(s, i);
    QuotedAtText(s, i + 1, '"');
    assert s[i..i + n][1..] == s[i + 1..i + n];
  }

  lemma BracketAtText(s: string, i: nat)
    requires i < |s| && BracketAt(s, i) > 0
    ensures IsAlternativeText(s[i..i + BracketAt(s, i)])
  {
    var n := BracketAt(s, i);
    var t := s[i..i + n];
    BracketAtInside(s, i);
    assert forall k :: 1 <= k < n - 1 ==> t[k] == s[i + k];
  }

  lemma WordAtText(s: string, i: nat)
    requires i < |s| && WordAt(s, i) > 0
    ensures IsAlternativeText(s[i..i + WordAt(s, i)])
  {
    WordAtRun(s, i);
  }

  /** A match that ends with a newline is a run of whitespace: every other
      alternative ends with a quote, `]`, a word character, an operator
      character or one of `(),:`. */
  lemma MatchAtNewline(s: string, i: nat)
    requires i < |s|
    ensures var n := MatchAt(s, i);
            n > 0 && s[i + n - 1] == '\n' ==> IsBlankText(s[i..i + n])
  {
    if QuotedAt(s, i, '"') > 0 {
    } else if QuotedAt(s, i, '\'') > 0 {
    } else if FStringAt(s, i) > 0 {
    } else if BracketAt(s, i) > 0 {
    } else if NumberAt(s, i) > 0 {
    } else if WordAt(s, i) > 0 {
    } else if OperatorAt(s, i) > 0 {
    } else if GroupingAt(s, i) > 0 {
    }
  }

  /** One step of the scan: a token, or a character no alternative matches. */
  datatype Step = Token(text: string) | Skipped(c: char)

  function StepText(step: Step): string {
    match step
    case Token(t) => t
    case Skipped(c) => [c]
  }

  /** The text the steps were read from. */
  function Texts(steps: seq<Step>): string {
    if |steps| == 0 then "" else StepText(steps[0]) + Texts(steps[1..])
  }

  /** The tokens among the steps, in order. */
  function Tokens(steps: seq<Step>): seq<string> {
    if |steps| == 0 then []
    else (if steps[0].Token? then [steps[0].text] else []) + Tokens(steps[1..])
  }

  /** A token that is non-empty and does not start with `#`, or a passed-over
      character that is neither whitespace, nor an operator character, nor
      one of `(),:`. */
  predicate GoodStep(step: Step) {
    match step
    case Token(t) => |t| > 0 && t[0] != '#'
    case Skipped(c) => !IsSpace(c) && !IsOperatorChar(c) && !IsGroupingChar(c)
  }

  /** The step at position `i`: the match of the alternation there, or the
      character itself when nothing matches. */
  function StepAt(s: string, i: nat): (step: Step)
    requires i < |s|
    ensures 0 < |StepText(step)| <= |s| - i
    ensures StepText(step)[|StepText(step)| - 1] == s[i + |StepText(step)| - 1]
    ensures GoodStep(step)
    ensures step.Skipped? <==> MatchAt(s, i) == 0
    ensures step.Token? ==> step.text == s[i..i + MatchAt(s, i)]
  {
    var n := MatchAt(s, i);
    if n == 0 then SliceOne(s, i); Skipped(s[i])
    else
      var t := s[i..i + n];
      assert t[0] == s[i] && t[|t| - 1] == s[i + n - 1];
      Token(t)
  }

  /** The text of a step is the text of `s` it was read from. */
  lemma StepAtText(s: string, i: nat)
    requires i < |s|
    ensures StepText(StepAt(s, i)) == s[i..i + |StepText(StepAt(s, i))|]
  {
  }

  /** A token that ends with a newline is a run of whitespace. */
  lemma StepAtNewline(s: string, i: nat)
    requires i < |s|
    ensures var step := StepAt(s, i);
            step.Token? && step.text[|step.text| - 1] == '\n' ==> IsBlankText(step.text)
  {
    MatchAtNewline(s, i);
    var n := MatchAt(s, i);
    if n > 0 {
      assert StepAt(s, i).text == s[i..i + n];
    }
  }

  /** The scan of `s` from position `i`: the step there, then the scan from
      its end. Every step is a `GoodStep`. */
  function Scan(s: string, i: nat): (steps: seq<Step>)
    requires i <= |s|
    ensures forall k :: 0 <= k < |steps| ==> GoodStep(steps[k])
    decreases |s| - i
  {
    if i == |s| then []
    else
      var first := StepAt(s, i);
      var rest := Scan(s, i + |StepText(first)|);
      GoodCons(first, rest);
      [first] + rest
  }

  lemma CoverCons(s: string, i: nat, j: nat, step: Step, rest: seq<Step>)
    requires i <= j <= |s|
    requires StepText(step) == s[i..j] && Texts(rest) == s[j..]
    ensures Texts([step] + rest) == s[i..]
  {
    TextsCons(step, rest);
    SliceSplit(s, i, j);
  }

  lemma ScanCons(s: string, i: nat)
    requires i < |s|
    ensures Scan(s, i) == [StepAt(s, i)] + Scan(s, i + |StepText(StepAt(s, i))|)
  {
  }

  lemma EndsWithScan(s: string, i: nat)
    requires i < |s|
    requires EndsWithNewlineToken([StepAt(s, i)] + Scan(s, i + |StepText(StepAt(s, i))|))
    ensures EndsWithNewlineToken(Scan(s, i))
  {
    ScanCons(s, i);
  }

  lemma ScanAtEnd(s: string)
    ensures Scan(s, |s|) == []
  {
  }

  lemma GoodCons(first: Step, rest: seq<Step>)
    requires GoodStep(first)
    requires forall k :: 0 <= k < |rest| ==> GoodStep(rest[k])
    ensures forall k :: 0 <= k < |[first] + rest| ==> GoodStep(([first] + rest)[k])
  {
    assert forall k :: 1 <= k < 1 + |rest| ==> ([first] + rest)[k] == rest[k - 1];
  }

  lemma TextsCons(first: Step, rest: seq<Step>)
    ensures Texts([first] + rest) == StepText(first) + Texts(rest)
  {
    assert ([first] + rest)[0] == first && ([first] + rest)[1..] == rest;
  }

  lemma TokensCons(first: Step, rest: seq<Step>)
    ensures Tokens([first] + rest) == (if first.Token? then [first.text] else []) + Tokens(rest)
  {
    assert ([first] + rest)[0] == first && ([first] + rest)[1..] == rest;
  }

  /** `re.findall` of the alternation over a whole line. */
  function FindAll(line: string): seq<string> {
    Tokens(Scan(line, 0))
  }

  /** The steps of a scan cover the text exactly: the tokens and the passed-over
      characters, in order, are the text from the starting position on. */
  lemma {:induction false} ScanCovers(s: string, i: nat)
    requires i <= |s|
    ensures Texts(Scan(s, i)) == s[i..]
    decreases |s| - i
  {
    if i < |s| {
      var step := StepAt(s, i);
      var j := i + |StepText(step)|;
      ScanCovers(s, j);
      StepAtText(s, i);
      CoverCons(s, i, j, step, Scan(s, j));
      ScanCons(s, i);
    } else {
      assert s[i..] == [];
    }
  }

  lemma {:induction false} TokensAreSteps(steps: seq<Step>)
    ensures forall t :: t in Tokens(steps) ==> Token(t) in steps
  {
    if |steps| > 0 {
      TokensAreSteps(steps[1..]);
      forall t | t in Tokens(steps) ensures Token(t) in steps {
        if t in Tokens(steps[1..]) {
          assert Token(t) in steps[1..];
        }
      }
    }
  }

  lemma {:induction false} TokensAppend(a: seq<Step>, b: seq<Step>)
    ensures Tokens(a + b) == Tokens(a) + Tokens(b)
  {
    if |a| == 0 {
      assert a + b == b;
    } else {
      assert (a + b)[0] == a[0] && (a + b)[1..] == a[1..] + b;
      TokensAppend(a[1..], b);
    }
  }

  /** Every token `findall` returns is non-empty and none starts with `#`. */
  lemma FindAllTokens(line: string)
    ensures forall t :: t in FindAll(line) ==> |t| > 0 && t[0] != '#'
  {
    var steps := Scan(line, 0);
    TokensAreSteps(steps);
    forall t | t in FindAll(line) ensures |t| > 0 && t[0] != '#' {
      var k :| 0 <= k < |steps| && steps[k] == Token(t);
    }
  }

  /** What survives of the steps is what their tokens keep: the kept text has
      exactly the newlines of the whole text when no newline is passed over. */
  lemma {:induction false} KeptNewlines(steps: seq<Step>)
    requires forall k :: 0 <= k < |steps| && steps[k].Skipped? ==> steps[k].c != '\n'
    ensures Occurrences('\n', Join(Tokens(steps), "")) == Occurrences('\n', Texts(steps))
  {
    if |steps| > 0 {
      KeptNewlines(steps[1..]);
      var head := if steps[0].Token? then [steps[0].text] else [];
      ConcatAppend(head, Tokens(steps[1..]));
      OccurrencesAppend('\n', Join(head, ""), Join(Tokens(steps[1..]), ""));
      OccurrencesAppend('\n', StepText(steps[0]), Texts(steps[1..]));
    }
  }

  /** The tokens of a line hold every newline of the line: a newline is
      whitespace and so always starts or continues a token. */
  lemma FindAllNewlines(line: string)
    ensures Occurrences('\n', Join(FindAll(line), "")) == Occurrences('\n', line)
  {
    ScanCovers(line, 0);
    KeptNewlines(Scan(line, 0));
    assert line[0..] == line;
  }

  /** The concatenation of the tokens is a subsequence of the text: tokens do
      not overlap and come in the order of the text. */
  lemma {:induction false} KeptSubsequence(steps: seq<Step>)
    ensures IsSubsequence(Join(Tokens(steps), ""), Texts(steps))
  {
    if |steps| > 0 {
      KeptSubsequence(steps[1..]);
      var kept := Join(Tokens(steps[1..]), "");
      var texts := Texts(steps[1..]);
      ConcatAppend(if steps[0].Token? then [steps[0].text] else [], Tokens(steps[1..]));
      match steps[0]
      case Token(t) =>
        SubsequenceCommonPrefix(t, kept, texts);
      case Skipped(c) =>
        assert [] + Tokens(steps[1..]) == Tokens(steps[1..]);
        SubsequenceSkip(kept, [c], texts);
    }
  }

  lemma FindAllSubsequence(line: string)
    ensures IsSubsequence(Join(FindAll(line), ""), line)
  {
    ScanCovers(line, 0);
    KeptSubsequence(Scan(line, 0));
    assert line[0..] == line;
  }

  /** A step that reaches the end of a text ending with a newline is a
      whitespace token holding that newline. */
  lemma FinalStepIsBlank(s: string, i: nat)
    requires i < |s| && s[|s| - 1] == '\n'
    requires i + |StepText(StepAt(s, i))| == |s|
    ensures StepAt(s, i).Token?
    ensures IsBlankText(StepAt(s, i).text) && StepAt(s, i).text[|StepAt(s, i).text| - 1] == '\n'
  {
    var step := StepAt(s, i);
    var t := StepText(step);
    StepAtNewline(s, i);
    assert t[|t| - 1] == '\n';
    assert IsSpace('\n');
  }

  /** The last of the steps is a whitespace token ending with a newline. */
  predicate EndsWithNewlineToken(steps: seq<Step>) {
    |steps| > 0 && steps[|steps| - 1].Token?
    && IsBlankText(steps[|steps| - 1].text)
    && steps[|steps| - 1].text[|steps[|steps| - 1].text| - 1] == '\n'
  }

  lemma EndsWithCons(step: Step, rest: seq<Step>)
    requires EndsWithNewlineToken(rest)
             || (rest == [] && step.Token? && IsBlankText(step.text) && step.text[|step.text| - 1] == '\n')
    ensures EndsWithNewlineToken([step] + rest)
  {
    if rest == [] {
      assert [step] + rest == [step];
    } else {
      assert ([step] + rest)[|rest|] == rest[|rest| - 1];
    }
  }

  /** When the text ends with a newline, the scan ends with a whitespace
      token that holds it. */
  lemma {:induction false} ScanEndsWithBlank(s: string, i: nat)
    requires i < |s| && s[|s| - 1] == '\n'
    ensures EndsWithNewlineToken(Scan(s, i))
    decreases |s| - i
  {
    var j := i + |StepText(StepAt(s, i))|;
    if j < |s| {
      ScanEndsWithBlank(s, j);
      EndsWithNewlineTokenStep(s, i);
    } else {
      EndsWithNewlineTokenLast(s, i);
    }
  }

  lemma EndsWithNewlineTokenStep(s: string, i: nat)
    requires i < |s|
    requires var j := i + |StepText(StepAt(s, i))|; j <= |s| && EndsWithNewlineToken(Scan(s, j))
    ensures EndsWithNewlineToken(Scan(s, i))
  {
    EndsWithCons(StepAt(s, i), Scan(s, i + |StepText(StepAt(s, i))|));
    EndsWithScan(s, i);
  }

  lemma EndsWithNewlineTokenLast(s: string, i: nat)
    requires i < |s| && s[|s| - 1] == '\n'
    requires i + |StepText(StepAt(s, i))| == |s|
    ensures EndsWithNewlineToken(Scan(s, i))
  {
    FinalStepIsBlank(s, i);
    ScanAtEnd(s);
    EndsWithCons(StepAt(s, i), Scan(s, |s|));
    EndsWithScan(s, i);
  }

  /** A line that ends with a newline gives, as its last token, a run of
      whitespace that ends with that newline. */
  lemma FindAllEndsWithBlank(line: string)
    requires |line| > 0 && line[|line| - 1] == '\n'
    ensures |FindAll(line)| > 0
    ensures var last := FindAll(line)[|FindAll(line)| - 1];
            IsBlankText(last) && last[|last| - 1] == '\n'
  {
    var steps := Scan(line, 0);
    ScanEndsWithBlank(line, 0);
    var last := steps[|steps| - 1];
    assert last.Token? && IsBlankText(last.text) && last.text[|last.text| - 1] == '\n';
    assert steps == steps[..|steps| - 1] + [last];
    TokensAppend(steps[..|steps| - 1], [last]);
    assert Tokens([last]) == [last.text] by { assert [last][1..] == []; }
  }

  /** Inside a run of word characters no alternative can start: the
      number and word alternatives need a boundary there, and the others
      need a character that is not a word character (or an `f` followed by
      `"`). */
  lemma NoMatchInsideWord(s: string, i: nat)
    requires 0 < i < |s| && IsWordChar(s[i - 1]) && IsWordChar(s[i])
    requires !(s[i] == 'f' && i + 1 < |s| && s[i + 1] == '"')
    ensures MatchAt(s, i) == 0
  {
    assert !Boundary(s, i);
    assert !IsOperatorChar(s[i]) && !IsGroupingChar(s[i]) && !IsSpace(s[i]);
  }

  /** Where no alternative matches from some position on, the scan from
      there yields no token. */
  lemma {:induction false} NoTokensWithoutMatch(s: string, i: nat)
    requires i <= |s|
    requires forall k :: i <= k < |s| ==> MatchAt(s, k) == 0
    ensures Tokens(Scan(s, i)) == []
    decreases |s| - i
  {
    if i < |s| {
      NoTokensWithoutMatch(s, i + 1);
      TokensCons(Skipped(s[i]), Scan(s, i + 1));
    }
  }

  /** A letter right after a digit leaves no word boundary on either side,
      so neither the number nor the word alternative matches: `1abc` gives
      no token at all. */
  lemma DigitGluedToWord()
    ensures FindAll("1abc") == []
  {
    var s := "1abc";
    assert s[0] == '1' && s[1] == 'a' && s[2] == 'b' && s[3] == 'c';
    assert MatchAt(s, 0) == 0 by {
      assert !Boundary(s, 1);
      assert !IsOperatorChar(s[0]) && !IsGroupingChar(s[0]) && !IsSpace(s[0]);
    }
    NoMatchInsideWord(s, 1);
    NoMatchInsideWord(s, 2);
    NoMatchInsideWord(s, 3);
    NoTokensWithoutMatch(s, 0);
  }
}
