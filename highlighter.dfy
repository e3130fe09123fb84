/// The highlighter proper: `highlight_token` (main.py:36-55), which wraps a
/// token in a `<span class='…'>` according to the first of a fixed list of
/// patterns it matches, and `highlight_code` with its inner `highlight_line`
/// (main.py:58-67), which render each line and join the rendered lines.
/// The keyword list, a module-level variable in the source, is passed in as
/// `expressions`, the definitions read by `Expressions.ReadExpressions`.
module Highlighter {
  import opened Text
  import opened Patterns
  import opened Expressions
  import Scanner

  /** The four classes of the generated markup. */
  datatype Category = Comment | Literal | Keyword | Operator

  function ClassName(c: Category): string {
    match c
    case Comment => "comment"
    case Literal => "literal"
    case Keyword => "keyword"
    case Operator => "operator"
  }

  /** `<span class='C'>text</span>`; the text goes in as it is, unescaped. */
  function Span(c: Category, text: string): string {
    "<span class='" + ClassName(c) + "'>" + text + "</span>"
  }

  /** `[k for k, _ in expressions]` */
  function Keys(expressions: seq<Definition>): (keys: seq<string>)
    ensures |keys| == |expressions|
    ensures forall i :: 0 <= i < |keys| ==> keys[i] == expressions[i].0
  {
    seq(|expressions|, i requires 0 <= i < |expressions| => expressions[i].0)
  }

  /** Every key can be written into the keyword regular expression as it is. */
  predicate PlainKeys(expressions: seq<Definition>) {
    forall i :: 0 <= i < |expressions| ==> IsPlainKey(expressions[i].0)
  }

  /** The branch of the if/elif chain of `highlight_token` a token takes. */
  datatype Branch =
    | Blank | CommentBranch | StringBranch | BracketBranch
    | NumberBranch | KeywordBranch | OperatorBranch | NoBranch

  /** The tests of `highlight_token`, in their order; the first that holds
      decides. */
  function Classify(token: string, expressions: seq<Definition>): Branch
    requires PlainKeys(expressions)
  {
    if MatchesWhole(IsBlankText, token) then Blank
    else if MatchesWhole(IsCommentText, token) then CommentBranch
    else if MatchesWhole(IsQuotedText, token) then StringBranch
    else if MatchesWhole(IsBracketText, token) then BracketBranch
    else if MatchesWhole(IsNumberText, token) then NumberBranch
    else if IsKeywordText(token, Keys(expressions)) then KeywordBranch
    else if MatchesWhole(IsOperatorText, token) then OperatorBranch
    else NoBranch
  }

  /** The characters `token.strip("[]")` removes. */
  const Brackets: set<char> := {'[', ']'}

  /** A piece of the text `re.sub` works on: a character outside any match,
      or a match of `\d+(?:\.\d+)?`. */
  datatype Piece = Raw(c: char) | Number(digits: string)

  /** The leftmost, greedy matches of `\d+(?:\.\d+)?` in `s` from `i`, with
      the characters between them. No digit is left outside a match. */
  function NumberPieces(s: string, i: nat): (pieces: seq<Piece>)
    requires i <= |s|
    ensures forall k :: 0 <= k < |pieces| && pieces[k].Number? ==> IsNumberText(pieces[k].digits)
    ensures forall k :: 0 <= k < |pieces| && pieces[k].Raw? ==> !IsDigit(pieces[k].c)
    decreases |s| - i
  {
    if i == |s| then []
    else
      var first := if IsDigit(s[i]) then Number(s[i..NumberEnd(s, i)]) else Raw(s[i]);
      var rest := NumberPieces(s, if IsDigit(s[i]) then NumberEnd(s, i) else i + 1);
      assert forall k :: 1 <= k < 1 + |rest| ==> ([first] + rest)[k] == rest[k - 1];
      [first] + rest
  }

  function PieceText(p: Piece): string {
    match p
    case Raw(c) => [c]
    case Number(t) => t
  }

  /** The text the pieces were cut from. */
  function PiecesText(pieces: seq<Piece>): string {
    if |pieces| == 0 then "" else PieceText(pieces[0]) + PiecesText(pieces[1..])
  }

  /** The result of `re.sub`: each match replaced by its literal span. */
  function RenderPieces(pieces: seq<Piece>): string {
    if |pieces| == 0 then ""
    else
      (match pieces[0] case Raw(c) => [c] case Number(t) => Span(Literal, t))
      + RenderPieces(pieces[1..])
  }

  /** `re.sub(r'\d+(?:\.\d+)?', <literal span of the match>, content)` */
  function HighlightNumbers(content: string): string {
    RenderPieces(NumberPieces(content, 0))
  }

  /** `highlight_token` */
  function HighlightToken(token: string, expressions: seq<Definition>): (r: string)
    requires PlainKeys(expressions)
    ensures r == token <==> Classify(token, expressions) in {Blank, NoBranch}
    ensures Classify(token, expressions) != BracketBranch ==>
              r == token || exists c :: r == Span(c, token)
    ensures Classify(token, expressions) == BracketBranch ==>
              r == Span(Literal, "[" + HighlightNumbers(StripChars(token, Brackets)) + "]")
  {
    match Classify(token, expressions)
    case Blank => token
    case CommentBranch => Span(Comment, token)
    case StringBranch => Span(Literal, token)
    case BracketBranch =>
      var content := StripChars(token, Brackets);
      assert token[0] == '[';
      Span(Literal, "[" + HighlightNumbers(content) + "]")
    case NumberBranch => Span(Literal, token)
    case KeywordBranch => Span(Keyword, token)
    case OperatorBranch => Span(Operator, token)
    case NoBranch => token
  }

  /** `[highlight_token(token) for token in tokens]` */
  function HighlightTokens(tokens: seq<string>, expressions: seq<Definition>): (hs: seq<string>)
    requires PlainKeys(expressions)
    ensures |hs| == |tokens|
    ensures forall i :: 0 <= i < |hs| ==> hs[i] == HighlightToken(tokens[i], expressions)
  {
    seq(|tokens|, i requires 0 <= i < |tokens| => HighlightToken(tokens[i], expressions))
  }

  /** `highlight_line`: a line that starts with `#` after optional whitespace
      becomes one comment span, newline included; any other line is cut into
      the tokens of `re.findall`, each highlighted, and they are joined. */
  function HighlightLine(line: string, expressions: seq<Definition>): (r: string)
    requires PlainKeys(expressions)
    ensures StartsWithComment(line) ==> r == Span(Comment, line)
  {
    if StartsWithComment(line) then Span(Comment, line)
    else Join(HighlightTokens(Scanner.FindAll(line), expressions), "")
  }

  /** `highlight_line` applied to each line, in order. */
  function HighlightLines(codeLines: seq<string>, expressions: seq<Definition>): (rs: seq<string>)
    requires PlainKeys(expressions)
    ensures |rs| == |codeLines|
    ensures forall i :: 0 <= i < |rs| ==> rs[i] == HighlightLine(codeLines[i], expressions)
  {
    seq(|codeLines|, i requires 0 <= i < |codeLines| => HighlightLine(codeLines[i], expressions))
  }

  /** `highlight_code`: the rendered lines joined with newlines. */
  function HighlightCode(codeLines: seq<string>, expressions: seq<Definition>): string
    requires PlainKeys(expressions)
  {
    Join(HighlightLines(codeLines, expressions), "\n")
  }

  /** The pieces of `re.sub` cover the text: outside the spans it adds,
      nothing is lost, duplicated or moved. */
  lemma {:induction false} NumberPiecesCover(s: string, i: nat)
    requires i <= |s|
    ensures PiecesText(NumberPieces(s, i)) == s[i..]
    decreases |s| - i
  {
    if i < |s| {
      var j := if IsDigit(s[i]) then NumberEnd(s, i) else i + 1;
      var first := if IsDigit(s[i]) then Number(s[i..j]) else Raw(s[i]);
      NumberPiecesCover(s, j);
      if !IsDigit(s[i]) {
        SliceOne(s, i);
      }
      assert PieceText(first) == s[i..j];
      PiecesCons(first, NumberPieces(s, j));
      SliceSplit(s, i, j);
      assert NumberPieces(s, i) == [first] + NumberPieces(s, j);
    } else {
      assert s[i..] == [];
    }
  }

  /** Number pieces that are greedy matches: a number piece is followed by a
      character piece (which is never a digit), and a number without a
      fraction is never followed by a point and then a digit piece. */
  predicate GreedyPieces(ps: seq<Piece>) {
    (forall k :: 0 <= k < |ps| - 1 && ps[k].Number? ==> ps[k + 1].Raw?)
    && (forall k :: 0 <= k < |ps| - 2 && ps[k].Number? && IsDigits(ps[k].digits) && ps[k + 1] == Raw('.')
          ==> ps[k + 2].Raw?)
  }

  /** The matches of `re.sub` are greedy. */
  lemma {:induction false} NumberPiecesGreedy(s: string, i: nat)
    requires i <= |s|
    ensures GreedyPieces(NumberPieces(s, i))
    decreases |s| - i
  {
    if i < |s| {
      var j := if IsDigit(s[i]) then NumberEnd(s, i) else i + 1;
      var first := if IsDigit(s[i]) then Number(s[i..j]) else Raw(s[i]);
      var rest := NumberPieces(s, j);
      NumberPiecesGreedy(s, j);
      assert NumberPieces(s, i) == [first] + rest;
      if first.Number? && j < |s| {
        NumberPiecesHead(s, j);
        if IsDigits(first.digits) && s[j] == '.' && j + 1 < |s| {
          NumberPiecesHead(s, j + 1);
          assert rest == [Raw('.')] + NumberPieces(s, j + 1);
        }
      }
      GreedyCons(first, rest);
    }
  }

  lemma GreedyCons(first: Piece, rest: seq<Piece>)
    requires GreedyPieces(rest)
    requires first.Number? && |rest| > 0 ==> rest[0].Raw?
    requires first.Number? && IsDigits(first.digits) && |rest| > 1 && rest[0] == Raw('.') ==> rest[1].Raw?
    ensures GreedyPieces([first] + rest)
  {
    assert forall k :: 1 <= k < 1 + |rest| ==> ([first] + rest)[k] == rest[k - 1];
  }

  /** The first piece from a position that is not a digit is that character. */
  lemma NumberPiecesHead(s: string, i: nat)
    requires i < |s| && !IsDigit(s[i])
    ensures NumberPieces(s, i) == [Raw(s[i])] + NumberPieces(s, i + 1)
  {
  }

  lemma PiecesCons(first: Piece, rest: seq<Piece>)
    ensures PiecesText([first] + rest) == PieceText(first) + PiecesText(rest)
  {
    assert ([first] + rest)[0] == first && ([first] + rest)[1..] == rest;
  }

  /** The markup of a span holds no newline. */
  lemma SpanNewlines(c: Category, t: string)
    ensures Occurrences('\n', Span(c, t)) == Occurrences('\n', t)
  {
    var open := "<span class='" + ClassName(c) + "'>";
    assert '\n' !in ClassName(c);
    assert '\n' !in "<span class='" && '\n' !in "'>";
    assert '\n' !in open;
    assert '\n' !in "</span>";
    assert Span(c, t) == open + t + "</span>";
    OccurrencesAppend('\n', open + t, "</span>");
    OccurrencesAppend('\n', open, t);
  }

  lemma {:induction false} RenderPiecesNewlines(pieces: seq<Piece>)
    ensures Occurrences('\n', RenderPieces(pieces)) == Occurrences('\n', PiecesText(pieces))
  {
    if |pieces| > 0 {
      RenderPiecesNewlines(pieces[1..]);
      var head := match pieces[0] case Raw(c) => [c] case Number(t) => Span(Literal, t);
      if pieces[0].Number? {
        SpanNewlines(Literal, pieces[0].digits);
      }
      OccurrencesAppend('\n', head, RenderPieces(pieces[1..]));
      OccurrencesAppend('\n', PieceText(pieces[0]), PiecesText(pieces[1..]));
    }
  }

  /** The bracket branch keeps the newlines of the token: `strip("[]")`
      removes only brackets and `re.sub` adds only markup. */
  lemma BracketNewlines(token: string)
    ensures Occurrences('\n', Span(Literal, "[" + HighlightNumbers(StripChars(token, Brackets)) + "]"))
            == Occurrences('\n', token)
  {
    var content := StripChars(token, Brackets);
    SpanNewlines(Literal, "[" + HighlightNumbers(content) + "]");
    NumberPiecesCover(content, 0);
    assert content[0..] == content;
    RenderPiecesNewlines(NumberPieces(content, 0));
    OccurrencesAppend('\n', "[" + HighlightNumbers(content), "]");
    OccurrencesAppend('\n', "[", HighlightNumbers(content));
    StripCharsOccurrences('\n', token, Brackets);
  }

  /** Highlighting a token adds no newline and removes none. */
  lemma HighlightTokenNewlines(token: string, expressions: seq<Definition>)
    requires PlainKeys(expressions)
    ensures Occurrences('\n', HighlightToken(token, expressions)) == Occurrences('\n', token)
  {
    var r := HighlightToken(token, expressions);
    if Classify(token, expressions) == BracketBranch {
      BracketNewlines(token);
    } else if r != token {
      var c :| r == Span(c, token);
      SpanNewlines(c, token);
    }
  }

  /** A token made of digits is a literal even when it is also a key: the
      number test comes before the keyword test. */
  lemma NumericKeyIsLiteral(token: string, expressions: seq<Definition>)
    requires PlainKeys(expressions)
    requires IsDigits(token)
    ensures HighlightToken(token, expressions) == Span(Literal, token)
  {
    AnchoredFirstChar(token);
    assert MatchesWhole(IsNumberText, token);
  }

  /** The two last outcomes of the chain. */
  lemma KeywordOrUnchanged(token: string, expressions: seq<Definition>)
    requires PlainKeys(expressions)
    requires Classify(token, expressions) in {KeywordBranch, NoBranch}
    ensures HighlightToken(token, expressions)
            == if Classify(token, expressions) == KeywordBranch then Span(Keyword, token) else token
  {
  }

  /** A word is a keyword when it is one of the keys and is left unmarked
      otherwise. */
  lemma WordHighlight(token: string, expressions: seq<Definition>)
    requires PlainKeys(expressions)
    requires Scanner.IsWordText(token)
    ensures HighlightToken(token, expressions)
            == if token in Keys(expressions) then Span(Keyword, token) else token
  {
    AnchoredFirstChar(token);
    assert |token| > 1 ==> !IsQuote(token[1]);
    assert !IsOperatorChar(token[0]) && !IsSpace(token[0]);
    assert token[|token| - 1] != '\n';
    KeywordIsMembership(token, Keys(expressions));
    assert Classify(token, expressions) == if token in Keys(expressions) then KeywordBranch else NoBranch;
    KeywordOrUnchanged(token, expressions);
  }

  /** Each of `(`, `)`, `,` and `:` is marked only when it is a key, and then
      as a keyword. */
  lemma GroupingHighlight(token: string, expressions: seq<Definition>)
    requires PlainKeys(expressions)
    requires |token| == 1 && IsGroupingChar(token[0])
    ensures HighlightToken(token, expressions)
            == if token in Keys(expressions) then Span(Keyword, token) else token
  {
    AnchoredFirstChar(token);
    assert !IsOperatorChar(token[0]) && !IsSpace(token[0]) && !IsDigit(token[0]);
    assert token[0] != 'f' && token[0] != '[' && token[0] != '#' && !IsQuote(token[0]);
    KeywordIsMembership(token, Keys(expressions));
    assert Classify(token, expressions) == if token in Keys(expressions) then KeywordBranch else NoBranch;
    KeywordOrUnchanged(token, expressions);
  }

  /** No token of `re.findall` takes the comment branch of `highlight_token`:
      a `#` outside a whole-line comment never starts a token. */
  lemma ScannedTokensNeverComment(line: string, expressions: seq<Definition>)
    requires PlainKeys(expressions)
    ensures forall t :: t in Scanner.FindAll(line) ==> Classify(t, expressions) != CommentBranch
  {
    Scanner.FindAllTokens(line);
  }

  /** Whitespace is returned as it is. */
  lemma BlankUnchanged(token: string, expressions: seq<Definition>)
    requires PlainKeys(expressions)
    requires IsBlankText(token)
    ensures HighlightToken(token, expressions) == token
  {
    assert MatchesWhole(IsBlankText, token);
  }

  /** A line that is not a comment renders as its highlighted tokens. */
  lemma CodeLine(line: string, expressions: seq<Definition>)
    requires PlainKeys(expressions)
    requires !StartsWithComment(line)
    ensures HighlightLine(line, expressions)
            == Join(HighlightTokens(Scanner.FindAll(line), expressions), "")
  {
  }

  /** Rendering a line keeps its newlines, no more and no fewer: spans add
      only markup, and the tokens of `re.findall` hold every newline of the
      line (`\s+` takes each one). */
  lemma HighlightLineNewlines(line: string, expressions: seq<Definition>)
    requires PlainKeys(expressions)
    ensures Occurrences('\n', HighlightLine(line, expressions)) == Occurrences('\n', line)
  {
    if StartsWithComment(line) {
      SpanNewlines(Comment, line);
    } else {
      var tokens := Scanner.FindAll(line);
      var hs := HighlightTokens(tokens, expressions);
      forall i | 0 <= i < |hs|
        ensures Occurrences('\n', hs[i]) == Occurrences('\n', tokens[i])
      {
        HighlightTokenNewlines(tokens[i], expressions);
      }
      ConcatOccurrences('\n', hs, tokens);
      Scanner.FindAllNewlines(line);
    }
  }

  /** The output of `highlight_code` holds the newlines of the lines plus one
      separator between each two rendered lines. */
  lemma HighlightCodeNewlines(codeLines: seq<string>, expressions: seq<Definition>)
    requires PlainKeys(expressions)
    requires |codeLines| > 0
    ensures Occurrences('\n', HighlightCode(codeLines, expressions))
            == Occurrences('\n', Join(codeLines, "")) + |codeLines| - 1
  {
    var rs := HighlightLines(codeLines, expressions);
    forall i | 0 <= i < |rs|
      ensures Occurrences('\n', rs[i]) == Occurrences('\n', codeLines[i])
    {
      HighlightLineNewlines(codeLines[i], expressions);
    }
    ConcatOccurrences('\n', rs, codeLines);
    assert "\n" == ['\n'];
    JoinOccurrences('\n', rs);
  }

  /** One line renders as that line alone, with no separator. */
  lemma HighlightCodeSingle(line: string, expressions: seq<Definition>)
    requires PlainKeys(expressions)
    ensures HighlightCode([line], expressions) == HighlightLine(line, expressions)
  {
    assert HighlightLines([line], expressions) == [HighlightLine(line, expressions)];
  }

  /** Lines are rendered independently: the output for two blocks of lines is
      the output for the first, a newline, and the output for the second. */
  lemma HighlightCodeAppend(a: seq<string>, b: seq<string>, expressions: seq<Definition>)
    requires PlainKeys(expressions)
    requires |a| > 0 && |b| > 0
    ensures HighlightCode(a + b, expressions)
            == HighlightCode(a, expressions) + "\n" + HighlightCode(b, expressions)
  {
    var ra, rb := HighlightLines(a, expressions), HighlightLines(b, expressions);
    var rab := HighlightLines(a + b, expressions);
    forall i | 0 <= i < |rab|
      ensures rab[i] == (ra + rb)[i]
    {
      if i < |a| {
        assert (a + b)[i] == a[i];
      } else {
        assert (a + b)[i] == b[i - |a|];
      }
    }
    assert rab == ra + rb;
    JoinAppend(HighlightLines(a, expressions), HighlightLines(b, expressions), "\n");
  }

  /** A line that is not a comment and ends with its newline (as `readlines`
      leaves it) renders ending with that newline: the final `\s+` token is
      left as it is. */
  lemma LineEndingKept(line: string, expressions: seq<Definition>)
    requires PlainKeys(expressions)
    requires |line| > 0 && line[|line| - 1] == '\n'
    requires !StartsWithComment(line)
    ensures var r := HighlightLine(line, expressions); |r| > 0 && r[|r| - 1] == '\n'
  {
    var tokens := Scanner.FindAll(line);
    Scanner.FindAllEndsWithBlank(line);
    var last := tokens[|tokens| - 1];
    BlankUnchanged(last, expressions);
    var hs := HighlightTokens(tokens, expressions);
    assert hs[|hs| - 1] == last;
    ConcatEndsWith(hs, '\n');
    CodeLine(line, expressions);
  }

  /** Between such a line and the next one the output holds an empty line:
      the line's own newline is followed by the separator of
      `'\n'.join`. */
  lemma DoubledNewline(line: string, rest: seq<string>, expressions: seq<Definition>)
    requires PlainKeys(expressions)
    requires |line| > 0 && line[|line| - 1] == '\n'
    requires !StartsWithComment(line)
    requires |rest| > 0
    ensures exists p :: HighlightCode([line] + rest, expressions)
                        == p + "\n\n" + HighlightCode(rest, expressions)
  {
    LineEndingKept(line, expressions);
    HighlightCodeAppend([line], rest, expressions);
    HighlightCodeSingle(line, expressions);
    DoubleNewline(HighlightLine(line, expressions), HighlightCode(rest, expressions));
  }
}
