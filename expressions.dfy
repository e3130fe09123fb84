/// The definition file: lines of the form `key = value`, read into an
/// ordered list of pairs (main.py:9-20), and the association-list lookup
/// over such a list (main.py:29-33). Reading the file itself is left to the
/// caller, who passes its lines as `readlines()` returns them.
module Expressions {
  import opened Wrappers
  import opened Text

  /** A keyword of the definition file and the text it is associated with. */
  type Definition = (string, string)

  /** One line of the definition file: kept only when splitting it at `=`
      gives exactly two parts, each then stripped of surrounding whitespace. */
  function ParseLine(line: string): Option<Definition> {
    var parts := Split(line, '=');
    if |parts| == 2 then Some((Strip(parts[0]), Strip(parts[1]))) else None
  }

  /** The definitions of `lines`, in the order of the lines. */
  function ParseAll(lines: seq<string>): seq<Definition> {
    if |lines| == 0 then [] else LineDefinitions(lines[0]) + ParseAll(lines[1..])
  }

  /** What one line contributes: its definition, or nothing. */
  function LineDefinitions(line: string): seq<Definition> {
    match ParseLine(line)
    case Some(d) => [d]
    case None => []
  }

  /** A line yields a definition exactly when it holds one `=`; the
      definition is the stripped text on either side of it. */
  lemma ParseLineSpec(line: string)
    ensures ParseLine(line).Some? <==> Occurrences('=', line) == 1
    ensures ParseLine(line).Some? ==>
              exists k :: 0 <= k < |line| && line[k] == '='
                       && ParseLine(line).value == (Strip(line[..k]), Strip(line[k + 1..]))
  {
    if |Split(line, '=')| == 2 {
      SplitInTwo(line, '=');
    }
  }

  /** Every definition read has no `=` on either side and no whitespace at
      either end of its key or its value. */
  lemma ParseLineClean(line: string)
    requires ParseLine(line).Some?
    ensures '=' !in ParseLine(line).value.0 && '=' !in ParseLine(line).value.1
    ensures StripChars(ParseLine(line).value.0, Whitespace) == ParseLine(line).value.0
    ensures StripChars(ParseLine(line).value.1, Whitespace) == ParseLine(line).value.1
  {
    var parts := Split(line, '=');
    StripCharsIdempotent(parts[0], Whitespace);
    StripCharsIdempotent(parts[1], Whitespace);
  }

  /** Reading is line by line: the definitions of two blocks of lines are
      those of the first block followed by those of the second. */
  lemma {:induction false} ParseAllAppend(a: seq<string>, b: seq<string>)
    ensures ParseAll(a + b) == ParseAll(a) + ParseAll(b)
  {
    if |a| == 0 {
      assert a + b == b;
    } else {
      assert (a + b)[0] == a[0] && (a + b)[1..] == a[1..] + b;
      ParseAllAppend(a[1..], b);
      calc {
        ParseAll(a + b);
        LineDefinitions(a[0]) + ParseAll(a[1..] + b);
        LineDefinitions(a[0]) + (ParseAll(a[1..]) + ParseAll(b));
        { SeqAssoc(LineDefinitions(a[0]), ParseAll(a[1..]), ParseAll(b)); }
        (LineDefinitions(a[0]) + ParseAll(a[1..])) + ParseAll(b);
        ParseAll(a) + ParseAll(b);
      }
    }
  }

  /** Reading one more line appends what that line gives. */
  lemma ParseAllStep(lines: seq<string>, i: nat)
    requires i < |lines|
    ensures ParseAll(lines[..i + 1])
            == ParseAll(lines[..i]) + LineDefinitions(lines[i])
  {
    assert lines[..i + 1] == lines[..i] + [lines[i]];
    ParseAllAppend(lines[..i], [lines[i]]);
    ParseAllSingle(lines[i]);
  }

  lemma ParseAllSingle(line: string)
    ensures ParseAll([line]) == LineDefinitions(line)
  {
    assert [line][1..] == [];
    assert LineDefinitions(line) + [] == LineDefinitions(line);
  }

  /** `read_expressions` with its file already read into `rawContent`. */
  method ReadExpressions(rawContent: seq<string>) returns (parsedExpressions: seq<Definition>)
    ensures parsedExpressions == ParseAll(rawContent)
  {
    parsedExpressions := [];
    for i := 0 to |rawContent|
      invariant parsedExpressions == ParseAll(rawContent[..i])
    {
      var line := rawContent[i];
      ParseAllStep(rawContent, i);
      var parts := Split(line, '=');
      if |parts| == 2 {
        var key := Strip(parts[0]);
        var value := Strip(parts[1]);
        parsedExpressions := parsedExpressions + [(key, value)];
      }
    }
    assert rawContent[..|rawContent|] == rawContent;
  }

  /** `safe_assoc`: the value of the first pair whose key is `key`, or `None`
      (Python's `False`) when no pair has that key. */
  method SafeAssoc<K(==), V>(key: K, alist: seq<(K, V)>) returns (r: Option<V>)
    ensures r.None? <==> forall i :: 0 <= i < |alist| ==> alist[i].0 != key
    ensures r.Some? ==>
              exists i :: 0 <= i < |alist| && alist[i] == (key, r.value)
                       && forall j :: 0 <= j < i ==> alist[j].0 != key
  {
    for i := 0 to |alist|
      invariant forall j :: 0 <= j < i ==> alist[j].0 != key
    {
      var (k, v) := alist[i];
      if k == key {
        return Some(v);
      }
    }
    return None;
  }
}
