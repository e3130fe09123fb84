/// The few operations of Python's `str` that the highlighter relies on
/// (`split`, `strip`, `join`), a count of a character used to state their
/// properties, and the character classes `\s`, `\d` and `\w` of its regular
/// expressions, all restricted to ASCII.
module Text {

  /** The characters that `str.strip()` removes and `\s` matches, restricted
      to ASCII: space, the five control characters from tab to carriage
      return, and the four separators 0x1C to 0x1F. */
  const Whitespace: set<char> :=
    {' ', '\t', '\n', '\U{000B}', '\U{000C}', '\r', '\U{001C}', '\U{001D}', '\U{001E}', '\U{001F}'}

  /** `\s`: membership in `Whitespace`, written as ranges. */
  predicate IsSpace(c: char) {
    c == ' ' || '\t' <= c <= '\r' || '\U{001C}' <= c <= '\U{001F}'
  }

  /** `Whitespace` and `IsSpace` are one class of characters. */
  lemma WhitespaceIsSpace(c: char)
    ensures c in Whitespace <==> IsSpace(c)
  {
  }

  /** `\d` */
  predicate IsDigit(c: char) { '0' <= c <= '9' }

  /** `[a-zA-Z_]` */
  predicate IsWordStart(c: char) { 'a' <= c <= 'z' || 'A' <= c <= 'Z' || c == '_' }

  /** `\w` */
  predicate IsWordChar(c: char) { IsWordStart(c) || IsDigit(c) }

  /** Number of occurrences of `c` in `s` (Python's `s.count(c)`). */
  function Occurrences(c: char, s: string): (n: nat)
    ensures n <= |s|
    ensures n == 0 <==> c !in s
  {
    if |s| == 0 then 0
    else
      assert c in s <==> s[0] == c || c in s[1..];
      (if s[0] == c then 1 else 0) + Occurrences(c, s[1..])
  }

  lemma {:induction false} OccurrencesAppend(c: char, a: string, b: string)
    ensures Occurrences(c, a + b) == Occurrences(c, a) + Occurrences(c, b)
  {
    if |a| > 0 {
      assert (a + b)[0] == a[0] && (a + b)[1..] == a[1..] + b;
      OccurrencesAppend(c, a[1..], b);
    } else {
      assert a + b == b;
    }
  }

  /** End of the longest run of characters satisfying `p` that starts at `from`. */
  function RunEnd(s: string, from: nat, p: char -> bool): (e: nat)
    requires from <= |s|
    ensures from <= e <= |s|
    ensures forall k :: from <= k < e ==> p(s[k])
    ensures e < |s| ==> !p(s[e])
    decreases |s| - from
  {
    if from == |s| || !p(s[from]) then from else RunEnd(s, from + 1, p)
  }

  /** Start of the longest run of characters satisfying `p` that ends at `to`. */
  function RunStart(s: string, to: nat, p: char -> bool): (b: nat)
    requires to <= |s|
    ensures b <= to
    ensures forall k :: b <= k < to ==> p(s[k])
    ensures b > 0 ==> !p(s[b - 1])
  {
    if to == 0 || !p(s[to - 1]) then to else RunStart(s, to - 1, p)
  }

  /** Membership in `cs`, as a predicate on characters. */
  function MemberOf(cs: set<char>): char -> bool {
    c => c in cs
  }

  /** Python's `s.strip(chars)`: the longest infix of `s` obtained by removing
      characters of `cs` from both ends. */
  function StripChars(s: string, cs: set<char>): (r: string)
    ensures |r| <= |s|
    ensures exists b :: 0 <= b <= |s| - |r| && r <= s[b..]
                     && (forall k :: 0 <= k < b ==> s[k] in cs)
                     && (forall k :: b + |r| <= k < |s| ==> s[k] in cs)
    ensures r != [] ==> r[0] !in cs && r[|r| - 1] !in cs
    ensures forall x :: x in r ==> x in s
  {
    var b := RunEnd(s, 0, MemberOf(cs));
    var e := RunStart(s, |s|, MemberOf(cs));
    if e <= b then
      assert b == |s|;
      assert [] <= s[0..];
      []
    else
      assert s[b..e] <= s[b..];
      s[b..e]
  }

  /** Python's `s.strip()` without arguments. */
  function Strip(s: string): string {
    StripChars(s, Whitespace)
  }

  /** Stripping twice removes nothing more. */
  lemma StripCharsIdempotent(s: string, cs: set<char>)
    ensures StripChars(StripChars(s, cs), cs) == StripChars(s, cs)
  {
    var r := StripChars(s, cs);
    if r != [] {
      assert RunEnd(r, 0, MemberOf(cs)) == 0;
      assert RunStart(r, |r|, MemberOf(cs)) == |r|;
      assert r[0..|r|] == r;
    }
  }

  /** Python's `sep.join(parts)`. */
  function Join(parts: seq<string>, sep: string): string {
    if |parts| == 0 then ""
    else if |parts| == 1 then parts[0]
    else parts[0] + sep + Join(parts[1..], sep)
  }

  lemma {:induction false} JoinAppend(a: seq<string>, b: seq<string>, sep: string)
    requires |a| > 0 && |b| > 0
    ensures Join(a + b, sep) == Join(a, sep) + sep + Join(b, sep)
  {
    if |a| == 1 {
      assert (a + b)[1..] == b;
    } else {
      assert (a + b)[1..] == a[1..] + b;
      JoinAppend(a[1..], b, sep);
    }
  }

  /** `''.join` distributes over concatenation, empty pieces included. */
  lemma ConcatAppend(a: seq<string>, b: seq<string>)
    ensures Join(a + b, "") == Join(a, "") + Join(b, "")
  {
    if |a| == 0 {
      assert a + b == b;
    } else if |b| == 0 {
      assert a + b == a;
    } else {
      JoinAppend(a, b, "");
    }
  }

  /** Python's `s.split(c)` for a one-character separator. */
  function Split(s: string, c: char): (parts: seq<string>)
    ensures |parts| == Occurrences(c, s) + 1
    ensures forall i :: 0 <= i < |parts| ==> c !in parts[i]
  {
    if |s| == 0 then [""]
    else
      var rest := Split(s[1..], c);
      if s[0] == c then [""] + rest
      else
        assert forall i :: 1 <= i < |rest| ==> rest[1..][i - 1] == rest[i];
        [[s[0]] + rest[0]] + rest[1..]
  }

  /** Splitting and re-joining with the same separator gives back the text. */
  lemma {:induction false} SplitJoin(s: string, c: char)
    ensures Join(Split(s, c), [c]) == s
  {
    if |s| > 0 {
      var rest := Split(s[1..], c);
      SplitJoin(s[1..], c);
      assert s == [s[0]] + s[1..];
      if s[0] == c {
        var parts := [""] + rest;
        assert parts[1..] == rest;
        assert Join(parts, [c]) == "" + [c] + Join(rest, [c]);
      } else if |rest| == 1 {
        assert Join(rest, [c]) == rest[0];
      } else {
        var parts := [[s[0]] + rest[0]] + rest[1..];
        assert parts[1..] == rest[1..];
        var tail := Join(rest[1..], [c]);
        calc {
          Join(parts, [c]);
          ([s[0]] + rest[0]) + [c] + tail;
          { SeqAssoc([s[0]] + rest[0], [c], tail); SeqAssoc([s[0]], rest[0], [c] + tail); }
          [s[0]] + (rest[0] + ([c] + tail));
          { SeqAssoc(rest[0], [c], tail); }
          [s[0]] + Join(rest, [c]);
        }
      }
    }
  }

  /** When `s.split(c)` has exactly two parts, they are the text before and
      after the one occurrence of `c`. */
  lemma SplitInTwo(s: string, c: char)
    requires |Split(s, c)| == 2
    ensures exists k :: 0 <= k < |s| && s[k] == c
                     && Split(s, c) == [s[..k], s[k + 1..]]
  {
    var parts := Split(s, c);
    SplitJoin(s, c);
    assert parts[1..] == [parts[1]];
    var x, y := parts[0], parts[1];
    assert s == x + [c] + y;
    SeqAssoc(x, [c], y);
    var k := |x|;
    assert s[..k] == x;
    assert s[k..] == [c] + y;
    assert s[k] == c;
    assert s[k + 1..] == ([c] + y)[1..] == y;
    assert 0 <= k < |s| && s[k] == c && Split(s, c) == [s[..k], s[k + 1..]];
  }

  /** `a` can be read off `b` by deleting characters of `b`. */
  predicate IsSubsequence(a: string, b: string)
    decreases |b|
  {
    |a| == 0
    || (|b| > 0 && ((a[0] == b[0] && IsSubsequence(a[1..], b[1..])) || IsSubsequence(a, b[1..])))
  }

  lemma {:induction false} SubsequenceCommonPrefix(t: string, a: string, b: string)
    requires IsSubsequence(a, b)
    ensures IsSubsequence(t + a, t + b)
  {
    if |t| > 0 {
      SubsequenceCommonPrefix(t[1..], a, b);
      assert (t + a)[0] == (t + b)[0];
      assert (t + a)[1..] == t[1..] + a && (t + b)[1..] == t[1..] + b;
    } else {
      assert t + a == a && t + b == b;
    }
  }

  lemma {:induction false} SubsequenceSkip(a: string, p: string, b: string)
    requires IsSubsequence(a, b)
    ensures IsSubsequence(a, p + b)
  {
    if |p| > 0 {
      SubsequenceSkip(a, p[1..], b);
      assert (p + b)[1..] == p[1..] + b;
    } else {
      assert p + b == b;
    }
  }

  /** `''.join` of a non-empty list is its first piece followed by the join
      of the rest. */
  lemma ConcatCons(parts: seq<string>)
    requires |parts| > 0
    ensures Join(parts, "") == parts[0] + Join(parts[1..], "")
  {
    assert parts[0] + "" == parts[0];
    if |parts| == 1 {
      assert parts[1..] == [];
    }
  }

  /** Pieces with the same number of occurrences of `c`, position by
      position, join into texts with the same number of occurrences. */
  lemma {:induction false} ConcatOccurrences(c: char, xs: seq<string>, ys: seq<string>)
    requires |xs| == |ys|
    requires forall i :: 0 <= i < |xs| ==> Occurrences(c, xs[i]) == Occurrences(c, ys[i])
    ensures Occurrences(c, Join(xs, "")) == Occurrences(c, Join(ys, ""))
  {
    if |xs| > 0 {
      ConcatOccurrences(c, xs[1..], ys[1..]);
      ConcatCons(xs);
      ConcatCons(ys);
      OccurrencesAppend(c, xs[0], Join(xs[1..], ""));
      OccurrencesAppend(c, ys[0], Join(ys[1..], ""));
    }
  }

  /** Joining with `c` as the separator adds one occurrence of `c` between
      each two pieces. */
  lemma {:induction false} JoinOccurrences(c: char, parts: seq<string>)
    requires |parts| > 0
    ensures Occurrences(c, Join(parts, [c])) == Occurrences(c, Join(parts, "")) + |parts| - 1
  {
    if |parts| > 1 {
      var rest := parts[1..];
      JoinOccurrences(c, rest);
      ConcatCons(parts);
      assert Join(parts, [c]) == parts[0] + [c] + Join(rest, [c]);
      OccurrencesAppend(c, parts[0] + [c], Join(rest, [c]));
      OccurrencesAppend(c, parts[0], [c]);
      OccurrencesAppend(c, parts[0], Join(rest, ""));
      assert Occurrences(c, [c]) == 1;
    }
  }

  /** Occurrences of `c` all inside `s[b..e]` are all the occurrences. */
  lemma OccurrencesInside(c: char, s: string, b: nat, e: nat)
    requires b <= e <= |s|
    requires forall k :: 0 <= k < b ==> s[k] != c
    requires forall k :: e <= k < |s| ==> s[k] != c
    ensures Occurrences(c, s[b..e]) == Occurrences(c, s)
  {
    assert s == s[..b] + s[b..e] + s[e..];
    assert c !in s[..b] && c !in s[e..];
    OccurrencesAppend(c, s[..b] + s[b..e], s[e..]);
    OccurrencesAppend(c, s[..b], s[b..e]);
  }

  /** Stripping characters of `cs` leaves every other character where it was
      counted: its occurrences are unchanged. */
  lemma StripCharsOccurrences(c: char, s: string, cs: set<char>)
    requires c !in cs
    ensures Occurrences(c, StripChars(s, cs)) == Occurrences(c, s)
  {
    var b := RunEnd(s, 0, MemberOf(cs));
    var e := RunStart(s, |s|, MemberOf(cs));
    if e <= b {
      assert b == |s|;
      OccurrencesInside(c, s, b, b);
    } else {
      OccurrencesInside(c, s, b, e);
    }
  }

  /** `''.join` of pieces whose last one ends with `c` ends with `c`. */
  lemma ConcatEndsWith(parts: seq<string>, c: char)
    requires |parts| > 0
    requires var last := parts[|parts| - 1]; |last| > 0 && last[|last| - 1] == c
    ensures var r := Join(parts, ""); |r| > 0 && r[|r| - 1] == c
  {
    var n := |parts| - 1;
    assert parts == parts[..n] + [parts[n]];
    ConcatAppend(parts[..n], [parts[n]]);
  }

  /** A text ending with a newline, then a newline separator: two newlines
      in a row. */
  lemma DoubleNewline(r: string, x: string)
    requires |r| > 0 && r[|r| - 1] == '\n'
    ensures exists p :: r + "\n" + x == p + "\n\n" + x
  {
    var p := r[..|r| - 1];
    assert r == p + "\n";
    assert r + "\n" + x == p + "\n\n" + x;
  }

  lemma SeqAssoc<T>(x: seq<T>, y: seq<T>, z: seq<T>)
    ensures x + (y + z) == (x + y) + z
  {
  }

  lemma SliceOne<T>(s: seq<T>, i: nat)
    requires i < |s|
    ensures s[i..i + 1] == [s[i]]
  {
  }

  lemma SliceSplit<T>(s: seq<T>, i: nat, j: nat)
    requires i <= j <= |s|
    ensures s[i..j] + s[j..] == s[i..]
  {
  }
}
