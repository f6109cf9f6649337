/** The text clean-up applied to every cell during ingestion: line breaks
    become spaces, the ends are trimmed, and every run of two or more
    whitespace characters collapses to one space. */
module Normalize {
  import opened Text

  /** Python's `str.isspace`, which is also what `\s` matches in a `str`
      regular expression and what `str.strip()` removes. */
  predicate IsSpace(c: char) {
    || c == ' '
    || ('\t' <= c <= '\r')
    || ('\U{1C}' <= c <= '\U{1F}')
    || c == '\U{85}'
    || c == '\U{A0}'
    || c == '\U{1680}'
    || ('\U{2000}' <= c <= '\U{200A}')
    || c == '\U{2028}'
    || c == '\U{2029}'
    || c == '\U{202F}'
    || c == '\U{205F}'
    || c == '\U{3000}'
  }

  predicate NoLineBreak(s: string) {
    '\r' !in s && '\n' !in s
  }

  predicate NoOuterSpace(s: string) {
    |s| == 0 || (!IsSpace(s[0]) && !IsSpace(s[|s| - 1]))
  }

  predicate NoDoubleSpace(s: string) {
    forall i :: 0 <= i < |s| - 1 ==> !(IsSpace(s[i]) && IsSpace(s[i + 1]))
  }

  /** The characters of `s` that are not whitespace, in order. */
  function NonSpace(s: string): string
    decreases |s|
  {
    if |s| == 0 then ""
    else (if IsSpace(s[0]) then "" else [s[0]]) + NonSpace(s[1..])
  }

  /** Length of the non-whitespace run that `s` begins with. */
  function WordLength(s: string): (n: nat)
    ensures n <= |s|
    ensures forall i :: 0 <= i < n ==> !IsSpace(s[i])
    ensures n < |s| ==> IsSpace(s[n])
    decreases |s|
  {
    if |s| == 0 || IsSpace(s[0]) then 0 else 1 + WordLength(s[1..])
  }

  /** The words of `s`: its maximal runs of non-whitespace characters, in order. */
  function Words(s: string): seq<string>
    decreases |s|
  {
    if |s| == 0 then []
    else if IsSpace(s[0]) then Words(s[1..])
    else
      var n := WordLength(s);
      [s[..n]] + Words(s[n..])
  }

  /** A text without outer whitespace is empty exactly when it has no
      non-whitespace character. */
  lemma CleanTextEmptyIff(s: string)
    requires NoOuterSpace(s)
    ensures s == "" <==> NonSpace(s) == ""
  {
    if |s| > 0 {
      assert NonSpace(s) == [s[0]] + NonSpace(s[1..]);
    }
  }

  /** Python's `s.replace(a, b)` for single characters. */
  function ReplaceChar(s: string, a: char, b: char): (r: string)
    ensures |r| == |s|
    ensures forall i :: 0 <= i < |s| ==> r[i] == (if s[i] == a then b else s[i])
  {
    seq(|s|, i requires 0 <= i < |s| => if s[i] == a then b else s[i])
  }

  /** Length of the whitespace run that `s` begins with. */
  function RunLength(s: string): (n: nat)
    ensures n <= |s|
    ensures forall i :: 0 <= i < n ==> IsSpace(s[i])
    ensures n < |s| ==> !IsSpace(s[n])
    decreases |s|
  {
    if |s| == 0 || !IsSpace(s[0]) then 0 else 1 + RunLength(s[1..])
  }

  /** Length of the whitespace run that `s` ends with. */
  function TrailLength(s: string): (n: nat)
    ensures n <= |s|
    ensures forall i :: |s| - n <= i < |s| ==> IsSpace(s[i])
    ensures n < |s| ==> !IsSpace(s[|s| - n - 1])
    decreases |s|
  {
    if |s| == 0 || !IsSpace(s[|s| - 1]) then 0 else 1 + TrailLength(s[..|s| - 1])
  }

  /** Python's `s.strip()`: the one slice of `s` that starts right after the
      leading whitespace run, has no whitespace at either end and has only
      whitespace around it. */
  function Strip(s: string): (r: string)
    ensures NoOuterSpace(r)
    ensures RunLength(s) + |r| <= |s| && r == s[RunLength(s)..RunLength(s) + |r|]
    ensures forall i :: 0 <= i < |s| && !(RunLength(s) <= i < RunLength(s) + |r|) ==> IsSpace(s[i])
  {
    var k := RunLength(s);
    var e := TrailOfSuffix(s, k);
    PaddedSlice(s, k, e);
    s[k..e]
  }

  /** Where the trailing whitespace run of `s[k..]` starts, as a position of `s`. */
  function TrailOfSuffix(s: string, k: nat): (e: nat)
    requires k <= |s|
    ensures k <= e <= |s|
    ensures forall i :: e <= i < |s| ==> IsSpace(s[i])
    ensures e > k ==> !IsSpace(s[e - 1])
    ensures k < |s| && !IsSpace(s[k]) ==> e > k
  {
    var t := s[k..];
    var n := TrailLength(t);
    assert forall i :: |s| - n <= i < |s| ==> s[i] == t[i - k];
    assert n < |t| ==> s[|s| - n - 1] == t[|t| - n - 1];
    assert k < |s| ==> s[k] == t[0];
    |s| - n
  }

  /** The slice between a leading and a trailing whitespace run has no outer
      whitespace, and only whitespace lies outside it. */
  lemma PaddedSlice(s: string, k: nat, e: nat)
    requires k <= e <= |s|
    requires forall i :: 0 <= i < k ==> IsSpace(s[i])
    requires forall i :: e <= i < |s| ==> IsSpace(s[i])
    requires e > k ==> !IsSpace(s[k]) && !IsSpace(s[e - 1])
    ensures NoOuterSpace(s[k..e])
    ensures forall i :: 0 <= i < |s| && !(k <= i < e) ==> IsSpace(s[i])
  {
  }

  /** `re.sub(r"\s{2,}", " ", s)`: scanning left to right, each maximal run of
      two or more whitespace characters becomes one space; a lone whitespace
      character is left as it is. */
  function CollapseRuns(s: string): string
    decreases |s|
  {
    if |s| == 0 then ""
    else if !IsSpace(s[0]) then [s[0]] + CollapseRuns(s[1..])
    else
      var n := RunLength(s);
      (if n >= 2 then " " else [s[0]]) + CollapseRuns(s[n..])
  }

  /** The whole clean-up of one text cell. The output has no line breaks, no
      whitespace at either end and no two whitespace characters side by
      side; it keeps every non-whitespace character of the input in order,
      and it keeps the words apart exactly as they were: the output has the
      same words as the input. */
  function StripAndFix(s: string): (r: string)
    ensures NoLineBreak(r)
    ensures NoOuterSpace(r)
    ensures NoDoubleSpace(r)
    ensures NonSpace(r) == NonSpace(s)
    ensures Words(r) == Words(s)
    ensures forall i :: 0 <= i < |r| ==> r[i] == ' ' || r[i] in s
    ensures PlainWhitespace(s) ==> r == Join(Words(s), " ")
  {
    var noBreaks := ReplaceChar(ReplaceChar(s, '\r', ' '), '\n', ' ');
    ReplacedCharsGone(s);
    NonSpaceOfReplaced(s, '\r');
    NonSpaceOfReplaced(ReplaceChar(s, '\r', ' '), '\n');
    WordsOfReplaced(s, '\r');
    WordsOfReplaced(ReplaceChar(s, '\r', ' '), '\n');
    StripKeepsLineBreakFree(noBreaks);
    NonSpaceOfStrip(noBreaks);
    WordsOfStrip(noBreaks);
    CollapseOfStripped(Strip(noBreaks));
    WordsOfCollapse(Strip(noBreaks));
    CharsOfReplace(s, '\r', ' ');
    CharsOfReplace(ReplaceChar(s, '\r', ' '), '\n', ' ');
    CharsOfStrip(noBreaks);
    CharsOfCollapse(Strip(noBreaks));
    var r := CollapseRuns(Strip(noBreaks));
    JoinIfPlain(s, r);
    r
  }

  /** The only whitespace characters of `s` are spaces and line breaks. */
  predicate PlainWhitespace(s: string) {
    forall i :: 0 <= i < |s| && IsSpace(s[i]) ==> s[i] == ' ' || s[i] == '\r' || s[i] == '\n'
  }

  /** A cleaned text whose whitespace comes from plain spaces and line breaks
      is its words separated by single spaces. */
  lemma JoinIfPlain(s: string, r: string)
    requires NoLineBreak(r) && NoOuterSpace(r) && NoDoubleSpace(r)
    requires Words(r) == Words(s)
    requires forall c :: c in r ==> c == ' ' || c in s
    ensures PlainWhitespace(s) ==> r == Join(Words(s), " ")
  {
    if PlainWhitespace(s) {
      forall i | 0 <= i < |r| && IsSpace(r[i])
        ensures r[i] == ' '
      {
        assert r[i] in r;
        if r[i] in s {
          var j :| 0 <= j < |s| && s[j] == r[i];
        }
      }
      SingleSpacedIsJoin(r);
    }
  }

  /** A text without outer or doubled whitespace whose whitespace is all
      spaces is its words joined by one space. */
  lemma {:induction false} SingleSpacedIsJoin(t: string)
    requires NoOuterSpace(t) && NoDoubleSpace(t)
    requires forall i :: 0 <= i < |t| && IsSpace(t[i]) ==> t[i] == ' '
    ensures t == Join(Words(t), " ")
    decreases |t|
  {
    if |t| > 0 {
      var n := WordLength(t);
      if n == |t| {
        assert t[..n] == t && t[n..] == "";
        assert Words(t) == [t];
      } else {
        var rest := t[n + 1..];
        assert t[n] == ' ';
        assert n + 1 < |t| && !IsSpace(t[n + 1]);
        assert forall i :: 0 <= i < |rest| ==> rest[i] == t[n + 1 + i];
        SingleSpacedIsJoin(rest);
        SingleSpacedStep(t, n, Words(rest));
      }
    }
  }

  /** The step of `SingleSpacedIsJoin` past the first word and its space. */
  lemma SingleSpacedStep(t: string, n: nat, ws: seq<string>)
    requires 0 < n && n + 1 < |t| && WordLength(t) == n && !IsSpace(t[0]) && !IsSpace(t[n + 1]) && t[n] == ' '
    requires ws == Words(t[n + 1..]) && t[n + 1..] == Join(ws, " ")
    ensures t == Join(Words(t), " ")
  {
    var w := t[..n];
    WordThenOneSpace(t, n);
    assert |ws| > 0 by {
      var rest := t[n + 1..];
      assert rest[0] == t[n + 1];
    }
    JoinCons([w] + ws, " ");
    assert ([w] + ws)[1..] == ws;
    SplitAround(t, n);
    assert [t[n]] == " ";
  }

  /** The words of a text that starts with a word of length `n` followed by whitespace. */
  lemma WordThenOneSpace(t: string, n: nat)
    requires 0 < n < |t| && WordLength(t) == n && !IsSpace(t[0])
    ensures Words(t) == [t[..n]] + Words(t[n + 1..])
  {
    var u := t[n..];
    assert u[0] == t[n] && u[1..] == t[n + 1..];
  }

  lemma CharsOfReplace(s: string, a: char, b: char)
    ensures forall c :: c in ReplaceChar(s, a, b) ==> c == b || c in s
  {
    var r := ReplaceChar(s, a, b);
    forall c | c in r
      ensures c == b || c in s
    {
      var i :| 0 <= i < |r| && r[i] == c;
    }
  }

  lemma CharsOfStrip(s: string)
    ensures forall c :: c in Strip(s) ==> c in s
  {
    var k, m := StripBounds(s);
    assert forall i :: k <= i < m ==> s[k..m][i - k] == s[i];
  }

  /** Collapsing adds no character other than the space. */
  lemma {:induction false} CharsOfCollapse(s: string)
    ensures forall c :: c in CollapseRuns(s) ==> c == ' ' || c in s
    decreases |s|
  {
    if |s| > 0 {
      var n, head := CollapseStep(s);
      CharsOfCollapse(s[n..]);
      assert forall c :: c in s[n..] ==> c in s;
    }
  }

  lemma StripKeepsLineBreakFree(s: string)
    requires NoLineBreak(s)
    ensures NoLineBreak(Strip(s))
  {
    var k := RunLength(s);
    var r := Strip(s);
    assert forall c :: c in r ==> c in s;
  }

  /** Collapsing a stripped, line-break free text gives a fully clean text with the same non-whitespace characters. */
  lemma CollapseOfStripped(t: string)
    requires NoLineBreak(t) && NoOuterSpace(t)
    ensures NoLineBreak(CollapseRuns(t))
    ensures NoOuterSpace(CollapseRuns(t))
    ensures NoDoubleSpace(CollapseRuns(t))
    ensures NonSpace(CollapseRuns(t)) == NonSpace(t)
  {
    CollapseChars(t);
    CollapseHead(t);
    CollapseLast(t);
    CollapseNoDouble(t);
    CollapseKeepsNonSpace(t);
  }

  lemma ReplacedCharsGone(s: string)
    ensures NoLineBreak(ReplaceChar(ReplaceChar(s, '\r', ' '), '\n', ' '))
  {
    var t := ReplaceChar(ReplaceChar(s, '\r', ' '), '\n', ' ');
    forall i | 0 <= i < |t|
      ensures t[i] != '\r' && t[i] != '\n'
    {
    }
  }

  lemma {:induction false} NonSpaceAppend(a: string, b: string)
    ensures NonSpace(a + b) == NonSpace(a) + NonSpace(b)
    decreases |a|
  {
    if |a| > 0 {
      assert (a + b)[1..] == a[1..] + b;
      NonSpaceAppend(a[1..], b);
    } else {
      assert a + b == b;
    }
  }

  lemma {:induction false} NonSpaceOfSpaces(s: string)
    requires forall i :: 0 <= i < |s| ==> IsSpace(s[i])
    ensures NonSpace(s) == ""
    decreases |s|
  {
    if |s| > 0 {
      NonSpaceOfSpaces(s[1..]);
    }
  }

  /** Replacing a line-break character by a space does not touch the non-whitespace characters. */
  lemma {:induction false} NonSpaceOfReplaced(s: string, a: char)
    requires IsSpace(a)
    ensures NonSpace(ReplaceChar(s, a, ' ')) == NonSpace(s)
    decreases |s|
  {
    if |s| > 0 {
      assert ReplaceChar(s, a, ' ')[1..] == ReplaceChar(s[1..], a, ' ');
      NonSpaceOfReplaced(s[1..], a);
    }
  }

  lemma NonSpaceOfStrip(s: string)
    ensures NonSpace(Strip(s)) == NonSpace(s)
  {
    var k, m := StripBounds(s);
    NonSpaceOfPadded(s, k, m);
  }

  /** The bounds of the slice that `Strip` keeps. */
  lemma StripBounds(s: string) returns (k: nat, m: nat)
    ensures k <= m <= |s| && Strip(s) == s[k..m]
    ensures forall i :: 0 <= i < |s| && !(k <= i < m) ==> IsSpace(s[i])
  {
    k := RunLength(s);
    m := k + |Strip(s)|;
  }

  /** Whitespace before `k` and from `m` on contributes no non-whitespace character. */
  lemma NonSpaceOfPadded(s: string, k: nat, m: nat)
    requires k <= m <= |s|
    requires forall i :: 0 <= i < |s| && !(k <= i < m) ==> IsSpace(s[i])
    ensures NonSpace(s[k..m]) == NonSpace(s)
  {
    SpacesAround(s, k, m);
    NonSpaceBetweenSpaces(s[..k], s[k..m], s[m..]);
  }

  lemma NonSpaceBetweenSpaces(lead: string, mid: string, tail: string)
    requires forall i :: 0 <= i < |lead| ==> IsSpace(lead[i])
    requires forall i :: 0 <= i < |tail| ==> IsSpace(tail[i])
    ensures NonSpace(lead + mid + tail) == NonSpace(mid)
  {
    NonSpaceOfSpaces(lead);
    NonSpaceOfSpaces(tail);
    NonSpaceAppend(lead, mid);
    NonSpaceAppend(lead + mid, tail);
  }

  /** The pieces of `s` before `k` and from `m` on are all whitespace, and
      `s` is those pieces around the middle slice. */
  lemma SpacesAround(s: string, k: nat, m: nat)
    requires k <= m <= |s|
    requires forall i :: 0 <= i < |s| && !(k <= i < m) ==> IsSpace(s[i])
    ensures forall i :: 0 <= i < k ==> IsSpace(s[..k][i])
    ensures forall i :: 0 <= i < |s| - m ==> IsSpace(s[m..][i])
    ensures s[..k] + s[k..m] + s[m..] == s
  {
    forall i | 0 <= i < |s| - m
      ensures IsSpace(s[m..][i])
    {
      assert s[m..][i] == s[m + i];
    }
    SplitThree(s, k, m);
  }

  /** Collapsing keeps whether the text begins with whitespace. */
  lemma CollapseHead(s: string)
    ensures |s| > 0 ==> |CollapseRuns(s)| > 0 && (IsSpace(CollapseRuns(s)[0]) <==> IsSpace(s[0]))
  {
  }

  /** Collapsing keeps a non-whitespace last character. */
  lemma {:induction false} CollapseLast(s: string)
    ensures |s| > 0 && !IsSpace(s[|s| - 1]) ==> |CollapseRuns(s)| > 0 && CollapseRuns(s)[|CollapseRuns(s)| - 1] == s[|s| - 1]
    decreases |s|
  {
    if |s| > 0 && !IsSpace(s[|s| - 1]) {
      var n, head := CollapseStep(s);
      var t := CollapseRuns(s[n..]);
      if n < |s| {
        assert s[n..][|s[n..]| - 1] == s[|s| - 1];
        CollapseLast(s[n..]);
        LastOfAppend(head, t);
      } else {
        assert !IsSpace(s[0]) && t == "";
        assert head + t == [s[|s| - 1]];
      }
    }
  }

  /** One step of collapsing: the leading character, or the leading
      whitespace run, becomes one character of the same kind. */
  lemma CollapseStep(s: string) returns (n: nat, head: string)
    requires |s| > 0
    ensures 0 < n <= |s|
    ensures CollapseRuns(s) == head + CollapseRuns(s[n..])
    ensures |head| == 1 && (IsSpace(head[0]) <==> IsSpace(s[0]))
    ensures head == " " || head == [s[0]]
    ensures !IsSpace(s[0]) ==> n == 1 && head == [s[0]]
    ensures IsSpace(s[0]) ==> n == RunLength(s)
  {
    n := if IsSpace(s[0]) then RunLength(s) else 1;
    head := if IsSpace(s[0]) && n >= 2 then " " else [s[0]];
  }

  /** Collapsing never leaves two whitespace characters side by side. */
  lemma {:induction false} CollapseNoDouble(s: string)
    ensures NoDoubleSpace(CollapseRuns(s))
    decreases |s|
  {
    if |s| > 0 {
      var n := if IsSpace(s[0]) then RunLength(s) else 1;
      var head: string := if IsSpace(s[0]) && n >= 2 then " " else [s[0]];
      var tail := CollapseRuns(s[n..]);
      assert CollapseRuns(s) == head + tail;
      CollapseNoDouble(s[n..]);
      CollapseHead(s[n..]);
      assert n < |s| ==> s[n..][0] == s[n];
      var r := head + tail;
      forall i | 0 <= i < |r| - 1
        ensures !(IsSpace(r[i]) && IsSpace(r[i + 1]))
      {
        if i > 0 {
          assert r[i] == tail[i - 1] && r[i + 1] == tail[i];
        }
      }
    }
  }

  lemma {:induction false} CollapseKeepsNonSpace(s: string)
    ensures NonSpace(CollapseRuns(s)) == NonSpace(s)
    decreases |s|
  {
    if |s| > 0 {
      var n := if IsSpace(s[0]) then RunLength(s) else 1;
      var head: string := if IsSpace(s[0]) && n >= 2 then " " else [s[0]];
      assert CollapseRuns(s) == head + CollapseRuns(s[n..]);
      CollapseKeepsNonSpace(s[n..]);
      NonSpaceAppend(head, CollapseRuns(s[n..]));
      assert s == s[..n] + s[n..];
      NonSpaceAppend(s[..n], s[n..]);
      if IsSpace(s[0]) {
        NonSpaceOfSpaces(s[..n]);
        NonSpaceOfSpaces(head);
      } else {
        assert s[..n] == head;
      }
    }
  }

  /** Collapsing only introduces plain spaces. */
  lemma {:induction false} CollapseChars(s: string)
    ensures forall c :: c in CollapseRuns(s) ==> c == ' ' || c in s
    decreases |s|
  {
    if |s| > 0 {
      var n := if IsSpace(s[0]) then RunLength(s) else 1;
      var head: string := if IsSpace(s[0]) && n >= 2 then " " else [s[0]];
      assert CollapseRuns(s) == head + CollapseRuns(s[n..]);
      CollapseChars(s[n..]);
      assert forall c :: c in s[n..] ==> c in s;
    }
  }

  /** Text with no two adjacent whitespace characters is left unchanged by collapsing. */
  lemma {:induction false} CollapseIdentity(s: string)
    requires NoDoubleSpace(s)
    ensures CollapseRuns(s) == s
    decreases |s|
  {
    if |s| > 0 {
      if IsSpace(s[0]) {
        assert RunLength(s) == 1 by {
          if |s| > 1 {
            assert !IsSpace(s[1]);
          }
        }
      }
      assert NoDoubleSpace(s[1..]) by {
        forall i | 0 <= i < |s[1..]| - 1
          ensures !(IsSpace(s[1..][i]) && IsSpace(s[1..][i + 1]))
        {
          assert s[1..][i] == s[i + 1] && s[1..][i + 1] == s[i + 2];
        }
      }
      CollapseIdentity(s[1..]);
      assert [s[0]] + s[1..] == s;
    }
  }

  // ---------------------------------------------------------------------
  // Words are kept

  lemma {:induction false} WordLengthIs(s: string, m: nat)
    requires m <= |s|
    requires forall i :: 0 <= i < m ==> !IsSpace(s[i])
    requires m < |s| ==> IsSpace(s[m])
    ensures WordLength(s) == m
    decreases m
  {
    if m > 0 {
      assert forall i :: 0 <= i < m - 1 ==> s[1..][i] == s[i + 1];
      assert m - 1 < |s| - 1 ==> s[1..][m - 1] == s[m];
      WordLengthIs(s[1..], m - 1);
    }
  }

  lemma {:induction false} WordsOfSpaces(s: string)
    requires forall i :: 0 <= i < |s| ==> IsSpace(s[i])
    ensures Words(s) == []
    decreases |s|
  {
    if |s| > 0 {
      WordsOfSpaces(s[1..]);
    }
  }

  /** Words do not run across a whitespace boundary: when `a` ends or `b`
      begins with whitespace, the words of `a + b` are those of `a` followed
      by those of `b`. */
  lemma {:induction false} WordsAppend(a: string, b: string)
    requires |a| == 0 || |b| == 0 || IsSpace(a[|a| - 1]) || IsSpace(b[0])
    ensures Words(a + b) == Words(a) + Words(b)
    decreases |a|
  {
    if |a| == 0 {
      assert a + b == b;
    } else if IsSpace(a[0]) {
      WordsAppend(a[1..], b);
      WordsAppendSpace(a, b);
    } else {
      var rest := a[WordLength(a)..];
      assert |rest| > 0 ==> rest[|rest| - 1] == a[|a| - 1];
      WordsAppend(rest, b);
      WordsAppendWord(a, b);
    }
  }

  /** The step of `WordsAppend` past a leading whitespace character. */
  lemma WordsAppendSpace(a: string, b: string)
    requires |a| > 0 && IsSpace(a[0])
    requires Words(a[1..] + b) == Words(a[1..]) + Words(b)
    ensures Words(a + b) == Words(a) + Words(b)
  {
    var ab := a + b;
    assert ab[1..] == a[1..] + b;
    assert Words(ab) == Words(ab[1..]);
  }

  /** The step of `WordsAppend` past a leading word. */
  lemma WordsAppendWord(a: string, b: string)
    requires |a| > 0 && !IsSpace(a[0])
    requires |b| == 0 || IsSpace(a[|a| - 1]) || IsSpace(b[0])
    requires Words(a[WordLength(a)..] + b) == Words(a[WordLength(a)..]) + Words(b)
    ensures Words(a + b) == Words(a) + Words(b)
  {
    var ab := a + b;
    var n := WordLength(a);
    FirstWordOfAppend(a, b);
    calc {
      Words(ab);
      [ab[..n]] + Words(ab[n..]);
      [a[..n]] + (Words(a[n..]) + Words(b));
      [a[..n]] + Words(a[n..]) + Words(b);
    }
  }

  /** The first word of `a + b` is the first word of `a` when the word ends inside `a`. */
  lemma FirstWordOfAppend(a: string, b: string)
    requires |a| > 0 && !IsSpace(a[0])
    requires |b| == 0 || IsSpace(a[|a| - 1]) || IsSpace(b[0])
    ensures var n := WordLength(a);
            && WordLength(a + b) == n
            && (a + b)[..n] == a[..n]
            && (a + b)[n..] == a[n..] + b
  {
    var n := WordLength(a);
    WordEndsInFirst(a, b, n);
    WordLengthIs(a + b, n);
    AppendSlices(a, b, n);
  }

  /** The characters of `a + b` around position `n` of `a`, for a word of `a` of length `n`. */
  lemma WordEndsInFirst(a: string, b: string, n: nat)
    requires n <= |a| && |a| > 0
    requires forall i :: 0 <= i < n ==> !IsSpace(a[i])
    requires n < |a| ==> IsSpace(a[n])
    requires |b| == 0 || IsSpace(a[|a| - 1]) || IsSpace(b[0])
    requires n == |a| ==> !IsSpace(a[|a| - 1])
    ensures forall i :: 0 <= i < n ==> !IsSpace((a + b)[i])
    ensures n < |a + b| ==> IsSpace((a + b)[n])
  {
    var ab := a + b;
    assert forall i :: 0 <= i < n ==> ab[i] == a[i];
    if n < |a| {
      assert ab[n] == a[n];
    } else if |b| > 0 {
      assert ab[n] == b[0];
    }
  }

  /** Two texts with whitespace in the same places and the same characters
      elsewhere have the same words. */
  lemma {:induction false} WordsRespace(s: string, t: string)
    requires |s| == |t|
    requires forall i :: 0 <= i < |s| ==> (IsSpace(s[i]) <==> IsSpace(t[i]))
    requires forall i :: 0 <= i < |s| && !IsSpace(s[i]) ==> s[i] == t[i]
    ensures Words(s) == Words(t)
    decreases |s|
  {
    if |s| > 0 {
      var n := if IsSpace(s[0]) then 1 else WordLength(s);
      if !IsSpace(s[0]) {
        WordLengthIs(t, n);
        assert s[..n] == t[..n];
      }
      assert forall i :: 0 <= i < |s| - n ==> s[n..][i] == s[n + i] && t[n..][i] == t[n + i];
      WordsRespace(s[n..], t[n..]);
    }
  }

  /** Replacing a whitespace character by a space keeps the words. */
  lemma WordsOfReplaced(s: string, a: char)
    requires IsSpace(a)
    ensures Words(ReplaceChar(s, a, ' ')) == Words(s)
  {
    WordsRespace(ReplaceChar(s, a, ' '), s);
  }

  /** Stripping keeps the words. */
  lemma WordsOfStrip(s: string)
    ensures Words(Strip(s)) == Words(s)
  {
    var k, m := StripBounds(s);
    WordsOfPadded(s, k, m);
  }

  /** Whitespace before `k` and from `m` on contributes no word. */
  lemma WordsOfPadded(s: string, k: nat, m: nat)
    requires k <= m <= |s|
    requires forall i :: 0 <= i < |s| && !(k <= i < m) ==> IsSpace(s[i])
    ensures Words(s[k..m]) == Words(s)
  {
    SpacesAround(s, k, m);
    WordsBetweenSpaces(s[..k], s[k..m], s[m..]);
  }

  lemma WordsBetweenSpaces(lead: string, mid: string, tail: string)
    requires forall i :: 0 <= i < |lead| ==> IsSpace(lead[i])
    requires forall i :: 0 <= i < |tail| ==> IsSpace(tail[i])
    ensures Words(lead + mid + tail) == Words(mid)
  {
    WordsOfSpaces(lead);
    WordsOfSpaces(tail);
    WordsAppend(lead, mid);
    WordsAppend(lead + mid, tail);
  }

  /** Collapsing copies a leading run of non-whitespace characters unchanged. */
  lemma {:induction false} CollapseWordPrefix(s: string, k: nat)
    requires k <= |s|
    requires forall i :: 0 <= i < k ==> !IsSpace(s[i])
    ensures CollapseRuns(s) == s[..k] + CollapseRuns(s[k..])
    decreases k
  {
    if k > 0 {
      var t := s[1..];
      assert forall i :: 0 <= i < k - 1 ==> t[i] == s[i + 1];
      CollapseWordPrefix(t, k - 1);
      CollapseCopiesChar(s);
      SlicesAfterHead(s, k, CollapseRuns(s[k..]));
    }
  }

  lemma CollapseCopiesChar(s: string)
    requires |s| > 0 && !IsSpace(s[0])
    ensures CollapseRuns(s) == [s[0]] + CollapseRuns(s[1..])
  {
  }

  /** Collapsing whitespace runs keeps the words. */
  lemma {:induction false} WordsOfCollapse(s: string)
    ensures Words(CollapseRuns(s)) == Words(s)
    decreases |s|
  {
    if |s| > 0 {
      if IsSpace(s[0]) {
        WordsOfCollapse(s[RunLength(s)..]);
        WordsOfCollapsedRun(s);
      } else {
        WordsOfCollapse(s[WordLength(s)..]);
        WordsOfCollapsedWord(s);
      }
    }
  }

  /** A leading whitespace run collapses to one whitespace character, which starts no word. */
  lemma WordsOfCollapsedRun(s: string)
    requires |s| > 0 && IsSpace(s[0])
    requires Words(CollapseRuns(s[RunLength(s)..])) == Words(s[RunLength(s)..])
    ensures Words(CollapseRuns(s)) == Words(s)
  {
    var n := RunLength(s);
    var sp: string := if n >= 2 then " " else [s[0]];
    assert CollapseRuns(s) == sp + CollapseRuns(s[n..]);
    SplitThree(s, n, n);
    WordsBetweenSpaces(sp, CollapseRuns(s[n..]), "");
    WordsBetweenSpaces(s[..n], s[n..], "");
    assert sp + CollapseRuns(s[n..]) + "" == sp + CollapseRuns(s[n..]);
    assert s[..n] + s[n..] + "" == s;
  }

  /** A leading word is copied unchanged and still ends where whitespace begins. */
  lemma WordsOfCollapsedWord(s: string)
    requires |s| > 0 && !IsSpace(s[0])
    requires Words(CollapseRuns(s[WordLength(s)..])) == Words(s[WordLength(s)..])
    ensures Words(CollapseRuns(s)) == Words(s)
  {
    var k := WordLength(s);
    var rest := s[k..];
    CollapseWordPrefix(s, k);
    CollapseHead(rest);
    assert |rest| > 0 ==> rest[0] == s[k];
    assert |rest| == 0 ==> CollapseRuns(rest) == "";
    WordThenSpace(s[..k], CollapseRuns(rest), rest);
    SplitAt(s, k);
  }

  /** Texts that begin with whitespace and have the same words keep the same
      words behind any common prefix. */
  lemma WordThenSpace(w: string, x: string, y: string)
    requires |x| == 0 || IsSpace(x[0])
    requires |y| == 0 || IsSpace(y[0])
    requires Words(x) == Words(y)
    ensures Words(w + x) == Words(w + y)
  {
    WordsAppend(w, x);
    WordsAppend(w, y);
  }

  /** A text that already has the cleaned shape is its own cleaning; since
      every cleaned text has that shape, cleaning twice equals cleaning once. */
  lemma CleanIsFixpoint(s: string)
    requires NoLineBreak(s) && NoOuterSpace(s) && NoDoubleSpace(s)
    ensures StripAndFix(s) == s
  {
    ReplaceAbsent(s, '\r', ' ');
    ReplaceAbsent(s, '\n', ' ');
    StripOfStripped(s);
    CollapseIdentity(s);
  }

  lemma ReplaceAbsent(s: string, a: char, b: char)
    requires a !in s
    ensures ReplaceChar(s, a, b) == s
  {
  }

  /** Stripping a text without outer whitespace changes nothing. */
  lemma StripOfStripped(s: string)
    requires NoOuterSpace(s)
    ensures Strip(s) == s
  {
    assert RunLength(s) == 0;
    assert TrailLength(s) == 0;
    assert s[0..|s|] == s;
  }

  lemma StripAndFixIdempotent(s: string)
    ensures StripAndFix(StripAndFix(s)) == StripAndFix(s)
  {
    CleanIsFixpoint(StripAndFix(s));
  }
}
