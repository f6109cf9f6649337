/** Sequence and string helpers shared by the pipeline: integer bounds,
    flattening, Python's `str.join` and splitting on a delimiter character,
    with the lemmas that describe where each joined part lands. */
module Text {

  function Min(a: int, b: int): int {
    if a <= b then a else b
  }

  function Max(a: int, b: int): int {
    if a >= b then a else b
  }

  /** `math.ceil(n / d)` for a positive divisor: the fewest blocks of `d`
      that cover `n`. */
  function CeilDiv(n: nat, d: nat): (q: nat)
    requires d > 0
    ensures q * d >= n
    ensures n > 0 ==> (q - 1) * d < n
    ensures n == 0 <==> q == 0
    decreases n
  {
    if n == 0 then 0
    else if n <= d then 1
    else 1 + CeilDiv(n - d, d)
  }

  /** Flattens a sequence of sequences, keeping order. */
  function Concat<T>(xss: seq<seq<T>>): seq<T>
    decreases |xss|
  {
    if |xss| == 0 then [] else xss[0] + Concat(xss[1..])
  }

  /** Python's `sep.join(parts)`. */
  function Join(parts: seq<string>, sep: string): string
    decreases |parts|
  {
    if |parts| == 0 then ""
    else if |parts| == 1 then parts[0]
    else parts[0] + sep + Join(parts[1..], sep)
  }

  lemma JoinCons(parts: seq<string>, sep: string)
    requires |parts| >= 2
    ensures Join(parts, sep) == parts[0] + sep + Join(parts[1..], sep)
  {
  }

  /** The position at which `parts[j]` begins inside `Join(parts, sep)`:
      every earlier part followed by one separator. */
  function Offset(parts: seq<string>, sep: string, j: nat): nat
    requires j <= |parts|
    decreases j
  {
    if j == 0 then 0 else |parts[0]| + |sep| + Offset(parts[1..], sep, j - 1)
  }

  lemma {:induction false} OffsetNext(parts: seq<string>, sep: string, j: nat)
    requires j < |parts|
    ensures Offset(parts, sep, j + 1) == Offset(parts, sep, j) + |parts[j]| + |sep|
    decreases j
  {
    if j > 0 {
      OffsetNext(parts[1..], sep, j - 1);
      assert parts[1..][j - 1] == parts[j];
    }
  }

  lemma SliceOfSuffix<T>(x: seq<T>, y: seq<T>, lo: nat, hi: nat)
    requires lo <= hi <= |y|
    ensures (x + y)[|x| + lo..|x| + hi] == y[lo..hi]
  {
  }

  // Generic facts about slices and concatenation.

  lemma LastOfAppend<T>(x: seq<T>, y: seq<T>)
    requires |y| > 0
    ensures |x + y| > 0 && (x + y)[|x + y| - 1] == y[|y| - 1]
  {
  }

  lemma SplitAt<T>(s: seq<T>, k: nat)
    requires k <= |s|
    ensures s[..k] + s[k..] == s
  {
  }

  lemma PrefixOfAppend<T>(a: seq<T>, b: seq<T>, c: seq<T>)
    ensures (a + b + c)[..|a|] == a
  {
  }

  lemma SplitAround<T>(s: seq<T>, n: nat)
    requires n < |s|
    ensures s == s[..n] + [s[n]] + s[n + 1..]
  {
  }

  lemma SplitThree<T>(s: seq<T>, k: nat, m: nat)
    requires k <= m <= |s|
    ensures s[..k] + s[k..m] + s[m..] == s
  {
  }

  lemma AppendSlices<T>(a: seq<T>, b: seq<T>, n: nat)
    requires n <= |a|
    ensures (a + b)[..n] == a[..n]
    ensures (a + b)[n..] == a[n..] + b
  {
  }

  lemma SlicesAfterHead<T>(s: seq<T>, k: nat, c: seq<T>)
    requires 0 < k <= |s|
    ensures s[1..][k - 1..] == s[k..]
    ensures [s[0]] + (s[1..][..k - 1] + c) == s[..k] + c
  {
  }

  /** Part `j` as it appears in the joined string. */
  lemma {:induction false} JoinPartAt(parts: seq<string>, sep: string, j: nat)
    requires j < |parts|
    ensures Offset(parts, sep, j) + |parts[j]| <= |Join(parts, sep)|
    ensures Join(parts, sep)[Offset(parts, sep, j)..Offset(parts, sep, j) + |parts[j]|] == parts[j]
    decreases j
  {
    if j == 0 {
      FirstPartAt(parts, sep);
    } else {
      JoinPartAt(parts[1..], sep, j - 1);
      LaterPartAt(parts, sep, j);
    }
  }

  lemma FirstPartAt(parts: seq<string>, sep: string)
    requires 0 < |parts|
    ensures |parts[0]| <= |Join(parts, sep)| && Join(parts, sep)[..|parts[0]|] == parts[0]
  {
    if |parts| > 1 {
      JoinCons(parts, sep);
      PrefixOfAppend(parts[0], sep, Join(parts[1..], sep));
    }
  }

  /** The step of `JoinPartAt` from the parts after the first to all parts. */
  lemma LaterPartAt(parts: seq<string>, sep: string, j: nat)
    requires 0 < j < |parts|
    requires Offset(parts[1..], sep, j - 1) + |parts[1..][j - 1]| <= |Join(parts[1..], sep)|
    requires Join(parts[1..], sep)[Offset(parts[1..], sep, j - 1)..Offset(parts[1..], sep, j - 1) + |parts[1..][j - 1]|]
             == parts[1..][j - 1]
    ensures Offset(parts, sep, j) + |parts[j]| <= |Join(parts, sep)|
    ensures Join(parts, sep)[Offset(parts, sep, j)..Offset(parts, sep, j) + |parts[j]|] == parts[j]
  {
    JoinCons(parts, sep);
    var o := Offset(parts[1..], sep, j - 1);
    assert parts[1..][j - 1] == parts[j];
    SliceOfSuffix(parts[0] + sep, Join(parts[1..], sep), o, o + |parts[j]|);
  }

  /** The separator after part `j`, as it appears in the joined string. */
  lemma {:induction false} JoinSepAt(parts: seq<string>, sep: string, j: nat)
    requires j + 1 < |parts|
    ensures Offset(parts, sep, j) + |parts[j]| + |sep| <= |Join(parts, sep)|
    ensures Join(parts, sep)[Offset(parts, sep, j) + |parts[j]|..Offset(parts, sep, j) + |parts[j]| + |sep|] == sep
    decreases j
  {
    var rest := Join(parts[1..], sep);
    var head := parts[0] + sep;
    assert Join(parts, sep) == head + rest;
    if j > 0 {
      JoinSepAt(parts[1..], sep, j - 1);
      var o := Offset(parts[1..], sep, j - 1);
      var n := |parts[j]|;
      assert parts[1..][j - 1] == parts[j];
      assert Offset(parts, sep, j) == |head| + o;
      SliceOfSuffix(head, rest, o + n, o + n + |sep|);
    }
  }

  /** The last part ends the joined string. */
  lemma {:induction false} JoinEnd(parts: seq<string>, sep: string)
    requires |parts| > 0
    ensures |Join(parts, sep)| == Offset(parts, sep, |parts| - 1) + |parts[|parts| - 1]|
    decreases |parts|
  {
    if |parts| > 1 {
      JoinEnd(parts[1..], sep);
      assert parts[1..][|parts| - 2] == parts[|parts| - 1];
    }
  }

  /** The layout of a joined string: part `j` sits at `Offset(parts, sep, j)`,
      exactly one separator follows it unless it is the last part, and the
      last part ends the string. Nothing else is inserted or lost. */
  lemma JoinLayout(parts: seq<string>, sep: string, j: nat)
    requires j < |parts|
    ensures Offset(parts, sep, j) + |parts[j]| <= |Join(parts, sep)|
    ensures Join(parts, sep)[Offset(parts, sep, j)..Offset(parts, sep, j) + |parts[j]|] == parts[j]
    ensures j + 1 < |parts| ==>
              && Offset(parts, sep, j + 1) == Offset(parts, sep, j) + |parts[j]| + |sep|
              && Offset(parts, sep, j + 1) <= |Join(parts, sep)|
              && Join(parts, sep)[Offset(parts, sep, j) + |parts[j]|..Offset(parts, sep, j + 1)] == sep
    ensures j + 1 == |parts| ==> |Join(parts, sep)| == Offset(parts, sep, j) + |parts[j]|
  {
    JoinPartAt(parts, sep, j);
    OffsetNext(parts, sep, j);
    if j + 1 < |parts| {
      JoinSepAt(parts, sep, j);
    } else {
      JoinEnd(parts, sep);
    }
  }

  /** Python's `s.split(d)` for a one-character delimiter: the maximal
      delimiter-free pieces between occurrences of `d`, always at least one. */
  function Split(s: string, d: char): (r: seq<string>)
    ensures |r| >= 1
    decreases |s|
  {
    if |s| == 0 then [""]
    else if s[0] == d then [""] + Split(s[1..], d)
    else
      var rest := Split(s[1..], d);
      [[s[0]] + rest[0]] + rest[1..]
  }

  lemma {:induction false} SplitWithoutDelimiter(a: string, d: char)
    requires d !in a
    ensures Split(a, d) == [a]
    decreases |a|
  {
    if |a| > 0 {
      assert a[0] in a;
      assert forall c :: c in a[1..] ==> c in a;
      SplitWithoutDelimiter(a[1..], d);
      assert [a[0]] + a[1..] == a;
    }
  }

  lemma {:induction false} SplitAtFirstDelimiter(a: string, b: string, d: char)
    requires d !in a
    ensures Split(a + [d] + b, d) == [a] + Split(b, d)
    decreases |a|
  {
    var s := a + [d] + b;
    if |a| == 0 {
      assert s == [d] + b;
      assert s[1..] == b;
    } else {
      assert a[0] in a;
      assert forall c :: c in a[1..] ==> c in a;
      assert s[1..] == a[1..] + [d] + b;
      SplitAtFirstDelimiter(a[1..], b, d);
      assert [a[0]] + a[1..] == a;
    }
  }

  /** Splitting undoes joining with a one-character separator, as long as no
      piece contains that character. */
  lemma {:induction false} SplitJoin(lines: seq<string>, d: char)
    requires |lines| >= 1
    requires forall i :: 0 <= i < |lines| ==> d !in lines[i]
    ensures Split(Join(lines, [d]), d) == lines
    decreases |lines|
  {
    if |lines| == 1 {
      SplitWithoutDelimiter(lines[0], d);
    } else {
      var rest := lines[1..];
      assert forall i :: 0 <= i < |rest| ==> rest[i] == lines[i + 1];
      SplitJoin(rest, d);
      SplitAtFirstDelimiter(lines[0], Join(rest, [d]), d);
      assert [lines[0]] + rest == lines;
    }
  }
}
