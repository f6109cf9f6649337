/** The chunker of the index build: a sliding window over a document.
    Each window holds at most `maxChars` characters, the next window starts
    `overlap` characters before the previous one ended, and the walk stops
    as soon as a window reaches the end of the text. */
module Chunking {
  import opened Text

  const CHARS_PER_CHUNK: nat := 1800
  const CHARS_OVERLAP: nat := 200

  /** A window of the text: the characters from `start` up to, not including, `end`. */
  datatype Span = Span(start: nat, end: nat)

  /** Where the walk resumes after a window that stopped short of the end. */
  function NextStart(end: nat, overlap: nat): nat {
    Max(0, end - overlap)
  }

  /** The windows the walk visits on a text of length `len`, starting at `start`.
      The walk only terminates because `overlap < maxChars` makes every
      resumed start lie strictly after the previous one. */
  function Spans(len: nat, maxChars: nat, overlap: nat, start: nat): (r: seq<Span>)
    requires overlap < maxChars
    ensures forall i :: 0 <= i < |r| ==> start <= r[i].start < r[i].end <= len
    decreases len - start
  {
    if start >= len then []
    else
      var end := Min(start + maxChars, len);
      if end == len then [Span(start, end)]
      else [Span(start, end)] + Spans(len, maxChars, overlap, NextStart(end, overlap))
  }

  /** The text of each window, in order. */
  function Slices(text: string, spans: seq<Span>): (r: seq<string>)
    requires forall i :: 0 <= i < |spans| ==> spans[i].start <= spans[i].end <= |text|
    ensures |r| == |spans|
  {
    seq(|spans|, i requires 0 <= i < |spans| => text[spans[i].start..spans[i].end])
  }

  /** The chunk list of a whole text (reference definition of `ChunkText`). */
  function Chunks(text: string, maxChars: nat, overlap: nat): seq<string>
    requires overlap < maxChars
  {
    Slices(text, Spans(|text|, maxChars, overlap, 0))
  }

  /** Python's `s[n:]`: everything after the first `n` characters, empty when there are fewer. */
  function Drop(s: string, n: nat): string {
    if n <= |s| then s[n..] else ""
  }

  /** Every chunk after the first with its shared prefix of `overlap` characters removed. */
  function Tails(chunks: seq<string>, overlap: nat): string
    decreases |chunks|
  {
    if |chunks| == 0 then "" else Drop(chunks[0], overlap) + Tails(chunks[1..], overlap)
  }

  /** The text rebuilt from its chunks: the first chunk whole, then each later one without its overlap. */
  function Reassemble(chunks: seq<string>, overlap: nat): string {
    if |chunks| == 0 then "" else chunks[0] + Tails(chunks[1..], overlap)
  }

  /** The shape of a sliding walk from `start` over a text of length `len`:
      it begins at `start` and ends at `len`; every window is non-empty and
      at most `maxChars` long; every window but the last is exactly
      `maxChars` long, stops short of the end, and is followed by a window
      that starts `overlap` characters before it ended, strictly later than
      it started. */
  ghost predicate SlidingWindows(spans: seq<Span>, len: nat, maxChars: nat, overlap: nat, start: nat) {
    && |spans| >= 1
    && spans[0].start == start
    && spans[|spans| - 1].end == len
    && (forall i :: 0 <= i < |spans| ==> spans[i].start < spans[i].end && spans[i].end - spans[i].start <= maxChars)
    && (forall i :: 0 <= i < |spans| - 1 ==>
          && spans[i].end < len
          && spans[i].end - spans[i].start == maxChars
          && spans[i + 1].start == spans[i].end - overlap
          && spans[i].start < spans[i + 1].start)
  }

  method ChunkText(text: string, maxChars: nat := CHARS_PER_CHUNK, overlap: nat := CHARS_OVERLAP)
    returns (chunks: seq<string>)
    requires overlap < maxChars
    ensures chunks == Chunks(text, maxChars, overlap)
  {
    chunks := [];
    var start: nat := 0;
    var len := |text|;
    while start < len
      invariant chunks + Slices(text, Spans(len, maxChars, overlap, start)) == Chunks(text, maxChars, overlap)
      decreases len - start
    {
      var end := Min(start + maxChars, len);
      SlicesCons(text, Span(start, end), Spans(len, maxChars, overlap, NextStart(end, overlap)));
      chunks := chunks + [text[start..end]];
      if end == len {
        break;
      }
      start := NextStart(end, overlap);
    }
  }

  lemma SlicesCons(text: string, s: Span, rest: seq<Span>)
    requires s.start <= s.end <= |text|
    requires forall i :: 0 <= i < |rest| ==> rest[i].start <= rest[i].end <= |text|
    ensures Slices(text, [s] + rest) == [text[s.start..s.end]] + Slices(text, rest)
  {
  }

  lemma {:induction false} SpansAreSlidingWindows(len: nat, maxChars: nat, overlap: nat, start: nat)
    requires overlap < maxChars
    requires start < len
    ensures SlidingWindows(Spans(len, maxChars, overlap, start), len, maxChars, overlap, start)
    decreases len - start
  {
    var end := Min(start + maxChars, len);
    var r := Spans(len, maxChars, overlap, start);
    if end == len {
      assert r == [Span(start, end)];
    } else {
      var next := NextStart(end, overlap);
      assert next == end - overlap;
      var rest := Spans(len, maxChars, overlap, next);
      assert r == [Span(start, end)] + rest;
      SpansAreSlidingWindows(len, maxChars, overlap, next);
      SlidingWindowsCons(Span(start, end), rest, len, maxChars, overlap);
    }
  }

  /** A full window that stops short of the end, followed by a sliding walk
      that resumes `overlap` characters before its end, is a sliding walk. */
  lemma SlidingWindowsCons(first: Span, rest: seq<Span>, len: nat, maxChars: nat, overlap: nat)
    requires overlap < maxChars
    requires first.end < len && first.end - first.start == maxChars
    requires first.end >= overlap
    requires SlidingWindows(rest, len, maxChars, overlap, first.end - overlap)
    ensures SlidingWindows([first] + rest, len, maxChars, overlap, first.start)
  {
    var r := [first] + rest;
    assert r[|r| - 1] == rest[|rest| - 1];
    forall i | 0 <= i < |r|
      ensures r[i].start < r[i].end && r[i].end - r[i].start <= maxChars
    {
      if i > 0 {
        assert r[i] == rest[i - 1];
      }
    }
    forall i | 0 <= i < |r| - 1
      ensures && r[i].end < len
              && r[i].end - r[i].start == maxChars
              && r[i + 1].start == r[i].end - overlap
              && r[i].start < r[i + 1].start
    {
      if i > 0 {
        assert r[i] == rest[i - 1];
        assert r[i + 1] == rest[i];
      }
    }
  }

  /** The chunks are the texts of a sliding walk from 0 to the end of the text:
      each is a non-empty slice of at most `maxChars` characters, the first
      starts at 0, the last ends at the end, and each later one starts
      `overlap` characters before its predecessor ended. */
  lemma ChunksAreWindows(text: string, maxChars: nat, overlap: nat)
    requires overlap < maxChars
    requires |text| > 0
    ensures SlidingWindows(Spans(|text|, maxChars, overlap, 0), |text|, maxChars, overlap, 0)
    ensures forall i :: 0 <= i < |Chunks(text, maxChars, overlap)| ==>
              var s := Spans(|text|, maxChars, overlap, 0)[i];
              && Chunks(text, maxChars, overlap)[i] == text[s.start..s.end]
              && 0 < |Chunks(text, maxChars, overlap)[i]| <= maxChars
  {
    SpansAreSlidingWindows(|text|, maxChars, overlap, 0);
  }

  /** An empty text gives no chunk; a non-empty text no longer than one window gives itself. */
  lemma ChunksOfShortText(text: string, maxChars: nat, overlap: nat)
    requires overlap < maxChars
    ensures |text| == 0 <==> Chunks(text, maxChars, overlap) == []
    ensures 0 < |text| <= maxChars ==> Chunks(text, maxChars, overlap) == [text]
  {
    if 0 < |text| {
      SpansAreSlidingWindows(|text|, maxChars, overlap, 0);
    }
    if 0 < |text| <= maxChars {
      assert Spans(|text|, maxChars, overlap, 0) == [Span(0, |text|)];
      assert text[0..|text|] == text;
    }
  }

  /** The windows of a walk resumed at `start`, each without its first `overlap` characters, concatenated. */
  ghost function WalkTails(text: string, maxChars: nat, overlap: nat, start: nat): string
    requires overlap < maxChars
  {
    Tails(Slices(text, Spans(|text|, maxChars, overlap, start)), overlap)
  }

  /** Dropping the overlap from every window of a walk that resumed at `start`
      gives back the text from `start + overlap` on. */
  lemma {:induction false} TailsOfWalk(text: string, maxChars: nat, overlap: nat, start: nat)
    requires overlap < maxChars
    requires start + overlap < |text|
    ensures WalkTails(text, maxChars, overlap, start) == text[start + overlap..]
    decreases |text| - start
  {
    var end := Min(start + maxChars, |text|);
    TailsStep(text, maxChars, overlap, start);
    if end < |text| {
      TailsOfWalk(text, maxChars, overlap, NextStart(end, overlap));
      SliceJoin(text, start + overlap, end);
    }
  }

  /** One step of `TailsOfWalk`: the first window contributes the text from
      `start + overlap` to its end, and the walk resumed after it (if any)
      starts `overlap` characters before that end. */
  lemma TailsStep(text: string, maxChars: nat, overlap: nat, start: nat)
    requires overlap < maxChars
    requires start + overlap < |text|
    ensures var end := Min(start + maxChars, |text|);
            && start + overlap < end
            && (end == |text| ==> WalkTails(text, maxChars, overlap, start) == text[start + overlap..])
            && (end < |text| ==>
                  && NextStart(end, overlap) + overlap == end
                  && WalkTails(text, maxChars, overlap, start)
                     == text[start + overlap..end] + WalkTails(text, maxChars, overlap, NextStart(end, overlap)))
  {
    var len := |text|;
    var end := Min(start + maxChars, len);
    var rest := WalkStep(len, maxChars, overlap, start);
    TailsOfSlicesCons(text, Span(start, end), rest, overlap);
    DropOfSlice(text, start, end, overlap);
    if end == len {
      assert Tails(Slices(text, rest), overlap) == [];
    }
  }

  lemma DropOfSlice(text: string, lo: nat, hi: nat, n: nat)
    requires lo + n <= hi <= |text|
    ensures Drop(text[lo..hi], n) == text[lo + n..hi]
  {
  }

  lemma SliceJoin<T>(s: seq<T>, lo: nat, mid: nat)
    requires lo <= mid <= |s|
    ensures s[lo..mid] + s[mid..] == s[lo..]
  {
  }

  /** One step of the walk: the first window, then the walk resumed after it (if any). */
  lemma WalkStep(len: nat, maxChars: nat, overlap: nat, start: nat) returns (rest: seq<Span>)
    requires overlap < maxChars
    requires start < len
    ensures var end := Min(start + maxChars, len);
            && rest == (if end == len then [] else Spans(len, maxChars, overlap, NextStart(end, overlap)))
            && Spans(len, maxChars, overlap, start) == [Span(start, end)] + rest
  {
    var end := Min(start + maxChars, len);
    rest := if end == len then [] else Spans(len, maxChars, overlap, NextStart(end, overlap));
  }

  lemma TailsOfSlicesCons(text: string, s: Span, rest: seq<Span>, overlap: nat)
    requires s.start <= s.end <= |text|
    requires forall i :: 0 <= i < |rest| ==> rest[i].start <= rest[i].end <= |text|
    ensures Tails(Slices(text, [s] + rest), overlap) == Drop(text[s.start..s.end], overlap) + Tails(Slices(text, rest), overlap)
  {
    SlicesCons(text, s, rest);
    var cs := Slices(text, [s] + rest);
    assert cs[1..] == Slices(text, rest);
  }

  /** Reconstruction: the first chunk followed by every later chunk minus its
      first `overlap` characters is the original text. */
  lemma ChunksReassemble(text: string, maxChars: nat, overlap: nat)
    requires overlap < maxChars
    ensures Reassemble(Chunks(text, maxChars, overlap), overlap) == text
  {
    var len := |text|;
    if len > 0 {
      var end := Min(maxChars, len);
      var rest: seq<Span> := if end == len then [] else Spans(len, maxChars, overlap, NextStart(end, overlap));
      assert Spans(len, maxChars, overlap, 0) == [Span(0, end)] + rest;
      SlicesCons(text, Span(0, end), rest);
      var cs := Slices(text, [Span(0, end)] + rest);
      assert cs[0] == text[..end] && cs[1..] == Slices(text, rest);
      assert Chunks(text, maxChars, overlap) == cs;
      var tails := Tails(Slices(text, rest), overlap);
      assert Reassemble(cs, overlap) == text[..end] + tails;
      if end == len {
        assert Slices(text, rest) == [];
        assert tails == text[end..];
      } else {
        TailsOfWalk(text, maxChars, overlap, NextStart(end, overlap));
      }
      SplitAt(text, end);
    }
  }

  /** The number of windows from `start`: none past the end, one when the
      rest fits in a window, otherwise one plus one for every further
      `maxChars - overlap` characters (rounded up). */
  lemma {:induction false} SpanCount(len: nat, maxChars: nat, overlap: nat, start: nat)
    requires overlap < maxChars
    ensures |Spans(len, maxChars, overlap, start)| ==
              if start >= len then 0
              else if len - start <= maxChars then 1
              else 1 + CeilDiv(len - start - maxChars, maxChars - overlap)
    decreases len - start
  {
    if start < len && len - start > maxChars {
      var next := NextStart(start + maxChars, overlap);
      SpanCount(len, maxChars, overlap, next);
    }
  }

  /** How many chunks a text yields, in closed form. */
  lemma ChunkCount(text: string, maxChars: nat, overlap: nat)
    requires overlap < maxChars
    ensures |Chunks(text, maxChars, overlap)| ==
              if |text| == 0 then 0
              else if |text| <= maxChars then 1
              else 1 + CeilDiv(|text| - maxChars, maxChars - overlap)
  {
    SpanCount(|text|, maxChars, overlap, 0);
  }

  /** A 5000-character document with the default window of 1800 and overlap of
      200 gives exactly three windows, starting at 0, 1600 and 3200, each 1800
      long; the third reaches the end, so there is no fourth. */
  lemma DefaultWindowsOf5000()
    ensures Spans(5000, CHARS_PER_CHUNK, CHARS_OVERLAP, 0) == [Span(0, 1800), Span(1600, 3400), Span(3200, 5000)]
  {
    assert Spans(5000, 1800, 200, 3200) == [Span(3200, 5000)];
    assert Spans(5000, 1800, 200, 1600) == [Span(1600, 3400)] + Spans(5000, 1800, 200, 3200);
    assert Spans(5000, 1800, 200, 0) == [Span(0, 1800)] + Spans(5000, 1800, 200, 1600);
  }

  /** Without `overlap < maxChars` the walk stalls: after a window that stops
      short of the end, the next start lies after the current one exactly
      when the overlap is smaller than the window. */
  lemma ResumeAdvancesIffOverlapBelowWindow(start: nat, len: nat, maxChars: nat, overlap: nat)
    requires 0 < maxChars
    requires start + maxChars < len
    ensures NextStart(Min(start + maxChars, len), overlap) > start <==> overlap < maxChars
  {
  }
}
