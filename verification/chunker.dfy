/** `_chunk_text`: fixed-length, overlapping windows over a page's text. */
module Chunker {

  /** The window length and overlap the index builder passes. */
  const MaxLen: nat := 512
  const Overlap: nat := 50

  function Min(a: int, b: int): int {
    if a <= b then a else b
  }

  /** Offset of the `i`-th window: windows advance by `maxLen - overlap`
      (so it is `i * (maxLen - overlap)`, see `WindowStartProduct`). */
  function WindowStart(maxLen: nat, overlap: nat, i: nat): nat
    requires overlap < maxLen
  {
    if i == 0 then 0 else WindowStart(maxLen, overlap, i - 1) + (maxLen - overlap)
  }

  lemma {:induction false} WindowStartProduct(maxLen: nat, overlap: nat, i: nat)
    requires overlap < maxLen
    ensures WindowStart(maxLen, overlap, i) == i * (maxLen - overlap)
  {
    if i > 0 {
      WindowStartProduct(maxLen, overlap, i - 1);
    }
  }

  /** End (exclusive) of the `i`-th window over a text of length `n`. */
  function WindowEnd(n: nat, maxLen: nat, overlap: nat, i: nat): int
    requires overlap < maxLen
  {
    Min(WindowStart(maxLen, overlap, i) + maxLen, n)
  }

  /** `c` is the `i`-th window of `text` when the windows start at offset `start`. */
  ghost predicate IsWindow(text: string, maxLen: nat, overlap: nat, start: nat, i: nat, c: string)
    requires overlap < maxLen
  {
    var lo := start + WindowStart(maxLen, overlap, i);
    lo < |text| && c == text[lo..Min(lo + maxLen, |text|)]
  }

  /** The loop of `_chunk_text` from offset `start` on, one window per iteration:
      take `text[start:min(start + maxLen, len(text))]`, stop once that window
      reached the end, otherwise advance `start` by `maxLen - overlap`. */
  function ChunksFrom(text: string, maxLen: nat, overlap: nat, start: nat): (r: seq<string>)
    requires overlap < maxLen
    ensures |r| == 0 <==> start >= |text|
    decreases |text| - start
  {
    if start >= |text| then []
    else
      var end := Min(start + maxLen, |text|);
      if end == |text| then [text[start..end]]
      else [text[start..end]] + ChunksFrom(text, maxLen, overlap, start + (maxLen - overlap))
  }

  /** The `i`-th chunk produced from offset `start` is the `i`-th window, and the
      loop stopped at the first window that reached the end of the text. */
  lemma {:induction false} ChunksFromWindow(text: string, maxLen: nat, overlap: nat, start: nat, i: nat)
    requires overlap < maxLen
    requires i < |ChunksFrom(text, maxLen, overlap, start)|
    ensures var r := ChunksFrom(text, maxLen, overlap, start);
      && IsWindow(text, maxLen, overlap, start, i, r[i])
      && (i < |r| - 1 <==> start + WindowStart(maxLen, overlap, i) + maxLen < |text|)
    decreases i
  {
    var stride := maxLen - overlap;
    var end := Min(start + maxLen, |text|);
    if end != |text| {
      var rest := ChunksFrom(text, maxLen, overlap, start + stride);
      if i > 0 {
        ChunksFromWindow(text, maxLen, overlap, start + stride, i - 1);
        assert WindowStart(maxLen, overlap, i) == WindowStart(maxLen, overlap, i - 1) + stride;
      }
    }
  }

  /** Every chunk of `_chunk_text` is the window at its index, and only the last
      one reaches the end of the text. */
  lemma ChunkTextWindows(text: string, maxLen: nat, overlap: nat)
    requires overlap < maxLen
    ensures var r := ChunksFrom(text, maxLen, overlap, 0);
      forall i :: 0 <= i < |r| ==> IsWindow(text, maxLen, overlap, 0, i, r[i])
    ensures var r := ChunksFrom(text, maxLen, overlap, 0);
      forall i :: 0 <= i < |r| ==> (i < |r| - 1 <==> WindowStart(maxLen, overlap, i) + maxLen < |text|)
  {
    var r := ChunksFrom(text, maxLen, overlap, 0);
    forall i | 0 <= i < |r|
      ensures IsWindow(text, maxLen, overlap, 0, i, r[i])
      ensures i < |r| - 1 <==> WindowStart(maxLen, overlap, i) + maxLen < |text|
    {
      ChunksFromWindow(text, maxLen, overlap, 0, i);
    }
  }

  /** `_chunk_text(text, max_len, overlap)`. The source loops forever (or walks
      backwards) unless `overlap < max_len`, so callers must guarantee it. */
  function ChunkText(text: string, maxLen: nat, overlap: nat): (r: seq<string>)
    requires overlap < maxLen
    ensures r == [] <==> |text| == 0
    ensures 0 < |text| <= maxLen ==> r == [text]
    ensures forall i :: 0 <= i < |r| ==> 0 < |r[i]| <= maxLen
    ensures forall i :: 0 <= i < |r| ==>
      && WindowStart(maxLen, overlap, i) < |text|
      && r[i] == text[WindowStart(maxLen, overlap, i)..WindowEnd(|text|, maxLen, overlap, i)]
    ensures |r| > 0 ==> WindowEnd(|text|, maxLen, overlap, |r| - 1) == |text|
    ensures forall i :: 0 <= i < |r| - 1 ==> WindowStart(maxLen, overlap, i) + maxLen < |text|
  {
    ChunkTextWindows(text, maxLen, overlap);
    var r := ChunksFrom(text, maxLen, overlap, 0);
    assert 0 < |text| <= maxLen ==> r == [text[0..|text|]] && text[0..|text|] == text;
    r
  }

  /** Consecutive chunks share exactly `overlap` characters: every chunk but the
      last is a full window, and the next one starts `overlap` characters before
      it ends. */
  lemma ChunkOverlap(text: string, maxLen: nat, overlap: nat, i: nat)
    requires overlap < maxLen
    requires i + 1 < |ChunkText(text, maxLen, overlap)|
    ensures var r := ChunkText(text, maxLen, overlap);
      && |r[i]| == maxLen
      && |r[i + 1]| > overlap
      && WindowEnd(|text|, maxLen, overlap, i) - WindowStart(maxLen, overlap, i + 1) == overlap
      && r[i][maxLen - overlap..] == r[i + 1][..overlap]
  {
    var r := ChunkText(text, maxLen, overlap);
    var s := WindowStart(maxLen, overlap, i);
    var s' := WindowStart(maxLen, overlap, i + 1);
    assert r[i] == text[s..s + maxLen];
    assert r[i][maxLen - overlap..] == text[s'..s + maxLen];
    assert r[i + 1][..overlap] == text[s'..s' + overlap];
  }

  /** Every position before `WindowEnd(i)` lies in one of the first `i + 1` chunks. */
  lemma {:induction false} CoveredUpTo(text: string, maxLen: nat, overlap: nat, i: nat, p: int)
    requires overlap < maxLen
    requires i < |ChunkText(text, maxLen, overlap)|
    requires 0 <= p < WindowEnd(|text|, maxLen, overlap, i)
    ensures exists j :: 0 <= j <= i && WindowStart(maxLen, overlap, j) <= p < WindowEnd(|text|, maxLen, overlap, j)
  {
    if p < WindowStart(maxLen, overlap, i) {
      CoveredUpTo(text, maxLen, overlap, i - 1, p);
    }
  }

  /** The chunks leave no gap: every character of the text is inside some chunk. */
  lemma ChunksCoverText(text: string, maxLen: nat, overlap: nat, p: int)
    requires overlap < maxLen
    requires 0 <= p < |text|
    ensures var r := ChunkText(text, maxLen, overlap);
      exists j :: 0 <= j < |r| && WindowStart(maxLen, overlap, j) <= p < WindowEnd(|text|, maxLen, overlap, j)
  {
    var r := ChunkText(text, maxLen, overlap);
    CoveredUpTo(text, maxLen, overlap, |r| - 1, p);
  }
}
