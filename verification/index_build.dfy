/** The offline index build: every case document is cut into chunks, each
    chunk gets a metadata record pointing back at its document, the chunk
    texts are embedded in batches of 64, and the vectors, the metadata and
    the corpus are persisted together. The embedding service is an abstract
    one-to-one, order-preserving function; vector normalisation and the
    vector index itself are floating-point library work outside the model. */
module IndexBuild {
  import opened Wrappers
  import opened Text
  import Chunking
  import opened DataPrep

  const BATCH_SIZE: nat := 64

  /** The metadata stored for the chunk at the same position in the index. */
  datatype ChunkMeta = ChunkMeta(docId: nat, chunk: string, providencia: string, fecha: string, tema: string)

  datatype BuildError = EmptyCorpus

  /** The three persisted artifacts: the vectors in index order, the chunk
      metadata aligned with them, and the whole corpus. */
  datatype Artifacts<V> = Artifacts(vectors: seq<V>, metas: seq<ChunkMeta>, corpus: seq<CaseRecord>)

  // ---------------------------------------------------------------------
  // Chunks and metadata, built in lockstep

  /** The chunks of one case document, with the default window and overlap. */
  function DocChunks(c: CaseRecord): seq<string> {
    Chunking.Chunks(c.doc, Chunking.CHARS_PER_CHUNK, Chunking.CHARS_OVERLAP)
  }

  /** One metadata record per chunk of document `i`, carrying its citation fields. */
  function DocMetas(i: nat, c: CaseRecord): seq<ChunkMeta> {
    Tagged(i, DocChunks(c), c.row)
  }

  /** Each chunk of `cs` paired with document `i` and the row's citation fields. */
  function Tagged(i: nat, cs: seq<string>, row: CaseRow): seq<ChunkMeta> {
    seq(|cs|, j requires 0 <= j < |cs| => ChunkMeta(i, cs[j], row.providencia, row.fecha, row.tema))
  }

  /** All chunks of the corpus, document by document. */
  function CorpusChunks(cases: seq<CaseRecord>): seq<string>
    decreases |cases|
  {
    if |cases| == 0 then []
    else CorpusChunks(cases[..|cases| - 1]) + DocChunks(cases[|cases| - 1])
  }

  /** All metadata records of the corpus, document by document. */
  function CorpusMetas(cases: seq<CaseRecord>): seq<ChunkMeta>
    decreases |cases|
  {
    if |cases| == 0 then []
    else CorpusMetas(cases[..|cases| - 1]) + DocMetas(|cases| - 1, cases[|cases| - 1])
  }

  /** The chunk/metadata loop of the build: for each document, chunk it and
      append every chunk together with its metadata record. */
  method CollectChunks(cases: seq<CaseRecord>) returns (chunks: seq<string>, metas: seq<ChunkMeta>)
    ensures chunks == CorpusChunks(cases)
    ensures metas == CorpusMetas(cases)
  {
    chunks := [];
    metas := [];
    for i := 0 to |cases|
      invariant chunks == CorpusChunks(cases[..i])
      invariant metas == CorpusMetas(cases[..i])
    {
      CorpusStep(cases, i);
      chunks, metas := AppendDocument(chunks, metas, i, cases[i]);
    }
    assert cases[..|cases|] == cases;
  }

  /** The inner loop of the build for document `i`: chunk it, then append each
      chunk and its metadata record. */
  method AppendDocument(chunks: seq<string>, metas: seq<ChunkMeta>, i: nat, c: CaseRecord)
    returns (chunks': seq<string>, metas': seq<ChunkMeta>)
    ensures chunks' == chunks + DocChunks(c)
    ensures metas' == metas + Tagged(i, DocChunks(c), c.row)
  {
    var parts := Chunking.ChunkText(c.doc);
    ghost var dm := Tagged(i, parts, c.row);
    chunks', metas' := chunks, metas;
    for j := 0 to |parts|
      invariant chunks' == chunks + parts[..j]
      invariant metas' == metas + dm[..j]
    {
      assert parts[..j + 1] == parts[..j] + [parts[j]];
      assert dm[..j + 1] == dm[..j] + [dm[j]];
      chunks' := chunks' + [parts[j]];
      metas' := metas' + [ChunkMeta(i, parts[j], c.row.providencia, c.row.fecha, c.row.tema)];
    }
    assert parts[..|parts|] == parts;
    assert dm[..|parts|] == dm;
  }

  /** The corpus up to document `i` inclusive extends the corpus before it by
      that document's chunks and records. */
  lemma CorpusStep(cases: seq<CaseRecord>, i: nat)
    requires i < |cases|
    ensures CorpusChunks(cases[..i + 1]) == CorpusChunks(cases[..i]) + DocChunks(cases[i])
    ensures CorpusMetas(cases[..i + 1]) == CorpusMetas(cases[..i]) + Tagged(i, DocChunks(cases[i]), cases[i].row)
  {
    assert cases[..i + 1][..i] == cases[..i];
    assert cases[..i + 1][i] == cases[i];
  }

  /** Metadata and chunks stay in lockstep: one record per chunk, at the same
      position, holding that chunk's text. */
  lemma {:induction false} MetasMatchChunks(cases: seq<CaseRecord>)
    ensures |CorpusMetas(cases)| == |CorpusChunks(cases)|
    ensures forall j :: 0 <= j < |CorpusMetas(cases)| ==> CorpusMetas(cases)[j].chunk == CorpusChunks(cases)[j]
    decreases |cases|
  {
    if |cases| > 0 {
      var init := cases[..|cases| - 1];
      MetasMatchChunks(init);
      var n := |CorpusMetas(init)|;
      var last := cases[|cases| - 1];
      forall j | 0 <= j < |CorpusMetas(cases)|
        ensures CorpusMetas(cases)[j].chunk == CorpusChunks(cases)[j]
      {
        if j >= n {
          assert CorpusMetas(cases)[j] == DocMetas(|cases| - 1, last)[j - n];
          assert CorpusChunks(cases)[j] == DocChunks(last)[j - n];
        } else {
          assert CorpusMetas(cases)[j] == CorpusMetas(init)[j];
          assert CorpusChunks(cases)[j] == CorpusChunks(init)[j];
        }
      }
    }
  }

  /** Every record points at an existing document, copies that document's
      citation fields, and records appear in document order. */
  lemma {:induction false} MetasFollowDocuments(cases: seq<CaseRecord>)
    ensures forall j :: 0 <= j < |CorpusMetas(cases)| ==>
              var m := CorpusMetas(cases)[j];
              && m.docId < |cases|
              && m.providencia == cases[m.docId].row.providencia
              && m.fecha == cases[m.docId].row.fecha
              && m.tema == cases[m.docId].row.tema
    ensures forall a, b :: 0 <= a <= b < |CorpusMetas(cases)| ==> CorpusMetas(cases)[a].docId <= CorpusMetas(cases)[b].docId
    decreases |cases|
  {
    if |cases| > 0 {
      var init := cases[..|cases| - 1];
      MetasFollowDocuments(init);
      var ms := CorpusMetas(cases);
      var n := |CorpusMetas(init)|;
      var k := |cases| - 1;
      assert forall j :: 0 <= j < n ==> ms[j] == CorpusMetas(init)[j];
      assert forall j :: n <= j < |ms| ==> ms[j] == DocMetas(k, cases[k])[j - n];
      assert forall j :: 0 <= j < k ==> init[j] == cases[j];
      forall a, b | 0 <= a <= b < |ms|
        ensures ms[a].docId <= ms[b].docId
      {
        if b >= n {
          assert ms[b].docId == k;
        }
      }
    }
  }

  /** The chunk texts recorded for document `i`, in index order. */
  function ChunksOfDoc(metas: seq<ChunkMeta>, i: nat): seq<string>
    decreases |metas|
  {
    if |metas| == 0 then []
    else ChunksOfDoc(metas[..|metas| - 1], i)
         + (if metas[|metas| - 1].docId == i then [metas[|metas| - 1].chunk] else [])
  }

  lemma {:induction false} ChunksOfDocAppend(a: seq<ChunkMeta>, b: seq<ChunkMeta>, i: nat)
    ensures ChunksOfDoc(a + b, i) == ChunksOfDoc(a, i) + ChunksOfDoc(b, i)
    decreases |b|
  {
    if |b| == 0 {
      assert a + b == a;
    } else {
      var ab := a + b;
      assert ab[..|ab| - 1] == a + b[..|b| - 1];
      assert ab[|ab| - 1] == b[|b| - 1];
      ChunksOfDocAppend(a, b[..|b| - 1], i);
    }
  }

  /** The records of one document, read off in order, are exactly its chunks;
      those of another document contribute nothing. */
  lemma {:induction false} ChunksOfTagged(k: nat, cs: seq<string>, row: CaseRow, i: nat, n: nat)
    requires n <= |cs|
    ensures ChunksOfDoc(Tagged(k, cs, row)[..n], i) == if k == i then cs[..n] else []
    decreases n
  {
    if n > 0 {
      var ms := Tagged(k, cs, row)[..n];
      var m := ms[n - 1];
      assert ms[..n - 1] == Tagged(k, cs, row)[..n - 1];
      assert m.docId == k && m.chunk == cs[n - 1];
      ChunksOfTagged(k, cs, row, i, n - 1);
      assert cs[..n] == cs[..n - 1] + [cs[n - 1]];
    }
  }

  /** The records tagged with document `i` carry exactly `chunk_text` of that
      document, in order. */
  lemma {:induction false} MetasOfDocument(cases: seq<CaseRecord>, i: nat)
    requires i < |cases|
    ensures ChunksOfDoc(CorpusMetas(cases), i) == DocChunks(cases[i])
    decreases |cases|
  {
    var k := |cases| - 1;
    var init := cases[..k];
    ChunksOfDocStep(cases, i);
    if i < k {
      MetasOfDocument(init, i);
      assert init[i] == cases[i];
      assert ChunksOfDoc(CorpusMetas(cases), i) == DocChunks(cases[i]) + [];
    } else {
      NoMetasBeyond(init, i);
      assert ChunksOfDoc(CorpusMetas(cases), i) == [] + DocChunks(cases[k]);
    }
  }

  /** Adding the last document adds its chunks to its own records and nothing
      to any other document's. */
  lemma ChunksOfDocStep(cases: seq<CaseRecord>, i: nat)
    requires |cases| > 0
    ensures var k := |cases| - 1;
            ChunksOfDoc(CorpusMetas(cases), i)
            == ChunksOfDoc(CorpusMetas(cases[..k]), i) + (if k == i then DocChunks(cases[k]) else [])
  {
    var k := |cases| - 1;
    assert CorpusMetas(cases) == CorpusMetas(cases[..k]) + Tagged(k, DocChunks(cases[k]), cases[k].row);
    ChunksOfAppendedTagged(CorpusMetas(cases[..k]), k, DocChunks(cases[k]), cases[k].row, i);
  }

  lemma ChunksOfAppendedTagged(pre: seq<ChunkMeta>, k: nat, cs: seq<string>, row: CaseRow, i: nat)
    ensures ChunksOfDoc(pre + Tagged(k, cs, row), i) == ChunksOfDoc(pre, i) + (if k == i then cs else [])
  {
    var dm := Tagged(k, cs, row);
    ChunksOfDocAppend(pre, dm, i);
    ChunksOfTagged(k, cs, row, i, |cs|);
    assert dm[..|cs|] == dm;
    assert cs[..|cs|] == cs;
  }

  /** No record points at a document past the end of the corpus. */
  lemma NoMetasBeyond(cases: seq<CaseRecord>, i: nat)
    requires i >= |cases|
    ensures ChunksOfDoc(CorpusMetas(cases), i) == []
  {
    MetasFollowDocuments(cases);
    NoMatchingDocId(CorpusMetas(cases), i);
  }

  lemma {:induction false} NoMatchingDocId(metas: seq<ChunkMeta>, i: nat)
    requires forall j :: 0 <= j < |metas| ==> metas[j].docId != i
    ensures ChunksOfDoc(metas, i) == []
    decreases |metas|
  {
    if |metas| > 0 {
      NoMatchingDocId(metas[..|metas| - 1], i);
    }
  }

  /** The corpus yields no chunk exactly when every document is empty. */
  lemma {:induction false} EmptyCorpusIff(cases: seq<CaseRecord>)
    ensures CorpusChunks(cases) == [] <==> forall i :: 0 <= i < |cases| ==> cases[i].doc == ""
    decreases |cases|
  {
    if |cases| > 0 {
      var init := cases[..|cases| - 1];
      var last := cases[|cases| - 1];
      EmptyCorpusIff(init);
      Chunking.ChunksOfShortText(last.doc, Chunking.CHARS_PER_CHUNK, Chunking.CHARS_OVERLAP);
      assert forall i :: 0 <= i < |init| ==> init[i] == cases[i];
      assert CorpusChunks(cases) == CorpusChunks(init) + DocChunks(last);
    }
  }

  // ---------------------------------------------------------------------
  // Batched embedding

  /** The slices `xs[i:i+size]` for `i = 0, size, 2*size, ...` below `|xs|`. */
  function Batches<T>(xs: seq<T>, size: nat): seq<seq<T>>
    requires size > 0
    decreases |xs|
  {
    if |xs| == 0 then []
    else
      var n := Min(size, |xs|);
      [xs[..n]] + Batches(xs[n..], size)
  }

  /** `b` is the slice `xs[j*size : j*size + size]` and that slice starts inside `xs`. */
  ghost predicate IsBatch<T>(xs: seq<T>, size: nat, j: nat, b: seq<T>) {
    j * size < |xs| && b == xs[j * size..Min(j * size + size, |xs|)]
  }

  /** The batches give back the input, in order, when concatenated. */
  lemma {:induction false} BatchesConcat<T>(xs: seq<T>, size: nat)
    requires size > 0
    ensures Concat(Batches(xs, size)) == xs
    decreases |xs|
  {
    if |xs| > 0 {
      var n := Min(size, |xs|);
      BatchesConcat(xs[n..], size);
      assert Batches(xs, size)[1..] == Batches(xs[n..], size);
      assert xs[..n] + xs[n..] == xs;
    }
  }

  /** There are `ceil(|xs| / size)` batches. */
  lemma {:induction false} BatchesCount<T>(xs: seq<T>, size: nat)
    requires size > 0
    ensures |Batches(xs, size)| == CeilDiv(|xs|, size)
    decreases |xs|
  {
    if |xs| > 0 {
      BatchesCount(xs[Min(size, |xs|)..], size);
    }
  }

  /** Batch `j` is the non-empty slice of at most `size` elements starting at `j * size`. */
  lemma {:induction false} BatchAt<T>(xs: seq<T>, size: nat, j: nat)
    requires size > 0
    requires j < |Batches(xs, size)|
    ensures IsBatch(xs, size, j, Batches(xs, size)[j])
    decreases j
  {
    var n := Min(size, |xs|);
    var rest := xs[n..];
    assert Batches(xs, size) == [xs[..n]] + Batches(rest, size);
    if j > 0 {
      var k := j - 1;
      assert Batches(xs, size)[j] == Batches(rest, size)[k];
      BatchAt(rest, size, k);
      var lo := k * size;
      var hi := Min(lo + size, |rest|);
      assert lo < hi <= |rest|;
      assert n == size;
      MulSucc(k, size);
      assert j * size == n + lo;
      assert Min(j * size + size, |xs|) == n + hi;
      SliceOfDrop(xs, n, lo, hi);
      assert Batches(xs, size)[j] == xs[j * size..Min(j * size + size, |xs|)];
    }
  }

  lemma SliceOfDrop<T>(xs: seq<T>, n: nat, lo: nat, hi: nat)
    requires n <= |xs| && lo <= hi <= |xs| - n
    ensures xs[n..][lo..hi] == xs[n + lo..n + hi]
  {
  }

  lemma MulSucc(k: nat, size: nat)
    ensures (k + 1) * size == k * size + size
  {
  }

  /** The embedding service's answer for one batch: one vector per text, in order. */
  function EmbedBatch<V>(embed: string -> V, batch: seq<string>): (vs: seq<V>)
    ensures |vs| == |batch|
  {
    seq(|batch|, j requires 0 <= j < |batch| => embed(batch[j]))
  }

  /** The batching loop of the build: sends the chunks to the embedding
      service in slices of `BATCH_SIZE` and concatenates the answers. Returns
      the vectors and the batches sent. */
  method EmbedInBatches<V>(chunks: seq<string>, embed: string -> V) returns (vectors: seq<V>, sent: seq<seq<string>>)
    ensures sent == Batches(chunks, BATCH_SIZE)
    ensures |vectors| == |chunks|
    ensures forall j :: 0 <= j < |chunks| ==> vectors[j] == embed(chunks[j])
  {
    var total := |chunks|;
    vectors := [];
    sent := [];
    var i := 0;
    while i < total
      invariant i <= total
      invariant sent + Batches(chunks[i..], BATCH_SIZE) == Batches(chunks, BATCH_SIZE)
      invariant |vectors| == i
      invariant forall j :: 0 <= j < i ==> vectors[j] == embed(chunks[j])
      decreases total - i
    {
      var hi := Min(i + BATCH_SIZE, total);
      var batch := chunks[i..hi];
      assert Batches(chunks[i..], BATCH_SIZE) == [batch] + Batches(chunks[hi..], BATCH_SIZE) by {
        assert chunks[i..][..hi - i] == batch;
        assert chunks[i..][hi - i..] == chunks[hi..];
      }
      assert (sent + [batch]) + Batches(chunks[hi..], BATCH_SIZE) == sent + ([batch] + Batches(chunks[hi..], BATCH_SIZE));
      EmbedExtends(chunks, embed, vectors, i, hi);
      sent := sent + [batch];
      vectors := vectors + EmbedBatch(embed, batch);
      i := hi;
    }
  }

  /** Appending the answer for `chunks[i..hi]` to the vectors of `chunks[..i]`
      gives the vectors of `chunks[..hi]`. */
  lemma EmbedExtends<V>(chunks: seq<string>, embed: string -> V, vectors: seq<V>, i: nat, hi: nat)
    requires i <= hi <= |chunks| && |vectors| == i
    requires forall j :: 0 <= j < i ==> vectors[j] == embed(chunks[j])
    ensures forall j :: 0 <= j < hi ==> (vectors + EmbedBatch(embed, chunks[i..hi]))[j] == embed(chunks[j])
  {
    var ext := vectors + EmbedBatch(embed, chunks[i..hi]);
    forall j | 0 <= j < hi
      ensures ext[j] == embed(chunks[j])
    {
      if j >= i {
        assert ext[j] == EmbedBatch(embed, chunks[i..hi])[j - i];
        assert chunks[i..hi][j - i] == chunks[j];
      }
    }
  }

  // ---------------------------------------------------------------------
  // The whole build

  /** The build: chunk the corpus, refuse an empty result before anything is
      embedded or persisted, embed in batches, and return the artifacts to
      persist together with the batches sent to the embedding service. */
  method BuildIndex<V>(cases: seq<CaseRecord>, embed: string -> V)
    returns (r: Result<Artifacts<V>, BuildError>, sent: seq<seq<string>>)
    ensures r.Failure? <==> forall i :: 0 <= i < |cases| ==> cases[i].doc == ""
    ensures r.Failure? ==> sent == []
    ensures r.Success? ==>
              && r.value.metas == CorpusMetas(cases)
              && r.value.corpus == cases
              && |r.value.vectors| == |r.value.metas| > 0
              && (forall j :: 0 <= j < |r.value.metas| ==> r.value.vectors[j] == embed(r.value.metas[j].chunk))
              && sent == Batches(CorpusChunks(cases), BATCH_SIZE)
  {
    var chunks, metas := CollectChunks(cases);
    EmptyCorpusIff(cases);
    if |chunks| == 0 {
      return Failure(EmptyCorpus), [];
    }
    var vectors;
    vectors, sent := EmbedInBatches(chunks, embed);
    MetasMatchChunks(cases);
    r := Success(Artifacts(vectors, metas, cases));
  }
}
