/** The query side: check that the build artifacts exist, turn the search
    hits into a context string with one cited block per hit, and wrap
    context and question into the two-message prompt for the text
    generator. The query embedding and the vector search are one abstract
    function from (question, k) to hit positions, and the generator is an
    abstract function from messages and temperature to text. */
module Rag {
  import opened Wrappers
  import opened Text
  import opened Normalize
  import IndexBuild

  const SYSTEM_PROMPT: string :=
    "Eres un asesor legal que responde en lenguaje coloquial. "
    + "1) Si el CONTEXTO contiene la respuesta, úsalo y marca la sección como: 'Basado en el Excel'. "
    + "2) Si el CONTEXTO no basta, ofrece una 'Información general' claramente separada. "
    + "No afirmes hechos del Excel que no estén en el CONTEXTO. No des asesoría legal; solo información educativa."

  /** Separator between context blocks, and between the parts of the user message. */
  const SEP: string := "\n\n---\n\n"

  /** Number of hits asked for when the caller does not say. */
  const K_DEFAULT: int := 4

  /** Sampling temperature of the generation call. */
  const TEMPERATURE: real := 0.2

  /** A metadata record as read back from the metadata file; a key may be absent. */
  datatype StoredMeta = StoredMeta(providencia: Option<string>, fecha: Option<string>, tema: Option<string>, chunk: Option<string>)

  /** Which of the three build artifacts exist: the vector index, the metadata file and the corpus file. */
  datatype ArtifactFiles = ArtifactFiles(index: bool, meta: bool, cases: bool)

  datatype RagError =
    | MissingArtifacts          // the build has not been run
    | IndexError(position: int) // a hit position outside the metadata list
    | MissingChunk(position: int) // the record at a hit position has no chunk text

  datatype Role = System | User

  datatype Message = Message(role: Role, content: string)

  /** What a query sees: the artifact files, the loaded metadata, the vector
      search (query, k) -> hit positions best first, and the generator. */
  datatype Env = Env(
    files: ArtifactFiles,
    meta: seq<StoredMeta>,
    search: (string, int) -> seq<int>,
    generate: (seq<Message>, real) -> string)

  /** A built metadata record after the round trip through the metadata file. */
  function Stored(m: IndexBuild.ChunkMeta): StoredMeta {
    StoredMeta(Some(m.providencia), Some(m.fecha), Some(m.tema), Some(m.chunk))
  }

  // ---------------------------------------------------------------------
  // Loading

  /** The set-up check before anything is loaded: all three artifacts must exist. */
  function CheckArtifacts(files: ArtifactFiles): (r: Result<ArtifactFiles, RagError>)
    ensures r.Success? <==> files.index && files.meta && files.cases
    ensures r.Failure? ==> r.error == MissingArtifacts
  {
    if files.index && files.meta && files.cases then Success(files) else Failure(MissingArtifacts)
  }

  // ---------------------------------------------------------------------
  // Context assembly

  /** The citation line of a block; a missing providencia or fecha shows as
      "?", a missing tema as nothing. */
  function Header(m: StoredMeta): string {
    "[" + m.providencia.GetOr("?") + " | " + m.fecha.GetOr("?") + "]  TEMA: " + m.tema.GetOr("")
  }

  /** The block for the record at hit position `pos`: citation line, newline, chunk text. */
  function RenderBlock(m: StoredMeta, pos: int): (r: Result<string, RagError>)
    ensures r.Failure? <==> m.chunk.None?
    ensures r.Failure? ==> r.error == MissingChunk(pos)
    ensures r.Success? ==>
              && |r.value| == |Header(m)| + 1 + |m.chunk.value|
              && r.value[..|Header(m)|] == Header(m)
              && r.value[|Header(m)|] == '\n'
              && r.value[|Header(m)| + 1..] == m.chunk.value
  {
    match m.chunk
    case None => Failure(MissingChunk(pos))
    case Some(c) => Success(Header(m) + "\n" + c)
  }

  /** The hit positions that name a record: the search marks an empty result slot with a negative position. */
  function Present(hits: seq<int>): (r: seq<nat>)
    ensures |r| <= |hits|
    ensures forall j :: 0 <= j < |r| ==> r[j] in hits
    decreases |hits|
  {
    if |hits| == 0 then []
    else (if hits[0] >= 0 then [hits[0] as nat] else []) + Present(hits[1..])
  }

  /** Every present hit names a record that exists and has chunk text. */
  ghost predicate Renderable(meta: seq<StoredMeta>, hits: seq<int>) {
    forall j :: 0 <= j < |hits| && hits[j] >= 0 ==> hits[j] < |meta| && meta[hits[j]].chunk.Some?
  }

  /** One block per present hit, in hit order; the first failing hit decides the error. */
  function Blocks(meta: seq<StoredMeta>, hits: seq<int>): Result<seq<string>, RagError>
    decreases |hits|
  {
    if |hits| == 0 then Success([])
    else
      var idx := hits[0];
      if idx < 0 then Blocks(meta, hits[1..])
      else if idx >= |meta| then Failure(IndexError(idx))
      else
        var b :- RenderBlock(meta[idx], idx);
        var bs :- Blocks(meta, hits[1..]);
        Success([b] + bs)
  }

  lemma RenderableTail(meta: seq<StoredMeta>, hits: seq<int>)
    requires |hits| > 0
    ensures Renderable(meta, hits) <==>
              (hits[0] >= 0 ==> hits[0] < |meta| && meta[hits[0]].chunk.Some?) && Renderable(meta, hits[1..])
  {
    assert forall j :: 1 <= j < |hits| ==> hits[1..][j - 1] == hits[j];
    if (hits[0] >= 0 ==> hits[0] < |meta| && meta[hits[0]].chunk.Some?) && Renderable(meta, hits[1..]) {
      forall j | 0 <= j < |hits| && hits[j] >= 0
        ensures hits[j] < |meta| && meta[hits[j]].chunk.Some?
      {
        if j > 0 { assert hits[1..][j - 1] == hits[j]; }
      }
    }
  }

  /** Retrieval fails exactly when some present hit names no record or a record without chunk text. */
  lemma {:induction false} BlocksSucceedIff(meta: seq<StoredMeta>, hits: seq<int>)
    ensures Blocks(meta, hits).Success? <==> Renderable(meta, hits)
    decreases |hits|
  {
    if |hits| > 0 {
      RenderableTail(meta, hits);
      BlocksSucceedIff(meta, hits[1..]);
    }
  }

  /** On success block `j` is the rendering of the record named by the `j`-th present hit. */
  lemma {:induction false} BlocksFollowHits(meta: seq<StoredMeta>, hits: seq<int>)
    requires Blocks(meta, hits).Success?
    ensures var bs := Blocks(meta, hits).value;
            && |bs| == |Present(hits)|
            && forall j :: 0 <= j < |bs| ==>
                 Present(hits)[j] < |meta| && meta[Present(hits)[j]].chunk.Some?
                 && bs[j] == RenderBlock(meta[Present(hits)[j]], Present(hits)[j]).value
    decreases |hits|
  {
    if |hits| > 0 {
      BlocksFollowHits(meta, hits[1..]);
      var bs := Blocks(meta, hits).value;
      var rest := Blocks(meta, hits[1..]).value;
      var ps := Present(hits[1..]);
      if hits[0] < 0 {
        assert Present(hits) == ps;
        assert bs == rest;
      } else {
        var p := hits[0] as nat;
        var pr := Present(hits);
        assert pr == [p] + ps;
        assert p < |meta| && meta[p].chunk.Some?;
        BlocksCons(meta, hits);
        assert bs == [RenderBlock(meta[p], p).value] + rest;
        forall j | 0 <= j < |bs|
          ensures pr[j] < |meta| && meta[pr[j]].chunk.Some?
          ensures bs[j] == RenderBlock(meta[pr[j]], pr[j]).value
        {
          if j > 0 {
            assert pr[j] == ps[j - 1] && bs[j] == rest[j - 1];
          }
        }
      }
    }
  }

  lemma BlocksCons(meta: seq<StoredMeta>, hits: seq<int>)
    requires |hits| > 0 && 0 <= hits[0] < |meta| && meta[hits[0]].chunk.Some?
    requires Blocks(meta, hits[1..]).Success?
    ensures Blocks(meta, hits)
            == Success([RenderBlock(meta[hits[0]], hits[0]).value] + Blocks(meta, hits[1..]).value)
  {
  }

  /** The context string: the blocks of the present hits joined by `SEP`, best hit first. */
  function Context(meta: seq<StoredMeta>, hits: seq<int>): Result<string, RagError> {
    var bs :- Blocks(meta, hits);
    Success(Join(bs, SEP))
  }

  /** The context holds exactly one block per present hit, in hit order
      (`BlocksFollowHits` says which record each block renders): block `j`
      sits at `Offset(blocks, SEP, j)` and is followed by `SEP` unless it is
      the last block, which ends the context. */
  lemma ContextLayout(meta: seq<StoredMeta>, hits: seq<int>, blocks: seq<string>, j: nat)
    requires Blocks(meta, hits) == Success(blocks)
    requires j < |Present(hits)|
    ensures |blocks| == |Present(hits)|
    ensures Context(meta, hits) == Success(Join(blocks, SEP))
    ensures var ctx := Join(blocks, SEP);
            var o := Offset(blocks, SEP, j);
            && o + |blocks[j]| <= |ctx|
            && ctx[o..o + |blocks[j]|] == blocks[j]
            && (j + 1 < |blocks| ==>
                  && Offset(blocks, SEP, j + 1) == o + |blocks[j]| + |SEP|
                  && Offset(blocks, SEP, j + 1) <= |ctx|
                  && ctx[o + |blocks[j]|..Offset(blocks, SEP, j + 1)] == SEP)
            && (j + 1 == |blocks| ==> |ctx| == o + |blocks[j]|)
  {
    ContextIsJoin(meta, hits, blocks);
    BlocksFollowHits(meta, hits);
    JoinLayout(blocks, SEP, j);
  }

  /** The context is the rendered blocks joined by `SEP`. */
  lemma ContextIsJoin(meta: seq<StoredMeta>, hits: seq<int>, blocks: seq<string>)
    requires Blocks(meta, hits) == Success(blocks)
    ensures Context(meta, hits) == Success(Join(blocks, SEP))
  {
  }

  lemma ContextOfFewHits(meta: seq<StoredMeta>, hits: seq<int>)
    requires Blocks(meta, hits).Success?
    ensures |Present(hits)| == 0 ==> Context(meta, hits) == Success("")
    ensures |Present(hits)| == 1 ==>
              Present(hits)[0] < |meta| && Context(meta, hits) == RenderBlock(meta[Present(hits)[0]], Present(hits)[0])
  {
    BlocksFollowHits(meta, hits);
  }

  /** The citation line of a complete record, and of one with every field
      missing: "?" for providencia and fecha, nothing for tema. */
  lemma HeaderExamples()
    ensures Header(StoredMeta(Some("T-123"), Some("2020-05-01"), Some("acoso escolar"), Some("texto")))
            == "[T-123 | 2020-05-01]  TEMA: acoso escolar"
    ensures Header(StoredMeta(None, None, None, None)) == "[? | ?]  TEMA: "
  {
    HeaderOfFullRecord();
    HeaderOfEmptyRecord();
  }

  lemma HeaderOfFullRecord()
    ensures Header(StoredMeta(Some("T-123"), Some("2020-05-01"), Some("acoso escolar"), Some("texto")))
            == "[T-123 | 2020-05-01]  TEMA: acoso escolar"
  {
    assert "[" + "T-123" == "[T-123";
    assert "[T-123" + " | " == "[T-123 | ";
    assert "[T-123 | " + "2020-05-01" == "[T-123 | 2020-05-01";
    assert "[T-123 | 2020-05-01" + "]  TEMA: " == "[T-123 | 2020-05-01]  TEMA: ";
    assert "[T-123 | 2020-05-01]  TEMA: " + "acoso escolar" == "[T-123 | 2020-05-01]  TEMA: acoso escolar";
  }

  lemma HeaderOfEmptyRecord()
    ensures Header(StoredMeta(None, None, None, None)) == "[? | ?]  TEMA: "
  {
    assert "[" + "?" + " | " + "?" == "[? | ?";
    assert "[? | ?" + "]  TEMA: " + "" == "[? | ?]  TEMA: ";
  }

  /** The citation line has no line break when the stored fields have none, so
      a block splits back into its citation line and its chunk text at the
      first line break. */
  lemma BlockSplitsAtFirstLineBreak(m: StoredMeta, pos: int)
    requires m.chunk.Some?
    requires '\n' !in m.providencia.GetOr("?") && '\n' !in m.fecha.GetOr("?") && '\n' !in m.tema.GetOr("")
    ensures var b := RenderBlock(m, pos).value;
            && Split(b, '\n')[0] == Header(m)
            && b[|Header(m)| + 1..] == m.chunk.value
  {
    var h := Header(m);
    assert forall c :: c in h ==> c in "[ |]TEMA:" || c in m.providencia.GetOr("?") || c in m.fecha.GetOr("?") || c in m.tema.GetOr("");
    SplitAtFirstDelimiter(h, m.chunk.value, '\n');
    assert h + "\n" + m.chunk.value == h + ['\n'] + m.chunk.value;
  }

  /** Over the metadata of a real build, retrieval fails only on a hit
      position past the end of the index. */
  lemma BuiltMetadataRenders(metas: seq<IndexBuild.ChunkMeta>, hits: seq<int>)
    ensures var stored := seq(|metas|, i requires 0 <= i < |metas| => Stored(metas[i]));
            Context(stored, hits).Success? <==> forall j :: 0 <= j < |hits| ==> hits[j] < |metas|
  {
    var stored := seq(|metas|, i requires 0 <= i < |metas| => Stored(metas[i]));
    BlocksSucceedIff(stored, hits);
  }

  // ---------------------------------------------------------------------
  // The prompt

  const CONTEXT_LEAD: string := "CONTEXTO:" + SEP
  const QUESTION_LEAD: string := SEP + "PREGUNTA: "
  const ANSWER_TAIL: string := "\nResponde en español."

  /** The user message loses nothing: after the fixed lead comes the context
      verbatim, then the question lead, the question verbatim and the fixed tail. */
  function UserContent(context: string, question: string): (u: string)
    ensures var a := |CONTEXT_LEAD|;
            var b := a + |context|;
            var c := b + |QUESTION_LEAD|;
            var d := c + |question|;
            && |u| == d + |ANSWER_TAIL|
            && u[..a] == CONTEXT_LEAD
            && u[a..b] == context
            && u[b..c] == QUESTION_LEAD
            && u[c..d] == question
            && u[d..] == ANSWER_TAIL
  {
    CONTEXT_LEAD + context + QUESTION_LEAD + question + ANSWER_TAIL
  }

  /** The two-message prompt: the fixed system instruction, then the user message. */
  function Messages(context: string, question: string): (ms: seq<Message>)
    ensures |ms| == 2
    ensures ms[0] == Message(System, SYSTEM_PROMPT)
    ensures ms[1].role == User
    ensures ms[1].content == UserContent(context, question)
  {
    [Message(System, SYSTEM_PROMPT), Message(User, UserContent(context, question))]
  }

  // ---------------------------------------------------------------------
  // Answering

  /** `generate_answer`: the artifact check, then retrieval of the top `k`
      hits for the question, then the generator's reply to the prompt,
      stripped of surrounding whitespace. */
  function GenerateAnswer(env: Env, question: string, k: int := K_DEFAULT, temperature: real := TEMPERATURE)
    : (r: Result<string, RagError>)
    ensures r.Success? ==> NoOuterSpace(r.value)
    ensures !(env.files.index && env.files.meta && env.files.cases) ==> r == Failure(MissingArtifacts)
    ensures (env.files.index && env.files.meta && env.files.cases) ==>
              (r.Success? <==> Renderable(env.meta, env.search(question, k)))
    ensures (env.files.index && env.files.meta && env.files.cases) ==>
              match Context(env.meta, env.search(question, k))
              case Success(context) => r == Success(Strip(env.generate(Messages(context, question), temperature)))
              case Failure(e) => r == Failure(e)
  {
    BlocksSucceedIff(env.meta, env.search(question, k));
    var _ :- CheckArtifacts(env.files);
    var context :- Context(env.meta, env.search(question, k));
    Success(Strip(env.generate(Messages(context, question), temperature)))
  }

  /** `ask`: a question with an optional hit count, at the fixed temperature.
      A missing artifact fails the question with the set-up error whatever the
      metadata, search and generator are; otherwise `k` goes unchanged to the
      search and the answer is the generator's stripped reply, at temperature
      0.2, to the prompt built from that search's context. */
  function Ask(env: Env, question: string, k: int := K_DEFAULT): (r: Result<string, RagError>)
    ensures !(env.files.index && env.files.meta && env.files.cases) ==> r == Failure(MissingArtifacts)
    ensures (env.files.index && env.files.meta && env.files.cases) ==>
              match Context(env.meta, env.search(question, k))
              case Success(context) => r == Success(Strip(env.generate(Messages(context, question), 0.2)))
              case Failure(e) => r == Failure(e)
  {
    GenerateAnswer(env, question, k)
  }

  /** Without an explicit count, `ask` asks the search for 4 hits. */
  lemma AskDefaultsToFourHits(env: Env, question: string)
    ensures Ask(env, question) == Ask(env, question, 4)
  {
  }

  // ---------------------------------------------------------------------
  // Hit lookup as written: Python list indexing

  /** Python's `xs[idx]` on a list of length `n`: a negative index counts from the end. */
  function PythonIndex(n: nat, idx: int): (r: Option<nat>)
    ensures r.Some? ==> r.value < n
  {
    if 0 <= idx < n then Some(idx as nat)
    else if idx < 0 && 0 <= idx + n then Some((idx + n) as nat)
    else None
  }

  /** The blocks as the retrieval loop computes them: every hit, including an
      empty-slot marker, is used as a list index. */
  function BlocksAsWritten(meta: seq<StoredMeta>, hits: seq<int>): (r: Result<seq<string>, RagError>)
    ensures r.Success? ==> |r.value| == |hits|
    decreases |hits|
  {
    if |hits| == 0 then Success([])
    else
      var idx := hits[0];
      match PythonIndex(|meta|, idx)
      case None => Failure(IndexError(idx))
      case Some(i) =>
        var b :- RenderBlock(meta[i], idx);
        var bs :- BlocksAsWritten(meta, hits[1..]);
        Success([b] + bs)
  }

  function ContextAsWritten(meta: seq<StoredMeta>, hits: seq<int>): Result<string, RagError> {
    var bs :- BlocksAsWritten(meta, hits);
    Success(Join(bs, SEP))
  }

  lemma BlocksAsWrittenCons(meta: seq<StoredMeta>, hits: seq<int>, i: nat)
    requires |hits| > 0 && PythonIndex(|meta|, hits[0]) == Some(i)
    requires meta[i].chunk.Some?
    requires BlocksAsWritten(meta, hits[1..]).Success?
    ensures BlocksAsWritten(meta, hits)
            == Success([RenderBlock(meta[i], hits[0]).value] + BlocksAsWritten(meta, hits[1..]).value)
  {
  }

  /** When every hit names a record, the lookup as written and the corrected one agree. */
  lemma {:induction false} AsWrittenAgreesOnFullResults(meta: seq<StoredMeta>, hits: seq<int>)
    requires forall j :: 0 <= j < |hits| ==> 0 <= hits[j] < |meta|
    ensures BlocksAsWritten(meta, hits) == Blocks(meta, hits)
    ensures ContextAsWritten(meta, hits) == Context(meta, hits)
    decreases |hits|
  {
    if |hits| > 0 {
      assert forall j :: 1 <= j < |hits| ==> hits[1..][j - 1] == hits[j];
      AsWrittenAgreesOnFullResults(meta, hits[1..]);
    }
  }

  /** Asking for 4 hits from an index of 2 records: the search fills the two
      empty slots with -1, the lookup as written reads them as the last
      record, and the context repeats that record's block three times; the
      corrected lookup gives the two different blocks once each. */
  lemma PaddedHitsRepeatLastBlock()
    ensures var meta := [StoredMeta(Some("T-1"), Some("2020-01-01"), Some("a"), Some("uno")),
                         StoredMeta(Some("T-2"), Some("2021-02-02"), Some("b"), Some("segundo"))];
            var b0 := RenderBlock(meta[0], 0).value;
            var b1 := RenderBlock(meta[1], 1).value;
            && b0 != b1
            && BlocksAsWritten(meta, [0, 1, -1, -1]) == Success([b0, b1, b1, b1])
            && Blocks(meta, [0, 1, -1, -1]) == Success([b0, b1])
            && Context(meta, [0, 1, -1, -1]) == Success(b0 + SEP + b1)
  {
    var meta := [StoredMeta(Some("T-1"), Some("2020-01-01"), Some("a"), Some("uno")),
                 StoredMeta(Some("T-2"), Some("2021-02-02"), Some("b"), Some("segundo"))];
    var b0 := RenderBlock(meta[0], 0).value;
    var b1 := RenderBlock(meta[1], 1).value;
    assert |b0| != |b1|;
    assert RenderBlock(meta[1], -1) == Success(b1);
    assert PythonIndex(|meta|, -1) == Some(1);
    assert PythonIndex(|meta|, 0) == Some(0);
    assert PythonIndex(|meta|, 1) == Some(1);
    var p4: seq<int> := [0, 1, -1, -1];
    var p3 := p4[1..];
    var p2 := p3[1..];
    var p1 := p2[1..];
    assert p3 == [1, -1, -1] && p2 == [-1, -1] && p1 == [-1] && p1[1..] == [];
    assert BlocksAsWritten(meta, p1[1..]) == Success([]);
    assert p1[0] == -1 && p2[0] == -1 && p3[0] == 1 && p4[0] == 0;
    BlocksAsWrittenCons(meta, p1, 1);
    assert [b1] + [] == [b1];
    assert BlocksAsWritten(meta, p1) == Success([b1]);
    BlocksAsWrittenCons(meta, p2, 1);
    assert [b1] + [b1] == [b1, b1];
    assert BlocksAsWritten(meta, p2) == Success([b1, b1]);
    BlocksAsWrittenCons(meta, p3, 1);
    assert [b1] + [b1, b1] == [b1, b1, b1];
    assert BlocksAsWritten(meta, p3) == Success([b1, b1, b1]);
    BlocksAsWrittenCons(meta, p4, 0);
    assert [b0] + [b1, b1, b1] == [b0, b1, b1, b1];
    assert Blocks(meta, p1) == Success([]);
    assert Blocks(meta, p2) == Success([]);
    BlocksCons(meta, p3);
    BlocksCons(meta, p4);
    assert [b0] + [b1] == [b0, b1];
    assert [b0, b1][1..] == [b1];
    assert Join([b0, b1], SEP) == b0 + SEP + b1;
    assert Context(meta, p4) == Success(b0 + SEP + b1);
  }
}
