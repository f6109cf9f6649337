# DataKnow2 retrieval pipeline — a Dafny model

DataKnow2 answers legal questions from a spreadsheet of past court decisions.
The pipeline has three stages:

- **Ingestion** (`app/dataPrep.py`, `load_cases`) reads the spreadsheet.
  It cleans every cell and drops rows that repeat an earlier
  (providencia, fecha, sintesis) triple. It renders each remaining row into a
  fixed document template and sets three keyword flags.
- **Index build** (`app/index.py`) cuts every document into overlapping
  windows of 1800 characters with 200 characters of overlap. It records one
  metadata entry per window, refuses an empty corpus, and embeds the windows
  in batches of 64.
- **Query** (`app/rag.py`) checks that the three build artifacts exist. It
  asks the vector search for the top `k` hits (4 by default) and renders one
  cited block per hit. The blocks are joined with `"\n\n---\n\n"`, and the
  context and question are wrapped into a system and a user message for the
  text generator, run at temperature 0.2.

The model has seven modules:

| file | module | models |
|---|---|---|
| `wrappers.dfy` | `Wrappers` | `Option` and `Result` |
| `text.dfy` | `Text` | Python's `str.join` and `str.split`, with layout lemmas; ceiling division; flattening |
| `normalize.dfy` | `Normalize` | `_strip_and_fix`: line breaks to spaces, `strip`, collapsing whitespace runs |
| `data_prep.dfy` | `DataPrep` | `load_cases`: cell cleaning, de-duplication, `_build_doc`, `_has` |
| `chunking.dfy` | `Chunking` | `chunk_text` |
| `index_build.dfy` | `IndexBuild` | the chunk and metadata loop, the empty-corpus check, batching |
| `rag.dfy` | `Rag` | `_load_artifacts`, `_retrieve`, `generate_answer`, `ask` |

External services are parameters:

- The embedding service is a function `embed: string -> V`.
- The query embedding and vector search together are a function
  `search: (question, k) -> hit positions`.
- The chat model is a function `generate: (messages, temperature) -> text`.
- The date parser `_to_iso_date` is a function `isoDate: string -> string`.

File existence checks are booleans, and the spreadsheet reader's output is a
sequence of rows.

Two behaviours of the chunker's code that the model keeps as written:

- **Window count.** The loop stops as soon as a window reaches the end of
  the text. A 5000-character text therefore gives three windows, the last
  being 3200–5000; no window starts at 4800 (`Chunking.DefaultWindowsOf5000`).
- **`overlap >= max_chars`.** `chunk_text` never checks this; with such
  arguments the loop does not advance. The model states `overlap < maxChars`
  as a precondition of the chunker, and
  `Chunking.ResumeAdvancesIffOverlapBelowWindow` records why.

## Model

| member | source | states |
|---|---|---|
| Chunking.ChunkText | app/index.py:22-32 | the chunker loop returns exactly the slices of the sliding-window walk from offset 0 |
| Chunking.ChunksAreWindows | app/index.py:26-31 | every chunk is a non-empty slice of at most `max_chars` characters; the first starts at 0 and the last ends at the end of the text; every chunk but the last is exactly `max_chars` long and the next one starts `overlap` characters before it ended |
| Chunking.SpansAreSlidingWindows | app/index.py:26-31 | the walk's windows from any start satisfy the sliding-window shape: bounded, non-empty, contiguous with overlap, strictly advancing, ending at the text's end |
| Chunking.ChunksOfShortText | app/index.py:26-30 | an empty text gives no chunk; a non-empty text of at most `max_chars` characters gives itself as the only chunk |
| Chunking.ChunksReassemble | app/index.py:27-31 | the first chunk followed by every later chunk without its first `overlap` characters is the original text |
| Chunking.TailsOfWalk | app/index.py:27-31 | from any resumed start, the walk's chunks with the overlap dropped cover the rest of the text exactly |
| Chunking.ChunkCount | app/index.py:26-31 | the number of chunks is 0 for an empty text, 1 up to `max_chars`, and otherwise 1 plus the remaining length divided by `max_chars - overlap`, rounded up |
| Chunking.SpanCount | app/index.py:26-31 | the same count for a walk resumed at any start |
| Chunking.DefaultWindowsOf5000 | app/index.py:18-19 | with the defaults 1800 and 200, a 5000-character text gives the windows 0–1800, 1600–3400 and 3200–5000 |
| Chunking.ResumeAdvancesIffOverlapBelowWindow | app/index.py:31 | after a window that stops short of the end, the resumed start lies past the current one if and only if the overlap is smaller than the window |
| IndexBuild.CollectChunks | app/index.py:47-52 | the nested loop yields, in document order, every document's chunks and a metadata entry per chunk |
| IndexBuild.AppendDocument | app/index.py:49-52 | the inner loop for document `i` appends exactly that document's chunks, in order, and one metadata entry per chunk carrying `doc_id` `i`, the chunk, and the row's providencia, fecha and tema |
| IndexBuild.MetasMatchChunks | app/index.py:50-52 | chunks and metadata are appended in lockstep: same length, and entry `j` carries chunk `j` |
| IndexBuild.MetasFollowDocuments | app/index.py:48-52 | each metadata entry names an existing document, copies that document's providencia, fecha and tema, and document ids never decrease |
| IndexBuild.MetasOfDocument | app/index.py:48-52 | the chunk texts of the entries with `doc_id == i` are exactly the chunks of document `i`, in order |
| IndexBuild.EmptyCorpusIff | app/index.py:54-55 | no chunk is produced if and only if every document text is empty |
| IndexBuild.BatchesConcat | app/index.py:62-64 | the batches, concatenated in order, give back the chunk list: nothing is lost, repeated or reordered |
| IndexBuild.BatchesCount | app/index.py:60-63 | there are `ceil(total / size)` batches, the step count the build announces |
| IndexBuild.BatchAt | app/index.py:62-63 | batch `j` is the slice from `j*size` to `min(j*size + size, total)`, and it starts inside the chunk list |
| IndexBuild.EmbedInBatches | app/index.py:58-65 | the batches sent are the 64-sized partition; there is one vector per chunk, and vector `j` is the embedding of chunk `j` |
| IndexBuild.BuildIndex | app/index.py:47-65 | the build fails with the empty-corpus error exactly when every document is empty, and then sends nothing to the embedder; otherwise it keeps the metadata, one vector per entry (the embedding of that entry's chunk), and the corpus |
| Normalize.StripAndFix | app/dataPrep.py:19-24 | a cleaned cell has no line break, no leading or trailing whitespace and no two adjacent whitespace characters; it has the same words (maximal runs of non-whitespace) as the input, in order, and keeps every non-whitespace character in order; every character it holds is a space or comes from the input; and when the input's whitespace is only spaces and line breaks, the cell is its words joined by single spaces |
| Normalize.StripAndFixIdempotent | app/dataPrep.py:19-24 | cleaning a cleaned cell changes nothing |
| Normalize.CleanIsFixpoint | app/dataPrep.py:19-24 | any cell without line breaks, outer whitespace or adjacent whitespace is left unchanged by cleaning |
| Normalize.Strip | app/dataPrep.py:22 | the result is the contiguous slice of the input that starts after the leading whitespace run; it has no leading or trailing whitespace, and every character outside it is whitespace |
| Normalize.RunLength | app/dataPrep.py:22 | the leading run counted is all whitespace and is followed by a non-space or the end |
| Normalize.TrailLength | app/dataPrep.py:22 | the trailing run counted is all whitespace and is preceded by a non-space or the start |
| Normalize.WordsAppend | app/dataPrep.py:22-23 | the words of two texts that meet at whitespace are the words of the first followed by those of the second |
| Normalize.WordsOfStrip | app/dataPrep.py:22 | stripping keeps the words |
| Normalize.WordsOfCollapse | app/dataPrep.py:23 | collapsing whitespace runs keeps the words |
| Normalize.WordsOfReplaced | app/dataPrep.py:22 | replacing a whitespace character such as `\r` or `\n` by a space keeps the words |
| Normalize.ReplaceChar | app/dataPrep.py:22 | every occurrence of one character is replaced and every other character is kept in place |
| Normalize.CollapseNoDouble | app/dataPrep.py:23 | after collapsing, no two adjacent characters are both whitespace |
| Normalize.CollapseKeepsNonSpace | app/dataPrep.py:23 | collapsing keeps the non-whitespace characters in order |
| Normalize.CollapseIdentity | app/dataPrep.py:23 | a string without two adjacent whitespace characters is unchanged by collapsing |
| Normalize.NonSpaceOfStrip | app/dataPrep.py:22 | stripping removes only whitespace |
| DataPrep.NormalizeRow | app/dataPrep.py:45-53 | each of providencia, tema, sintesis and resuelve is a cleaning of its raw cell: the clean shape, the same words and the same non-whitespace characters, no character but a space that the raw cell lacks, its words joined by single spaces when the raw whitespace is only spaces and line breaks, and "" for a missing cell |
| DataPrep.DropDuplicates | app/dataPrep.py:56 | the kept rows are, in order, exactly the first rows of each (providencia, fecha, sintesis) key; no key repeats; no key is lost |
| DataPrep.BuildDocIsLines | app/dataPrep.py:58-65 | the document is its nine template lines joined by line breaks |
| DataPrep.ParseBuildDoc | app/dataPrep.py:58-65 | when no field holds a line break, the document parses back into the same five fields |
| DataPrep.HasIffOccurs | app/dataPrep.py:70-76 | a keyword flag is set exactly when the word occurs, ignoring case, at some position of the tema, sintesis or resuelve cell |
| DataPrep.ContainsFrom | app/dataPrep.py:70-72 | the search answers true exactly when the word occurs, ignoring case, at some position from the start position on |
| DataPrep.LoadCases | app/dataPrep.py:34-78 | a missing spreadsheet fails with file-not-found and nothing else fails; otherwise record `j` is, in row order, the cleaned row at the `j`-th position that is first with its key, with its template document and the three flags set to whether "redes sociales", "acoso escolar" and "PIAR" occur; every first-of-key row is kept, keys are distinct, and each document is non-empty and parses back to its row |
| Text.JoinLayout | app/rag.py:61 | in a joined string, part `j` starts at its offset, is followed by the separator unless it is last, and the last part ends the string |
| Text.SplitJoin | app/dataPrep.py:58-65 | splitting a join at a one-character separator that no part contains returns the parts |
| Text.CeilDiv | app/index.py:60 | the quotient rounded up: the smallest count of `d`-sized steps that covers `n` |
| Rag.CheckArtifacts | app/rag.py:31-35 | loading succeeds exactly when the index, metadata and corpus files all exist, and otherwise fails with the missing-artifacts error |
| Rag.RenderBlock | app/rag.py:56-60 | a record without chunk text fails the query with that hit's position; otherwise the block is the citation line, then a line break at the citation line's length, then the chunk text |
| Rag.BlocksSucceedIff | app/rag.py:55-60 | retrieval succeeds exactly when every present hit names an existing record that has chunk text |
| Rag.BlocksFollowHits | app/rag.py:55-60 | one block per present hit, in hit order; block `j` renders the record that the `j`-th present hit names |
| Rag.ContextLayout | app/rag.py:55-61 | the context is the blocks, one per present hit, joined in order: block `j` sits at its offset, `"\n\n---\n\n"` follows it unless it is last, and the last block ends the context |
| Rag.ContextOfFewHits | app/rag.py:61 | no present hit gives the empty context; a single present hit gives just its block |
| Rag.BlockSplitsAtFirstLineBreak | app/rag.py:58-60 | when the stored fields hold no line break, the block's first line is the citation line and the rest is the chunk text |
| Rag.HeaderExamples | app/rag.py:58 | the citation line of a complete record, and of one with all fields missing (`?`, `?` and nothing) |
| Rag.BuiltMetadataRenders | app/rag.py:55-60 | over metadata written by the build, retrieval fails only on a hit position at or past the index size |
| Rag.UserContent | app/rag.py:69 | the user message is the context lead, the context verbatim, the question lead, the question verbatim and the fixed answer tail |
| Rag.Messages | app/rag.py:67-70 | the prompt is two messages: the system instruction first, then a user message whose content is the context-and-question text |
| Rag.GenerateAnswer | app/rag.py:63-76 | an answer is always free of surrounding whitespace; a missing artifact fails with the missing-artifacts error; otherwise answering succeeds exactly when retrieval does, a retrieval error is passed on, and the answer is the generator's stripped reply at the given temperature to the prompt built from the retrieved context |
| Rag.Ask | app/rag.py:63-79 | with any artifact missing the question fails with the missing-artifacts error, whatever the metadata, search and generator are; otherwise `k` goes unchanged to the search, a retrieval error is passed on, and the answer is the generator's stripped reply at temperature 0.2 |
| Rag.AskDefaultsToFourHits | app/rag.py:78 | without an explicit count, `ask` asks the search for 4 hits |
| Rag.PaddedHitsRepeatLastBlock | app/rag.py:55-56 | as written: asking for 4 hits from 2 records, the two `-1` slots index the last record, so its block appears three times; the corrected lookup gives two blocks |
| Rag.AsWrittenAgreesOnFullResults | app/rag.py:55-61 | when every hit is a valid position, the lookup as written and the corrected one build the same context |

## Left out

- `embed_batch`, `_embed` and the chat call: these call an external service. Each is an abstract function parameter, and a batch call is modelled as the one-to-one, order-preserving map of the embedder.
- The vector index (`faiss`): L2 normalisation, inner-product ranking, vector dimension, and the `float32` array. The search is an abstract function returning hit positions, with a negative position for an empty slot.
- Writing and reading `faiss.index`, `meta.json` and `cases.json`: file I/O. A metadata record read back keeps providencia, fecha, tema and chunk; `doc_id` is dropped because retrieval does not use it.
- `_to_iso_date`: date parsing by pandas is a library call. It is the parameter `isoDate`, applied to the cleaned date cell.
- `_strip_and_fix` on non-string cells (numbers, timestamps): `str()` of an arbitrary value is out of scope. Empty cells become `""`, and other cells are assumed to be text.
- Column renaming and missing-column filling (`app/dataPrep.py:42-47`): a missing column is the same as an empty cell in `RawRow`.
- `print` progress messages, `load_dotenv`, the `__main__` blocks, `save_clean_outputs`, `app/ui.py` and `demo.py`: presentation and I/O.
- Normalize.StripAndFix: the character between two words is pinned down exactly only when the input's whitespace is spaces and line breaks (then it is one space). For other whitespace it is stated only to be a space or a character of the input, because a lone tab, say, is kept while a longer run becomes a space.
- DataPrep.ContainsFrom: ignores case for ASCII and Latin-1 letters only, not full Unicode case folding as in Python's `re.I`.
- Chunking.ChunkText: requires `overlap < maxChars`. The code does not check this, and with larger overlaps its loop may not advance.
- DataPrep.LoadCases: the round trip through `ParseDoc` is stated only when the parsed date has no line break, since `isoDate` is abstract.

## Findings

| source | as written | input that shows it | evidently intended | confidence | as-written member | corrected member |
|---|---|---|---|---|---|---|
| app/rag.py:53-56 | every position returned by the search is used as a list index; the search marks the slots it cannot fill with `-1`, which Python reads as the last record | an index of 2 records and `k = 4`: the hits are `[0, 1, -1, -1]` and the context repeats the second record's block three times | only real hits become blocks: with fewer records than `k`, the context has one block per record | medium (not executed; relies on the search padding with `-1`) | Rag.PaddedHitsRepeatLastBlock | Rag.BlocksFollowHits |

`Rag.BlocksAsWritten` and `Rag.ContextAsWritten` model the lookup as written.
`Rag.Blocks` and `Rag.Context` skip negative positions; the rest of the model,
including `Rag.GenerateAnswer`, uses them.
