# RAG document assistant: engine and upload/query validation in Dafny

This project models the core of a retrieval-augmented question-answering service.

The service chunks uploaded documents into overlapping word windows. It embeds each chunk into a 768-dimensional vector and keeps the vectors in a flat nearest-neighbour index. Beside the index it keeps a list of chunk records (`text`, `filename`, `chunk_id`). To answer a question, it embeds the question, searches the index, and keeps the hits under a distance threshold. The kept chunks become the context of a prompt for a hosted language model. The response lists the sources with 200-character snippets.

The model has five modules:

- `Wrappers` (`wrappers.dfy`): `Option` and `Result`.
- `PyStr` (`py_str.dfy`): the Python string operations the engine relies on:
  - `str.split()` with no argument, which splits on runs of Unicode whitespace;
  - `' '.join`, `str.strip`, and `str.lower` restricted to ASCII.
- `Chunker` (`chunker.dfy`): `chunk_text`. It is the method `ChunkText`, whose loop is the method `WindowLoop`, proved against the specification function `Windows`, together with lemmas about the window starts, the window sizes, blank text and overlap.
- `Rag` (`rag_engine.dfy`): the engine itself.
  - The class `RagEngine` holds the two mutable fields of the engine: `index`, a sequence of vectors, and `chunks`, the record store.
  - Its invariant `Valid()` says three things: vector `i` is the embedding of record `i`; record `i` has `chunkId == i`; and the search service keeps its contract.
  - The methods are `AddDocuments`, `RetrieveRelevantChunks`, `Query` and `ClearIndex`. `GetStats` is a function.
  - The context and prompt assembly, the refusal path and the snippet rule are functions.
- `FastApiApp` (`fastapi_app.dfy`): the HTTP layer's own logic:
  - extension extraction and reader dispatch in `process_file`;
  - the extension filter and the `documents` / `uploaded_count` loop of `upload_files`;
  - the question check of the `/query` route.

The external services are fields of the engine, fixed at construction. Each is an uninterpreted function:

- the embedder: `string -> Vector`;
- the index search: `(vectors, query, k) -> hits`, constrained only by `SearchContract`;
- the chat completion: a request gives `Answered(content)` or `Failed(message)`;
- `round(x, 3)`.

The search contract allows at most `k` hits, in ascending distance. Each hit is either a stored position or the library's padding hit `(FLT_MAX, -1)`, and no stored position comes back twice. The model keeps Python's reading of a padding hit: `-1 < len(chunks)` holds, so `chunks[-1]` is the last record. Lemma `PaddingReadsLastRecord` shows this would happen if the threshold were above `FLT_MAX`. `RelevantFromStore` shows that with the real threshold, every result is a stored record at its own `chunk_id`, and `RelevantWithinStore` that there are no more results than records.

### Behaviour of the code worth knowing

- rag_engine.py:38: a window starts at every multiple of `chunk_size - overlap` below the word count. So a text of more than `chunk_size - overlap` words, and at most `chunk_size` and at most `2·(chunk_size - overlap)` words, gives two chunks. The second holds only the words after the first step, and it repeats the tail of the first. With the default sizes this is a text of 451 to 500 words, and the second chunk is its words from word 450 on (`TwoChunks`, `DefaultTailRepeated`). With other sizes a short text can give more chunks: `chunk_size` 10, `overlap` 8 and 10 words give five.
- rag_engine.py:38: when `overlap > chunk_size`, the step is negative, so `range` is empty and `chunk_text` returns no chunk. When `overlap == chunk_size`, `range` raises `ValueError` (`ChunkText`).
- rag_engine.py:195: `total_documents` counts the distinct file names among the stored records, so a document that leaves no record is not counted. The model assumes that a whitespace-only document, which has no chunk, adds nothing to the index or the store. The encoder and the index most likely raise on that empty batch instead (see `Rag.RagEngine.AddDocuments` under "## Left out"). The blank-document clauses of `AddDocuments`, `IngestedFilenames` and `DocumentCount` rest on that assumption.
- rag_engine.py:92: the test `idx < len(self.chunks)` does not exclude the padding position `-1`. Only the distance test removes padding hits.

## Model

| member | source | states |
|---|---|---|
| PyStr.Split | rag_engine.py:35 | `text.split()` yields only non-empty words that contain no whitespace |
| PyStr.SplitJoin | rag_engine.py:35-39 | splitting words that were joined with single spaces (`Join`, Python's `sep.join`) gives back exactly those words |
| PyStr.SplitBlank | rag_engine.py:35 | `split()` gives no word exactly when the text is empty or whitespace only |
| PyStr.Strip | rag_engine.py:40-41 | `strip()` gives the empty string exactly for blank text; otherwise the result neither starts nor ends with whitespace |
| PyStr.StripExactly | rag_engine.py:40-41 | `strip()` removes only whitespace, and only at the ends: the text is blank text, then the stripped text, then blank text |
| PyStr.Lower | fastapi_app.py:65 | `lower()` keeps the length and lower-cases character by character (ASCII letters only) |
| PyStr.JoinWordsUnpadded | rag_engine.py:39-40 | a non-empty list of words joined by spaces is non-empty and has no leading or trailing whitespace |
| PyStr.JoinAppend | rag_engine.py:105-108 | joining two non-empty lists equals joining each and putting the separator between them |
| PyStr.JoinContains | rag_engine.py:105-108 | each part of `sep.join(parts)` appears in the result verbatim |
| Chunker.ChunkText | rag_engine.py:33-43 | step 0 is the `ValueError` of `range`; a negative step gives `[]`; a positive step gives exactly the windows at word offsets 0, s, 2s, ... as computed by the specification function `Windows`; `Chunks` is this result for the default sizes, as `add_documents` calls it (line 55) |
| Chunker.WindowLoop | rag_engine.py:38-41 | the `for` loop over the window starts collects exactly `Windows` from offset 0: every window, stripped, in order |
| Chunker.WindowsAt | rag_engine.py:38-39 | chunk k of `Windows` is the space-join of `Window`, the words from offset start + k*s up to at most `chunk_size` words (Python's clamped slice) |
| Chunker.WindowsCover | rag_engine.py:38 | the windows run until the next start is past the last word; there is no window only when the start is past the end |
| Chunker.ChunkStarts | rag_engine.py:38-39 | from offset 0, chunk k starts at word k*s, every start is a word position, and the number of windows times s reaches the word count |
| Chunker.ChunksWellFormed | rag_engine.py:38-41 | every chunk is non-empty and already stripped, and re-splitting it gives its window of at most `chunk_size` words |
| Chunker.WindowChunk | rag_engine.py:39-41 | a window at a word position joins to a non-empty chunk that `strip()` leaves unchanged, so none is dropped |
| Chunker.ChunksOfBlank | rag_engine.py:35-43 | with the defaults (`Chunks`), no chunk exactly when the text is empty or whitespace only |
| Chunker.OneChunk | rag_engine.py:38-41 | 1 to s words give exactly one chunk: the words re-joined with single spaces |
| Chunker.TwoChunks | rag_engine.py:38-41 | more than s but at most `chunk_size` (and at most 2s) words give two chunks: all words, then the words after offset s |
| Chunker.DefaultTailRepeated | rag_engine.py:33-41 | with the defaults, 451 to 500 words give two chunks, the second being the first's words from word 450 on |
| Chunker.ConsecutiveOverlap | rag_engine.py:38-39 | when chunk k is full, its last `chunk_size - s` words are the first words of chunk k+1 |
| Chunker.FullWindowFits | rag_engine.py:38-39 | a chunk that re-splits into `chunk_size` words comes from a window that the end of the text did not cut short |
| Chunker.WindowPairOverlap | rag_engine.py:38-39 | two full-size windows s apart share exactly `overlap` words |
| Rag.Records | rag_engine.py:64-69 | the records for one document are its chunks in order, all with its filename, numbered consecutively from the store length |
| Rag.Embeddings | rag_engine.py:58-61 | the appended vectors are the embeddings of the chunk texts, one per chunk, in order |
| Rag.RagEngine.constructor | rag_engine.py:17-18 | a new engine has an empty index and an empty store and satisfies the invariant |
| Rag.RagEngine.AddDocuments | rag_engine.py:45-69 | keeps the invariant (index size = record count, dense ids); the store becomes the old store plus every document's chunk records in order; the index grows by their embeddings; the count grows by the chunker's total; the file-name set grows by the names of the non-blank documents |
| Rag.RagEngine.AddDocument | rag_engine.py:50-69 | one pass of the loop appends one document's chunk records, numbered from the store length, and keeps the invariant |
| Rag.RagEngine.StoreChunks | rag_engine.py:58-69 | appends the chunk vectors to the index in one batch and one record per chunk with `chunk_id` equal to the store length before it |
| Rag.RagEngine.ClearIndex | rag_engine.py:184-187 | both index and store become empty; afterwards the stats are (0, 0) and retrieval returns `[]` for every question |
| Rag.RagEngine.GetStats | rag_engine.py:191-196 | `total_chunks` is the record count; `total_documents` is the number of distinct file names, never above the record count, and 0 exactly when the store is empty |
| Rag.RagEngine.RetrieveRelevantChunks | rag_engine.py:75-97 | equals the filter `Relevant` over the search hits; `[]` for an empty store; at most `top_k` results, each under the threshold and a stored record; scores ascending; with a threshold up to `FLT_MAX`, each result is the record at its own `chunk_id` and there are no more results than records |
| Rag.FilterHits | rag_engine.py:90-95 | the `for` loop over the hits collects exactly `Relevant`: each hit under the threshold at a position below the record count, as its record with the distance as score, in search order |
| Rag.RelevantFacts | rag_engine.py:87-95 | filtering a search that keeps its contract gives at most `top_k` results, each under the threshold and a stored record, scores ascending; with a threshold up to `FLT_MAX`, each result is the record at its own `chunk_id` and there are no more results than records |
| Rag.RagEngine.RetrievedFor | rag_engine.py:80-97 | what retrieval returns on the current state: nothing from an empty store, at most `top_k` results, each scored under the threshold |
| Rag.RagEngine.Respond | rag_engine.py:145-168 | the response `query` builds on the current state: `num_sources` is the number of sources, at most five, and with no source the answer is the refusal |
| Rag.RagEngine.Query | rag_engine.py:145-168 | the response is `Respond(question)`; `num_sources` equals the number of sources (at most 5); an empty store gives the refusal with no source; snippets are at most 203 characters; every source names a stored file |
| Rag.BuildSources | rag_engine.py:156-162 | the loop that builds the sources yields exactly `Sources`: one source per retrieved chunk, in order |
| Rag.RagEngine.RespondBounded | rag_engine.py:150-168 | one source per retrieved record in retrieval order, with its filename and snippet; with no source the answer is the refusal |
| Rag.Snippet | rag_engine.py:160 | text of at most 200 characters is kept whole; longer text becomes its first 200 characters followed by "..." (203 characters) |
| Rag.Sources | rag_engine.py:156-162 | one source per chunk, in order, each built from the chunk's filename, snippet and rounded score |
| Rag.Blocks | rag_engine.py:105-108 | one `[From filename]` block per context chunk, in order |
| Rag.IngestedIds | rag_engine.py:64-69 | the k-th appended record has id base + k, so ids stay dense |
| Rag.IngestedCount | rag_engine.py:50-69 | the number of appended records is the sum of the chunk counts of the documents (`TotalChunks`) |
| Rag.IngestedSingle | rag_engine.py:50-69 | one document appends exactly its own records |
| Rag.IngestedStep | rag_engine.py:50-69 | the records `add_documents` appends (`IngestedBy` for any chunker, `Ingested` for the engine's): one more document appends its records, numbered after those of the earlier documents |
| Rag.StoreGrows | rag_engine.py:50-69 | the store after one more document is the previous store plus that document's records |
| Rag.IngestedAppend | rag_engine.py:45-69 | adding two batches in turn appends what adding them as one batch appends |
| Rag.Ingestion | rag_engine.py:45-69 | a store paired with its index before and after ingestion has the old index plus the new embeddings, the chunker's total of new records, and the non-blank documents' names added |
| Rag.ChunkerEmptyOnlyWhenBlank | rag_engine.py:33-43 | the engine's chunker yields no chunk exactly for blank text |
| Rag.PairedExtension | rag_engine.py:58-61 | if both before and after states keep index and store in lock-step, the index grew by exactly the new records' embeddings |
| Rag.FilenameSetAppend | rag_engine.py:195 | the file names of a concatenated store are the union of both parts' names |
| Rag.StoredNameListed | rag_engine.py:195 | a stored record's file name is among the counted names |
| Rag.RecordNames | rag_engine.py:64-69 | the records of one document all carry its file name, and there are none when it has no chunk |
| Rag.IngestedFilenames | rag_engine.py:50-69 | the names on the appended records are exactly those of the documents with non-blank text |
| Rag.FilenameSetBounds | rag_engine.py:193-196 | there are at most as many distinct names as records, and at least one when there is a record |
| Rag.DocumentCount | rag_engine.py:191-196 | adding one document raises `total_documents` by one exactly when its text is not blank and its name is new |
| Rag.RelevantSound | rag_engine.py:90-95 | no more results than hits, and each result is the record and distance of a hit that passes the threshold and position test |
| Rag.Lookup | rag_engine.py:93 | `self.chunks[idx]` for a readable position, a negative one counting from the end, is a stored record, and for a non-negative position it is the record at that position |
| Rag.Relevant | rag_engine.py:90-95 | the filter (`Passes`: distance under the threshold and position below the record count) yields no more results than hits, each scored under the threshold |
| Rag.RelevantComplete | rag_engine.py:90-95 | every hit that passes the test contributes its record and distance |
| Rag.RelevantOrdered | rag_engine.py:87-95 | ascending search distances give ascending similarity scores |
| Rag.RelevantFromStore | rag_engine.py:91-93 | with a threshold up to `FLT_MAX` and dense ids, each result is the record stored at its `chunk_id` |
| Rag.RelevantCountsPositions | rag_engine.py:87-95 | with a threshold up to `FLT_MAX`, there is exactly one result per distinct stored position among the passing hits |
| Rag.RelevantWithinStore | rag_engine.py:87-95 | with a threshold up to `FLT_MAX`, retrieval returns no more results than there are records, because the search never returns a stored position twice |
| Rag.PaddingReadsLastRecord | rag_engine.py:91-93 | a padding hit `(FLT_MAX, -1)` passes `idx < len`, and with a threshold above `FLT_MAX` it reads the last record |
| Rag.GenerateAnswer | rag_engine.py:99-143 | with no context chunk the answer is the fixed refusal; otherwise it is exactly the completion's content for the request built from these chunks, or "Error generating answer: " and the exception's message |
| Rag.Prompt | rag_engine.py:110-119 | the user prompt is, at stated offsets and nothing else: the fixed instructions (`PromptPreamble`), `"Context:\n"`, the context verbatim, `"\n\nQuestion: "`, the question verbatim, and the answer cue `"\n\nAnswer:"` |
| Rag.Layout | rag_engine.py:110-119 | the same layout behind any opening text: the opening, the context header, the context, the question header, the question and the answer cue, each at its offset, and nothing else |
| Rag.PromptCarriesChunks | rag_engine.py:105-133 | every retrieved chunk reaches the model: its `[From filename]` block (`ContextBlock`, joined by blank lines into `Context`) appears verbatim (`Occurs`) in the user message of the request (`RequestFor`, which also fixes the system message, the model, temperature 0.1 and 500 tokens) |
| Rag.ContextCarriesChunk | rag_engine.py:105-108 | each chunk's `[From filename]` block appears verbatim in the joined context |
| Rag.ContextAppend | rag_engine.py:105-108 | the context of two chunk lists is their contexts joined by a blank line, so blocks keep their input order |
| Rag.ContextOfOne | rag_engine.py:105-108 | the context of one chunk is `[From filename]`, a newline and the chunk text |
| FastApiApp.LastDot | fastapi_app.py:65 | the position of the last dot, or -1 when there is none |
| FastApiApp.AfterLastDot | fastapi_app.py:472 | `split('.')[-1]` contains no dot and is the whole name when the name has none |
| FastApiApp.ExtensionShape | fastapi_app.py:65 | a name with a dot is its stem, the last dot and the extension |
| FastApiApp.DispatchExtension | fastapi_app.py:65 | the dispatch extension (`ProcessExtension`) is the lower-cased text after the last dot, or the whole lower-cased name without a dot, and never contains a dot |
| FastApiApp.LowerCommutesWithExtension | fastapi_app.py:65 | lower-then-split (`ProcessExtension`, process_file) gives the same extension as split-then-lower (`UploadExtension`, upload_files, line 472) |
| FastApiApp.ProcessFile | fastapi_app.py:63-81 | only `txt`, `pdf`, `docx`, `csv` succeed; for those, a reader that returns text gives the document with exactly that text under the original name, and a reader that fails gives a 400 "Error processing <name>: <message>"; any other extension is a 400 "Error processing <name>: Unsupported file type: <extension>"; all errors are 400 |
| FastApiApp.FormatsAreAllowed | fastapi_app.py:68-77 | a reader (`FormatOf`) exists exactly for the extensions in the upload allow-list |
| FastApiApp.FilteredFileIsSupported | fastapi_app.py:471-484 | a file that passes the upload filter has a reader, and fails to process exactly when that reader fails |
| FastApiApp.OutcomeExactly | fastapi_app.py:471-488 | a file yields a document (`Outcome`) exactly when its extension passes the filter (`PassesFilter`) and it processes without error; the document keeps the file's name; a file that passes the filter has a reader, yields the document holding exactly the reader's text when that reader succeeds, and nothing when it fails |
| FastApiApp.CollectDocuments | fastapi_app.py:466-488 | the loop's `documents` are the accepted documents in upload order and `uploaded_count` equals their number |
| FastApiApp.CollectedExactly | fastapi_app.py:469-488 | a value is collected exactly when some element yields it; at most one per element |
| FastApiApp.AcceptedExactly | fastapi_app.py:469-488 | a document is in `AcceptedDocuments` exactly when some file passes the extension filter and processes to it; at most one per file |
| FastApiApp.NatToString | fastapi_app.py:498 | `str(n)`: non-empty decimal digits without a leading zero, whose decimal value is n |
| FastApiApp.UploadMessage | fastapi_app.py:498 | the reply message is "Successfully uploaded ", then digits whose decimal value is `uploaded_count`, then " file(s)" |
| FastApiApp.UploadFiles | fastapi_app.py:460-500 | an empty upload is a 400 "No files provided"; otherwise the count and message report the accepted documents, which the engine ingests; the engine is untouched when no document was accepted |
| FastApiApp.ValidQuestion | fastapi_app.py:505-508 | a missing (`QuestionText` reads it as `""`) or blank question is a 400 "Question is required"; otherwise the question goes on as exactly `Strip` of it, which is non-empty and unpadded |
| FastApiApp.Query | fastapi_app.py:502-511 | a rejected question never reaches the engine; an accepted one gets the engine's response to the stripped question |

## Left out

- The embedding model, the index's L2 search, and the float32 conversion are external libraries. They are uninterpreted functions; the search is constrained only by its contract (at most `k` hits, ascending distance, valid or padding positions, no stored position twice).
- Distances are reals, not float32. `round(x, 3)` is an uninterpreted function.
- The chat completion call is an uninterpreted function from the request (system and user messages, model name, temperature 0.1, 500 tokens) to an answer or an error message. Retries and the response structure of the client library are not modelled.
- Rag.RagEngine.constructor: starts from an empty store. `load_index` / `save_index` (disk, the index's binary format, JSON) are file I/O and are not modelled, nor are the `print` calls.
- The PDF, Word, CSV and text readers, and the temporary upload file, are I/O. A reader is a parameter that returns the text or an error message.
- The HTTP routing, CORS, the HTML page, the stats and clear routes (plain forwarding), the API-key startup check, the Gradio client and server startup are UI, configuration and network code.
- Chunker.ChunkText: requires a positive `chunk_size`; the engine only calls it with 500. With `chunk_size == 0` and a positive step every slice is empty, every window is dropped and Python returns `[]`. With a negative `chunk_size` the slice end counts from the end of the word list. Neither case is modelled.
- PyStr.Lower: lower-cases ASCII letters only. Python's Unicode case mapping is not modelled; it cannot change a dot or produce one of the four allowed extensions from non-ASCII letters.
- FastApiApp.Query: the request body is modelled as an optional string. A present but non-string `question` value (which would make `.strip()` raise) is not modelled.
- Rag.RagEngine.AddDocuments: assumes that a document whose text is blank (rag_engine.py:55-61), and so has no chunk, adds nothing to the index or the store. The encoder most likely returns a one-dimensional empty array for an empty list, and the index's `add` then raises `ValueError`. If so, `add_documents` stops at that document, keeps the earlier documents of the batch in memory without saving them, and never adds the later ones. `upload_files` calls it outside any `try` (fastapi_app.py:494-495), so the upload would fail with HTTP 500. The clause of `AddDocuments` on the file-name set, `IngestedFilenames` and `DocumentCount` hold for blank documents only under this assumption. A blank document is ordinary input: an empty `.txt` file, or a PDF whose pages yield no text.
- Concurrent requests against the shared engine are not modelled.
