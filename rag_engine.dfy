/**
 * The retrieval engine (`RAGEngine`): a vector index kept in lock-step with a
 * store of chunk records, nearest-neighbour retrieval under a distance cutoff,
 * grounded answer composition and statistics.
 *
 * The sentence embedder, the FAISS search, the language-model completion call
 * and Python's `round(x, 3)` are external; the engine receives each of them as
 * a function when it is built.
 */
module Rag {
  import opened PyStr
  import Chunker

  /** Dimension of the all-mpnet-base-v2 embeddings. */
  const EmbeddingDim: nat := 768

  type Vector = v: seq<real> | |v| == EmbeddingDim witness seq(EmbeddingDim, _ => 0.0)

  /** A document handed to the engine: its extracted text and the name of its file. */
  datatype Document = Document(text: string, filename: string)

  /** A record of the chunk store. */
  datatype Chunk = Chunk(text: string, filename: string, chunkId: int)

  /** One `(distance, index)` pair of a FAISS search result. */
  datatype Hit = Hit(distance: real, position: int)

  /** A chunk record with the `similarity_score` key added by retrieval. */
  datatype RetrievedChunk = RetrievedChunk(chunk: Chunk, similarityScore: real)

  datatype Source = Source(filename: string, textSnippet: string, similarityScore: real)

  datatype QueryResponse = QueryResponse(answer: string, sources: seq<Source>, numSources: int)

  datatype Stats = Stats(totalChunks: int, totalDocuments: int)

  /** The request sent to the chat-completion service. */
  datatype CompletionRequest = CompletionRequest(
    system: string, user: string, model: string, temperature: real, maxTokens: nat)

  /** The completion service either answers or raises an exception with a message. */
  datatype Completion = Answered(content: string) | Failed(message: string)

  const DefaultTopK: nat := 5
  const DefaultThreshold: real := 1.5

  /** FAISS fills the places it has no neighbour for with position -1 and the largest float32. */
  const PadPosition: int := -1
  const PadDistance: real := 340282346638528859811704183484516925440.0

  const SnippetLength: nat := 200
  const Ellipsis := "..."

  const Refusal := "I don't have enough information in the uploaded documents to answer this question."
  const SystemInstruction := "You are a helpful assistant that answers questions strictly based on provided context. Never make up information."
  const CompletionModel := "llama-3.3-70b-versatile"
  const CompletionTemperature: real := 0.1
  const CompletionMaxTokens: nat := 500
  const ErrorPrefix := "Error generating answer: "

  // ---------------------------------------------------------------------------
  // The FAISS search oracle

  /**
   * What a FAISS search of an index of `n` vectors for `k` neighbours returns: at most
   * `k` pairs, ascending by distance, each a stored position or padding, and no stored
   * position twice.
   */
  ghost predicate HitsWellFormed(hits: seq<Hit>, n: nat, k: nat) {
    && |hits| <= k
    && (forall i, j :: 0 <= i < j < |hits| ==> hits[i].distance <= hits[j].distance)
    && (forall i :: 0 <= i < |hits| ==> 0 <= hits[i].position < n || hits[i] == Hit(PadDistance, PadPosition))
    && (forall i, j :: 0 <= i < j < |hits| && 0 <= hits[i].position ==> hits[i].position != hits[j].position)
  }

  ghost predicate SearchContract(search: (seq<Vector>, Vector, nat) -> seq<Hit>) {
    forall ix: seq<Vector>, q: Vector, k: nat :: HitsWellFormed(search(ix, q, k), |ix|, k)
  }

  // ---------------------------------------------------------------------------
  // The chunk store

  /** The records `add_documents` appends for one document's chunks, numbered from `base`. */
  function Records(texts: seq<string>, filename: string, base: int): (r: seq<Chunk>)
    ensures |r| == |texts|
    ensures forall i :: 0 <= i < |r| ==> r[i] == Chunk(texts[i], filename, base + i)
  {
    seq(|texts|, i requires 0 <= i < |texts| => Chunk(texts[i], filename, base + i))
  }

  /**
   * The records `add_documents(docs)` appends to a store of `base` records,
   * document by document, when `chunkOf` splits a text into chunks.
   */
  function IngestedBy(chunkOf: string -> seq<string>, docs: seq<Document>, base: int): seq<Chunk>
    decreases |docs|
  {
    if docs == [] then []
    else
      var prev := IngestedBy(chunkOf, docs[..|docs| - 1], base);
      var last := docs[|docs| - 1];
      prev + Records(chunkOf(last.text), last.filename, base + |prev|)
  }

  /** The records `add_documents(docs)` appends, with the engine's chunker. */
  function Ingested(docs: seq<Document>, base: int): seq<Chunk> {
    IngestedBy(Chunker.Chunks, docs, base)
  }

  /** How many chunks the documents yield altogether. */
  function TotalChunks(chunkOf: string -> seq<string>, docs: seq<Document>): nat
    decreases |docs|
  {
    if docs == [] then 0 else TotalChunks(chunkOf, docs[..|docs| - 1]) + |chunkOf(docs[|docs| - 1].text)|
  }

  /** The filenames of the documents that yield at least one chunk, i.e. whose text is not blank. */
  function ProductiveNames(docs: seq<Document>): set<string> {
    set i | 0 <= i < |docs| && !IsBlank(docs[i].text) :: docs[i].filename
  }

  /** `chunkOf` yields no chunk exactly for blank text, as the engine's chunker does. */
  ghost predicate EmptyOnlyWhenBlank(chunkOf: string -> seq<string>) {
    forall t :: chunkOf(t) == [] <==> IsBlank(t)
  }

  /** The vectors the embedder gives for the texts of `cs`, in order. */
  function Embeddings(embed: string -> Vector, cs: seq<Chunk>): (r: seq<Vector>)
    ensures |r| == |cs|
    ensures forall i :: 0 <= i < |cs| ==> r[i] == embed(cs[i].text)
    decreases |cs|
  {
    if cs == [] then [] else [embed(cs[0].text)] + Embeddings(embed, cs[1..])
  }

  /** Vector i of the index is the embedding of record i of the store. */
  ghost predicate Paired(embed: string -> Vector, index: seq<Vector>, chunks: seq<Chunk>) {
    |index| == |chunks| && forall i :: 0 <= i < |chunks| ==> index[i] == embed(chunks[i].text)
  }

  function FilenameSet(cs: seq<Chunk>): set<string> {
    set i | 0 <= i < |cs| :: cs[i].filename
  }

  // ---------------------------------------------------------------------------
  // Retrieval

  /** Python reads `chunks[idx]` for a negative `idx` from the end of the list. */
  function Lookup(chunks: seq<Chunk>, position: int): (c: Chunk)
    requires -|chunks| <= position < |chunks|
    ensures c in chunks
    ensures 0 <= position ==> c == chunks[position]
  {
    chunks[if position >= 0 then position else |chunks| + position]
  }

  /** The test a hit must pass: `dist < similarity_threshold and idx < len(self.chunks)`. */
  predicate Passes(h: Hit, n: nat, threshold: real) {
    h.distance < threshold && h.position < n
  }

  /** `rc` is what the filter makes of some hit of `hits` that passes it. */
  ghost predicate FromPassingHit(rc: RetrievedChunk, hits: seq<Hit>, chunks: seq<Chunk>, threshold: real)
    requires PositionsReadable(hits, |chunks|)
  {
    exists i :: 0 <= i < |hits| && Passes(hits[i], |chunks|, threshold)
      && rc == RetrievedChunk(Lookup(chunks, hits[i].position), hits[i].distance)
  }

  predicate PositionsReadable(hits: seq<Hit>, n: nat) {
    forall i :: 0 <= i < |hits| ==> -(n as int) <= hits[i].position
  }

  /** The hits that pass the filter, in search order, each turned into its chunk record with the distance as score. */
  function Relevant(hits: seq<Hit>, chunks: seq<Chunk>, threshold: real): (r: seq<RetrievedChunk>)
    requires PositionsReadable(hits, |chunks|)
    ensures |r| <= |hits|
    ensures forall i :: 0 <= i < |r| ==> r[i].similarityScore < threshold
    decreases |hits|
  {
    if hits == [] then []
    else
      var h := hits[|hits| - 1];
      Relevant(hits[..|hits| - 1], chunks, threshold)
        + if Passes(h, |chunks|, threshold) then [RetrievedChunk(Lookup(chunks, h.position), h.distance)] else []
  }

  // ---------------------------------------------------------------------------
  // Answer and response composition

  /** `f"[From {filename}]\n{text}"`. */
  function ContextBlock(c: RetrievedChunk): string {
    "[From " + c.chunk.filename + "]\n" + c.chunk.text
  }

  function Blocks(cs: seq<RetrievedChunk>): (r: seq<string>)
    ensures |r| == |cs|
    ensures forall i :: 0 <= i < |cs| ==> r[i] == ContextBlock(cs[i])
  {
    seq(|cs|, i requires 0 <= i < |cs| => ContextBlock(cs[i]))
  }

  /** The context: the blocks joined by blank lines. */
  function Context(cs: seq<RetrievedChunk>): string {
    Join(Blocks(cs), "\n\n")
  }

  /** The fixed instructions that open the user prompt. */
  const PromptPreamble := "You are a helpful assistant that answers questions based ONLY on the provided context. \n"
    + "If the answer cannot be found in the context, you must respond with: \"I don't have enough information in the uploaded documents.\"\n\n"

  const ContextHeader := "Context:\n"
  const QuestionHeader := "\n\nQuestion: "
  const AnswerCue := "\n\nAnswer:"

  /**
   * The user prompt: the instructions, then the context and the question, each
   * verbatim under its header, and the answer cue last.
   */
  function Prompt(context: string, query: string): (r: string)
    ensures var c := |PromptPreamble| + |ContextHeader|;
      var q := c + |context| + |QuestionHeader|;
      && |r| == q + |query| + |AnswerCue|
      && r[..|PromptPreamble|] == PromptPreamble
      && r[|PromptPreamble|..c] == ContextHeader
      && r[c..c + |context|] == context
      && r[c + |context|..q] == QuestionHeader
      && r[q..q + |query|] == query
      && r[q + |query|..] == AnswerCue
  {
    Layout(PromptPreamble, context, query)
  }

  /** The prompt's layout behind any opening text `p`, so that the long instructions are handled as one piece. */
  function Layout(p: string, context: string, query: string): (r: string)
    ensures var c := |p| + |ContextHeader|;
      var q := c + |context| + |QuestionHeader|;
      && |r| == q + |query| + |AnswerCue|
      && r[..|p|] == p
      && r[|p|..c] == ContextHeader
      && r[c..c + |context|] == context
      && r[c + |context|..q] == QuestionHeader
      && r[q..q + |query|] == query
      && r[q + |query|..] == AnswerCue
  {
    SixPieces(p, ContextHeader, context, QuestionHeader, query, AnswerCue);
    p + ContextHeader + context + QuestionHeader + query + AnswerCue
  }

  function RequestFor(query: string, cs: seq<RetrievedChunk>): CompletionRequest {
    CompletionRequest(SystemInstruction, Prompt(Context(cs), query), CompletionModel, CompletionTemperature, CompletionMaxTokens)
  }

  /** `generate_answer`: the refusal without context, otherwise what the completion service says, or its error. */
  function GenerateAnswer(query: string, cs: seq<RetrievedChunk>, complete: CompletionRequest -> Completion): (r: string)
    ensures cs == [] ==> r == Refusal
    ensures cs != [] ==> match complete(RequestFor(query, cs))
      case Answered(content) => r == content
      case Failed(message) => r == ErrorPrefix + message
  {
    if cs == [] then Refusal
    else match complete(RequestFor(query, cs))
      case Answered(content) => content
      case Failed(message) => ErrorPrefix + message
  }

  /** The chunk text cut at 200 characters, with "..." only when something was cut. */
  function Snippet(text: string): (r: string)
    ensures |text| <= SnippetLength ==> r == text
    ensures |text| > SnippetLength ==> |r| == SnippetLength + |Ellipsis| && r[SnippetLength..] == Ellipsis
    ensures |r| <= SnippetLength + |Ellipsis|
    ensures |text| > SnippetLength ==> r[..SnippetLength] == text[..SnippetLength]
  {
    if |text| > SnippetLength then text[..SnippetLength] + Ellipsis else text
  }

  function SourceOf(c: RetrievedChunk, round3: real -> real): Source {
    Source(c.chunk.filename, Snippet(c.chunk.text), round3(c.similarityScore))
  }

  function Sources(cs: seq<RetrievedChunk>, round3: real -> real): (r: seq<Source>)
    ensures |r| == |cs|
    ensures forall i :: 0 <= i < |cs| ==> r[i] == SourceOf(cs[i], round3)
  {
    seq(|cs|, i requires 0 <= i < |cs| => SourceOf(cs[i], round3))
  }

  /** The loop of `query` that turns each retrieved chunk into its source, in order. */
  method BuildSources(relevant: seq<RetrievedChunk>, round3: real -> real) returns (sources: seq<Source>)
    ensures sources == Sources(relevant, round3)
  {
    sources := [];
    for i := 0 to |relevant|
      invariant |sources| == i
      invariant forall j :: 0 <= j < i ==> sources[j] == SourceOf(relevant[j], round3)
    {
      sources := sources + [SourceOf(relevant[i], round3)];
    }
  }

  // ---------------------------------------------------------------------------
  // The engine

  class RagEngine {
    const embed: string -> Vector
    const search: (seq<Vector>, Vector, nat) -> seq<Hit>
    const complete: CompletionRequest -> Completion
    const round3: real -> real

    /** `self.index`: the stored vectors, in insertion order. */
    var index: seq<Vector>
    /** `self.chunks`: the chunk records, position i paired with vector i. */
    var chunks: seq<Chunk>

    /** The index and the store have the same length, ids are positions, and vector i embeds chunk i. */
    ghost predicate Valid()
      reads this
    {
      && SearchContract(search)
      && Paired(embed, index, chunks)
      && (forall i :: 0 <= i < |chunks| ==> chunks[i].chunkId == i)
    }

    /** A fresh engine over an empty index (nothing persisted yet). */
    constructor (embed: string -> Vector, search: (seq<Vector>, Vector, nat) -> seq<Hit>,
                 complete: CompletionRequest -> Completion, round3: real -> real)
      requires SearchContract(search)
      ensures Valid()
      ensures this.embed == embed && this.search == search && this.complete == complete && this.round3 == round3
      ensures index == [] && chunks == []
    {
      this.embed := embed;
      this.search := search;
      this.complete := complete;
      this.round3 := round3;
      index := [];
      chunks := [];
    }

    /**
     * `add_documents`: chunk each document, append its vectors to the index and
     * its records, numbered by the store length, to the store.
     */
    method AddDocuments(documents: seq<Document>)
      requires Valid()
      modifies this
      ensures Valid()
      ensures chunks == old(chunks) + Ingested(documents, |old(chunks)|)
      ensures index == old(index) + Embeddings(embed, Ingested(documents, |old(chunks)|))
      ensures |chunks| == |old(chunks)| + TotalChunks(Chunker.Chunks, documents)
      ensures FilenameSet(chunks) == FilenameSet(old(chunks)) + ProductiveNames(documents)
    {
      var d := 0;
      while d < |documents|
        invariant 0 <= d <= |documents|
        invariant Valid()
        invariant chunks == old(chunks) + Ingested(documents[..d], |old(chunks)|)
      {
        AddDocument(documents[d]);
        StoreGrows(Chunker.Chunks, old(chunks), documents, d);
        d := d + 1;
      }
      assert documents[..d] == documents;
      Ingestion(embed, old(index), old(chunks), index, documents);
    }

    /** One pass of the loop of `add_documents`: chunk the text, then store the chunks. */
    method AddDocument(doc: Document)
      requires Valid()
      modifies this
      ensures Valid()
      ensures chunks == old(chunks) + Records(Chunker.Chunks(doc.text), doc.filename, |old(chunks)|)
    {
      var r := Chunker.ChunkText(doc.text, Chunker.DefaultChunkSize, Chunker.DefaultOverlap);
      assert r.value == Chunker.Chunks(doc.text);
      StoreChunks(r.value, doc.filename);
    }

    /**
     * The store step of `add_documents` for one document: its chunk vectors go to the
     * index in one batch, then one record per chunk goes to the store.
     */
    method StoreChunks(textChunks: seq<string>, filename: string)
      requires Valid()
      modifies this
      ensures Valid()
      ensures chunks == old(chunks) + Records(textChunks, filename, |old(chunks)|)
      ensures index == old(index) + seq(|textChunks|, i requires 0 <= i < |textChunks| => embed(textChunks[i]))
    {
      var embeddings := seq(|textChunks|, i requires 0 <= i < |textChunks| => embed(textChunks[i]));
      index := index + embeddings;
      var j := 0;
      while j < |textChunks|
        invariant 0 <= j <= |textChunks|
        invariant index == old(index) + embeddings
        invariant chunks == old(chunks) + Records(textChunks[..j], filename, |old(chunks)|)
      {
        assert textChunks[..j + 1] == textChunks[..j] + [textChunks[j]];
        chunks := chunks + [Chunk(textChunks[j], filename, |chunks|)];
        j := j + 1;
      }
      assert textChunks[..j] == textChunks;
    }

    /** `clear_index`: a new empty index and an empty store. */
    method ClearIndex()
      requires Valid()
      modifies this
      ensures Valid() && index == [] && chunks == []
      ensures GetStats() == Stats(0, 0)
      ensures forall q, k, t :: RetrievedFor(q, k, t) == []
    {
      index := [];
      chunks := [];
    }

    /** `get_stats`: the number of records and of distinct filenames among them. */
    function GetStats(): (s: Stats)
      reads this
      ensures s.totalChunks == |chunks|
      ensures s.totalDocuments == |FilenameSet(chunks)|
      ensures 0 <= s.totalDocuments <= s.totalChunks
      ensures s.totalDocuments == 0 <==> s.totalChunks == 0
    {
      FilenameSetBounds(chunks);
      Stats(|chunks|, if |chunks| > 0 then |FilenameSet(chunks)| else 0)
    }

    /** What retrieval returns for `query` on the current state. */
    function RetrievedFor(query: string, topK: nat, threshold: real): (r: seq<RetrievedChunk>)
      reads this
      requires Valid()
      ensures chunks == [] ==> r == []
      ensures |r| <= topK
      ensures forall i :: 0 <= i < |r| ==> r[i].similarityScore < threshold
    {
      if |chunks| == 0 then []
      else
        var hits := search(index, embed(query), topK);
        assert HitsWellFormed(hits, |index|, topK);
        Relevant(hits, chunks, threshold)
    }

    /** The response `query(question)` builds on the current state. */
    function Respond(question: string): (r: QueryResponse)
      reads this
      requires Valid()
      ensures r.numSources == |r.sources| <= DefaultTopK
      ensures r.sources == [] ==> r.answer == Refusal
    {
      var relevant := RetrievedFor(question, DefaultTopK, DefaultThreshold);
      var sources := Sources(relevant, round3);
      QueryResponse(GenerateAnswer(question, relevant, complete), sources, |sources|)
    }

    /**
     * `retrieve_relevant_chunks`: nothing from an empty store; otherwise the
     * searched hits under the threshold, in search order.
     */
    method RetrieveRelevantChunks(query: string, topK: nat, threshold: real) returns (relevant: seq<RetrievedChunk>)
      requires Valid()
      ensures relevant == RetrievedFor(query, topK, threshold)
      ensures chunks == [] ==> relevant == []
      ensures |relevant| <= topK
      ensures forall i :: 0 <= i < |relevant| ==> relevant[i].similarityScore < threshold && relevant[i].chunk in chunks
      ensures forall i, j :: 0 <= i < j < |relevant| ==> relevant[i].similarityScore <= relevant[j].similarityScore
      ensures threshold <= PadDistance ==>
        forall i :: 0 <= i < |relevant| ==>
          0 <= relevant[i].chunk.chunkId < |chunks| && chunks[relevant[i].chunk.chunkId] == relevant[i].chunk
      ensures threshold <= PadDistance ==> |relevant| <= |chunks|
    {
      if |chunks| == 0 {
        return [];
      }
      var queryEmbedding := embed(query);
      var hits := search(index, queryEmbedding, topK);
      assert HitsWellFormed(hits, |index|, topK);
      RelevantFacts(hits, chunks, threshold, topK);
      relevant := FilterHits(hits, chunks, threshold);
    }

    /**
     * `query`: retrieve with the defaults, compose the answer, and build one
     * source per retrieved chunk in the same order.
     */
    method Query(question: string) returns (response: QueryResponse)
      requires Valid()
      ensures response == Respond(question)
      ensures response.numSources == |response.sources| <= DefaultTopK
      ensures chunks == [] ==> response == QueryResponse(Refusal, [], 0)
      ensures forall i :: 0 <= i < |response.sources| ==>
        && |response.sources[i].textSnippet| <= SnippetLength + |Ellipsis|
        && response.sources[i].filename in FilenameSet(chunks)
    {
      var relevant := RetrieveRelevantChunks(question, DefaultTopK, DefaultThreshold);
      var answer := GenerateAnswer(question, relevant, complete);
      var sources := BuildSources(relevant, round3);
      response := QueryResponse(answer, sources, |sources|);
      RespondBounded(question);
    }

    /**
     * The response has one source per retrieved record, in retrieval order, at
     * most five, each with a short snippet and a file name of the store; with
     * no source the answer is the refusal.
     */
    lemma RespondBounded(question: string)
      requires Valid()
      ensures var response := Respond(question);
        var relevant := RetrievedFor(question, DefaultTopK, DefaultThreshold);
        && response.numSources == |response.sources| == |relevant| <= DefaultTopK
        && (forall i :: 0 <= i < |relevant| ==>
          response.sources[i].filename == relevant[i].chunk.filename
          && response.sources[i].textSnippet == Snippet(relevant[i].chunk.text))
        && (response.sources == [] ==> response.answer == Refusal)
        && (chunks == [] ==> response == QueryResponse(Refusal, [], 0))
        && forall i :: 0 <= i < |response.sources| ==>
          && |response.sources[i].textSnippet| <= SnippetLength + |Ellipsis|
          && response.sources[i].filename in FilenameSet(chunks)
    {
      var relevant := RetrievedFor(question, DefaultTopK, DefaultThreshold);
      if chunks != [] {
        var hits := search(index, embed(question), DefaultTopK);
        assert HitsWellFormed(hits, |index|, DefaultTopK);
        RelevantSound(hits, chunks, DefaultThreshold);
        forall i | 0 <= i < |relevant| ensures relevant[i].chunk.filename in FilenameSet(chunks) {
          assert FromPassingHit(relevant[i], hits, chunks, DefaultThreshold);
          StoredNameListed(chunks, relevant[i].chunk);
        }
      }
    }
  }

  // ---------------------------------------------------------------------------
  // Lemmas: the chunk store

  /** Ids of the appended records run on from `base` without a gap. */
  lemma {:induction false} IngestedIds(chunkOf: string -> seq<string>, docs: seq<Document>, base: int)
    ensures forall k :: 0 <= k < |IngestedBy(chunkOf, docs, base)| ==> IngestedBy(chunkOf, docs, base)[k].chunkId == base + k
    decreases |docs|
  {
    if docs != [] {
      IngestedIds(chunkOf, docs[..|docs| - 1], base);
    }
  }

  /** The store grows by exactly the number of chunks the documents yield. */
  lemma {:induction false} IngestedCount(chunkOf: string -> seq<string>, docs: seq<Document>, base: int)
    ensures |IngestedBy(chunkOf, docs, base)| == TotalChunks(chunkOf, docs)
    decreases |docs|
  {
    if docs != [] {
      IngestedCount(chunkOf, docs[..|docs| - 1], base);
    }
  }

  /** One document yields its chunks in order, under its filename, numbered from `base`. */
  lemma IngestedSingle(chunkOf: string -> seq<string>, d: Document, base: int)
    ensures IngestedBy(chunkOf, [d], base) == Records(chunkOf(d.text), d.filename, base)
  {
    assert [d][..0] == [];
  }

  /** Ingesting one more document appends that document's records, numbered after the earlier ones. */
  lemma IngestedStep(chunkOf: string -> seq<string>, docs: seq<Document>, d: int, base: int)
    requires 0 <= d < |docs|
    ensures IngestedBy(chunkOf, docs[..d + 1], base)
      == IngestedBy(chunkOf, docs[..d], base) + Records(chunkOf(docs[d].text), docs[d].filename, base + |IngestedBy(chunkOf, docs[..d], base)|)
  {
    assert docs[..d + 1][..d] == docs[..d];
  }

  /**
   * What a store paired before and after ingesting `docs` says about the new
   * index, the record count and the listed file names.
   */
  lemma Ingestion(embed: string -> Vector, index: seq<Vector>, chunks: seq<Chunk>, index': seq<Vector>, docs: seq<Document>)
    requires Paired(embed, index, chunks)
    requires Paired(embed, index', chunks + Ingested(docs, |chunks|))
    ensures index' == index + Embeddings(embed, Ingested(docs, |chunks|))
    ensures |Ingested(docs, |chunks|)| == TotalChunks(Chunker.Chunks, docs)
    ensures FilenameSet(chunks + Ingested(docs, |chunks|)) == FilenameSet(chunks) + ProductiveNames(docs)
  {
    var added := Ingested(docs, |chunks|);
    PairedExtension(embed, index, chunks, index', added);
    IngestedCount(Chunker.Chunks, docs, |chunks|);
    ChunkerEmptyOnlyWhenBlank();
    IngestedFilenames(Chunker.Chunks, docs, |chunks|);
    FilenameSetAppend(chunks, added);
  }

  /** A store that grows by one document's records holds the ingestion of one more document. */
  lemma StoreGrows(chunkOf: string -> seq<string>, start: seq<Chunk>, docs: seq<Document>, d: int)
    requires 0 <= d < |docs|
    ensures start + IngestedBy(chunkOf, docs[..d + 1], |start|)
      == (start + IngestedBy(chunkOf, docs[..d], |start|))
        + Records(chunkOf(docs[d].text), docs[d].filename, |start + IngestedBy(chunkOf, docs[..d], |start|)|)
  {
    var prev := IngestedBy(chunkOf, docs[..d], |start|);
    var recs := Records(chunkOf(docs[d].text), docs[d].filename, |start| + |prev|);
    IngestedStep(chunkOf, docs, d, |start|);
    assert |start + prev| == |start| + |prev|;
    assert start + (prev + recs) == (start + prev) + recs;
  }

  /** Ingesting two batches one after the other appends what ingesting them as one batch appends. */
  lemma {:induction false} IngestedAppend(chunkOf: string -> seq<string>, a: seq<Document>, b: seq<Document>, base: int)
    ensures IngestedBy(chunkOf, a + b, base)
      == IngestedBy(chunkOf, a, base) + IngestedBy(chunkOf, b, base + |IngestedBy(chunkOf, a, base)|)
    decreases |b|
  {
    if b == [] {
      assert a + b == a;
    } else {
      var b' := b[..|b| - 1];
      assert (a + b)[..|a + b| - 1] == a + b';
      assert (a + b)[|a + b| - 1] == b[|b| - 1];
      IngestedAppend(chunkOf, a, b', base);
    }
  }

  /** The engine's chunker yields no chunk exactly for blank text. */
  lemma ChunkerEmptyOnlyWhenBlank()
    ensures EmptyOnlyWhenBlank(Chunker.Chunks)
  {
    forall t ensures Chunker.Chunks(t) == [] <==> IsBlank(t) {
      Chunker.ChunksOfBlank(t);
    }
  }

  /** When the extended index is still paired with the extended store, the new vectors are the new records' embeddings. */
  lemma PairedExtension(embed: string -> Vector, index: seq<Vector>, chunks: seq<Chunk>, index': seq<Vector>, added: seq<Chunk>)
    requires Paired(embed, index, chunks) && Paired(embed, index', chunks + added)
    ensures index' == index + Embeddings(embed, added)
  {
    var e := Embeddings(embed, added);
    forall i | 0 <= i < |index'| ensures index'[i] == (index + e)[i] {
      if i < |index| {
        assert (chunks + added)[i] == chunks[i];
      } else {
        assert (chunks + added)[i] == added[i - |index|];
      }
    }
  }

  lemma FilenameSetAppend(a: seq<Chunk>, b: seq<Chunk>)
    ensures FilenameSet(a + b) == FilenameSet(a) + FilenameSet(b)
  {
    forall f | f in FilenameSet(a + b) ensures f in FilenameSet(a) + FilenameSet(b) {
      var i :| 0 <= i < |a + b| && (a + b)[i].filename == f;
      if i >= |a| { assert b[i - |a|].filename == f; }
    }
    forall f | f in FilenameSet(a) ensures f in FilenameSet(a + b) {
      var i :| 0 <= i < |a| && a[i].filename == f;
      assert (a + b)[i].filename == f;
    }
    forall f | f in FilenameSet(b) ensures f in FilenameSet(a + b) {
      var i :| 0 <= i < |b| && b[i].filename == f;
      assert (a + b)[|a| + i].filename == f;
    }
  }

  lemma StoredNameListed(cs: seq<Chunk>, c: Chunk)
    requires c in cs
    ensures c.filename in FilenameSet(cs)
  {
    var i :| 0 <= i < |cs| && cs[i] == c;
  }

  /** The new filenames are exactly those of the documents whose text is not blank. */
  lemma {:induction false} IngestedFilenames(chunkOf: string -> seq<string>, docs: seq<Document>, base: int)
    requires EmptyOnlyWhenBlank(chunkOf)
    ensures FilenameSet(IngestedBy(chunkOf, docs, base)) == ProductiveNames(docs)
    decreases |docs|
  {
    if docs != [] {
      var init := docs[..|docs| - 1];
      var last := docs[|docs| - 1];
      var prev := IngestedBy(chunkOf, init, base);
      var recs := Records(chunkOf(last.text), last.filename, base + |prev|);
      assert IngestedBy(chunkOf, docs, base) == prev + recs;
      IngestedFilenames(chunkOf, init, base);
      FilenameSetAppend(prev, recs);
      RecordNames(chunkOf(last.text), last.filename, base + |prev|);
      assert chunkOf(last.text) == [] <==> IsBlank(last.text);
      ProductiveNamesSnoc(docs);
    }
  }

  /** The records of one document carry its name, unless there are none. */
  lemma RecordNames(texts: seq<string>, filename: string, base: int)
    ensures FilenameSet(Records(texts, filename, base)) == if texts == [] then {} else {filename}
  {
    if texts != [] {
      assert Records(texts, filename, base)[0].filename == filename;
    }
  }

  lemma ProductiveNamesSnoc(docs: seq<Document>)
    requires docs != []
    ensures var last := docs[|docs| - 1];
      ProductiveNames(docs) == ProductiveNames(docs[..|docs| - 1]) + if IsBlank(last.text) then {} else {last.filename}
  {
    var init := docs[..|docs| - 1];
    var last := docs[|docs| - 1];
    forall f | f in ProductiveNames(docs) ensures f in ProductiveNames(init) + (if IsBlank(last.text) then {} else {last.filename}) {
      var i :| 0 <= i < |docs| && !IsBlank(docs[i].text) && docs[i].filename == f;
      if i < |init| { assert init[i] == docs[i]; }
    }
    forall f | f in ProductiveNames(init) ensures f in ProductiveNames(docs) {
      var i :| 0 <= i < |init| && !IsBlank(init[i].text) && init[i].filename == f;
      assert docs[i] == init[i];
    }
  }

  /** Adding one name to a set of names adds at most one to its size. */
  lemma AddOneName(names: set<string>, name: string)
    ensures 1 <= |names + {name}| <= |names| + 1
  {
    if name in names {
      assert names + {name} == names;
    }
  }

  /** There are never more distinct filenames than records, and at least one when there is a record. */
  lemma {:induction false} FilenameSetBounds(cs: seq<Chunk>)
    ensures |FilenameSet(cs)| <= |cs|
    ensures cs != [] ==> |FilenameSet(cs)| >= 1
    decreases |cs|
  {
    if cs != [] {
      var init, last := cs[..|cs| - 1], cs[|cs| - 1];
      FilenameSetBounds(init);
      FilenameSetSnoc(init, last);
      assert init + [last] == cs;
      AddOneName(FilenameSet(init), last.filename);
    }
  }

  /** One more record adds its file name. */
  lemma FilenameSetSnoc(init: seq<Chunk>, last: Chunk)
    ensures FilenameSet(init + [last]) == FilenameSet(init) + {last.filename}
  {
    FilenameSetAppend(init, [last]);
    assert [last][0] == last;
    assert FilenameSet([last]) == {last.filename};
  }

  /**
   * Adding one document adds one to the number of distinct filenames exactly
   * when its text is not blank and its filename is new.
   */
  lemma DocumentCount(cs: seq<Chunk>, d: Document)
    ensures |FilenameSet(cs + Ingested([d], |cs|))|
      == |FilenameSet(cs)| + if !IsBlank(d.text) && d.filename !in FilenameSet(cs) then 1 else 0
  {
    ChunkerEmptyOnlyWhenBlank();
    IngestedFilenames(Chunker.Chunks, [d], |cs|);
    FilenameSetAppend(cs, Ingested([d], |cs|));
    ProductiveNamesSnoc([d]);
    assert [d][..0] == [];
    var names := FilenameSet(cs);
    if !IsBlank(d.text) && d.filename !in names {
      assert |names + {d.filename}| == |names| + 1;
    } else if !IsBlank(d.text) {
      assert names + {d.filename} == names;
    } else {
      assert names + {} == names;
    }
  }

  // ---------------------------------------------------------------------------
  // Lemmas: retrieval

  /** Every result comes from a hit that passed the filter, as its chunk record with its distance. */
  lemma {:induction false} RelevantSound(hits: seq<Hit>, chunks: seq<Chunk>, threshold: real)
    requires PositionsReadable(hits, |chunks|)
    ensures |Relevant(hits, chunks, threshold)| <= |hits|
    ensures forall j :: 0 <= j < |Relevant(hits, chunks, threshold)| ==>
      FromPassingHit(Relevant(hits, chunks, threshold)[j], hits, chunks, threshold)
    decreases |hits|
  {
    if hits != [] {
      var init := hits[..|hits| - 1];
      RelevantSound(init, chunks, threshold);
      var r := Relevant(hits, chunks, threshold);
      var r0 := Relevant(init, chunks, threshold);
      forall j | 0 <= j < |r| ensures FromPassingHit(r[j], hits, chunks, threshold) {
        if j < |r0| {
          assert r[j] == r0[j];
          assert FromPassingHit(r0[j], init, chunks, threshold);
          var i :| 0 <= i < |init| && Passes(init[i], |chunks|, threshold)
            && r0[j] == RetrievedChunk(Lookup(chunks, init[i].position), init[i].distance);
          assert hits[i] == init[i];
        } else {
          var last := |hits| - 1;
          assert r[j] == RetrievedChunk(Lookup(chunks, hits[last].position), hits[last].distance);
        }
      }
    }
  }

  /** Every hit that passes the filter is among the results. */
  lemma {:induction false} RelevantComplete(hits: seq<Hit>, chunks: seq<Chunk>, threshold: real)
    requires PositionsReadable(hits, |chunks|)
    ensures forall i :: 0 <= i < |hits| && Passes(hits[i], |chunks|, threshold) ==>
      RetrievedChunk(Lookup(chunks, hits[i].position), hits[i].distance) in Relevant(hits, chunks, threshold)
    decreases |hits|
  {
    if hits != [] {
      var init := hits[..|hits| - 1];
      RelevantComplete(init, chunks, threshold);
      forall i | 0 <= i < |hits| && Passes(hits[i], |chunks|, threshold)
        ensures RetrievedChunk(Lookup(chunks, hits[i].position), hits[i].distance) in Relevant(hits, chunks, threshold)
      {
        if i < |init| { assert init[i] == hits[i]; }
      }
    }
  }

  /** Search results in ascending distance give results in ascending score: the filter keeps the search order. */
  lemma {:induction false} RelevantOrdered(hits: seq<Hit>, chunks: seq<Chunk>, threshold: real)
    requires PositionsReadable(hits, |chunks|)
    requires forall i, j :: 0 <= i < j < |hits| ==> hits[i].distance <= hits[j].distance
    ensures var r := Relevant(hits, chunks, threshold);
      forall i, j :: 0 <= i < j < |r| ==> r[i].similarityScore <= r[j].similarityScore
    decreases |hits|
  {
    if hits != [] {
      var init := hits[..|hits| - 1];
      RelevantOrdered(init, chunks, threshold);
      RelevantSound(init, chunks, threshold);
      var r0 := Relevant(init, chunks, threshold);
      forall j | 0 <= j < |r0| ensures r0[j].similarityScore <= hits[|hits| - 1].distance {
        assert FromPassingHit(r0[j], init, chunks, threshold);
        var i :| 0 <= i < |init| && Passes(init[i], |chunks|, threshold)
          && r0[j] == RetrievedChunk(Lookup(chunks, init[i].position), init[i].distance);
        assert init[i] == hits[i];
      }
    }
  }

  /**
   * With a threshold no larger than the padding distance no padding entry gets
   * through, so every result is the record stored at its own id.
   */
  lemma RelevantFromStore(hits: seq<Hit>, chunks: seq<Chunk>, threshold: real, k: nat)
    requires HitsWellFormed(hits, |chunks|, k) && |chunks| > 0
    requires forall i :: 0 <= i < |chunks| ==> chunks[i].chunkId == i
    requires threshold <= PadDistance
    ensures PositionsReadable(hits, |chunks|)
    ensures var r := Relevant(hits, chunks, threshold);
      forall j :: 0 <= j < |r| ==> 0 <= r[j].chunk.chunkId < |chunks| && chunks[r[j].chunk.chunkId] == r[j].chunk
  {
    RelevantSound(hits, chunks, threshold);
    var r := Relevant(hits, chunks, threshold);
    forall j | 0 <= j < |r| ensures 0 <= r[j].chunk.chunkId < |chunks| && chunks[r[j].chunk.chunkId] == r[j].chunk {
      assert FromPassingHit(r[j], hits, chunks, threshold);
      var i :| 0 <= i < |hits| && Passes(hits[i], |chunks|, threshold)
        && r[j] == RetrievedChunk(Lookup(chunks, hits[i].position), hits[i].distance);
      assert hits[i].position >= 0;
    }
  }

  /** The store positions of the hits that pass the filter. */
  ghost function PassingPositions(hits: seq<Hit>, n: nat, threshold: real): set<int> {
    set i | 0 <= i < |hits| && Passes(hits[i], n, threshold) :: hits[i].position
  }

  /** Under a threshold that rules out padding, each result comes from its own stored position. */
  lemma {:induction false} RelevantCountsPositions(hits: seq<Hit>, chunks: seq<Chunk>, threshold: real, k: nat)
    requires HitsWellFormed(hits, |chunks|, k) && |chunks| > 0
    requires threshold <= PadDistance
    ensures PositionsReadable(hits, |chunks|)
    ensures |Relevant(hits, chunks, threshold)| == |PassingPositions(hits, |chunks|, threshold)|
    decreases |hits|
  {
    if hits != [] {
      var init, h := hits[..|hits| - 1], hits[|hits| - 1];
      HitsPrefix(hits, |chunks|, k);
      RelevantCountsPositions(init, chunks, threshold, k);
      PassingSnoc(hits, |chunks|, threshold, k);
    }
  }

  /** Dropping the last hit keeps a search result well formed. */
  lemma HitsPrefix(hits: seq<Hit>, n: nat, k: nat)
    requires HitsWellFormed(hits, n, k) && hits != []
    ensures HitsWellFormed(hits[..|hits| - 1], n, k)
  {
    var init := hits[..|hits| - 1];
    assert forall i :: 0 <= i < |init| ==> init[i] == hits[i];
  }

  /** The last hit adds its position to the passing positions when it passes, and that position is new. */
  lemma PassingSnoc(hits: seq<Hit>, n: nat, threshold: real, k: nat)
    requires HitsWellFormed(hits, n, k) && hits != [] && threshold <= PadDistance
    ensures var prev := PassingPositions(hits[..|hits| - 1], n, threshold);
      var h := hits[|hits| - 1];
      && (Passes(h, n, threshold) ==> h.position !in prev && PassingPositions(hits, n, threshold) == prev + {h.position})
      && (!Passes(h, n, threshold) ==> PassingPositions(hits, n, threshold) == prev)
  {
    var init, h := hits[..|hits| - 1], hits[|hits| - 1];
    var prev := PassingPositions(init, n, threshold);
    assert forall i :: 0 <= i < |init| ==> init[i] == hits[i];
    if Passes(h, n, threshold) {
      assert h.position !in prev;
    }
  }

  /** A set of positions below `n` has at most `n` members. */
  lemma {:induction false} PositionsBelow(positions: set<int>, n: nat)
    requires forall x :: x in positions ==> 0 <= x < n
    ensures |positions| <= n
    decreases n
  {
    if n == 0 {
      assert forall x :: x !in positions;
      assert positions == {};
    } else {
      var rest := positions - {n - 1};
      PositionsBelow(rest, n - 1);
      if n - 1 in positions {
        assert positions == rest + {n - 1};
      } else {
        assert positions == rest;
      }
    }
  }

  /**
   * FAISS returns a stored vector at most once, so under a threshold that rules out
   * padding, retrieval from a store of fewer than `k` records returns at most one
   * result per record.
   */
  lemma RelevantWithinStore(hits: seq<Hit>, chunks: seq<Chunk>, threshold: real, k: nat)
    requires HitsWellFormed(hits, |chunks|, k) && |chunks| > 0
    requires threshold <= PadDistance
    ensures PositionsReadable(hits, |chunks|)
    ensures |Relevant(hits, chunks, threshold)| <= |chunks|
  {
    RelevantCountsPositions(hits, chunks, threshold, k);
    PositionsBelow(PassingPositions(hits, |chunks|, threshold), |chunks|);
  }

  /** The loop of `retrieve_relevant_chunks`: keep each hit under the threshold at a position below the store's length, in search order. */
  method FilterHits(hits: seq<Hit>, chunks: seq<Chunk>, threshold: real) returns (relevant: seq<RetrievedChunk>)
    requires PositionsReadable(hits, |chunks|)
    ensures relevant == Relevant(hits, chunks, threshold)
  {
    relevant := [];
    for i := 0 to |hits|
      invariant relevant == Relevant(hits[..i], chunks, threshold)
    {
      assert hits[..i + 1][..i] == hits[..i];
      var h := hits[i];
      if h.distance < threshold && h.position < |chunks| {
        relevant := relevant + [RetrievedChunk(Lookup(chunks, h.position), h.distance)];
      }
    }
    assert hits[..|hits|] == hits;
  }

  /**
   * What filtering a well-formed search gives: at most `k` results, each under
   * the threshold and a stored record, scores ascending; with a threshold up
   * to `FLT_MAX`, each result is the record at its own id and there are no
   * more results than records.
   */
  lemma RelevantFacts(hits: seq<Hit>, chunks: seq<Chunk>, threshold: real, k: nat)
    requires HitsWellFormed(hits, |chunks|, k) && |chunks| > 0
    requires forall i :: 0 <= i < |chunks| ==> chunks[i].chunkId == i
    ensures PositionsReadable(hits, |chunks|)
    ensures var r := Relevant(hits, chunks, threshold);
      && |r| <= k
      && (forall i :: 0 <= i < |r| ==> r[i].similarityScore < threshold && r[i].chunk in chunks)
      && (forall i, j :: 0 <= i < j < |r| ==> r[i].similarityScore <= r[j].similarityScore)
      && (threshold <= PadDistance ==>
        && (forall i :: 0 <= i < |r| ==> 0 <= r[i].chunk.chunkId < |chunks| && chunks[r[i].chunk.chunkId] == r[i].chunk)
        && |r| <= |chunks|)
  {
    assert PositionsReadable(hits, |chunks|);
    RelevantSound(hits, chunks, threshold);
    RelevantOrdered(hits, chunks, threshold);
    if threshold <= PadDistance {
      RelevantFromStore(hits, chunks, threshold, k);
      RelevantWithinStore(hits, chunks, threshold, k);
    }
  }

  /**
   * The position test `idx < len(chunks)` does not exclude FAISS's -1: a padding
   * entry under the threshold would bring back the last record of the store.
   */
  lemma PaddingReadsLastRecord(chunks: seq<Chunk>, threshold: real)
    requires |chunks| > 0 && threshold > PadDistance
    ensures Relevant([Hit(PadDistance, PadPosition)], chunks, threshold)
      == [RetrievedChunk(chunks[|chunks| - 1], PadDistance)]
  {
    assert [Hit(PadDistance, PadPosition)][..0] == [];
  }

  // ---------------------------------------------------------------------------
  // Lemmas: answer composition

  /** The context of two runs of chunks is their contexts separated by one blank line. */
  lemma ContextAppend(a: seq<RetrievedChunk>, b: seq<RetrievedChunk>)
    requires a != [] && b != []
    ensures Context(a + b) == Context(a) + "\n\n" + Context(b)
  {
    assert Blocks(a + b) == Blocks(a) + Blocks(b);
    JoinAppend(Blocks(a), Blocks(b), "\n\n");
  }

  /** A context of one chunk is that chunk's block. */
  lemma {:induction false} ContextOfOne(c: RetrievedChunk)
    ensures Context([c]) == "[From " + c.chunk.filename + "]\n" + c.chunk.text
  {
    assert Blocks([c]) == [ContextBlock(c)];
  }

  /**
   * Every retrieved chunk reaches the language model: its `[From filename]` block
   * appears verbatim, at offset `k`, in the user message of the request.
   */
  lemma PromptCarriesChunks(query: string, cs: seq<RetrievedChunk>, i: nat) returns (k: nat)
    requires i < |cs|
    ensures Occurs(ContextBlock(cs[i]), RequestFor(query, cs).user, k)
  {
    var j := ContextCarriesChunk(cs, i);
    var c := |PromptPreamble| + |ContextHeader|;
    assert Occurs(Context(cs), RequestFor(query, cs).user, c);
    OccursWithin(ContextBlock(cs[i]), Context(cs), RequestFor(query, cs).user, j, c);
    k := c + j;
  }

  /** The i-th retrieved chunk's block appears verbatim in the joined context. */
  lemma ContextCarriesChunk(cs: seq<RetrievedChunk>, i: nat) returns (j: nat)
    requires i < |cs|
    ensures Occurs(ContextBlock(cs[i]), Context(cs), j)
  {
    j := JoinContains(Blocks(cs), "\n\n", i);
  }
}
