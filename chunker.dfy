/**
 * The word-window chunker of the engine (`chunk_text`): the text is split on
 * whitespace and a window of at most `chunkSize` words, re-joined with single
 * spaces, starts every `chunkSize - overlap` words.
 */
module Chunker {
  import opened Wrappers
  import opened PyStr

  const DefaultChunkSize: int := 500
  const DefaultOverlap: int := 50
  /** How far consecutive windows start apart under the defaults. */
  const DefaultStep: nat := 450

  /** What Python's `range` raises when its step is zero. */
  const ZeroStepError := "range() arg 3 must not be zero"

  function Min(a: int, b: int): int {
    if a <= b then a else b
  }

  /** The words of the window that starts at word `start`: `words[start:start + size]` with Python's clamping. */
  function Window(words: seq<string>, size: nat, start: nat): seq<string>
    requires start <= |words|
  {
    words[start..Min(start + size, |words|)]
  }

  /** The chunks from word `start` on: one joined window at `start`, `start + step`, ... while the start is a word position. */
  function Windows(words: seq<string>, size: nat, step: nat, start: nat): seq<string>
    requires step > 0
    decreases |words| - start
  {
    if start >= |words| then []
    else [Join(Window(words, size, start), " ")] + Windows(words, size, step, start + step)
  }

  /** The chunks `chunk_text(text)` produces with the default size and overlap, as the engine calls it. */
  function Chunks(text: string): seq<string> {
    Windows(Split(text), DefaultChunkSize, DefaultStep, 0)
  }

  /**
   * `chunk_text(text, chunk_size, overlap)`. A zero step is Python's `ValueError` from
   * `range`; a negative step gives an empty range and so no chunk.
   */
  method ChunkText(text: string, chunkSize: int, overlap: int) returns (r: Result<seq<string>, string>)
    requires chunkSize > 0
    ensures chunkSize - overlap == 0 ==> r == Failure(ZeroStepError)
    ensures chunkSize - overlap < 0 ==> r == Success([])
    ensures chunkSize - overlap > 0 ==> r == Success(Windows(Split(text), chunkSize, chunkSize - overlap, 0))
  {
    var words := Split(text);
    var step := chunkSize - overlap;
    if step == 0 {
      return Failure(ZeroStepError);
    }
    var chunks: seq<string> := [];
    if step > 0 {
      chunks := WindowLoop(words, chunkSize, step);
    }
    r := Success(chunks);
  }

  /** The `for i in range(0, len(words), step)` loop of `chunk_text` for a positive step. */
  method WindowLoop(words: seq<string>, size: nat, step: nat) returns (chunks: seq<string>)
    requires AllWords(words) && size > 0 && step > 0
    ensures chunks == Windows(words, size, step, 0)
  {
    chunks := [];
    var i: nat := 0;
    while i < |words|
      invariant chunks + Windows(words, size, step, i) == Windows(words, size, step, 0)
      decreases |words| - i
    {
      var chunk := Join(Window(words, size, i), " ");
      WindowChunk(words, size, i);
      if Strip(chunk) != [] {
        chunks := chunks + [Strip(chunk)];
      }
      i := i + step;
    }
  }

  /** The `k`-th chunk is the window that starts at word `start + k * step`. */
  lemma {:induction false} WindowsAt(words: seq<string>, size: nat, step: nat, start: nat, k: nat)
    requires step > 0
    requires k < |Windows(words, size, step, start)|
    ensures start + k * step < |words|
    ensures Windows(words, size, step, start)[k] == Join(Window(words, size, start + k * step), " ")
    decreases k
  {
    if k > 0 {
      WindowsAt(words, size, step, start + step, k - 1);
      assert start + step + (k - 1) * step == start + k * step;
    }
  }

  lemma MulSucc(c: nat, step: nat)
    ensures (c + 1) * step == c * step + step
  {
  }

  /** The windows leave no word position uncovered: the start after the last window is past the end. */
  lemma {:induction false} WindowsCover(words: seq<string>, size: nat, step: nat, start: nat)
    requires step > 0
    ensures start + |Windows(words, size, step, start)| * step >= |words|
    ensures |Windows(words, size, step, start)| == 0 <==> start >= |words|
    decreases |words| - start
  {
    if start < |words| {
      WindowsCover(words, size, step, start + step);
      var c := |Windows(words, size, step, start + step)|;
      assert |Windows(words, size, step, start)| == c + 1;
      MulSucc(c, step);
    }
  }

  /**
   * Windows start at word offsets 0, step, 2*step, ...: the k-th chunk is
   * `words[k*step:k*step + size]` re-joined, every start is a word position,
   * and the first start not taken lies past the last word.
   */
  lemma ChunkStarts(words: seq<string>, size: nat, step: nat)
    requires step > 0
    ensures var w := Windows(words, size, step, 0);
      && |w| * step >= |words|
      && (|w| == 0 <==> |words| == 0)
      && forall k :: 0 <= k < |w| ==> k * step < |words| && w[k] == Join(Window(words, size, k * step), " ")
  {
    WindowsCover(words, size, step, 0);
    var w := Windows(words, size, step, 0);
    forall k | 0 <= k < |w| ensures k * step < |words| && w[k] == Join(Window(words, size, k * step), " ") {
      WindowsAt(words, size, step, 0, k);
    }
  }

  /**
   * No chunk is empty or padded with whitespace, and splitting a chunk again
   * gives back exactly the words of its window, so it holds at most `size` words.
   */
  lemma ChunksWellFormed(words: seq<string>, size: nat, step: nat, k: nat)
    requires AllWords(words) && step > 0 && size > 0
    requires k < |Windows(words, size, step, 0)|
    ensures var c := Windows(words, size, step, 0)[k];
      && c != [] && Strip(c) == c
      && k * step < |words|
      && Split(c) == Window(words, size, k * step)
      && |Split(c)| <= size
  {
    WindowsAt(words, size, step, 0, k);
    WindowChunk(words, size, k * step);
    SplitJoin(Window(words, size, k * step));
  }

  /** A window at a word position joins to a non-empty chunk that `strip` leaves as it is. */
  lemma WindowChunk(words: seq<string>, size: nat, start: nat)
    requires AllWords(words) && size > 0 && start < |words|
    ensures var c := Join(Window(words, size, start), " "); c != [] && Strip(c) == c
    ensures AllWords(Window(words, size, start))
  {
    var window := Window(words, size, start);
    assert forall i :: 0 <= i < |window| ==> window[i] == words[start + i];
    JoinWordsUnpadded(window);
    StripUnpadded(Join(window, " "));
  }

  /** Empty or whitespace-only text gives no chunk, and any other text gives at least one. */
  lemma ChunksOfBlank(text: string)
    ensures Chunks(text) == [] <==> IsBlank(text)
  {
    SplitBlank(text);
    WindowsCover(Split(text), DefaultChunkSize, DefaultStep, 0);
  }

  /** Text of 1 to `step` words gives exactly one chunk: its words re-joined with single spaces. */
  lemma OneChunk(words: seq<string>, size: nat, step: nat)
    requires 0 < step <= size
    requires 1 <= |words| <= step
    ensures Windows(words, size, step, 0) == [Join(words, " ")]
  {
    assert Window(words, size, 0) == words;
  }

  /**
   * Text of more than `step` but at most `size` words (and at most two steps) gives
   * two chunks: all the words, then again only the words after the first step.
   */
  lemma TwoChunks(words: seq<string>, size: nat, step: nat)
    requires 0 < step
    requires step < |words| <= size && |words| <= 2 * step
    ensures Windows(words, size, step, 0) == [Join(words, " "), Join(words[step..], " ")]
  {
    assert Window(words, size, 0) == words;
    assert Window(words, size, step) == words[step..];
    assert Windows(words, size, step, 2 * step) == [];
    assert Windows(words, size, step, step) == [Join(words[step..], " ")];
  }

  /** Under the defaults, 451 to 500 words give two chunks and the second repeats the last words of the first. */
  lemma DefaultTailRepeated(text: string)
    requires DefaultStep < |Split(text)| <= DefaultChunkSize
    ensures |Chunks(text)| == 2
    ensures Split(Chunks(text)[1]) == Split(text)[DefaultStep..]
    ensures Split(Chunks(text)[0]) == Split(text)
  {
    var words := Split(text);
    TwoChunks(words, DefaultChunkSize, DefaultStep);
    SplitJoin(words);
    SplitJoin(words[DefaultStep..]);
  }

  /**
   * Consecutive windows overlap by `size - step` words: when the k-th chunk holds
   * a full `size` words, its words after the first `step` are the first words of
   * the next chunk.
   */
  lemma {:induction false} ConsecutiveOverlap(words: seq<string>, size: nat, step: nat, start: nat, k: nat)
    requires AllWords(words) && 0 < step <= size
    requires k + 1 < |Windows(words, size, step, start)|
    requires |Split(Windows(words, size, step, start)[k])| == size
    ensures var w := Windows(words, size, step, start);
      && |Split(w[k + 1])| >= size - step
      && Split(w[k])[step..] == Split(w[k + 1])[..size - step]
    decreases k
  {
    var w := Windows(words, size, step, start);
    if k == 0 {
      assert w[0] == Join(Window(words, size, start), " ");
      FullWindowFits(words, size, start);
      WindowPairOverlap(words, size, step, start);
    } else {
      assert w[k] == Windows(words, size, step, start + step)[k - 1];
      assert w[k + 1] == Windows(words, size, step, start + step)[k];
      ConsecutiveOverlap(words, size, step, start + step, k - 1);
    }
  }

  /** A window whose chunk re-splits into `size` words was not cut short by the end of the text. */
  lemma FullWindowFits(words: seq<string>, size: nat, start: nat)
    requires AllWords(words) && start < |words|
    requires |Split(Join(Window(words, size, start), " "))| == size
    ensures start + size <= |words|
  {
    var window := Window(words, size, start);
    forall i | 0 <= i < |window| ensures IsWord(window[i]) {
      assert window[i] == words[start + i];
    }
    SplitJoin(window);
  }

  /** The two windows that start `step` words apart share `size - step` words when the first is full. */
  lemma WindowPairOverlap(words: seq<string>, size: nat, step: nat, a: nat)
    requires AllWords(words) && 0 < step <= size
    requires a + size <= |words| && a + step < |words|
    ensures var wa := Split(Join(Window(words, size, a), " "));
      var wb := Split(Join(Window(words, size, a + step), " "));
      && |wa| == size && |wb| >= size - step
      && wa[step..] == wb[..size - step]
  {
    var b := a + step;
    var wa := Window(words, size, a);
    var wb := Window(words, size, b);
    forall i | 0 <= i < |wa| ensures IsWord(wa[i]) {
      assert wa[i] == words[a + i];
    }
    forall i | 0 <= i < |wb| ensures IsWord(wb[i]) {
      assert wb[i] == words[b + i];
    }
    SplitJoin(wa);
    SplitJoin(wb);
    assert wa[step..] == words[b..a + size];
    assert wb[..size - step] == words[b..a + size];
  }
}
