/**
 * src/document.rs: the word-window chunker, the chunk records with their ids
 * and 500-byte previews, and the title heuristic.
 *
 * Texts are sequences of Unicode scalar values; their length in bytes is the
 * length of their UTF-8 encoding (`Text.ByteLen`), which is what `str::len`
 * and `is_char_boundary` count.
 */
module Document {
  import opened Wrappers
  import opened Text

  /** `ChunkingConfig`: sizes are counted in words. */
  datatype ChunkingConfig = ChunkingConfig(chunkSize: nat, chunkOverlap: nat, minChunkSize: nat)

  /** `ChunkingConfig::default`: windows of 512 words overlapping by 50, none shorter than 100. */
  function DefaultConfig(): (c: ChunkingConfig)
    ensures c.chunkSize == 512 && c.chunkOverlap == 50 && c.minChunkSize == 100
    ensures c.chunkOverlap < c.chunkSize && c.minChunkSize <= c.chunkSize
  {
    ChunkingConfig(512, 50, 100)
  }

  /** Every element is a non-empty run of non-white-space characters, as `split_whitespace` yields them. */
  predicate Words(words: seq<string>) {
    forall i | 0 <= i < |words| :: words[i] != [] && NoWhitespace(words[i])
  }

  lemma SplitWhitespaceWords(text: string)
    ensures Words(SplitWhitespace(text))
  {
    var words := SplitWhitespace(text);
    forall i | 0 <= i < |words| ensures words[i] != [] && NoWhitespace(words[i]) {
      assert words[i] in words;
    }
  }

  /** A window of consecutive words, joined with single spaces, splits back into those words. */
  lemma JoinedSliceSplits(words: seq<string>, s: nat, e: nat)
    requires Words(words) && s <= e <= |words|
    ensures SplitWhitespace(Join(words[s..e], " ")) == words[s..e]
  {
    assert forall i | 0 <= i < e - s :: words[s..e][i] == words[s + i];
    SplitWhitespaceJoin(words[s..e]);
  }

  /** How far the window start advances: `chunk_size - chunk_overlap`. */
  function Step(c: ChunkingConfig): (step: nat)
    requires c.chunkOverlap < c.chunkSize
    ensures 0 < step <= c.chunkSize
  {
    c.chunkSize - c.chunkOverlap
  }

  /** The end of the window that starts at `start`: `min(start + chunk_size, words.len())`. */
  function WindowEnd(n: nat, c: ChunkingConfig, start: nat): (end: nat)
    ensures end <= n && end <= start + c.chunkSize
    ensures end == n || end == start + c.chunkSize
  {
    Min(start + c.chunkSize, n)
  }

  /** The window of words starting at `start`, joined with single spaces. */
  function Window(words: seq<string>, c: ChunkingConfig, start: nat): string
    requires start < |words|
  {
    Join(words[start..WindowEnd(|words|, c, start)], " ")
  }

  /**
   * The window is emitted when it holds at least `minChunkSize` words (the
   * loop counts the words of the joined window again; `WindowSplits` shows
   * the two counts agree).
   */
  function Kept(words: seq<string>, c: ChunkingConfig, start: nat): seq<string>
    requires start < |words|
  {
    if WindowEnd(|words|, c, start) - start >= c.minChunkSize then [Window(words, c, start)] else []
  }

  /** The loop ends after a window when the next start leaves fewer than `minChunkSize` words, or none. */
  predicate Stops(n: nat, c: ChunkingConfig, next: nat) {
    next + c.minChunkSize > n || next >= n
  }

  /**
   * The chunks emitted by the loop of `split_text_into_chunks` from window
   * start `start` on: the window of at most `chunkSize` words is kept when it
   * has at least `minChunkSize` words; the start then advances by `Step(c)`,
   * and the loop stops once fewer than `minChunkSize` words remain after it.
   */
  function Windows(words: seq<string>, c: ChunkingConfig, start: nat): seq<string>
    requires c.chunkOverlap < c.chunkSize && start < |words|
    decreases |words| - start
  {
    var next := start + Step(c);
    if Stops(|words|, c, next) then Kept(words, c, start)
    else Kept(words, c, start) + Windows(words, c, next)
  }

  /**
   * `split_text_into_chunks`: a text of at most `chunkSize` words is one chunk,
   * the text itself, not normalised; a longer one is cut into word windows.
   */
  function ChunkText(text: string, c: ChunkingConfig): seq<string>
    requires c.chunkOverlap < c.chunkSize
  {
    var words := SplitWhitespace(text);
    if |words| <= c.chunkSize then [text] else Windows(words, c, 0)
  }

  /** A window splits back into its words. */
  lemma WindowSplits(words: seq<string>, c: ChunkingConfig, start: nat)
    requires Words(words) && start < |words|
    ensures SplitWhitespace(Window(words, c, start)) == WindowWords(words, c, start)
  {
    JoinedSliceSplits(words, start, WindowEnd(|words|, c, start));
  }

  /** The loop, begun at `from`, reaches the start `s`: `from` plus a whole number of steps. */
  ghost predicate Visits(c: ChunkingConfig, from: nat, s: nat)
    requires c.chunkOverlap < c.chunkSize
    decreases s - from
  {
    s == from || (s >= from + Step(c) && Visits(c, from + Step(c), s))
  }

  /**
   * `x` is the window at a start the loop visits when it begins at `from`,
   * and that window has at least `minChunkSize` words.
   */
  ghost predicate IsChunk(words: seq<string>, c: ChunkingConfig, from: nat, x: string)
    requires c.chunkOverlap < c.chunkSize
  {
    exists s | from <= s < |words| && Visits(c, from, s) ::
      x == Window(words, c, s) && c.minChunkSize <= WindowEnd(|words|, c, s) - s
  }

  /** A window visited from the next start is visited from this one too. */
  lemma ChunkFromEarlier(words: seq<string>, c: ChunkingConfig, start: nat, x: string)
    requires c.chunkOverlap < c.chunkSize && IsChunk(words, c, start + Step(c), x)
    ensures IsChunk(words, c, start, x)
  {
    var s :| start + Step(c) <= s < |words| && Visits(c, start + Step(c), s) &&
      x == Window(words, c, s) && c.minChunkSize <= WindowEnd(|words|, c, s) - s;
    assert Visits(c, start, s);
  }

  lemma {:induction false} WindowsAreWindows(words: seq<string>, c: ChunkingConfig, start: nat)
    requires c.chunkOverlap < c.chunkSize && start < |words|
    ensures forall i | 0 <= i < |Windows(words, c, start)| :: IsChunk(words, c, start, Windows(words, c, start)[i])
    decreases |words| - start
  {
    var kept := Kept(words, c, start);
    if WindowEnd(|words|, c, start) - start >= c.minChunkSize {
      assert Visits(c, start, start);
      assert IsChunk(words, c, start, Window(words, c, start));
      assert kept == [Window(words, c, start)];
    } else {
      assert kept == [];
    }
    assert forall i | 0 <= i < |kept| :: IsChunk(words, c, start, kept[i]);
    var next := start + Step(c);
    if !Stops(|words|, c, next) {
      var rest := Windows(words, c, next);
      WindowsAreWindows(words, c, next);
      forall i | 0 <= i < |rest| ensures IsChunk(words, c, start, rest[i]) {
        ChunkFromEarlier(words, c, start, rest[i]);
      }
      ChunksAppend(words, c, start, kept, rest);
    }
  }

  lemma ChunksAppend(words: seq<string>, c: ChunkingConfig, from: nat, xs: seq<string>, ys: seq<string>)
    requires c.chunkOverlap < c.chunkSize
    requires forall i | 0 <= i < |xs| :: IsChunk(words, c, from, xs[i])
    requires forall i | 0 <= i < |ys| :: IsChunk(words, c, from, ys[i])
    ensures forall i | 0 <= i < |xs + ys| :: IsChunk(words, c, from, (xs + ys)[i])
  {
    forall i | 0 <= i < |xs + ys| ensures IsChunk(words, c, from, (xs + ys)[i]) {
      if i >= |xs| {
        assert (xs + ys)[i] == ys[i - |xs|];
      }
    }
  }

  /** With `minChunkSize` above `chunkSize` no window is long enough, so nothing is emitted. */
  lemma {:induction false} WindowsNoneTooShort(words: seq<string>, c: ChunkingConfig, start: nat)
    requires c.chunkOverlap < c.chunkSize && start < |words|
    requires c.minChunkSize > c.chunkSize
    ensures Windows(words, c, start) == []
    decreases |words| - start
  {
    var next := start + Step(c);
    if !Stops(|words|, c, next) {
      WindowsNoneTooShort(words, c, next);
    }
  }

  /** `x` and `y` are the windows at two starts `Step(c)` apart. */
  ghost predicate Successive(words: seq<string>, c: ChunkingConfig, x: string, y: string)
    requires c.chunkOverlap < c.chunkSize
  {
    exists s: nat, t: nat | t == s + Step(c) && t < |words| :: x == Window(words, c, s) && y == Window(words, c, t)
  }

  /**
   * When no window can be too short, every window is emitted: the first
   * chunk is the window at `start`, and each chunk after it is the window
   * `Step(c)` words further on.
   */
  lemma {:induction false} WindowsConsecutive(words: seq<string>, c: ChunkingConfig, start: nat)
    requires c.chunkOverlap < c.chunkSize && c.minChunkSize <= c.chunkSize
    requires start < |words| && start + c.minChunkSize <= |words|
    ensures var r := Windows(words, c, start);
      && |r| >= 1 && r[0] == Window(words, c, start)
      && (|r| > 1 ==> r[1] == Window(words, c, start + Step(c)))
      && forall i | 0 <= i < |r| - 1 :: Successive(words, c, r[i], r[i + 1])
    decreases |words| - start
  {
    var next := start + Step(c);
    assert Kept(words, c, start) == [Window(words, c, start)];
    if !Stops(|words|, c, next) {
      WindowsConsecutive(words, c, next);
      var rest := Windows(words, c, next);
      assert Successive(words, c, Window(words, c, start), rest[0]);
      SuccessiveCons(words, c, Window(words, c, start), rest);
    }
  }

  /** `Successive` holds along `[x] + ys` when it holds along `ys` and of `x` and `ys[0]`. */
  lemma SuccessiveCons(words: seq<string>, c: ChunkingConfig, x: string, ys: seq<string>)
    requires c.chunkOverlap < c.chunkSize
    requires |ys| >= 1 && Successive(words, c, x, ys[0])
    requires forall i | 0 <= i < |ys| - 1 :: Successive(words, c, ys[i], ys[i + 1])
    ensures forall i | 0 <= i < |[x] + ys| - 1 :: Successive(words, c, ([x] + ys)[i], ([x] + ys)[i + 1])
  {
    forall i | 0 <= i < |[x] + ys| - 1 ensures Successive(words, c, ([x] + ys)[i], ([x] + ys)[i + 1]) {
      if i > 0 {
        assert ([x] + ys)[i] == ys[i - 1] && ([x] + ys)[i + 1] == ys[i];
      }
    }
  }

  /** The words of the window that starts at `start`. */
  function WindowWords(words: seq<string>, c: ChunkingConfig, start: nat): seq<string>
    requires start <= |words|
  {
    words[start..WindowEnd(|words|, c, start)]
  }

  /**
   * Two windows `Step(c)` words apart overlap: the words of the first after
   * its first `Step(c)` are the first words of the second, so a full window
   * shares exactly `chunkOverlap` words with the next.
   */
  lemma WindowPairOverlap(words: seq<string>, c: ChunkingConfig, s: nat, t: nat)
    requires c.chunkOverlap < c.chunkSize && t == s + Step(c) && t < |words|
    ensures var a, b := WindowWords(words, c, s), WindowWords(words, c, t);
      && Step(c) <= |a| && |a| - Step(c) <= |b|
      && a[Step(c)..] == b[..|a| - Step(c)]
      && (|a| == c.chunkSize ==> |a| - Step(c) == c.chunkOverlap)
  {
    WindowEndsOrdered(|words|, c, s, t);
    SliceOverlap(words, s, Step(c), WindowEnd(|words|, c, s), WindowEnd(|words|, c, t),
      WindowWords(words, c, s), WindowWords(words, c, t));
  }

  /** The next window starts inside the current one and ends no earlier. */
  lemma WindowEndsOrdered(n: nat, c: ChunkingConfig, s: nat, t: nat)
    requires c.chunkOverlap < c.chunkSize && t == s + Step(c) && t < n
    ensures t <= WindowEnd(n, c, s) <= WindowEnd(n, c, t)
  {
  }

  /** Two slices of one sequence, the second starting `step` later, agree where they overlap. */
  lemma SliceOverlap(xs: seq<string>, s: nat, step: nat, e0: nat, e1: nat, a: seq<string>, b: seq<string>)
    requires s + step <= e0 <= e1 <= |xs| && a == xs[s..e0] && b == xs[s + step..e1]
    ensures step <= |a| && |a| - step <= |b| && a[step..] == b[..|a| - step]
  {
    assert a[step..] == xs[s + step..e0];
  }



  /**
   * `x` is the space-join of a run of consecutive words, of `minChunkSize` to
   * `chunkSize` of them, and splits into as many words as the run holds.
   */
  ghost predicate IsWordWindow(words: seq<string>, c: ChunkingConfig, x: string) {
    exists s, e | 0 <= s < e <= |words| ::
      && x == Join(words[s..e], " ")
      && |SplitWhitespace(x)| == e - s
      && c.minChunkSize <= e - s <= c.chunkSize
  }

  /** The number of words `split_whitespace` finds in a window. */
  lemma WindowWordCount(words: seq<string>, c: ChunkingConfig, start: nat)
    requires Words(words) && start < |words|
    ensures |SplitWhitespace(Window(words, c, start))| == WindowEnd(|words|, c, start) - start
  {
    JoinedSliceCount(words, start, WindowEnd(|words|, c, start));
  }

  lemma JoinedSliceCount(words: seq<string>, s: nat, e: nat)
    requires Words(words) && s <= e <= |words|
    ensures |SplitWhitespace(Join(words[s..e], " "))| == e - s
  {
    JoinedSliceSplits(words, s, e);
  }

  lemma ChunkIsWordWindow(words: seq<string>, c: ChunkingConfig, from: nat, x: string)
    requires c.chunkOverlap < c.chunkSize && Words(words) && IsChunk(words, c, from, x)
    ensures IsWordWindow(words, c, x)
  {
    var s :| from <= s < |words| && Visits(c, from, s) &&
      x == Window(words, c, s) && c.minChunkSize <= WindowEnd(|words|, c, s) - s;
    var e := WindowEnd(|words|, c, s);
    WindowWordCount(words, c, s);
    assert x == Join(words[s..e], " ");
  }

  /**
   * What `split_text_into_chunks` promises: a short text is returned whole;
   * otherwise every chunk is the space-join of a run of consecutive words of
   * the text, of `minChunkSize` to `chunkSize` words, and it splits back
   * into exactly those words.
   */
  lemma ChunkTextShape(text: string, c: ChunkingConfig)
    requires c.chunkOverlap < c.chunkSize
    ensures |SplitWhitespace(text)| <= c.chunkSize ==> ChunkText(text, c) == [text]
    ensures |SplitWhitespace(text)| > c.chunkSize ==>
      forall i | 0 <= i < |ChunkText(text, c)| :: IsWordWindow(SplitWhitespace(text), c, ChunkText(text, c)[i])
  {
    var words := SplitWhitespace(text);
    SplitWhitespaceWords(text);
    if |words| > c.chunkSize {
      var r := Windows(words, c, 0);
      WindowsAreWindows(words, c, 0);
      forall i | 0 <= i < |r| ensures IsWordWindow(words, c, r[i]) {
        ChunkIsWordWindow(words, c, 0, r[i]);
      }
    }
  }

  /**
   * The test in src/document.rs: with the defaults, the first chunk of a text
   * longer than 512 words is its first 512 words, and the second starts at
   * word 462, so the two share words 462 to 511; a second chunk exists
   * exactly when the text has at least 562 words.
   */
  lemma DefaultChunksOverlap(text: string)
    requires |SplitWhitespace(text)| > 512
    ensures var words, r := SplitWhitespace(text), ChunkText(text, DefaultConfig());
      && |r| >= 1 && r[0] == Join(words[0..512], " ")
      && (|r| > 1 ==> r[1] == Join(words[462..Min(974, |words|)], " "))
      && (|r| > 1 <==> |words| >= 562)
  {
    var words := SplitWhitespace(text);
    WindowsConsecutive(words, DefaultConfig(), 0);
    if |words| >= 562 {
      WindowsConsecutive(words, DefaultConfig(), 462);
    }
  }

  /** The loop of `split_text_into_chunks`, with its early `break`. */
  method SplitTextIntoChunks(text: string, c: ChunkingConfig) returns (chunks: seq<string>)
    requires c.chunkOverlap < c.chunkSize
    ensures chunks == ChunkText(text, c)
  {
    var words := SplitWhitespace(text);
    if |words| <= c.chunkSize {
      return [text];
    }
    SplitWhitespaceWords(text);
    LongText(text, c);
    chunks := [];
    var start := 0;
    while start < |words|
      invariant Emitted(words, c, chunks, start)
      decreases |words| - start
    {
      var end := Min(start + c.chunkSize, |words|);
      var chunk := Join(words[start..end], " ");
      ghost var before, from := chunks, start;
      if |SplitWhitespace(chunk)| >= c.minChunkSize {
        chunks := chunks + [chunk];
      }
      start := start + Step(c);
      LoopBody(words, c, before, from, end, chunk, chunks, start);
      if start + c.minChunkSize > |words| {
        return;
      }
    }
  }

  /** A text of more than `chunkSize` words is cut into windows, and the loop starts with none emitted. */
  lemma LongText(text: string, c: ChunkingConfig)
    requires c.chunkOverlap < c.chunkSize && |SplitWhitespace(text)| > c.chunkSize
    ensures Emitted(SplitWhitespace(text), c, [], 0)
    ensures Windows(SplitWhitespace(text), c, 0) == ChunkText(text, c)
  {
    assert [] + Windows(SplitWhitespace(text), c, 0) == Windows(SplitWhitespace(text), c, 0);
  }

  /**
   * The loop invariant: the chunks pushed so far, followed by those the loop
   * still emits from window start `start`, are all the chunks of the text.
   */
  ghost predicate Emitted(words: seq<string>, c: ChunkingConfig, chunks: seq<string>, start: nat)
    requires c.chunkOverlap < c.chunkSize
  {
    && 0 < |words|
    && (start < |words| ==> Windows(words, c, 0) == chunks + Windows(words, c, start))
    && (start >= |words| ==> Windows(words, c, 0) == chunks)
  }

  /**
   * One pass of the loop body: the window at `start` is pushed when it has
   * enough words; then either the loop goes on from `next` with `Emitted`
   * kept, or it stops with every chunk pushed.
   */
  lemma LoopBody(words: seq<string>, c: ChunkingConfig, before: seq<string>, start: nat, end: nat, chunk: string,
                 after: seq<string>, next: nat)
    requires c.chunkOverlap < c.chunkSize && Words(words) && start < |words| && Emitted(words, c, before, start)
    requires end == Min(start + c.chunkSize, |words|) && chunk == Join(words[start..end], " ")
    requires after == if |SplitWhitespace(chunk)| >= c.minChunkSize then before + [chunk] else before
    requires next == start + Step(c)
    ensures next + c.minChunkSize > |words| ==> Windows(words, c, 0) == after
    ensures next + c.minChunkSize <= |words| ==> Emitted(words, c, after, next)
  {
    LoopWindow(words, c, start, end, chunk);
    if end - start < c.minChunkSize {
      assert after == before + Kept(words, c, start) by {
        assert before + [] == before;
      }
    }
    EmitStep(words, c, before, start, after, next);
  }

  /** The window the loop body builds, the number of words it counts in it, and whether it is kept. */
  lemma LoopWindow(words: seq<string>, c: ChunkingConfig, start: nat, end: nat, chunk: string)
    requires Words(words) && start < |words|
    requires end == Min(start + c.chunkSize, |words|) && chunk == Join(words[start..end], " ")
    ensures |SplitWhitespace(chunk)| == end - start
    ensures end - start >= c.minChunkSize ==> Kept(words, c, start) == [chunk]
    ensures end - start < c.minChunkSize ==> Kept(words, c, start) == []
  {
    assert end == WindowEnd(|words|, c, start);
    assert chunk == Window(words, c, start);
    WindowWordCount(words, c, start);
  }

  /** Appending the window at `start` when it is kept maintains `Emitted`, or completes the chunks when the loop stops. */
  lemma EmitStep(words: seq<string>, c: ChunkingConfig, before: seq<string>, start: nat, after: seq<string>, next: nat)
    requires c.chunkOverlap < c.chunkSize && start < |words| && next == start + Step(c)
    requires Emitted(words, c, before, start) && after == before + Kept(words, c, start)
    ensures next + c.minChunkSize > |words| ==> Windows(words, c, 0) == after
    ensures next + c.minChunkSize <= |words| ==> Emitted(words, c, after, next)
  {
    WindowsStep(words, c, start, next);
    if !Stops(|words|, c, next) {
      var kept, rest := Kept(words, c, start), Windows(words, c, next);
      ConcatAssoc(before, kept, rest, before + kept + rest);
    }
  }

  /** One turn of the loop: the window at `start`, then the rest from `next` unless the loop stops. */
  lemma WindowsStep(words: seq<string>, c: ChunkingConfig, start: nat, next: nat)
    requires c.chunkOverlap < c.chunkSize && start < |words| && next == start + Step(c)
    ensures Stops(|words|, c, next) ==> Windows(words, c, start) == Kept(words, c, start)
    ensures !Stops(|words|, c, next) ==> Windows(words, c, start) == Kept(words, c, start) + Windows(words, c, next)
  {
  }

  // ----- Chunk previews -----

  const PreviewBytes := 500

  /** The number of characters that take exactly `pos` bytes, if `pos` falls on a character boundary. */
  function CharsBefore(s: string, pos: nat): (r: Option<nat>)
    ensures r.Some? ==> r.value <= |s| && ByteLen(s[..r.value]) == pos
    decreases |s|
  {
    if pos == 0 then Some(0)
    else if s == [] || Utf8Len(s[0]) > pos then None
    else match CharsBefore(s[1..], pos - Utf8Len(s[0]))
      case None => None
      case Some(k) =>
        ConsPrefixBytes(s, k + 1);
        Some(k + 1)
  }

  /** `str::is_char_boundary`: some prefix of whole characters takes exactly `pos` bytes. */
  predicate IsCharBoundary(s: string, pos: nat) {
    CharsBefore(s, pos).Some?
  }

  /** Every prefix of whole characters ends on a boundary. */
  lemma {:induction false} PrefixIsBoundary(s: string, k: nat)
    requires k <= |s|
    ensures CharsBefore(s, ByteLen(s[..k])) == Some(k)
    decreases |s|
  {
    if k > 0 {
      ConsPrefixBytes(s, k);
      var pos := ByteLen(s[..k]);
      var restPos := pos - Utf8Len(s[0]);
      assert restPos == ByteLen(s[1..][..k - 1]);
      PrefixIsBoundary(s[1..], k - 1);
      assert CharsBefore(s[1..], restPos) == Some(k - 1);
    }
  }

  /** Longer prefixes take more bytes. */
  lemma PrefixBytesIncrease(s: string, i: nat, j: nat)
    requires i < j <= |s|
    ensures ByteLen(s[..i]) < ByteLen(s[..j])
  {
    assert s[..j] == s[..i] + s[i..j];
    ByteLenAppend(s[..i], s[i..j]);
  }

  /** The number of leading characters of `s` that fit in `budget` bytes. */
  function FittingChars(s: string, budget: nat): (k: nat)
    ensures k <= |s| && ByteLen(s[..k]) <= budget
    ensures k < |s| ==> ByteLen(s[..k + 1]) > budget
    decreases |s|
  {
    if s == [] || Utf8Len(s[0]) > budget then
      assert s != [] ==> s[..1] == [s[0]];
      0
    else
      var k := FittingChars(s[1..], budget - Utf8Len(s[0]));
      ConsPrefixBytes(s, k + 1);
      assert k + 1 < |s| ==> ByteLen(s[..k + 2]) > budget by {
        if k + 1 < |s| {
          ConsPrefixBytes(s, k + 2);
        }
      }
      k + 1
  }

  /** A non-empty prefix takes the bytes of its first character and those of the rest. */
  lemma ConsPrefixBytes(s: string, j: nat)
    requires 0 < j <= |s|
    ensures ByteLen(s[..j]) == Utf8Len(s[0]) + ByteLen(s[1..][..j - 1])
  {
    assert s[..j] == [s[0]] + s[1..][..j - 1];
    ByteLenAppend([s[0]], s[1..][..j - 1]);
  }

  /**
   * The preview stored in a chunk's metadata: the whole chunk when it takes at
   * most 500 bytes, otherwise the longest prefix of whole characters within
   * 500 bytes followed by "...".
   */
  function Preview(content: string): (r: string)
    ensures ByteLen(content) <= PreviewBytes ==> r == content
    ensures ByteLen(content) > PreviewBytes ==>
      && 3 <= |r| < |content| + 3
      && r == content[..|r| - 3] + "..."
      && ByteLen(content[..|r| - 3]) <= PreviewBytes < ByteLen(content[..|r| - 2])
  {
    if ByteLen(content) <= PreviewBytes then content
    else
      var k := FittingChars(content, PreviewBytes);
      TakeAll(content);
      content[..k] + "..."
  }

  lemma TakeAll<T>(s: seq<T>)
    ensures s[..|s|] == s
  {
  }

  /** The preview loop: step back from byte 500 to the nearest character boundary. */
  method ContentPreview(content: string) returns (preview: string)
    ensures preview == Preview(content)
  {
    if ByteLen(content) <= PreviewBytes {
      return content;
    }
    var pos: nat := PreviewBytes;
    while pos > 0 && !IsCharBoundary(content, pos)
      invariant pos <= PreviewBytes
      invariant forall q | pos < q <= PreviewBytes :: !IsCharBoundary(content, q)
      decreases pos
    {
      pos := pos - 1;
    }
    var k := CharsBefore(content, pos).value;
    PreviewIsLastBoundary(content, pos, k);
    preview := content[..k] + "...";
  }

  /** The last boundary at or before byte 500 ends the longest prefix that fits in 500 bytes. */
  lemma PreviewIsLastBoundary(content: string, pos: nat, k: nat)
    requires ByteLen(content) > PreviewBytes && pos <= PreviewBytes
    requires forall q | pos < q <= PreviewBytes :: !IsCharBoundary(content, q)
    requires CharsBefore(content, pos) == Some(k)
    ensures k == FittingChars(content, PreviewBytes)
  {
    var f := FittingChars(content, PreviewBytes);
    FittingIsProper(content, PreviewBytes, f);
    FittingIsBelow(content, pos, f);
    SamePrefix(content, k, f);
  }

  /** Content longer than the budget does not fit whole. */
  lemma FittingIsProper(content: string, budget: nat, f: nat)
    requires ByteLen(content) > budget
    requires f == FittingChars(content, budget)
    ensures f < |content|
  {
    TakeAll(content);
  }

  /** The prefix that fits the budget ends on a boundary, so at or before the last boundary `pos`. */
  lemma FittingIsBelow(content: string, pos: nat, f: nat)
    requires pos <= PreviewBytes
    requires forall q | pos < q <= PreviewBytes :: !IsCharBoundary(content, q)
    requires f == FittingChars(content, PreviewBytes)
    ensures ByteLen(content[..f]) <= pos
  {
    PrefixIsBoundary(content, f);
    assert IsCharBoundary(content, ByteLen(content[..f]));
  }


  /** A prefix whose byte length lies between those of `s[..f]` and `s[..f + 1]` is `s[..f]`. */
  lemma SamePrefix(s: string, k: nat, f: nat)
    requires k <= |s| && f < |s|
    requires ByteLen(s[..f]) <= ByteLen(s[..k]) < ByteLen(s[..f + 1])
    ensures k == f
  {
    PrefixBytesMonotone(s, k, f);
    PrefixBytesMonotone(s, k, f + 1);
  }

  /** Among prefixes of whole characters, more bytes means more characters. */
  lemma PrefixBytesMonotone(s: string, i: nat, j: nat)
    requires i <= |s| && j <= |s|
    ensures ByteLen(s[..i]) < ByteLen(s[..j]) <==> i < j
  {
    if i < j {
      PrefixBytesIncrease(s, i, j);
    } else if j < i {
      PrefixBytesIncrease(s, j, i);
    }
  }




  // ----- Chunk records -----

  /** The fields of `Document` that chunking reads. */
  datatype Doc = Doc(id: string, path: string, content: string, title: Option<string>, fileType: string, createdAt: string)

  /** The JSON metadata object of a chunk, field by field. */
  datatype ChunkMetadata = ChunkMetadata(
    documentId: string, documentPath: string, title: Option<string>, fileType: string,
    chunkIndex: nat, totalChunks: nat, createdAt: string, content: string)

  datatype DocumentChunk = DocumentChunk(id: string, documentId: string, content: string, chunkIndex: nat, metadata: ChunkMetadata)

  /** `format!("{}-chunk-{}", document.id, index)`. */
  function ChunkId(documentId: string, index: nat): string {
    documentId + "-chunk-" + NatToString(index)
  }

  /** Chunk ids of one document are distinct. */
  lemma ChunkIdsDistinct(documentId: string, i: nat, j: nat)
    requires i != j
    ensures ChunkId(documentId, i) != ChunkId(documentId, j)
  {
    var prefix := documentId + "-chunk-";
    if ChunkId(documentId, i) == ChunkId(documentId, j) {
      var a, b := NatToString(i), NatToString(j);
      assert prefix + a == prefix + b;
      assert a == (prefix + a)[|prefix|..];
      assert b == (prefix + b)[|prefix|..];
      NatToStringInjective(i, j);
    }
  }

  /** The record `chunk_document` makes for chunk `index` of `total`, whose text is `text`. */
  function ChunkRecord(document: Doc, index: nat, total: nat, text: string): DocumentChunk {
    var metadata := ChunkMetadata(document.id, document.path, document.title, document.fileType,
                                  index, total, document.createdAt, Preview(text));
    DocumentChunk(ChunkId(document.id, index), document.id, text, index, metadata)
  }

  /**
   * A chunk record carries its text whole, the document's fields, its position
   * and the total, and a preview of at most 500 bytes of its text plus "...".
   */
  lemma ChunkRecordFields(document: Doc, index: nat, total: nat, text: string)
    ensures var r := ChunkRecord(document, index, total, text);
      && r.id == ChunkId(document.id, index) && r.documentId == document.id && r.content == text
      && r.chunkIndex == index == r.metadata.chunkIndex && r.metadata.totalChunks == total
      && r.metadata.documentId == document.id && r.metadata.documentPath == document.path
      && r.metadata.title == document.title && r.metadata.fileType == document.fileType
      && r.metadata.createdAt == document.createdAt
      && ByteLen(r.metadata.content) <= PreviewBytes + 3
      && (ByteLen(text) <= PreviewBytes ==> r.metadata.content == text)
      && (ByteLen(text) > PreviewBytes ==> exists k: nat | k < |text| :: r.metadata.content == text[..k] + "...")
  {
    var p := Preview(text);
    if ByteLen(text) > PreviewBytes {
      var k := |p| - 3;
      assert p == text[..k] + "...";
      ByteLenAppend(text[..k], "...");
    }
  }

  /** `chunk_document`: one record per chunk of the content, numbered in order, each knowing the total. */
  method ChunkDocument(c: ChunkingConfig, document: Doc) returns (chunks: seq<DocumentChunk>)
    requires c.chunkOverlap < c.chunkSize
    ensures |chunks| == |ChunkText(document.content, c)|
    ensures forall i | 0 <= i < |chunks| ::
      chunks[i] == ChunkRecord(document, i, |chunks|, ChunkText(document.content, c)[i])
  {
    var texts := SplitTextIntoChunks(document.content, c);
    var total := |texts|;
    chunks := [];
    for index := 0 to total
      invariant |chunks| == index
      invariant forall i | 0 <= i < index :: chunks[i] == ChunkRecord(document, i, total, texts[i])
    {
      var preview := ContentPreview(texts[index]);
      var metadata := ChunkMetadata(document.id, document.path, document.title, document.fileType,
                                    index, total, document.createdAt, preview);
      chunks := chunks + [DocumentChunk(ChunkId(document.id, index), document.id, texts[index], index, metadata)];
    }
  }

  // ----- Titles -----

  /** The number of leading white-space characters. */
  function LeadingWhitespace(s: string): (n: nat)
    ensures n <= |s|
    ensures forall i | 0 <= i < n :: IsWhitespace(s[i])
    ensures n < |s| ==> !IsWhitespace(s[n])
  {
    if s != [] && IsWhitespace(s[0]) then 1 + LeadingWhitespace(s[1..]) else 0
  }

  /**
   * The capture of `^#\s+(.+)$` on one line: a '#', one or more white-space
   * characters, then at least one character, all captured. `\s+` is greedy,
   * so the capture starts at the first non-white-space character, unless the
   * rest is all white space, when it is the last character.
   */
  function HeadingTitle(line: string): (r: Option<string>)
    ensures r.Some? ==> r.value != [] && |line| >= 3 && line[0] == '#' && IsWhitespace(line[1])
    ensures r.Some? ==> exists n | 2 <= n < |line| :: r.value == line[n..] && forall i | 1 <= i < n :: IsWhitespace(line[i])
  {
    if line == [] || line[0] != '#' then None
    else
      var rest := line[1..];
      var n := LeadingWhitespace(rest);
      if n == 0 then None
      else if n < |rest| then
        assert line[1 + n..] == rest[n..];
        Some(rest[n..])
      else if n >= 2 then
        assert line[|line| - 1..] == rest[n - 1..];
        Some(rest[n - 1..])
      else None
  }

  /** A line "# " followed by a title that starts with a non-white-space character gives that title. */
  lemma HeadingTitleOf(title: string)
    requires title != [] && !IsWhitespace(title[0])
    ensures HeadingTitle("# " + title) == Some(title)
  {
    var line := "# " + title;
    assert line[1..] == [' '] + title;
    assert line[1..][1..] == title;
  }

  /** Lines without a leading '#', or with a '#' not followed by white space, are not headings. */
  lemma NotHeading(line: string)
    requires line == [] || line[0] != '#' || (|line| >= 2 && !IsWhitespace(line[1]))
    ensures HeadingTitle(line) == None
  {
  }

  /** The text `f` finds in the first line where it finds any, searching in order (`Iterator::find_map`). */
  function FindMap(lines: seq<string>, f: string -> Option<string>): (r: Option<string>)
  {
    if lines == [] then None
    else match f(lines[0])
      case Some(t) => Some(t)
      case None => FindMap(lines[1..], f)
  }

  /** A line that is not blank gives itself trimmed. */
  function NonBlank(line: string): (r: Option<string>)
    ensures r.Some? <==> Trim(line) != []
    ensures r.Some? ==> r.value == Trim(line)
  {
    if Trim(line) != [] then Some(Trim(line)) else None
  }

  /** `extract_title`: the first markdown heading, else the first non-blank line trimmed, else nothing. */
  function ExtractTitle(content: string): (r: Option<string>)
  {
    var lines := Lines(content);
    match FindMap(lines, HeadingTitle)
    case Some(t) => Some(t)
    case None => FindMap(lines, NonBlank)
  }

  /** `FindMap` gives what `f` finds in the first line where it finds something, and nothing when it finds nothing anywhere. */
  lemma {:induction false} FindMapFinds(lines: seq<string>, f: string -> Option<string>)
    ensures FindMap(lines, f).None? <==> forall i | 0 <= i < |lines| :: f(lines[i]).None?
    ensures FindMap(lines, f).Some? ==> exists i | 0 <= i < |lines| ::
      && f(lines[i]) == FindMap(lines, f)
      && forall j | 0 <= j < i :: f(lines[j]).None?
  {
    if lines != [] {
      FindMapFinds(lines[1..], f);
      if f(lines[0]).None? {
        assert forall i | 1 <= i < |lines| :: lines[i] == lines[1..][i - 1];
        if FindMap(lines, f).Some? {
          var i :| 0 <= i < |lines[1..]| && f(lines[1..][i]) == FindMap(lines[1..], f)
            && forall j | 0 <= j < i :: f(lines[1..][j]).None?;
          assert f(lines[i + 1]) == FindMap(lines, f);
          assert forall j | 0 <= j < i + 1 :: f(lines[j]).None?;
        }
      }
    }
  }

  /**
   * What `extract_title` promises: a heading anywhere wins, and then it is the
   * first heading's text; with no heading, the first non-blank line, trimmed;
   * with neither, no title. A title is never empty.
   */
  lemma ExtractTitleSpec(content: string)
    ensures ExtractTitle(content).Some? ==> ExtractTitle(content).value != []
    ensures (exists i | 0 <= i < |Lines(content)| :: HeadingTitle(Lines(content)[i]).Some?) ==>
      exists i | 0 <= i < |Lines(content)| ::
        && ExtractTitle(content) == HeadingTitle(Lines(content)[i])
        && forall j | 0 <= j < i :: HeadingTitle(Lines(content)[j]).None?
    ensures (forall i | 0 <= i < |Lines(content)| :: HeadingTitle(Lines(content)[i]).None?) ==>
      && (ExtractTitle(content).Some? ==> exists i | 0 <= i < |Lines(content)| ::
            && ExtractTitle(content) == Some(Trim(Lines(content)[i])) && Trim(Lines(content)[i]) != []
            && forall j | 0 <= j < i :: Trim(Lines(content)[j]) == [])
      && (ExtractTitle(content).None? <==> forall i | 0 <= i < |Lines(content)| :: Trim(Lines(content)[i]) == [])
  {
    var lines := Lines(content);
    FindMapFinds(lines, HeadingTitle);
    FindMapFinds(lines, NonBlank);
  }
}
