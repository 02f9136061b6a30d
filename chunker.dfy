/** The overlapping fixed-size character chunker of the document processor. */
module Chunker {
  import opened Text

  /** The loop advances whenever the window outruns the overlap; a negative chunk size is not
      part of the model (Python would read a negative slice end from the end of the text). */
  predicate ValidConfig(chunkSize: int, overlap: int) {
    0 <= chunkSize && overlap < chunkSize
  }

  /** Python's text[start:start + chunkSize] for a start inside the text: the window is clipped
      to the end of the text. */
  function Window(text: string, start: nat, chunkSize: nat): (w: string)
    requires start < |text|
    ensures |w| <= chunkSize && (chunkSize > 0 ==> |w| > 0)
  {
    text[start..if start + chunkSize <= |text| then start + chunkSize else |text|]
  }

  /** The chunks the loop emits once `start` has been reached: the window at `start`, then the
      chunks from `start + chunkSize - overlap`, until `start` passes the end of the text. */
  function ChunksFrom(text: string, start: nat, chunkSize: int, overlap: int): seq<string>
    requires ValidConfig(chunkSize, overlap)
    decreases |text| - start
  {
    if start >= |text| then []
    else [Window(text, start, chunkSize)] + ChunksFrom(text, start + chunkSize - overlap, chunkSize, overlap)
  }

  function Chunks(text: string, chunkSize: int, overlap: int): seq<string>
    requires ValidConfig(chunkSize, overlap)
  {
    ChunksFrom(text, 0, chunkSize, overlap)
  }

  /** Where chunk k starts: k steps of chunkSize - overlap from the beginning of the text,
      added up one step at a time as the loop does. */
  function ChunkStart(k: nat, chunkSize: int, overlap: int): nat
    requires overlap < chunkSize
  {
    if k == 0 then 0 else ChunkStart(k - 1, chunkSize, overlap) + (chunkSize - overlap)
  }

  /** `chunk_text`: windows of `chunkSize` characters whose starts advance by
      `chunkSize - overlap`, while the start is inside the text. */
  method ChunkText(text: string, chunkSize: int, overlap: int) returns (chunks: seq<string>)
    requires ValidConfig(chunkSize, overlap)
    ensures chunks == Chunks(text, chunkSize, overlap)
    ensures text == [] <==> chunks == []
    ensures text != [] ==> (|chunks| - 1) * (chunkSize - overlap) < |text| <= |chunks| * (chunkSize - overlap)
    ensures forall k :: 0 <= k < |chunks| ==>
      ChunkStart(k, chunkSize, overlap) < |text| &&
      chunks[k] == Window(text, ChunkStart(k, chunkSize, overlap), chunkSize)
  {
    chunks := [];
    var start: nat := 0;
    while start < |text|
      invariant chunks + ChunksFrom(text, start, chunkSize, overlap) == Chunks(text, chunkSize, overlap)
      decreases |text| - start
    {
      var end := start + chunkSize;
      var chunk := text[start..if end <= |text| then end else |text|];
      assert ChunksFrom(text, start, chunkSize, overlap)
          == [chunk] + ChunksFrom(text, end - overlap, chunkSize, overlap);
      assert chunks + [chunk] + ChunksFrom(text, end - overlap, chunkSize, overlap)
          == chunks + ([chunk] + ChunksFrom(text, end - overlap, chunkSize, overlap));
      chunks := chunks + [chunk];
      start := end - overlap;
    }
    ChunkCount(text, chunkSize, overlap);
    ChunkWindows(text, chunkSize, overlap);
  }

  lemma {:induction false} ChunkStartIsProduct(k: nat, chunkSize: int, overlap: int)
    requires overlap < chunkSize
    ensures ChunkStart(k, chunkSize, overlap) == k * (chunkSize - overlap)
  {
    if k > 0 {
      ChunkStartIsProduct(k - 1, chunkSize, overlap);
      assert (k - 1) * (chunkSize - overlap) + (chunkSize - overlap) == k * (chunkSize - overlap);
    }
  }

  lemma {:induction false} ChunksFromCount(text: string, start: nat, chunkSize: int, overlap: int)
    requires ValidConfig(chunkSize, overlap)
    ensures var m := |ChunksFrom(text, start, chunkSize, overlap)|;
      (start >= |text| ==> m == 0) &&
      (start < |text| ==>
        (m > 0 && ChunkStart(m - 1, chunkSize, overlap) < |text| - start <= ChunkStart(m, chunkSize, overlap)))
    decreases |text| - start
  {
    if start < |text| {
      var next := start + chunkSize - overlap;
      ChunksFromCount(text, next, chunkSize, overlap);
      var m' := |ChunksFrom(text, next, chunkSize, overlap)|;
      assert |ChunksFrom(text, start, chunkSize, overlap)| == m' + 1;
      if m' > 0 {
        assert ChunkStart(m', chunkSize, overlap) == ChunkStart(m' - 1, chunkSize, overlap) + (chunkSize - overlap);
      }
    }
  }

  lemma {:induction false} ChunksFromAt(text: string, start: nat, chunkSize: int, overlap: int, k: nat)
    requires ValidConfig(chunkSize, overlap)
    requires k < |ChunksFrom(text, start, chunkSize, overlap)|
    ensures start + ChunkStart(k, chunkSize, overlap) < |text|
    ensures ChunksFrom(text, start, chunkSize, overlap)[k] == Window(text, start + ChunkStart(k, chunkSize, overlap), chunkSize)
    decreases k
  {
    if k > 0 {
      var next := start + chunkSize - overlap;
      ChunksFromAt(text, next, chunkSize, overlap, k - 1);
      assert ChunksFrom(text, start, chunkSize, overlap)[k] == ChunksFrom(text, next, chunkSize, overlap)[k - 1];
      assert next + ChunkStart(k - 1, chunkSize, overlap) == start + ChunkStart(k, chunkSize, overlap);
    }
  }

  /** The number of chunks: none for the empty text, otherwise the least m with
      m * (chunkSize - overlap) >= |text|, which is ceil(|text| / (chunkSize - overlap)). */
  lemma ChunkCount(text: string, chunkSize: int, overlap: int)
    requires ValidConfig(chunkSize, overlap)
    ensures var m := |Chunks(text, chunkSize, overlap)|; var step := chunkSize - overlap;
      (text == [] <==> m == 0) &&
      (text != [] ==> (m - 1) * step < |text| <= m * step && m == (|text| + step - 1) / step)
  {
    ChunksFromCount(text, 0, chunkSize, overlap);
    var m := |Chunks(text, chunkSize, overlap)|;
    if text != [] {
      ChunkStartIsProduct(m, chunkSize, overlap);
      ChunkStartIsProduct(m - 1, chunkSize, overlap);
      CeilingUnique(|text|, chunkSize - overlap, m);
    }
  }

  /** The only m with (m - 1) * d < n <= m * d is the ceiling of n / d. */
  lemma CeilingUnique(n: nat, d: int, m: int)
    requires d > 0 && (m - 1) * d < n <= m * d
    ensures m == (n + d - 1) / d
  {
    var q := (n + d - 1) / d;
    var r := (n + d - 1) % d;
    assert n + d - 1 == q * d + r && 0 <= r < d;
    if m < q {
      MulLeft(m, q - 1, d);
    } else if m > q {
      MulLeft(q, m - 1, d);
    }
  }

  lemma MulLeft(a: int, b: int, d: int)
    requires a <= b && d > 0
    ensures a * d <= b * d
  {
  }

  /** Chunk k is the window of the text that starts at ChunkStart(k), clipped to the end of the
      text. */
  lemma ChunkAt(text: string, chunkSize: int, overlap: int, k: nat)
    requires ValidConfig(chunkSize, overlap)
    requires k < |Chunks(text, chunkSize, overlap)|
    ensures ChunkStart(k, chunkSize, overlap) < |text|
    ensures Chunks(text, chunkSize, overlap)[k] == Window(text, ChunkStart(k, chunkSize, overlap), chunkSize)
  {
    ChunksFromAt(text, 0, chunkSize, overlap, k);
  }

  lemma ChunkWindows(text: string, chunkSize: int, overlap: int)
    requires ValidConfig(chunkSize, overlap)
    ensures var chunks := Chunks(text, chunkSize, overlap);
      forall k :: 0 <= k < |chunks| ==>
        ChunkStart(k, chunkSize, overlap) < |text| &&
        chunks[k] == Window(text, ChunkStart(k, chunkSize, overlap), chunkSize)
  {
    var chunks := Chunks(text, chunkSize, overlap);
    forall k | 0 <= k < |chunks|
      ensures ChunkStart(k, chunkSize, overlap) < |text|
      ensures chunks[k] == Window(text, ChunkStart(k, chunkSize, overlap), chunkSize)
    {
      ChunkAt(text, chunkSize, overlap, k);
    }
  }

  /** The empty text gives no chunks: the loop is never entered. */
  lemma EmptyTextNoChunks(chunkSize: int, overlap: int)
    requires ValidConfig(chunkSize, overlap)
    ensures Chunks("", chunkSize, overlap) == []
  {
  }

  /** A non-empty text no longer than one step gives exactly one chunk, the whole text. A text
      that fits in one window but not in one step also has the whole text as its first chunk,
      and every later chunk is a suffix of it. */
  lemma ShortText(text: string, chunkSize: int, overlap: int)
    requires ValidConfig(chunkSize, overlap)
    requires 0 < |text| <= chunkSize
    ensures var c := Chunks(text, chunkSize, overlap);
      |c| > 0 && c[0] == text &&
      (forall k :: 0 < k < |c| ==> ChunkStart(k, chunkSize, overlap) < |text| &&
                                   c[k] == text[ChunkStart(k, chunkSize, overlap)..]) &&
      (|text| <= chunkSize - overlap <==> c == [text])
  {
    var c := Chunks(text, chunkSize, overlap);
    var step := chunkSize - overlap;
    assert c == [Window(text, 0, chunkSize)] + ChunksFrom(text, step, chunkSize, overlap);
    assert Window(text, 0, chunkSize) == text;
    if |text| > step {
      assert ChunksFrom(text, step, chunkSize, overlap) != [];
    }
    forall k | 0 < k < |c|
      ensures ChunkStart(k, chunkSize, overlap) < |text| && c[k] == text[ChunkStart(k, chunkSize, overlap)..]
    {
      ChunkAt(text, chunkSize, overlap, k);
    }
  }

  /** With the default configuration, a text of exactly 800 characters is not one chunk: the
      loop emits a second chunk of the last 100 characters, already inside the first. */
  lemma FullWindowGivesTwoChunks(text: string)
    requires |text| == 800
    ensures Chunks(text, 800, 100) == [text, text[700..]]
  {
    var c := Chunks(text, 800, 100);
    ChunkCount(text, 800, 100);
    ChunkAt(text, 800, 100, 0);
    assert |c| == 2;
    ChunkAt(text, 800, 100, 1);
    assert ChunkStart(1, 800, 100) == 700;
    assert c[0] == text[0..800] == text;
    assert c[1] == text[700..800] == text[700..];
    assert c == [c[0], c[1]];
  }

  /** The chunk count and the first window for the default configuration on 2000 characters. */
  lemma DefaultConfigOn2000(text: string)
    requires |text| == 2000
    ensures var c := Chunks(text, 800, 100); |c| == 3 && |c[0]| == 800
  {
    ChunkCount(text, 800, 100);
    ChunkAt(text, 800, 100, 0);
  }

  /** When chunk i has the full chunkSize and chunk i + 1 exists, the last `overlap` characters
      of chunk i are the first `overlap` characters of chunk i + 1. */
  lemma OverlapShared(text: string, chunkSize: int, overlap: int, i: nat)
    requires ValidConfig(chunkSize, overlap) && 0 <= overlap
    requires i + 1 < |Chunks(text, chunkSize, overlap)|
    requires |Chunks(text, chunkSize, overlap)[i]| == chunkSize
    ensures var c := Chunks(text, chunkSize, overlap);
      overlap <= |c[i + 1]| && c[i][chunkSize - overlap..] == c[i + 1][..overlap]
  {
    var c := Chunks(text, chunkSize, overlap);
    ChunkAt(text, chunkSize, overlap, i);
    ChunkAt(text, chunkSize, overlap, i + 1);
    var s := ChunkStart(i, chunkSize, overlap);
    var t := ChunkStart(i + 1, chunkSize, overlap);
    assert t == s + chunkSize - overlap;
    assert s + chunkSize <= |text|;
    assert c[i] == text[s..s + chunkSize];
    assert c[i][chunkSize - overlap..] == text[t..s + chunkSize];
    assert c[i + 1][..overlap] == text[t..t + overlap];
  }

  /** Once a chunk reaches the end of the text, the chunk after it is its suffix from one step
      further on: it repeats characters that the earlier chunk already holds. */
  lemma TrailingChunksNested(text: string, chunkSize: int, overlap: int, i: nat)
    requires ValidConfig(chunkSize, overlap)
    requires i + 1 < |Chunks(text, chunkSize, overlap)|
    requires ChunkStart(i, chunkSize, overlap) + chunkSize >= |text|
    ensures var c := Chunks(text, chunkSize, overlap);
      chunkSize - overlap < |c[i]| && c[i + 1] == c[i][chunkSize - overlap..]
  {
    var c := Chunks(text, chunkSize, overlap);
    ChunkAt(text, chunkSize, overlap, i);
    ChunkAt(text, chunkSize, overlap, i + 1);
    var s := ChunkStart(i, chunkSize, overlap);
    var t := ChunkStart(i + 1, chunkSize, overlap);
    assert t == s + chunkSize - overlap;
    assert c[i] == text[s..];
    assert c[i + 1] == text[t..];
  }

  /** Gluing the first chunkSize - overlap characters of every chunk but the last onto the last
      chunk; the inverse of chunking whenever the overlap is not negative. */
  function Reassemble(chunks: seq<string>, step: nat): string
    decreases |chunks|
  {
    if chunks == [] then ""
    else if |chunks| == 1 then chunks[0]
    else PyPrefix(chunks[0], step) + Reassemble(chunks[1..], step)
  }

  lemma {:induction false} ReassembleFrom(text: string, start: nat, chunkSize: int, overlap: int)
    requires ValidConfig(chunkSize, overlap) && 0 <= overlap
    requires start < |text|
    ensures Reassemble(ChunksFrom(text, start, chunkSize, overlap), chunkSize - overlap) == text[start..]
    decreases |text| - start
  {
    if start + chunkSize - overlap < |text| {
      ReassembleFrom(text, start + chunkSize - overlap, chunkSize, overlap);
      ReassembleStep(text, start, chunkSize, overlap);
    } else {
      LastWindow(text, start, chunkSize, overlap);
    }
  }

  /** One step of the reassembly: the window at `start` contributes its first step characters. */
  lemma ReassembleStep(text: string, start: nat, chunkSize: int, overlap: int)
    requires ValidConfig(chunkSize, overlap) && 0 <= overlap
    requires start + chunkSize - overlap < |text|
    requires Reassemble(ChunksFrom(text, start + chunkSize - overlap, chunkSize, overlap), chunkSize - overlap) ==
             text[start + chunkSize - overlap..]
    ensures Reassemble(ChunksFrom(text, start, chunkSize, overlap), chunkSize - overlap) == text[start..]
  {
    var step := chunkSize - overlap;
    var next := start + step;
    var w := Window(text, start, chunkSize);
    var rest := ChunksFrom(text, next, chunkSize, overlap);
    assert ChunksFrom(text, start, chunkSize, overlap) == [w] + rest;
    assert rest != [];
    ReassembleCons(w, rest, step);
    WindowHead(text, start, chunkSize, step);
    assert text[start..] == text[start..next] + text[next..];
  }

  /** The window that reaches the end of the text is the last chunk and all of the remaining text. */
  lemma LastWindow(text: string, start: nat, chunkSize: int, overlap: int)
    requires ValidConfig(chunkSize, overlap) && 0 <= overlap
    requires start < |text| <= start + chunkSize - overlap
    ensures ChunksFrom(text, start, chunkSize, overlap) == [text[start..]]
  {
    assert ChunksFrom(text, start + chunkSize - overlap, chunkSize, overlap) == [];
    assert Window(text, start, chunkSize) == text[start..];
  }

  lemma ReassembleCons(w: string, rest: seq<string>, step: nat)
    requires rest != []
    ensures Reassemble([w] + rest, step) == PyPrefix(w, step) + Reassemble(rest, step)
  {
    assert ([w] + rest)[1..] == rest;
  }

  /** The first `step` characters of a window no shorter than `step`. */
  lemma WindowHead(text: string, start: nat, chunkSize: nat, step: nat)
    requires step <= chunkSize && start + step < |text|
    ensures PyPrefix(Window(text, start, chunkSize), step) == text[start..start + step]
  {
  }

  /** The chunks lose nothing: they cover the whole text, in order, whenever the overlap is not
      negative (a negative overlap skips characters between windows). */
  lemma ReassembleChunks(text: string, chunkSize: int, overlap: int)
    requires ValidConfig(chunkSize, overlap) && 0 <= overlap
    ensures Reassemble(Chunks(text, chunkSize, overlap), chunkSize - overlap) == text
  {
    if text != [] {
      ReassembleFrom(text, 0, chunkSize, overlap);
    }
  }

  /** On 1450 characters with the default configuration the loop emits three chunks, one more
      than ceil((n - chunkSize) / (chunkSize - overlap)) + 1 = 2: the third starts at 1400,
      inside the second, which already reaches the end of the text. */
  lemma ThreeChunksOn1450(text: string)
    requires |text| == 1450
    ensures var c := Chunks(text, 800, 100);
      |c| == 3 && (1450 - 800 + 700 - 1) / 700 + 1 == 2 &&
      |c[1]| == 750 && c[2] == c[1][700..]
  {
    var c := Chunks(text, 800, 100);
    ChunkCount(text, 800, 100);
    ChunkAt(text, 800, 100, 1);
    assert ChunkStart(1, 800, 100) == 700;
    TrailingChunksNested(text, 800, 100, 1);
  }
}
