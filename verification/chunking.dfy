/**
 The fixed-window chunker applied to every loaded text before it is stored:
 `[text[i:i+500] for i in range(0, len(text), 450)]`, windows of 500
 characters starting every 450, so neighbouring chunks share 50 characters.
 */
module Chunking {

  /** Characters per chunk (the slice width). */
  const Window: nat := 500

  /** Distance between the starts of neighbouring chunks (the `range` step). */
  const Stride: nat := 450

  function Min(a: int, b: int): int {
    if a < b then a else b
  }

  /** `len(range(0, n, 450))`. */
  function ChunkCount(n: nat): nat {
    (n + Stride - 1) / Stride
  }

  /** The chunks of `text`: chunk `i` is the Python slice `text[450*i : 450*i+500]`, clamped at the end. */
  function Chunks(text: string): (chunks: seq<string>)
    ensures |chunks| == ChunkCount(|text|)
  {
    seq(ChunkCount(|text|), i requires 0 <= i < ChunkCount(|text|) =>
      text[Stride * i..Min(Stride * i + Window, |text|)])
  }

  /**
   There are `ceil(len/450)` chunks: the last one starts inside the text and none
   starts past it; the empty text has no chunk.
   */
  lemma ChunkCountIsCeiling(text: string)
    ensures |Chunks(text)| == 0 <==> |text| == 0
    ensures |Chunks(text)| > 0 ==> Stride * (|Chunks(text)| - 1) < |text| <= Stride * |Chunks(text)|
  {
  }

  /**
   Chunk `i` is a non-empty piece of at most 500 characters of `text` starting at
   `450*i`; it is a full 500 characters unless it runs to the end of the text.
   */
  lemma ChunkShape(text: string, i: nat)
    requires i < |Chunks(text)|
    ensures 0 < |Chunks(text)[i]| <= Window
    ensures Stride * i + |Chunks(text)[i]| <= |text|
    ensures Chunks(text)[i] == text[Stride * i..Stride * i + |Chunks(text)[i]|]
    ensures |Chunks(text)[i]| == Window || Stride * i + |Chunks(text)[i]| == |text|
  {
  }

  /** The first chunk, then the chunks of the text after the first stride. */
  lemma ChunksUnfold(text: string)
    requires text != []
    ensures Chunks(text) == [text[..Min(Window, |text|)]] + Chunks(text[Min(Stride, |text|)..])
  {
    var c := Chunks(text);
    var rest := text[Min(Stride, |text|)..];
    var d := Chunks(rest);
    assert |c| == 1 + |d|;
    forall i | 0 <= i < |d| ensures d[i] == c[i + 1] {
      assert d[i] == rest[Stride * i..Min(Stride * i + Window, |rest|)];
      assert c[i + 1] == text[Stride * (i + 1)..Min(Stride * (i + 1) + Window, |text|)];
    }
  }

  /** The part of a chunk that no later chunk repeats: its first 450 characters. */
  function Head(chunk: string): (h: string)
    ensures |h| == Min(Stride, |chunk|)
    ensures h == chunk[..|h|]
  {
    chunk[..Min(Stride, |chunk|)]
  }

  /** The heads of the chunks, concatenated in order. */
  function Reassemble(chunks: seq<string>): string {
    if chunks == [] then [] else Head(chunks[0]) + Reassemble(chunks[1..])
  }

  /** Concatenating the first 450 characters of every chunk gives back the text exactly. */
  lemma {:induction false} ReassembleChunks(text: string)
    ensures Reassemble(Chunks(text)) == text
    decreases |text|
  {
    if text != [] {
      var rest := text[Min(Stride, |text|)..];
      ChunksUnfold(text);
      ReassembleChunks(rest);
      assert Chunks(text)[0] == text[..Min(Window, |text|)];
      assert Chunks(text)[1..] == Chunks(rest);
      assert Head(Chunks(text)[0]) == text[..Min(Stride, |text|)];
      assert text == text[..Min(Stride, |text|)] + rest;
    }
  }

  /**
   Each chunk with a successor hands its tail over: the next chunk begins with
   everything of the chunk after its first 450 characters (the last 50, for a
   full chunk).
   */
  lemma ChunksOverlap(text: string, i: nat)
    requires i + 1 < |Chunks(text)|
    ensures |Chunks(text)[i]| >= Stride
    ensures |Chunks(text)[i]| - Stride <= |Chunks(text)[i + 1]|
    ensures Chunks(text)[i + 1][..|Chunks(text)[i]| - Stride] == Chunks(text)[i][Stride..]
  {
    var c := Chunks(text);
    assert c[i] == text[Stride * i..Min(Stride * i + Window, |text|)];
    assert c[i + 1] == text[Stride * i + Stride..Min(Stride * i + Stride + Window, |text|)];
  }
}
