/**
 How the two chunkers meet: the browser cuts the text on blank lines and
 sends each chunk to the server, which chunks it again with
 `splitTextIntoChunks` before calling the provider.
 */
module Pipeline {
  import opened Base
  import opened Text
  import opened Splitting
  import opened Chunker
  import opened ClientApi
  import opened Catalog
  import opened Credentials
  import opened Translation

  /**
   A chunk the browser sends within the size reaches the server chunker as a
   run of the browser's own paragraphs, and the server, with the same limit,
   keeps it whole: it becomes one chunk (trimmed), or none when every one of
   those paragraphs is empty.
   */
  lemma ClientChunkStaysWhole(text: string, size: int, i: nat)
    requires i < |PreChunk(text, size)| && |PreChunk(text, size)[i]| <= size
    ensures var c := PreChunk(text, size)[i];
      && (exists a, b :: 0 <= a < b <= |ClientParagraphs(text)| && Paragraphs(c) == ClientParagraphs(text)[a..b])
      && SplitTextIntoChunks(c, size) == if AllEmpty(Paragraphs(c)) then [] else [Trim(c)]
  {
    var c := PreChunk(text, size)[i];
    var a, b := ChunkIsRun(text, size, i);
    var g := ClientParagraphs(text)[a..b];
    SplitJoinParagraphs(g);
    assert Paragraphs(c) == g;
    FittingParagraphsOneChunk(g, size);
  }

  /** Each browser chunk is a run of consecutive paragraphs joined by a blank line. */
  lemma ChunkIsRun(text: string, size: int, i: nat) returns (a: nat, b: nat)
    requires i < |PreChunk(text, size)|
    ensures a < b <= |ClientParagraphs(text)|
    ensures var g := ClientParagraphs(text)[a..b];
      WellSeparated(g) && PreChunk(text, size)[i] == Join(g, "\n\n")
  {
    var paras := ClientParagraphs(text);
    a, b := PackedChunkIsRun(paras, size, i);
    SplitWellSeparated(BlankLine, text);
    WellSeparatedSlice(paras, a, b);
  }

  lemma PackedChunkIsRun(paras: seq<string>, size: int, i: nat) returns (a: nat, b: nat)
    requires i < |PackParagraphs(paras, size)|
    ensures a < b <= |paras| && PackParagraphs(paras, size)[i] == Join(paras[a..b], "\n\n")
  {
    var groups := PackIsGreedy(paras, size);
    a, b := FlattenSlice(groups, i);
    assert groups[i] == paras[a..b];
  }

  /**
   For a catalog model, the server translates such a chunk with at most one
   provider call, on the chunk trimmed.
   */
  lemma ClientChunkOneCall(text: string, k: nat, i: nat, s: CallSettings, parse: string -> Json, adapters: Adapters)
    requires k < |Models|
    requires i < |PreChunk(text, Models[k].chunkSize)| && |PreChunk(text, Models[k].chunkSize)[i]| <= Models[k].chunkSize
    ensures var c := PreChunk(text, Models[k].chunkSize)[i];
      Translate(c, Models[k], s, parse, adapters).calls in {[], [Trim(c)]}
  {
    var size := Models[k].chunkSize;
    var c := PreChunk(text, size)[i];
    ClientChunkStaysWhole(text, size, i);
    ChunkSizeOfEntry(k);
    var calls := Translate(c, Models[k], s, parse, adapters).calls;
    AtMostOne(SplitTextIntoChunks(c, size), calls, Trim(c));
  }

  lemma AtMostOne(chunks: seq<string>, calls: seq<string>, x: string)
    requires chunks == [] || chunks == [x]
    requires |calls| <= |chunks| && calls == chunks[..|calls|]
    ensures calls in {[], [x]}
  {
    if |calls| == 1 {
      assert calls == chunks[..1] == [x];
    }
  }
}
