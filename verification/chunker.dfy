/**
 The server-side chunker `splitTextIntoChunks` of src/services/translation.ts:
 paragraphs (split on `/\n\n+/`) are packed greedily into a pending chunk that
 is trimmed when pushed; a paragraph longer than the limit is cut at sentence
 ends and its sentences are packed the same way. Nothing guards the limit, so
 it is any integer here.
 */
module Chunker {
  import opened Base
  import opened Text
  import opened Splitting

  /** `text.split(/\n\n+/)`. */
  function Paragraphs(text: string): seq<string>
  {
    Split(ParagraphBreak, text)
  }

  /** Loop state: the chunks pushed so far and the pending chunk (`currentChunk` / `sentenceChunk`). */
  datatype Packing = Packing(chunks: seq<string>, pending: string)

  /** `if (pending) chunks.push(pending.trim())`, after which nothing is pending. */
  function Flush(st: Packing): (r: Packing)
    ensures r.pending == ""
  {
    if st.pending != "" then Packing(st.chunks + [Trim(st.pending)], "") else st
  }

  /** The sentence loop over the units of one paragraph: units are concatenated without separator. */
  function PackUnits(units: seq<string>, max: int): Packing
    decreases |units|
  {
    if |units| == 0 then Packing([], "")
    else
      var st := PackUnits(units[..|units| - 1], max);
      var u := units[|units| - 1];
      if |st.pending| + |u| > max then Packing(Flush(st).chunks, u)
      else Packing(st.chunks, st.pending + u)
  }

  /** The chunks an oversized paragraph becomes. */
  function SentenceChunks(p: string, max: int): seq<string>
  {
    Flush(PackUnits(SentenceUnits(p), max)).chunks
  }

  /** The flush at the top of the paragraph loop: the paragraph would not fit after the pending chunk. */
  function FirstFlush(st: Packing, p: string, max: int): Packing
  {
    if |st.pending| + |p| + 2 > max then Flush(st) else st
  }

  /** One iteration of the paragraph loop. */
  function Step(st: Packing, p: string, max: int): Packing
  {
    var st1 := FirstFlush(st, p, max);
    if |p| > max then
      var st2 := Flush(st1);
      Packing(st2.chunks + SentenceChunks(p, max), st2.pending)
    else
      Packing(st1.chunks, st1.pending + (if st1.pending != "" then "\n\n" else "") + p)
  }

  /** The paragraph loop over a list of paragraphs. */
  function Scan(paras: seq<string>, max: int): Packing
    decreases |paras|
  {
    if |paras| == 0 then Packing([], "")
    else Step(Scan(paras[..|paras| - 1], max), paras[|paras| - 1], max)
  }

  /** `splitTextIntoChunks(text, maxChunkSize)`. */
  function SplitTextIntoChunks(text: string, max: int): seq<string>
  {
    Flush(Scan(Paragraphs(text), max)).chunks
  }

  /**
   The paragraph loop of `splitTextIntoChunks` written as a loop over a
   pushed list and a pending chunk; it computes exactly the functional
   definition.
   */
  method SplitTextIntoChunksLoop(text: string, max: int) returns (chunks: seq<string>)
    ensures chunks == SplitTextIntoChunks(text, max)
  {
    var paragraphs := Paragraphs(text);
    chunks := [];
    var currentChunk := "";
    for i := 0 to |paragraphs|
      invariant Packing(chunks, currentChunk) == Scan(paragraphs[..i], max)
    {
      var paragraph := paragraphs[i];
      ghost var st := Packing(chunks, currentChunk);
      ScanNext(paragraphs, i, max);
      if currentChunk != "" && |currentChunk| + |paragraph| + 2 > max {
        chunks := chunks + [Trim(currentChunk)];
        currentChunk := "";
      }
      assert Packing(chunks, currentChunk) == FirstFlush(st, paragraph, max);
      if |paragraph| > max {
        if currentChunk != "" {
          chunks := chunks + [Trim(currentChunk)];
          currentChunk := "";
        }
        var pushed := PackSentencesLoop(SentenceUnits(paragraph), max);
        chunks := chunks + pushed;
      } else {
        currentChunk := currentChunk + (if currentChunk != "" then "\n\n" else "") + paragraph;
      }
    }
    assert paragraphs[..|paragraphs|] == paragraphs;
    if currentChunk != "" {
      chunks := chunks + [Trim(currentChunk)];
    }
  }

  /** One more paragraph is one more step of the loop. */
  lemma ScanNext(paras: seq<string>, i: nat, max: int)
    requires i < |paras|
    ensures Scan(paras[..i + 1], max) == Step(Scan(paras[..i], max), paras[i], max)
  {
    assert paras[..i + 1][..i] == paras[..i];
  }

  /** The sentence loop of an oversized paragraph, with its final flush: the paragraph's sentence chunks. */
  method PackSentencesLoop(sentences: seq<string>, max: int) returns (pushed: seq<string>)
    ensures pushed == Flush(PackUnits(sentences, max)).chunks
  {
    pushed := [];
    var sentenceChunk := "";
    for j := 0 to |sentences|
      invariant Packing(pushed, sentenceChunk) == PackUnits(sentences[..j], max)
    {
      assert sentences[..j + 1][..j] == sentences[..j];
      var sentence := sentences[j];
      if |sentenceChunk| + |sentence| > max {
        if sentenceChunk != "" {
          pushed := pushed + [Trim(sentenceChunk)];
        }
        sentenceChunk := sentence;
      } else {
        sentenceChunk := sentenceChunk + sentence;
      }
    }
    assert sentences[..|sentences|] == sentences;
    if sentenceChunk != "" {
      pushed := pushed + [Trim(sentenceChunk)];
    }
  }

  // ---------------------------------------------------------------------------
  // The shape of the output, stated without the loop: segments.

  /**
   A stretch of paragraphs the loop treats as one unit: a run of paragraphs
   packed into one pending chunk, or one oversized paragraph.
   */
  datatype Segment = Run(group: seq<string>) | Oversized(paragraph: string)

  function SegmentParagraphList(seg: Segment): seq<string>
  {
    match seg
    case Run(g) => g
    case Oversized(p) => [p]
  }

  /**
   What one segment contributes: a run gives its paragraphs joined by a blank
   line and trimmed, unless all of them are empty; an oversized paragraph gives
   its sentence chunks.
   */
  function SegmentChunkList(seg: Segment, max: int): seq<string>
  {
    match seg
    case Run(g) => if AllEmpty(g) then [] else [Trim(Join(g, "\n\n"))]
    case Oversized(p) => SentenceChunks(p, max)
  }

  /**
   A run holds only paragraphs that fit, and the text the loop keeps pending
   for it stays within the limit; an oversized paragraph is one longer than
   the limit.
   */
  predicate ValidSegment(seg: Segment, max: int)
  {
    match seg
    case Run(g) =>
      && |g| > 0
      && (forall i :: 0 <= i < |g| ==> |g[i]| <= max)
      && |RunText(g)| <= max
    case Oversized(p) => |p| > max
  }

  predicate ValidSegments(segs: seq<Segment>, max: int)
  {
    forall i :: 0 <= i < |segs| ==> ValidSegment(segs[i], max)
  }

  function SegmentParagraphs(segs: seq<Segment>): seq<string>
    decreases |segs|
  {
    if |segs| == 0 then []
    else SegmentParagraphs(segs[..|segs| - 1]) + SegmentParagraphList(segs[|segs| - 1])
  }

  function SegmentChunks(segs: seq<Segment>, max: int): seq<string>
    decreases |segs|
  {
    if |segs| == 0 then []
    else SegmentChunks(segs[..|segs| - 1], max) + SegmentChunkList(segs[|segs| - 1], max)
  }

  lemma SegmentsAppend(segs: seq<Segment>, seg: Segment, max: int)
    ensures SegmentParagraphs(segs + [seg]) == SegmentParagraphs(segs) + SegmentParagraphList(seg)
    ensures SegmentChunks(segs + [seg], max) == SegmentChunks(segs, max) + SegmentChunkList(seg, max)
  {
    assert (segs + [seg])[..|segs|] == segs;
  }

  lemma ValidSegmentsAppend(segs: seq<Segment>, seg: Segment, max: int)
    requires ValidSegments(segs, max) && ValidSegment(seg, max)
    ensures ValidSegments(segs + [seg], max)
  {
    assert forall i :: 0 <= i < |segs| ==> (segs + [seg])[i] == segs[i];
  }

  /** The run is closed before `next` only because `next` would not fit after its pending text. */
  predicate Overflows(g: seq<string>, next: string, max: int)
  {
    RunText(g) != "" && |RunText(g)| + 2 + |next| > max
  }

  /**
   Runs are as long as the loop makes them: one run follows another only when
   the first paragraph of the second would not fit after the pending text of
   the first.
   */
  predicate Maximal(segs: seq<Segment>, max: int)
  {
    forall i :: 0 < i < |segs| && segs[i - 1].Run? && segs[i].Run? && |segs[i].group| > 0 ==>
      Overflows(segs[i - 1].group, segs[i].group[0], max)
  }

  /** If the segments end in a run, `next` overflows it. */
  predicate ClosedBefore(segs: seq<Segment>, next: string, max: int)
  {
    |segs| > 0 && segs[|segs| - 1].Run? ==> Overflows(segs[|segs| - 1].group, next, max)
  }

  /**
   The greedy side of the loop state: the closed segments are maximal, the
   current run was opened only because its first paragraph overflowed the run
   before, and with no current run the last segment is an oversized paragraph.
   */
  predicate GreedyState(segs: seq<Segment>, g: seq<string>, max: int)
  {
    && Maximal(segs, max)
    && (|g| > 0 ==> ClosedBefore(segs, g[0], max))
    && (|g| == 0 ==> |segs| == 0 || segs[|segs| - 1].Oversized?)
  }

  lemma MaximalAppend(segs: seq<Segment>, seg: Segment, max: int)
    requires Maximal(segs, max)
    requires seg.Run? && |seg.group| > 0 ==> ClosedBefore(segs, seg.group[0], max)
    ensures Maximal(segs + [seg], max)
  {
    var all := segs + [seg];
    forall i | 0 < i < |all| && all[i - 1].Run? && all[i].Run? && |all[i].group| > 0
      ensures Overflows(all[i - 1].group, all[i].group[0], max)
    {
      assert all[i - 1] == segs[i - 1];
      if i < |segs| {
        assert all[i] == segs[i];
      }
    }
  }

  /** A run's paragraphs from its first non-empty one on: the empty ones before it never reach the pending chunk. */
  function DropLeadingEmpty(g: seq<string>): (r: seq<string>)
    ensures |r| <= |g| && r == g[|g| - |r|..]
    ensures AllEmpty(g[..|g| - |r|])
    ensures r == [] || r[0] != ""
    decreases |g|
  {
    if |g| > 0 && g[0] == "" then
      var r := DropLeadingEmpty(g[1..]);
      assert g[..|g| - |r|] == [g[0]] + g[1..][..|g| - 1 - |r|];
      r
    else g
  }

  /**
   The text the loop keeps pending for a run of paragraphs: the paragraphs
   from the first non-empty one on, joined by a blank line.
   */
  function RunText(g: seq<string>): string
  {
    Join(DropLeadingEmpty(g), "\n\n")
  }

  lemma {:induction false} JoinFirstNonEmpty(parts: seq<string>, sep: string)
    requires |parts| > 0 && parts[0] != ""
    ensures Join(parts, sep) != ""
    decreases |parts|
  {
    if |parts| > 1 {
      JoinFirstNonEmpty(parts[..|parts| - 1], sep);
    }
  }

  /** A run has no pending text exactly when all of its paragraphs are empty. */
  lemma RunTextEmpty(g: seq<string>)
    ensures RunText(g) == "" <==> AllEmpty(g)
  {
    var r := DropLeadingEmpty(g);
    if |r| > 0 {
      JoinFirstNonEmpty(r, "\n\n");
      assert g[|g| - |r|] == r[0];
    } else {
      assert g[..|g|] == g;
    }
  }

  lemma {:induction false} DropLeadingEmptySnoc(g: seq<string>, p: string)
    ensures DropLeadingEmpty(g + [p])
            == if AllEmpty(g) then (if p == "" then [] else [p]) else DropLeadingEmpty(g) + [p]
    decreases |g|
  {
    if |g| == 0 {
      assert g + [p] == [p];
      assert [p][1..] == [];
    } else if g[0] == "" {
      assert (g + [p])[1..] == g[1..] + [p];
      DropLeadingEmptySnoc(g[1..], p);
      AllEmptyTail(g);
    }
  }

  lemma AllEmptyTail(g: seq<string>)
    requires |g| > 0 && g[0] == ""
    ensures AllEmpty(g) <==> AllEmpty(g[1..])
  {
    if AllEmpty(g[1..]) {
      forall i | 0 < i < |g| ensures g[i] == "" {
        assert g[i] == g[1..][i - 1];
      }
    }
  }

  /** Appending a paragraph to a run extends its pending text after a blank line, or starts it. */
  lemma RunTextSnoc(g: seq<string>, p: string)
    ensures RunText(g + [p]) == RunText(g) + (if RunText(g) != "" then "\n\n" else "") + p
  {
    DropLeadingEmptySnoc(g, p);
    RunTextEmpty(g);
    if !AllEmpty(g) {
      JoinSnoc(DropLeadingEmpty(g), p, "\n\n");
    } else if p != "" {
      assert Join([p], "\n\n") == p;
    }
  }

  /** Trimming a run's pending text gives the same chunk as trimming all of its paragraphs joined. */
  lemma {:induction false} RunTextTrims(g: seq<string>)
    ensures WhitespaceThen(Join(g, "\n\n"), RunText(g))
    decreases |g|
  {
    if |g| > 0 {
      var init, p := g[..|g| - 1], g[|g| - 1];
      assert g == init + [p];
      RunTextTrims(init);
      RunTextSnoc(init, p);
      JoinSnoc(init, p, "\n\n");
      WhitespaceThenGrow(Join(init, "\n\n"), RunText(init), p, |init| == 0);
    }
  }

  /** `y` is what is left of `x` once leading whitespace is removed (possibly not all of it). */
  predicate WhitespaceThen(x: string, y: string)
  {
    |y| <= |x| && x[|x| - |y|..] == y && AllWhitespace(x[..|x| - |y|])
  }

  /** How the pending chunk relates to the run of paragraphs it was built from. */
  predicate RunState(g: seq<string>, pending: string, max: int)
  {
    && (forall i :: 0 <= i < |g| ==> |g[i]| <= max)
    && pending == RunText(g)
    && (pending == "" || |pending| <= max)
  }

  /** The pending chunk is empty exactly for a run of empty paragraphs, and trims like the whole run. */
  lemma RunStateFacts(g: seq<string>, pending: string, max: int)
    requires RunState(g, pending, max)
    ensures pending == "" <==> AllEmpty(g)
    ensures WhitespaceThen(Join(g, "\n\n"), pending)
  {
    RunTextEmpty(g);
    RunTextTrims(g);
  }

  lemma TrimWhitespaceThen(x: string, y: string)
    requires WhitespaceThen(x, y)
    ensures Trim(x) == Trim(y)
  {
    assert x == x[..|x| - |y|] + y;
    TrimSkipsLeadingWhitespace(x[..|x| - |y|], y);
  }

  /** Closing a run whose pending chunk is non-empty: the pushed chunk is the run's chunk. */
  lemma CloseRun(g: seq<string>, pending: string, max: int)
    requires RunState(g, pending, max) && pending != ""
    ensures ValidSegment(Run(g), max)
    ensures SegmentChunkList(Run(g), max) == [Trim(pending)]
  {
    RunStateFacts(g, pending, max);
    TrimWhitespaceThen(Join(g, "\n\n"), pending);
  }

  /** Closing a run whose pending chunk is empty: nothing is pushed. */
  lemma CloseEmptyRun(g: seq<string>, max: int)
    requires RunState(g, "", max) && |g| > 0
    ensures ValidSegment(Run(g), max)
    ensures SegmentChunkList(Run(g), max) == []
  {
    RunStateFacts(g, "", max);
    assert Trim(Join(g, "\n\n")) == [] by {
      TrimWhitespaceThen(Join(g, "\n\n"), "");
    }
    assert |g[0]| <= max;
  }

  lemma WhitespaceThenExtend(x: string, y: string, p: string)
    requires WhitespaceThen(x, y)
    ensures WhitespaceThen(x + "\n\n" + p, y + "\n\n" + p)
  {
    var k := |x| - |y|;
    var x' := x + "\n\n" + p;
    assert x' == x[..k] + (y + "\n\n" + p);
    assert x'[..k] == x[..k];
  }

  lemma WhitespaceThenRestart(x: string, p: string)
    requires AllWhitespace(x)
    ensures WhitespaceThen(x + "\n\n" + p, p)
  {
    var x' := x + "\n\n" + p;
    assert x'[..|x'| - |p|] == x + "\n\n";
  }

  /** Appending a paragraph that fits to the run keeps the run state. */
  lemma GrowRun(g: seq<string>, pending: string, p: string, max: int)
    requires RunState(g, pending, max) && |p| <= max
    requires pending == "" || |pending| + |p| + 2 <= max
    ensures RunState(g + [p], pending + (if pending != "" then "\n\n" else "") + p, max)
  {
    RunTextSnoc(g, p);
    BoundedAppend(g, p, max);
  }

  /** Appending a paragraph within the limit keeps every paragraph within it. */
  lemma BoundedAppend(g: seq<string>, p: string, max: int)
    requires (forall i :: 0 <= i < |g| ==> |g[i]| <= max) && |p| <= max
    ensures forall i :: 0 <= i < |g + [p]| ==> |(g + [p])[i]| <= max
  {
    var g' := g + [p];
    forall i | 0 <= i < |g'|
      ensures |g'[i]| <= max
    {
      if i < |g| {
        assert g'[i] == g[i];
      }
    }
  }

  /**
   One more paragraph keeps the join of a run and its pending text related:
   the join gains a blank line and the paragraph (just the paragraph for the
   first one), the pending text likewise unless it is still empty.
   */
  lemma WhitespaceThenGrow(x: string, y: string, p: string, first: bool)
    requires WhitespaceThen(x, y) && (first ==> x == "")
    ensures WhitespaceThen(if first then p else x + "\n\n" + p, y + (if y != "" then "\n\n" else "") + p)
  {
    if first {
      assert y == "";
      assert WhitespaceThen(p, p);
    } else if y != "" {
      WhitespaceThenExtend(x, y, p);
    } else {
      assert x[..|x|] == x;
      WhitespaceThenRestart(x, p);
    }
  }

  /** What the paragraph loop has done after a prefix of the paragraphs. */
  predicate ScanState(paras: seq<string>, st: Packing, segs: seq<Segment>, g: seq<string>, max: int)
  {
    && ValidSegments(segs, max)
    && SegmentParagraphs(segs) + g == paras
    && st.chunks == SegmentChunks(segs, max)
    && RunState(g, st.pending, max)
  }

  /** The first flush of a step (`currentChunk && ... > maxChunkSize`). */
  lemma StepFirstFlush(paras: seq<string>, st: Packing, segs: seq<Segment>, g: seq<string>, p: string, max: int)
    returns (segs1: seq<Segment>, g1: seq<string>)
    requires ScanState(paras, st, segs, g, max) && GreedyState(segs, g, max)
    ensures ScanState(paras, FirstFlush(st, p, max), segs1, g1, max)
    ensures FirstFlush(st, p, max).pending != "" ==> |FirstFlush(st, p, max).pending| + |p| + 2 <= max
    ensures Maximal(segs1, max) && ClosedBefore(segs1, if |g1| > 0 then g1[0] else p, max)
  {
    if |st.pending| + |p| + 2 > max && st.pending != "" {
      segs1, g1 := FlushRun(paras, st, segs, g, max);
      RunStateFacts(g, st.pending, max);
      MaximalAppend(segs, Run(g), max);
    } else {
      segs1, g1 := segs, g;
    }
  }

  lemma FlushRun(paras: seq<string>, st: Packing, segs: seq<Segment>, g: seq<string>, max: int)
    returns (segs1: seq<Segment>, g1: seq<string>)
    requires ScanState(paras, st, segs, g, max) && st.pending != ""
    ensures ScanState(paras, Flush(st), segs1, g1, max)
    ensures segs1 == segs + [Run(g)] && g1 == []
  {
    CloseRun(g, st.pending, max);
    SegmentsAppend(segs, Run(g), max);
    ValidSegmentsAppend(segs, Run(g), max);
    ConcatAssoc(SegmentParagraphs(segs), g, []);
    segs1, g1 := segs + [Run(g)], [];
    assert Join([], "\n\n") == "";
  }

  /** An oversized paragraph closes the current run and becomes a segment of its own. */
  lemma StepOversized(paras: seq<string>, st1: Packing, segs1: seq<Segment>, g1: seq<string>, p: string, max: int)
    returns (segs2: seq<Segment>)
    requires ScanState(paras, st1, segs1, g1, max) && st1.pending == "" && |p| > max
    requires Maximal(segs1, max) && (|g1| > 0 ==> ClosedBefore(segs1, g1[0], max))
    ensures ScanState(paras + [p], Packing(Flush(st1).chunks + SentenceChunks(p, max), Flush(st1).pending), segs2, [], max)
    ensures GreedyState(segs2, [], max)
  {
    var closed := CloseIdleRun(paras, st1, segs1, g1, max);
    segs2 := AppendOversized(paras, st1.chunks, closed, p, max);
    MaximalAppend(closed, Oversized(p), max);
    assert Flush(st1) == st1;
  }

  /** With nothing pending, the paragraphs of the run are empty and close as a segment yielding nothing. */
  lemma CloseIdleRun(paras: seq<string>, st1: Packing, segs1: seq<Segment>, g1: seq<string>, max: int)
    returns (closed: seq<Segment>)
    requires ScanState(paras, st1, segs1, g1, max) && st1.pending == ""
    requires Maximal(segs1, max) && (|g1| > 0 ==> ClosedBefore(segs1, g1[0], max))
    ensures ValidSegments(closed, max) && SegmentParagraphs(closed) == paras && SegmentChunks(closed, max) == st1.chunks
    ensures Maximal(closed, max)
  {
    closed := segs1;
    if |g1| > 0 {
      CloseEmptyRun(g1, max);
      MaximalAppend(segs1, Run(g1), max);
      SegmentsAppend(segs1, Run(g1), max);
      ValidSegmentsAppend(segs1, Run(g1), max);
      closed := segs1 + [Run(g1)];
    } else {
      assert SegmentParagraphs(segs1) + [] == SegmentParagraphs(segs1);
    }
  }

  lemma AppendOversized(paras: seq<string>, chunks: seq<string>, closed: seq<Segment>, p: string, max: int)
    returns (segs2: seq<Segment>)
    requires ValidSegments(closed, max) && SegmentParagraphs(closed) == paras && SegmentChunks(closed, max) == chunks
    requires |p| > max
    ensures ScanState(paras + [p], Packing(chunks + SentenceChunks(p, max), ""), segs2, [], max)
    ensures segs2 == closed + [Oversized(p)]
  {
    SegmentsAppend(closed, Oversized(p), max);
    ValidSegmentsAppend(closed, Oversized(p), max);
    segs2 := closed + [Oversized(p)];
    assert Join([], "\n\n") == "";
    assert SegmentParagraphs(segs2) + [] == paras + [p];
  }

  /** A paragraph that fits joins the current run. */
  lemma StepFits(paras: seq<string>, st1: Packing, segs1: seq<Segment>, g1: seq<string>, p: string, max: int)
    requires ScanState(paras, st1, segs1, g1, max) && |p| <= max
    requires st1.pending != "" ==> |st1.pending| + |p| + 2 <= max
    requires Maximal(segs1, max) && ClosedBefore(segs1, if |g1| > 0 then g1[0] else p, max)
    ensures ScanState(paras + [p], Packing(st1.chunks, st1.pending + (if st1.pending != "" then "\n\n" else "") + p), segs1, g1 + [p], max)
    ensures GreedyState(segs1, g1 + [p], max)
  {
    assert (g1 + [p])[0] == if |g1| > 0 then g1[0] else p;
    GrowRun(g1, st1.pending, p, max);
    ConcatAssoc(SegmentParagraphs(segs1), g1, [p]);
  }

  lemma {:induction false} ScanShape(paras: seq<string>, max: int) returns (segs: seq<Segment>, g: seq<string>)
    ensures ScanState(paras, Scan(paras, max), segs, g, max) && GreedyState(segs, g, max)
    decreases |paras|
  {
    if |paras| == 0 {
      segs, g := [], [];
      assert Join([], "\n\n") == "";
    } else {
      var prefix, p := paras[..|paras| - 1], paras[|paras| - 1];
      assert paras == prefix + [p];
      var segs0, g0 := ScanShape(prefix, max);
      var st := Scan(prefix, max);
      var segs1, g1 := StepFirstFlush(prefix, st, segs0, g0, p, max);
      var st1 := FirstFlush(st, p, max);
      assert Scan(paras, max) == Step(st, p, max);
      if |p| > max {
        segs := StepOversized(prefix, st1, segs1, g1, p, max);
        g := [];
      } else {
        StepFits(prefix, st1, segs1, g1, p, max);
        segs, g := segs1, g1 + [p];
      }
    }
  }

  /**
   The chunks, described without the loop: the paragraphs fall into consecutive
   segments in source order; a run of paragraphs that each fit yields one
   trimmed chunk (none if they are all empty) no longer than the limit, and an
   oversized paragraph is never merged with a neighbour but yields its own
   sentence chunks. Runs are maximal: a run ends before a fitting paragraph
   only when that paragraph would not fit after it.
   */
  lemma ChunksFollowSegments(text: string, max: int)
    ensures exists segs :: ValidSegments(segs, max) && Maximal(segs, max) && SegmentParagraphs(segs) == Paragraphs(text)
                           && SplitTextIntoChunks(text, max) == SegmentChunks(segs, max)
  {
    var segs := FinalSegments(Paragraphs(text), max);
  }

  lemma FinalSegments(paras: seq<string>, max: int) returns (segs: seq<Segment>)
    ensures ValidSegments(segs, max) && Maximal(segs, max) && SegmentParagraphs(segs) == paras
    ensures Flush(Scan(paras, max)).chunks == SegmentChunks(segs, max)
  {
    var segs0, g := ScanShape(paras, max);
    var st := Scan(paras, max);
    if |g| == 0 {
      segs := segs0;
      ConcatAssoc(SegmentParagraphs(segs0), [], []);
    } else {
      if st.pending != "" {
        CloseRun(g, st.pending, max);
      } else {
        CloseEmptyRun(g, max);
      }
      SegmentsAppend(segs0, Run(g), max);
      ValidSegmentsAppend(segs0, Run(g), max);
      MaximalAppend(segs0, Run(g), max);
      segs := segs0 + [Run(g)];
    }
  }

  // ---------------------------------------------------------------------------
  // The converse: a valid, maximal segmentation determines the chunks.

  /** The paragraph loop resumed from the state `st`. */
  function ScanFrom(st: Packing, paras: seq<string>, max: int): Packing
    decreases |paras|
  {
    if |paras| == 0 then st
    else Step(ScanFrom(st, paras[..|paras| - 1], max), paras[|paras| - 1], max)
  }

  lemma {:induction false} ScanConcat(a: seq<string>, b: seq<string>, max: int)
    ensures Scan(a + b, max) == ScanFrom(Scan(a, max), b, max)
    decreases |b|
  {
    if |b| == 0 {
      assert a + b == a;
    } else {
      var b' := b[..|b| - 1];
      assert (a + b)[..|a + b| - 1] == a + b';
      ScanConcat(a, b', max);
    }
  }

  /** Two states that the same first paragraph takes to the same state lead to the same end. */
  lemma {:induction false} ScanFromSameFirstStep(st: Packing, st': Packing, h: seq<string>, max: int)
    requires |h| > 0 && Step(st, h[0], max) == Step(st', h[0], max)
    ensures ScanFrom(st, h, max) == ScanFrom(st', h, max)
    decreases |h|
  {
    if |h| > 1 {
      var init := h[..|h| - 1];
      assert init[0] == h[0];
      ScanFromSameFirstStep(st, st', init, max);
    } else {
      assert h[..0] == [];
    }
  }

  /** From an idle state, a valid run is gathered whole into the pending chunk. */
  lemma {:induction false} ScanRun(chunks: seq<string>, g: seq<string>, max: int)
    requires |RunText(g)| <= max && forall i :: 0 <= i < |g| ==> |g[i]| <= max
    ensures ScanFrom(Packing(chunks, ""), g, max) == Packing(chunks, RunText(g))
    decreases |g|
  {
    if |g| > 0 {
      var init, p := g[..|g| - 1], g[|g| - 1];
      assert g == init + [p];
      RunPrefixFits(init, p, max);
      ScanRun(chunks, init, max);
      ScanRunStep(chunks, init, p, max);
    } else {
      assert DropLeadingEmpty(g) == [];
    }
  }

  /** The paragraphs of a run but the last still form a run within the limit. */
  lemma RunPrefixFits(init: seq<string>, p: string, max: int)
    requires |RunText(init + [p])| <= max && forall i :: 0 <= i < |init + [p]| ==> |(init + [p])[i]| <= max
    ensures |RunText(init)| <= max && |p| <= max && forall i :: 0 <= i < |init| ==> |init[i]| <= max
  {
    RunTextSnoc(init, p);
    var g := init + [p];
    assert g[|init|] == p;
    forall i | 0 <= i < |init|
      ensures |init[i]| <= max
    {
      assert g[i] == init[i];
    }
  }

  lemma ScanRunStep(chunks: seq<string>, init: seq<string>, p: string, max: int)
    requires ScanFrom(Packing(chunks, ""), init, max) == Packing(chunks, RunText(init))
    requires |p| <= max && |RunText(init + [p])| <= max
    ensures ScanFrom(Packing(chunks, ""), init + [p], max) == Packing(chunks, RunText(init + [p]))
  {
    RunTextSnoc(init, p);
    assert (init + [p])[..|init|] == init;
    FittingStep(chunks, RunText(init), p, max);
  }

  /** A paragraph that fits after the pending text is appended to it and nothing is pushed. */
  lemma FittingStep(chunks: seq<string>, t: string, p: string, max: int)
    requires |p| <= max && |t + (if t != "" then "\n\n" else "") + p| <= max
    ensures Step(Packing(chunks, t), p, max) == Packing(chunks, t + (if t != "" then "\n\n" else "") + p)
  {
  }

  /** After a run that `h[0]` overflows, the loop pushes that run and gathers `h` as a new one. */
  lemma ScanRunAfterRun(chunks: seq<string>, g: seq<string>, h: seq<string>, max: int)
    requires |h| > 0 && Overflows(g, h[0], max)
    requires |RunText(h)| <= max && forall i :: 0 <= i < |h| ==> |h[i]| <= max
    ensures ScanFrom(Packing(chunks, RunText(g)), h, max) == Packing(chunks + [Trim(RunText(g))], RunText(h))
  {
    var t := RunText(g);
    var closed := chunks + [Trim(t)];
    OverflowStep(chunks, t, h[0], max);
    ScanFromSameFirstStep(Packing(chunks, t), Packing(closed, ""), h, max);
    ScanRun(closed, h, max);
  }

  /** A paragraph that overflows the pending text pushes it, whether or not that push already happened. */
  lemma OverflowStep(chunks: seq<string>, t: string, p: string, max: int)
    requires t != "" && |t| + 2 + |p| > max && |p| <= max
    ensures Step(Packing(chunks, t), p, max) == Packing(chunks + [Trim(t)], p)
    ensures Step(Packing(chunks + [Trim(t)], ""), p, max) == Packing(chunks + [Trim(t)], p)
  {
  }

  /** An oversized paragraph flushes whatever is pending and adds its sentence chunks. */
  lemma OversizedStep(st: Packing, p: string, max: int)
    requires |p| > max
    ensures Step(st, p, max) == Packing(Flush(st).chunks + SentenceChunks(p, max), "")
  {
  }

  /**
   The loop state after the paragraphs of a segmentation: everything before
   a final run pushed and that run pending, or everything pushed after a final
   oversized paragraph.
   */
  function Expected(segs: seq<Segment>, max: int): Packing
  {
    if |segs| == 0 then Packing([], "")
    else match segs[|segs| - 1]
      case Run(g) => Packing(SegmentChunks(segs[..|segs| - 1], max), RunText(g))
      case Oversized(_) => Packing(SegmentChunks(segs, max), "")
  }

  lemma RunChunk(g: seq<string>, max: int)
    ensures SegmentChunkList(Run(g), max) == if RunText(g) == "" then [] else [Trim(RunText(g))]
  {
    RunTextEmpty(g);
    RunTextTrims(g);
    TrimWhitespaceThen(Join(g, "\n\n"), RunText(g));
  }

  lemma FlushExpected(segs: seq<Segment>, max: int)
    ensures Flush(Expected(segs, max)) == Packing(SegmentChunks(segs, max), "")
  {
    if |segs| > 0 && segs[|segs| - 1].Run? {
      var n := |segs|;
      assert segs == segs[..n - 1] + [segs[n - 1]];
      SegmentsAppend(segs[..n - 1], segs[n - 1], max);
      RunChunk(segs[n - 1].group, max);
    }
  }

  lemma MaximalPrefix(segs: seq<Segment>, max: int)
    requires |segs| > 0 && ValidSegments(segs, max) && Maximal(segs, max)
    ensures ValidSegments(segs[..|segs| - 1], max) && Maximal(segs[..|segs| - 1], max)
  {
    var init := segs[..|segs| - 1];
    assert forall i :: 0 <= i < |init| ==> init[i] == segs[i];
  }

  lemma {:induction false} ScanSegments(segs: seq<Segment>, max: int)
    requires ValidSegments(segs, max) && Maximal(segs, max)
    ensures Scan(SegmentParagraphs(segs), max) == Expected(segs, max)
    decreases |segs|
  {
    if |segs| > 0 {
      var n := |segs|;
      var init, seg := segs[..n - 1], segs[n - 1];
      assert segs == init + [seg];
      MaximalPrefix(segs, max);
      ScanSegments(init, max);
      SegmentsAppend(init, seg, max);
      ScanConcat(SegmentParagraphs(init), SegmentParagraphList(seg), max);
      FlushExpected(init, max);
      assert ValidSegment(seg, max);
      ScanSegmentsStep(init, seg, max);
    }
  }

  /** Scanning one more segment's paragraphs from the state the earlier ones leave. */
  lemma ScanSegmentsStep(init: seq<Segment>, seg: Segment, max: int)
    requires ValidSegment(seg, max)
    requires seg.Run? && |init| > 0 && init[|init| - 1].Run? ==> Overflows(init[|init| - 1].group, seg.group[0], max)
    requires Flush(Expected(init, max)) == Packing(SegmentChunks(init, max), "")
    ensures ScanFrom(Expected(init, max), SegmentParagraphList(seg), max) == Expected(init + [seg], max)
  {
    match seg
    case Oversized(p) =>
      ScanOversizedSegment(init, p, max);
    case Run(h) =>
      if |init| > 0 && init[|init| - 1].Run? {
        ScanRunAfterRunSegment(init, h, max);
      } else {
        ScanRunFreshSegment(init, h, max);
      }
  }

  lemma ScanOversizedSegment(init: seq<Segment>, p: string, max: int)
    requires |p| > max
    requires Flush(Expected(init, max)) == Packing(SegmentChunks(init, max), "")
    ensures ScanFrom(Expected(init, max), [p], max) == Expected(init + [Oversized(p)], max)
  {
    var st := Expected(init, max);
    var segs := init + [Oversized(p)];
    assert segs[..|segs| - 1] == init;
    SegmentsAppend(init, Oversized(p), max);
    assert [p][..0] == [];
    OversizedStep(st, p, max);
  }

  lemma ScanRunAfterRunSegment(init: seq<Segment>, h: seq<string>, max: int)
    requires ValidSegment(Run(h), max) && |init| > 0 && init[|init| - 1].Run?
    requires Overflows(init[|init| - 1].group, h[0], max)
    requires Flush(Expected(init, max)) == Packing(SegmentChunks(init, max), "")
    ensures ScanFrom(Expected(init, max), h, max) == Expected(init + [Run(h)], max)
  {
    var segs := init + [Run(h)];
    assert segs[..|segs| - 1] == init;
    var g := init[|init| - 1].group;
    var before := SegmentChunks(init[..|init| - 1], max);
    assert Expected(init, max) == Packing(before, RunText(g));
    assert SegmentChunks(init, max) == before + [Trim(RunText(g))];
    ScanRunAfterRun(before, g, h, max);
  }

  lemma ScanRunFreshSegment(init: seq<Segment>, h: seq<string>, max: int)
    requires ValidSegment(Run(h), max) && !(|init| > 0 && init[|init| - 1].Run?)
    ensures ScanFrom(Expected(init, max), h, max) == Expected(init + [Run(h)], max)
  {
    var segs := init + [Run(h)];
    assert segs[..|segs| - 1] == init;
    assert Expected(init, max) == Packing(SegmentChunks(init, max), "");
    ScanRun(SegmentChunks(init, max), h, max);
  }

  /**
   The converse of ChunksFollowSegments: every segmentation into valid runs
   and oversized paragraphs whose runs are maximal yields exactly the chunks,
   so the segmentation the loop follows is the only one there is.
   */
  lemma MaximalSegmentsGiveChunks(text: string, segs: seq<Segment>, max: int)
    requires ValidSegments(segs, max) && Maximal(segs, max) && SegmentParagraphs(segs) == Paragraphs(text)
    ensures SplitTextIntoChunks(text, max) == SegmentChunks(segs, max)
  {
    ScanSegments(segs, max);
    FlushExpected(segs, max);
  }

  // ---------------------------------------------------------------------------
  // Properties of the chunker.

  /** The empty text has one empty paragraph, which is never pushed: no chunks at all. */
  lemma EmptyTextNoChunks(max: int)
    ensures SplitTextIntoChunks("", max) == []
  {
    SplitEmpty(ParagraphBreak);
    assert Paragraphs("") == [""];
    assert [""][..0] == [];
    assert SentenceMatches("") == [];
    assert PackUnits([""], max).pending == "";
  }

  /**
   The pending chunk never exceeds the limit: a paragraph is appended after a
   blank line only when the result fits, and a paragraph that starts a chunk
   fits on its own.
   */
  lemma {:induction false} PendingWithinLimit(paras: seq<string>, max: int)
    ensures Scan(paras, max).pending == "" || |Scan(paras, max).pending| <= max
  {
    var segs, g := ScanShape(paras, max);
  }

  /**
   The second flush inside the oversized branch never fires: once a paragraph
   is longer than the limit, the first flush has already emptied the pending
   chunk.
   */
  lemma SecondFlushIdle(st: Packing, p: string, max: int)
    requires |p| > max
    ensures FirstFlush(st, p, max).pending == ""
  {
  }

  /** A chunk that only the sentence fallback can make oversized: one unit longer than the limit, trimmed. */
  ghost predicate OversizedUnit(text: string, max: int, c: string)
  {
    exists p, u :: p in Paragraphs(text) && |p| > max && u in SentenceUnits(p) && |u| > max && c == Trim(u)
  }

  /**
   Every chunk respects the limit, except a chunk that is a single sentence
   (or a whole paragraph without any sentence match) longer than the limit.
   */
  lemma ChunksWithinLimit(text: string, max: int)
    ensures forall c :: c in SplitTextIntoChunks(text, max) ==> |c| <= max || OversizedUnit(text, max, c)
  {
    var segs := FinalSegments(Paragraphs(text), max);
    forall c | c in SplitTextIntoChunks(text, max)
      ensures |c| <= max || OversizedUnit(text, max, c)
    {
      var k := SegmentOfChunk(segs, max, c);
      ParagraphOfSegment(segs, k);
      match segs[k]
      case Run(g) =>
        RunChunkWithinLimit(g, max);
      case Oversized(p) =>
        SentenceChunksWithinLimit(p, max);
        if |c| > max {
          var u :| u in SentenceUnits(p) && |u| > max && c == Trim(u);
          assert p in Paragraphs(text);
        }
    }
  }

  /** A valid run's chunk is no longer than its pending text, so within the limit. */
  lemma RunChunkWithinLimit(g: seq<string>, max: int)
    requires ValidSegment(Run(g), max)
    ensures forall c :: c in SegmentChunkList(Run(g), max) ==> |c| <= max
  {
    var x, t := Join(g, "\n\n"), RunText(g);
    RunTextTrims(g);
    TrimWhitespaceThen(x, t);
    assert |Trim(x)| <= max by {
      assert |Trim(t)| <= |t|;
    }
    assert SegmentChunkList(Run(g), max) == if AllEmpty(g) then [] else [Trim(x)];
  }

  lemma {:induction false} SegmentOfChunk(segs: seq<Segment>, max: int, c: string) returns (k: nat)
    requires c in SegmentChunks(segs, max)
    ensures k < |segs| && c in SegmentChunkList(segs[k], max)
    decreases |segs|
  {
    var init := segs[..|segs| - 1];
    if c in SegmentChunks(init, max) {
      k := SegmentOfChunk(init, max, c);
      assert segs[k] == init[k];
    } else {
      k := |segs| - 1;
    }
  }

  lemma {:induction false} ParagraphOfSegment(segs: seq<Segment>, k: nat)
    requires k < |segs|
    ensures forall x :: x in SegmentParagraphList(segs[k]) ==> x in SegmentParagraphs(segs)
    decreases |segs|
  {
    var init := segs[..|segs| - 1];
    if k < |segs| - 1 {
      ParagraphOfSegment(init, k);
      assert segs[k] == init[k];
    }
  }

  /** The sentence loop keeps every pushed chunk and the pending chunk within the limit, or a single unit. */
  lemma {:induction false} PackUnitsWithinLimit(units: seq<string>, max: int)
    ensures var st := PackUnits(units, max);
      && (forall c :: c in st.chunks ==> |c| <= max || exists u :: u in units && |u| > max && c == Trim(u))
      && (st.pending == "" || |st.pending| <= max || st.pending in units)
    decreases |units|
  {
    if |units| > 0 {
      var init := units[..|units| - 1];
      PackUnitsWithinLimit(init, max);
      assert forall x :: x in init ==> x in units;
    }
  }

  lemma SentenceChunksWithinLimit(p: string, max: int)
    ensures forall c :: c in SentenceChunks(p, max) ==>
      |c| <= max || exists u :: u in SentenceUnits(p) && |u| > max && c == Trim(u)
  {
    PackUnitsWithinLimit(SentenceUnits(p), max);
  }

  /** The chunks of a grouping of units: each group's units concatenated, then trimmed. */
  function GroupChunks(groups: seq<seq<string>>): (r: seq<string>)
    ensures |r| == |groups|
    ensures forall i :: 0 <= i < |groups| ==> r[i] == Trim(Join(groups[i], ""))
  {
    seq(|groups|, i requires 0 <= i < |groups| => Trim(Join(groups[i], "")))
  }

  /**
   The sentence loop described independently of the loop: consecutive
   non-empty groups of units in order, a group longer than the limit only
   when it is a single unit, and a new group started only when the next unit
   would not fit after the group before.
   */
  predicate SentenceGrouping(units: seq<string>, groups: seq<seq<string>>, max: int)
  {
    && Flatten(groups) == units
    && (forall i :: 0 <= i < |groups| ==> |groups[i]| > 0 && (|groups[i]| == 1 || |Join(groups[i], "")| <= max))
    && (forall i :: 0 < i < |groups| ==> |Join(groups[i - 1], "")| + |groups[i][0]| > max)
  }

  /** The loop state over non-empty units: the chunks of all groups but the last, which is pending. */
  predicate PackedAs(st: Packing, groups: seq<seq<string>>)
  {
    if |groups| == 0 then st == Packing([], "")
    else st == Packing(GroupChunks(groups[..|groups| - 1]), Join(groups[|groups| - 1], ""))
  }

  lemma {:induction false} PackUnitsGreedy(units: seq<string>, max: int) returns (groups: seq<seq<string>>)
    requires forall i :: 0 <= i < |units| ==> units[i] != ""
    ensures SentenceGrouping(units, groups, max) && PackedAs(PackUnits(units, max), groups)
    decreases |units|
  {
    if |units| == 0 {
      groups := [];
    } else {
      var init, u := units[..|units| - 1], units[|units| - 1];
      assert units == init + [u];
      assert forall i :: 0 <= i < |init| ==> init[i] == units[i];
      var g0 := PackUnitsGreedy(init, max);
      groups := UnitsStep(init, g0, u, max);
    }
  }

  /** One step of the sentence loop keeps the loop state and the grouping in step. */
  lemma UnitsStep(init: seq<string>, g0: seq<seq<string>>, u: string, max: int) returns (groups: seq<seq<string>>)
    requires SentenceGrouping(init, g0, max) && PackedAs(PackUnits(init, max), g0)
    requires |init| > 0 ==> init[|init| - 1] != ""
    ensures SentenceGrouping(init + [u], groups, max) && PackedAs(PackUnits(init + [u], max), groups)
  {
    if |init| > 0 {
      PackPendingNonEmpty(init, max);
    }
    var st := PackUnits(init, max);
    assert (init + [u])[..|init|] == init;
    if |g0| == 0 {
      groups := [[u]];
      FlattenSingle([u]);
      assert Join([u], "") == u;
    } else if |st.pending| + |u| > max {
      groups := UnitsNewGroup(init, g0, st, u, max);
    } else {
      groups := UnitsSameGroup(init, g0, st, u, max);
    }
  }

  lemma UnitsNewGroup(init: seq<string>, g0: seq<seq<string>>, st: Packing, u: string, max: int)
    returns (groups: seq<seq<string>>)
    requires SentenceGrouping(init, g0, max) && PackedAs(st, g0) && |g0| > 0 && st.pending != ""
    requires |st.pending| + |u| > max
    ensures SentenceGrouping(init + [u], groups, max) && PackedAs(Packing(Flush(st).chunks, u), groups)
  {
    var n := |g0|;
    groups := g0 + [[u]];
    FlattenAppend(g0, [[u]]);
    FlattenSingle([u]);
    GroupChunksSnoc(g0);
    assert groups[..n] == g0;
    assert Join([u], "") == u;
    forall i | 0 <= i < |groups|
      ensures |groups[i]| > 0 && (|groups[i]| == 1 || |Join(groups[i], "")| <= max)
    {
      if i < n {
        assert groups[i] == g0[i];
      }
    }
    forall i | 0 < i < |groups|
      ensures |Join(groups[i - 1], "")| + |groups[i][0]| > max
    {
      assert groups[i - 1] == g0[i - 1];
      if i < n {
        assert groups[i] == g0[i];
      }
    }
  }

  lemma UnitsSameGroup(init: seq<string>, g0: seq<seq<string>>, st: Packing, u: string, max: int)
    returns (groups: seq<seq<string>>)
    requires SentenceGrouping(init, g0, max) && PackedAs(st, g0) && |g0| > 0
    requires |st.pending| + |u| <= max
    ensures SentenceGrouping(init + [u], groups, max) && PackedAs(Packing(st.chunks, st.pending + u), groups)
  {
    var n := |g0|;
    var last := g0[n - 1];
    JoinSnoc(last, u, "");
    groups := GroupingExtendLast(init, g0, u, max);
    assert groups[..n - 1] == g0[..n - 1];
  }

  /** Adding a unit to the last group keeps a grouping when the grown group fits. */
  lemma GroupingExtendLast(units: seq<string>, g0: seq<seq<string>>, u: string, max: int)
    returns (groups: seq<seq<string>>)
    requires SentenceGrouping(units, g0, max) && |g0| > 0
    requires |Join(g0[|g0| - 1] + [u], "")| <= max
    ensures groups == g0[..|g0| - 1] + [g0[|g0| - 1] + [u]]
    ensures SentenceGrouping(units + [u], groups, max)
  {
    var n := |g0|;
    var merged := g0[n - 1] + [u];
    groups := g0[..n - 1] + [merged];
    FlattenExtendLast(g0, [u]);
    forall i | 0 <= i < |groups|
      ensures |groups[i]| > 0 && (|groups[i]| == 1 || |Join(groups[i], "")| <= max)
    {
      if i < n - 1 {
        assert groups[i] == g0[i];
      }
    }
    forall i | 0 < i < |groups|
      ensures |Join(groups[i - 1], "")| + |groups[i][0]| > max
    {
      assert groups[i - 1] == g0[i - 1];
      if i < n - 1 {
        assert groups[i] == g0[i];
      } else {
        assert groups[i][0] == g0[i][0];
      }
    }
  }

  /**
   The sentence chunks of a non-empty oversized paragraph: its sentence units
   fall into consecutive groups in order, a group is longer than the limit only
   when it is a single unit, a new group starts only when the next unit would
   not fit after the group before, and each chunk is one group concatenated and
   trimmed.
   */
  lemma SentenceChunksGroup(p: string, max: int) returns (groups: seq<seq<string>>)
    requires p != ""
    ensures SentenceGrouping(SentenceUnits(p), groups, max)
    ensures SentenceChunks(p, max) == GroupChunks(groups)
  {
    var units := SentenceUnits(p);
    groups := PackUnitsGreedy(units, max);
    PackPendingNonEmpty(units, max);
    FlushGroups(PackUnits(units, max), groups);
  }

  /**
   The converse of SentenceChunksGroup: any grouping of the sentence units with
   those properties yields exactly the sentence chunks, so the greedy grouping
   is the only one there is.
   */
  lemma SentenceGroupingUnique(p: string, groups: seq<seq<string>>, max: int)
    requires p != "" && SentenceGrouping(SentenceUnits(p), groups, max)
    ensures SentenceChunks(p, max) == GroupChunks(groups)
  {
    var units := SentenceUnits(p);
    GroupingPacks(units, groups, max);
    PackPendingNonEmpty(units, max);
    FlushGroups(PackUnits(units, max), groups);
  }

  /** Every grouping of non-empty units with the greedy properties is the state the sentence loop reaches. */
  lemma {:induction false} GroupingPacks(units: seq<string>, groups: seq<seq<string>>, max: int)
    requires forall i :: 0 <= i < |units| ==> units[i] != ""
    requires SentenceGrouping(units, groups, max)
    ensures PackedAs(PackUnits(units, max), groups)
    decreases |units|
  {
    if |groups| > 0 {
      var n := |groups|;
      var g' := GroupingWithoutLast(units, groups, max);
      var init, u := units[..|units| - 1], units[|units| - 1];
      assert units == init + [u];
      assert forall i :: 0 <= i < |init| ==> init[i] == units[i];
      GroupingPacks(init, g', max);
      if |groups[n - 1]| == 1 {
        PackSingleCase(init, g', groups, u, max);
      } else {
        assert |Join(groups[n - 1], "")| <= max;
        PackGrowCase(init, g', groups, u, max);
      }
    }
  }

  lemma PackSingleCase(init: seq<string>, g': seq<seq<string>>, groups: seq<seq<string>>, u: string, max: int)
    requires forall i :: 0 <= i < |init| ==> init[i] != ""
    requires u != "" && SentenceGrouping(init, g', max) && SentenceGrouping(init + [u], groups, max)
    requires PackedAs(PackUnits(init, max), g')
    requires |groups| > 0 && g' == groups[..|groups| - 1] && groups[|groups| - 1] == [u]
    ensures PackedAs(PackUnits(init + [u], max), groups)
  {
    var m := |g'|;
    assert groups == g' + [[u]];
    if m > 0 {
      assert Flatten(g') == Flatten(g'[..m - 1]) + g'[m - 1];
      assert g'[m - 1] == groups[m - 1] && groups[m][0] == u;
      assert |init| > 0;
    }
    PackNewGroup(init, g', u, max);
  }

  lemma PackGrowCase(init: seq<string>, g': seq<seq<string>>, groups: seq<seq<string>>, u: string, max: int)
    requires |g'| > 0 && |g'[|g'| - 1]| > 0 && PackedAs(PackUnits(init, max), g')
    requires groups == g'[..|g'| - 1] + [g'[|g'| - 1] + [u]]
    requires |Join(groups[|groups| - 1], "")| <= max
    ensures PackedAs(PackUnits(init + [u], max), groups)
  {
    var last := g'[|g'| - 1];
    JoinSnoc(last, u, "");
    assert groups[|groups| - 1] == last + [u];
    PackGrowGroup(init, g', u, max);
  }

  /** Taking the last unit off a grouping: the last group shrinks, or goes when it held that unit alone. */
  lemma GroupingWithoutLast(units: seq<string>, groups: seq<seq<string>>, max: int) returns (g': seq<seq<string>>)
    requires SentenceGrouping(units, groups, max) && |groups| > 0
    ensures |units| > 0 && units[|units| - 1] == groups[|groups| - 1][|groups[|groups| - 1]| - 1]
    ensures SentenceGrouping(units[..|units| - 1], g', max)
    ensures |groups[|groups| - 1]| == 1 ==> g' == groups[..|groups| - 1]
    ensures |groups[|groups| - 1]| > 1 ==>
      var last := groups[|groups| - 1];
      && g' == groups[..|groups| - 1] + [last[..|last| - 1]]
      && groups == g'[..|g'| - 1] + [g'[|g'| - 1] + [last[|last| - 1]]]
  {
    var n := |groups|;
    var before := groups[..n - 1];
    assert groups == before + [groups[n - 1]];
    if |groups[n - 1]| == 1 {
      g' := before;
      DropSingleGroup(units, before, groups[n - 1], max);
    } else {
      g' := DropLastUnit(units, before, groups[n - 1], max);
    }
  }

  lemma DropSingleGroup(units: seq<string>, before: seq<seq<string>>, last: seq<string>, max: int)
    requires SentenceGrouping(units, before + [last], max) && |last| == 1
    ensures |units| > 0 && units[|units| - 1] == last[0]
    ensures SentenceGrouping(units[..|units| - 1], before, max)
  {
    var groups := before + [last];
    assert groups[..|before|] == before;
    assert units == Flatten(before) + last;
    assert units[..|units| - 1] == Flatten(before);
    assert forall i :: 0 <= i < |before| ==> before[i] == groups[i];
  }

  lemma DropLastUnit(units: seq<string>, before: seq<seq<string>>, last: seq<string>, max: int) returns (g': seq<seq<string>>)
    requires SentenceGrouping(units, before + [last], max) && |last| > 1
    ensures |units| > 0 && units[|units| - 1] == last[|last| - 1]
    ensures g' == before + [last[..|last| - 1]]
    ensures g'[..|g'| - 1] == before && g'[|g'| - 1] + [last[|last| - 1]] == last
    ensures SentenceGrouping(units[..|units| - 1], g', max)
  {
    var groups := before + [last];
    var k := |last|;
    var shrunk := last[..k - 1];
    g' := before + [shrunk];
    assert groups[..|before|] == before;
    assert units == Flatten(before) + last;
    assert last == shrunk + [last[k - 1]];
    assert g'[..|before|] == before;
    assert Flatten(g') == Flatten(before) + shrunk;
    assert units[..|units| - 1] == Flatten(g');
    JoinSnoc(shrunk, last[k - 1], "");
    GroupingShrunk(groups, g', max);
  }

  /** The size and boundary conditions survive shrinking the last group. */
  lemma GroupingShrunk(groups: seq<seq<string>>, g': seq<seq<string>>, max: int)
    requires |groups| > 0 && |g'| == |groups|
    requires forall i :: 0 <= i < |groups| - 1 ==> g'[i] == groups[i]
    requires forall i :: 0 <= i < |groups| ==> |groups[i]| > 0 && (|groups[i]| == 1 || |Join(groups[i], "")| <= max)
    requires forall i :: 0 < i < |groups| ==> |Join(groups[i - 1], "")| + |groups[i][0]| > max
    requires |g'[|g'| - 1]| > 0 && g'[|g'| - 1][0] == groups[|groups| - 1][0]
    requires |Join(g'[|g'| - 1], "")| <= |Join(groups[|groups| - 1], "")|
    requires |groups[|groups| - 1]| > |g'[|g'| - 1]|
    ensures forall i :: 0 <= i < |g'| ==> |g'[i]| > 0 && (|g'[i]| == 1 || |Join(g'[i], "")| <= max)
    ensures forall i :: 0 < i < |g'| ==> |Join(g'[i - 1], "")| + |g'[i][0]| > max
  {
  }

  /** A unit that does not fit after the pending group starts a group of its own. */
  lemma PackNewGroup(init: seq<string>, g': seq<seq<string>>, u: string, max: int)
    requires PackedAs(PackUnits(init, max), g') && u != ""
    requires |init| > 0 ==> init[|init| - 1] != ""
    requires |g'| > 0 ==> |init| > 0 && |Join(g'[|g'| - 1], "")| + |u| > max
    ensures PackedAs(PackUnits(init + [u], max), g' + [[u]])
  {
    var st := PackUnits(init, max);
    if |init| > 0 {
      PackPendingNonEmpty(init, max);
    }
    assert (init + [u])[..|init|] == init;
    var groups := g' + [[u]];
    assert groups[..|g'|] == g';
    assert Join([u], "") == u;
    if |g'| > 0 {
      FlushGroups(st, g');
    }
  }

  /** A unit that fits after the pending group joins it. */
  lemma PackGrowGroup(init: seq<string>, g': seq<seq<string>>, u: string, max: int)
    requires PackedAs(PackUnits(init, max), g') && |g'| > 0 && |g'[|g'| - 1]| > 0
    requires |Join(g'[|g'| - 1], "") + u| <= max
    requires Join(g'[|g'| - 1] + [u], "") == Join(g'[|g'| - 1], "") + u
    ensures PackedAs(PackUnits(init + [u], max), g'[..|g'| - 1] + [g'[|g'| - 1] + [u]])
  {
    assert (init + [u])[..|init|] == init;
    var groups := g'[..|g'| - 1] + [g'[|g'| - 1] + [u]];
    assert groups[..|g'| - 1] == g'[..|g'| - 1];
  }

  /** Flushing a non-empty pending group turns every group into its chunk. */
  lemma FlushGroups(st: Packing, groups: seq<seq<string>>)
    requires PackedAs(st, groups) && st.pending != ""
    ensures Flush(st).chunks == GroupChunks(groups)
  {
    GroupChunksSnoc(groups);
  }

  lemma GroupChunksSnoc(groups: seq<seq<string>>)
    requires |groups| > 0
    ensures GroupChunks(groups) == GroupChunks(groups[..|groups| - 1]) + [Trim(Join(groups[|groups| - 1], ""))]
  {
    var n := |groups|;
    var a, b := GroupChunks(groups[..n - 1]), GroupChunks(groups);
    forall i | 0 <= i < n - 1
      ensures b[i] == a[i]
    {
      assert groups[..n - 1][i] == groups[i];
    }
  }

  lemma AllEmptyConcat(a: seq<string>, b: seq<string>)
    ensures AllEmpty(a + b) <==> AllEmpty(a) && AllEmpty(b)
  {
    if AllEmpty(a) && AllEmpty(b) {
      forall i | 0 <= i < |a + b| ensures (a + b)[i] == "" {
        if i >= |a| { assert (a + b)[i] == b[i - |a|]; }
      }
    }
    if AllEmpty(a + b) {
      forall i | 0 <= i < |a| ensures a[i] == "" {
        assert (a + b)[i] == a[i];
      }
      forall i | 0 <= i < |b| ensures b[i] == "" {
        assert (a + b)[|a| + i] == b[i];
      }
    }
  }

  /** The sentence loop over a single unit holds it pending and pushes nothing. */
  lemma PackSingle(u: string, max: int)
    ensures PackUnits([u], max) == Packing([], u)
  {
    assert [u][..0] == [];
  }

  /** After a non-empty last unit the sentence loop always has something pending. */
  lemma PackPendingNonEmpty(units: seq<string>, max: int)
    requires |units| > 0 && units[|units| - 1] != ""
    ensures PackUnits(units, max).pending != ""
  {
  }

  /** An oversized paragraph yields no chunk exactly when it is empty (possible only for a negative limit). */
  lemma SentenceChunksEmpty(p: string, max: int)
    ensures SentenceChunks(p, max) == [] <==> p == ""
  {
    var units := SentenceUnits(p);
    if p == "" {
      assert SentenceMatches("") == [];
      assert units == [""];
      PackSingle("", max);
    } else {
      PackPendingNonEmpty(units, max);
    }
  }

  lemma {:induction false} SegmentChunksEmpty(segs: seq<Segment>, max: int)
    ensures SegmentChunks(segs, max) == [] <==> AllEmpty(SegmentParagraphs(segs))
    decreases |segs|
  {
    if |segs| > 0 {
      var init, last := segs[..|segs| - 1], segs[|segs| - 1];
      SegmentChunksEmpty(init, max);
      AllEmptyConcat(SegmentParagraphs(init), SegmentParagraphList(last));
      if last.Oversized? {
        SentenceChunksEmpty(last.paragraph, max);
      }
    }
  }

  /**
   No chunk at all exactly when every paragraph is empty, that is when the text
   is empty or a run of two or more line feeds; any other text, even
   whitespace, yields at least one chunk.
   */
  lemma NoChunksIffNoParagraphText(text: string, max: int)
    ensures SplitTextIntoChunks(text, max) == [] <==> AllEmpty(Paragraphs(text))
    ensures AllEmpty(Paragraphs(text)) <==> (text == [] || (|text| >= 2 && forall k :: 0 <= k < |text| ==> text[k] == '\n'))
  {
    var paras := Paragraphs(text);
    ScanEmptyIffAllEmpty(paras, max);
    ParagraphsAllEmpty(text);
  }

  lemma ScanEmptyIffAllEmpty(paras: seq<string>, max: int)
    ensures Flush(Scan(paras, max)).chunks == [] <==> AllEmpty(paras)
  {
    var segs := FinalSegments(paras, max);
    SegmentChunksEmpty(segs, max);
  }

  /** The sentence fallback on a non-empty whitespace paragraph: one empty chunk. */
  lemma WhitespaceSentenceChunks(p: string, max: int)
    requires p != "" && AllWhitespace(p)
    ensures SentenceChunks(p, max) == [""]
  {
    assert NoTerminal(p);
    NoTerminalNoSentence(p);
    assert SentenceUnits(p) == [p];
    PackSingle(p, max);
    assert Trim(p) == "";
  }

  lemma WhitespaceSegmentChunks(seg: Segment, max: int)
    requires forall x :: x in SegmentParagraphList(seg) ==> AllWhitespace(x)
    ensures forall c :: c in SegmentChunkList(seg, max) ==> c == ""
  {
    match seg
    case Run(g) =>
      assert forall i :: 0 <= i < |g| ==> g[i] in SegmentParagraphList(seg);
      JoinWhitespace(g, "\n\n");
    case Oversized(p) =>
      if p != "" {
        WhitespaceSentenceChunks(p, max);
      } else {
        SentenceChunksEmpty(p, max);
      }
  }

  lemma WhitespaceParagraphsEmptyChunks(paras: seq<string>, max: int)
    requires forall i :: 0 <= i < |paras| ==> AllWhitespace(paras[i])
    ensures forall c :: c in Flush(Scan(paras, max)).chunks ==> c == ""
  {
    var segs := FinalSegments(paras, max);
    forall c | c in SegmentChunks(segs, max) ensures c == "" {
      var k := SegmentOfChunk(segs, max, c);
      ParagraphOfSegment(segs, k);
      WhitespaceSegmentChunks(segs[k], max);
    }
  }

  /**
   Whitespace-only text yields only empty chunks: nothing drops a chunk that
   trims to nothing.
   */
  lemma WhitespaceTextEmptyChunks(text: string, max: int)
    requires AllWhitespace(text)
    ensures forall c :: c in SplitTextIntoChunks(text, max) ==> c == ""
  {
    SplitWhitespace(ParagraphBreak, text);
    WhitespaceParagraphsEmptyChunks(Paragraphs(text), max);
  }

  /** A lone paragraph becomes its sentence chunks when oversized, otherwise itself trimmed (nothing when empty). */
  lemma SingleParagraphChunks(p: string, max: int)
    ensures Flush(Scan([p], max)).chunks
            == if |p| > max then SentenceChunks(p, max) else if p == "" then [] else [Trim(p)]
  {
    var empty := Packing([], "");
    assert [p][..0] == [];
    assert Scan([p], max) == Step(empty, p, max);
    assert FirstFlush(empty, p, max) == empty;
    if |p| > max {
      assert Step(empty, p, max) == Packing([] + SentenceChunks(p, max), "");
    } else {
      assert Step(empty, p, max) == Packing([], p);
    }
  }

  /** A single whitespace-only paragraph yields exactly one empty chunk, whatever the limit. */
  lemma WhitespaceParagraphOneEmptyChunk(text: string, max: int)
    requires text != "" && AllWhitespace(text) && HasNoBreak(text)
    ensures SplitTextIntoChunks(text, max) == [""]
  {
    assert Join([text], "\n\n") == text;
    SplitJoinParagraphs([text]);
    SingleParagraphChunks(text, max);
    if |text| > max {
      WhitespaceSentenceChunks(text, max);
    }
  }

  /**
   When no paragraph exceeds the limit, the chunks are exactly the trimmed
   blank-line joins of consecutive runs of paragraphs, in source order.
   */
  lemma NoOversizedParagraphsGroupChunks(text: string, max: int)
    requires forall i :: 0 <= i < |Paragraphs(text)| ==> |Paragraphs(text)[i]| <= max
    ensures exists segs: seq<Segment> :: ValidSegments(segs, max) && SegmentParagraphs(segs) == Paragraphs(text)
                           && (forall i :: 0 <= i < |segs| ==> segs[i].Run?)
                           && SplitTextIntoChunks(text, max) == SegmentChunks(segs, max)
  {
    var segs := FinalSegments(Paragraphs(text), max);
    forall i | 0 <= i < |segs| ensures segs[i].Run? {
      if segs[i].Oversized? {
        ParagraphOfSegment(segs, i);
        var p := segs[i].paragraph;
        assert p in Paragraphs(text);
      }
    }
  }

  /** While the joined paragraphs fit the limit, the loop never pushes and keeps one run pending. */
  lemma {:induction false} ScanFits(paras: seq<string>, max: int)
    requires |Join(paras, "\n\n")| <= max
    ensures Scan(paras, max).chunks == [] && RunState(paras, Scan(paras, max).pending, max)
    decreases |paras|
  {
    if |paras| > 0 {
      var init, p := paras[..|paras| - 1], paras[|paras| - 1];
      assert paras == init + [p];
      JoinSnoc(init, p, "\n\n");
      ScanFits(init, max);
      var st := Scan(init, max);
      RunStateFacts(init, st.pending, max);
      assert Scan(paras, max) == Step(st, p, max);
      assert FirstFlush(st, p, max) == st;
      GrowRun(init, st.pending, p, max);
    }
  }

  /**
   Paragraphs whose blank-line join fits the limit become a single chunk, that
   join trimmed, or no chunk when every paragraph is empty.
   */
  lemma FittingParagraphsOneChunk(paras: seq<string>, max: int)
    requires |Join(paras, "\n\n")| <= max
    ensures Flush(Scan(paras, max)).chunks == if AllEmpty(paras) then [] else [Trim(Join(paras, "\n\n"))]
  {
    ScanFits(paras, max);
    var pending := Scan(paras, max).pending;
    RunStateFacts(paras, pending, max);
    TrimWhitespaceThen(Join(paras, "\n\n"), pending);
  }

  /** A text without line feeds is one paragraph. */
  lemma NoLineFeedOneParagraph(text: string)
    requires forall k :: 0 <= k < |text| ==> text[k] != '\n'
    ensures Paragraphs(text) == [text]
  {
    assert Join([text], "\n\n") == text;
    SplitJoinParagraphs([text]);
  }

  /** The sentence path is lossy: text after the last terminator of an oversized paragraph is dropped. */
  lemma SentencePathDropsTail()
    ensures SplitTextIntoChunks("A. b", 2) == ["A."]
  {
    var p := "A. b";
    ExampleParagraph();
    SingleParagraphChunks(p, 2);
    ExampleSentences();
    PackSingle("A.", 2);
    ExampleTrim();
  }

  lemma ExampleParagraph()
    ensures Paragraphs("A. b") == ["A. b"]
  {
    var p := "A. b";
    assert p == ['A', '.', ' ', 'b'];
    NoLineFeedOneParagraph(p);
  }

  lemma ExampleSentences()
    ensures SentenceMatches("A. b") == ["A."]
  {
    var p := "A. b";
    assert p == ['A', '.', ' ', 'b'];
    var run := SpanEnd(p, 0, IsNonTerminal);
    assert run == 1 by {
      assert IsNonTerminal(p[0]) && !IsNonTerminal(p[1]);
    }
    var e := SpanEnd(p, 1, IsTerminal);
    assert e == 2 by {
      assert IsTerminal(p[1]) && !IsTerminal(p[2]);
    }
    assert p[..2] == "A." && p[2..] == " b";
    NoTerminalNoSentence(p[2..]);
  }

  lemma ExampleTrim()
    ensures Trim("A.") == "A."
  {
    var s := "A.";
    assert s[0] == 'A' && s[|s| - 1] == '.';
    TrimOfTrimmed(s);
  }
}
