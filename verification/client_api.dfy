/**
 The browser side of a translation (the generator `translate` of
 src/lib/api.ts): the text is split on blank lines, the paragraphs are merged
 greedily up to the model's chunk size without trimming or cutting any of
 them, and one request per chunk is sent in order, each answer yielded as it
 arrives, until a request fails. The HTTP exchange is a parameter.
 */
module ClientApi {
  import opened Base
  import opened Text
  import opened Splitting

  /** `text.split(/\n\s*\n/)`. */
  function ClientParagraphs(text: string): (r: seq<string>)
    ensures |r| >= 1
  {
    Split(BlankLine, text)
  }

  /**
   The reduce callback: the first paragraph starts the list; a later one is
   appended to the last chunk, after a blank line, when the result stays
   within the size, and starts a chunk of its own otherwise.
   */
  function Merge(acc: seq<string>, p: string, size: int): seq<string>
  {
    if |acc| == 0 then [p]
    else
      var last := acc[|acc| - 1];
      if |last + "\n\n" + p| <= size then acc[..|acc| - 1] + [last + "\n\n" + p]
      else acc + [p]
  }

  /** `paragraphs.reduce(merge, [])`. */
  function PackParagraphs(paras: seq<string>, size: int): (r: seq<string>)
    ensures |paras| > 0 ==> |r| >= 1
    ensures |r| <= |paras|
    decreases |paras|
  {
    if |paras| == 0 then []
    else Merge(PackParagraphs(paras[..|paras| - 1], size), paras[|paras| - 1], size)
  }

  /** The chunks the client sends; there is always at least one, even for the empty text. */
  function PreChunk(text: string, size: int): (r: seq<string>)
    ensures |r| >= 1
  {
    PackParagraphs(ClientParagraphs(text), size)
  }

  /** The reduce written as a loop that rewrites the last chunk in place; it computes exactly the fold. */
  method PreChunkLoop(text: string, size: int) returns (acc: seq<string>)
    ensures acc == PreChunk(text, size)
  {
    var paragraphs := ClientParagraphs(text);
    acc := [];
    for i := 0 to |paragraphs|
      invariant acc == PackParagraphs(paragraphs[..i], size)
    {
      assert paragraphs[..i + 1][..i] == paragraphs[..i];
      var paragraph := paragraphs[i];
      if |acc| == 0 {
        acc := [paragraph];
      } else {
        var lastChunk := acc[|acc| - 1];
        if |lastChunk + "\n\n" + paragraph| <= size {
          acc := acc[|acc| - 1 := lastChunk + "\n\n" + paragraph];
        } else {
          acc := acc + [paragraph];
        }
      }
    }
    assert paragraphs[..|paragraphs|] == paragraphs;
  }

  /**
   The greedy packing described independently of the fold: consecutive
   non-empty groups of paragraphs, each chunk its group joined by a blank
   line, a chunk over the size only when it is a single paragraph, and a new
   group started only when the next paragraph would not fit the chunk before.
   */
  predicate GreedyGrouping(paras: seq<string>, groups: seq<seq<string>>, chunks: seq<string>, size: int)
  {
    && Flatten(groups) == paras
    && |groups| == |chunks|
    && (forall i :: 0 <= i < |groups| ==>
          |groups[i]| > 0 && chunks[i] == Join(groups[i], "\n\n") && (|groups[i]| == 1 || |chunks[i]| <= size))
    && (forall i :: 0 < i < |groups| ==> |chunks[i - 1]| + 2 + |groups[i][0]| > size)
  }

  lemma {:induction false} PackIsGreedy(paras: seq<string>, size: int) returns (groups: seq<seq<string>>)
    ensures GreedyGrouping(paras, groups, PackParagraphs(paras, size), size)
    decreases |paras|
  {
    if |paras| == 0 {
      groups := [];
    } else {
      var init, p := paras[..|paras| - 1], paras[|paras| - 1];
      var g0 := PackIsGreedy(init, size);
      PackStep(paras, size);
      assert paras == init + [p];
      groups := GreedyAppend(init, g0, PackParagraphs(init, size), p, size);
    }
  }

  /** One more paragraph, merged or pushed as the reduce callback decides, keeps the grouping greedy. */
  lemma GreedyAppend(init: seq<string>, g0: seq<seq<string>>, acc: seq<string>, p: string, size: int)
    returns (groups: seq<seq<string>>)
    requires GreedyGrouping(init, g0, acc, size)
    ensures GreedyGrouping(init + [p], groups, Merge(acc, p, size), size)
  {
    if |acc| == 0 {
      groups := [[p]];
      FlattenSingle([p]);
      assert Join([p], "\n\n") == p;
      if |g0| > 0 { assert false; }
    } else if |acc[|acc| - 1] + "\n\n" + p| <= size {
      groups := GreedyAppendMerged(init, g0, acc, p, size);
    } else {
      groups := g0 + [[p]];
      var n := |acc|;
      assert groups[..n] == g0;
      assert Join([p], "\n\n") == p;
    }
  }

  lemma GreedyAppendMerged(init: seq<string>, g0: seq<seq<string>>, acc: seq<string>, p: string, size: int)
    returns (groups: seq<seq<string>>)
    requires GreedyGrouping(init, g0, acc, size)
    requires |acc| > 0 && |acc[|acc| - 1] + "\n\n" + p| <= size
    ensures GreedyGrouping(init + [p], groups, acc[..|acc| - 1] + [acc[|acc| - 1] + "\n\n" + p], size)
  {
    var n := |acc|;
    assert Flatten(g0) == Flatten(g0[..n - 1]) + g0[n - 1];
    groups := g0[..n - 1] + [g0[n - 1] + [p]];
    assert groups[..n - 1] == g0[..n - 1];
    assert Flatten(groups) == Flatten(g0[..n - 1]) + (g0[n - 1] + [p]);
    ConcatAssoc(Flatten(g0[..n - 1]), g0[n - 1], [p]);
    JoinSnoc(g0[n - 1], p, "\n\n");
  }

  lemma PackStep(paras: seq<string>, size: int)
    requires |paras| > 0
    ensures PackParagraphs(paras, size) == Merge(PackParagraphs(paras[..|paras| - 1], size), paras[|paras| - 1], size)
  {
  }

  /** Non-empty groups flatten to nothing only when there are none. */
  lemma FlattenNonEmpty(groups: seq<seq<string>>)
    requires |groups| > 0 && |groups[|groups| - 1]| > 0
    ensures |Flatten(groups)| > 0
  {
  }

  /** Dropping the last paragraph of a greedy grouping leaves a greedy grouping of the rest. */
  lemma GreedyInit(paras: seq<string>, groups: seq<seq<string>>, chunks: seq<string>, size: int)
      returns (groups': seq<seq<string>>, chunks': seq<string>)
    requires GreedyGrouping(paras, groups, chunks, size) && |paras| > 0
    ensures GreedyGrouping(paras[..|paras| - 1], groups', chunks', size)
    ensures var n, g := |groups|, groups[|groups| - 1];
      && n > 0
      && paras[|paras| - 1] == g[|g| - 1]
      && (|g| == 1 ==> groups' == groups[..n - 1] && chunks' == chunks[..n - 1])
      && (|g| > 1 ==> |chunks'| == n && chunks'[..n - 1] == chunks[..n - 1]
                      && chunks[n - 1] == chunks'[n - 1] + "\n\n" + paras[|paras| - 1])
  {
    var n := |groups|;
    var g := groups[n - 1];
    var before := Flatten(groups[..n - 1]);
    assert paras == before + g;
    if |g| == 1 {
      groups', chunks' := InitDropGroup(paras, groups, chunks, size);
    } else {
      groups', chunks' := InitShrinkGroup(paras, groups, chunks, size);
    }
  }

  lemma InitDropGroup(paras: seq<string>, groups: seq<seq<string>>, chunks: seq<string>, size: int)
      returns (groups': seq<seq<string>>, chunks': seq<string>)
    requires GreedyGrouping(paras, groups, chunks, size) && |groups| > 0 && |groups[|groups| - 1]| == 1
    requires paras == Flatten(groups[..|groups| - 1]) + groups[|groups| - 1]
    ensures GreedyGrouping(paras[..|paras| - 1], groups', chunks', size)
    ensures paras[|paras| - 1] == groups[|groups| - 1][0]
    ensures groups' == groups[..|groups| - 1] && chunks' == chunks[..|groups| - 1]
  {
    var n := |groups|;
    groups', chunks' := groups[..n - 1], chunks[..n - 1];
    assert paras[..|paras| - 1] == Flatten(groups[..n - 1]);
  }

  lemma InitShrinkGroup(paras: seq<string>, groups: seq<seq<string>>, chunks: seq<string>, size: int)
      returns (groups': seq<seq<string>>, chunks': seq<string>)
    requires GreedyGrouping(paras, groups, chunks, size) && |groups| > 0 && |groups[|groups| - 1]| > 1
    requires paras == Flatten(groups[..|groups| - 1]) + groups[|groups| - 1]
    ensures GreedyGrouping(paras[..|paras| - 1], groups', chunks', size)
    ensures var n, g := |groups|, groups[|groups| - 1];
      && paras[|paras| - 1] == g[|g| - 1]
      && |chunks'| == n && chunks'[..n - 1] == chunks[..n - 1]
      && chunks[n - 1] == chunks'[n - 1] + "\n\n" + paras[|paras| - 1]
  {
    var n := |groups|;
    var g := groups[n - 1];
    var p := paras[|paras| - 1];
    var before := Flatten(groups[..n - 1]);
    var g' := g[..|g| - 1];
    assert g == g' + [p];
    JoinSnoc(g', p, "\n\n");
    groups', chunks' := groups[..n - 1] + [g'], chunks[..n - 1] + [Join(g', "\n\n")];
    assert groups'[..n - 1] == groups[..n - 1];
    ConcatAssoc(before, g', [p]);
    assert paras[..|paras| - 1] == before + g';
    assert Flatten(groups') == paras[..|paras| - 1];
    forall i | 0 <= i < n
      ensures |groups'[i]| > 0 && chunks'[i] == Join(groups'[i], "\n\n") && (|groups'[i]| == 1 || |chunks'[i]| <= size)
    {
      if i < n - 1 {
        assert groups'[i] == groups[i] && chunks'[i] == chunks[i];
      } else {
        assert |chunks[n - 1]| <= size;
      }
    }
    forall i | 0 < i < n ensures |chunks'[i - 1]| + 2 + |groups'[i][0]| > size {
      assert chunks'[i - 1] == chunks[i - 1];
      assert groups'[i][0] == groups[i][0];
    }
  }

  /** The fold pushes a paragraph that does not fit after the last chunk. */
  lemma PushStep(paras: seq<string>, chunks': seq<string>, p: string, size: int)
    requires |paras| > 0 && p == paras[|paras| - 1]
    requires chunks' == PackParagraphs(paras[..|paras| - 1], size)
    requires |chunks'| == 0 || |chunks'[|chunks'| - 1]| + 2 + |p| > size
    ensures PackParagraphs(paras, size) == chunks' + [p]
  {
    PackStep(paras, size);
  }

  /** The fold merges a paragraph that fits after the last chunk. */
  lemma MergeStep(paras: seq<string>, chunks': seq<string>, p: string, size: int)
    requires |paras| > 0 && p == paras[|paras| - 1]
    requires chunks' == PackParagraphs(paras[..|paras| - 1], size)
    requires |chunks'| > 0 && |chunks'[|chunks'| - 1]| + 2 + |p| <= size
    ensures PackParagraphs(paras, size) == chunks'[..|chunks'| - 1] + [chunks'[|chunks'| - 1] + "\n\n" + p]
  {
    PackStep(paras, size);
  }

  /** A last group of one paragraph: the fold pushes it. */
  lemma GreedyLastAlone(paras: seq<string>, groups: seq<seq<string>>, chunks: seq<string>, chunks': seq<string>, size: int)
    requires GreedyGrouping(paras, groups, chunks, size) && |paras| > 0 && |groups| > 0
    requires |groups[|groups| - 1]| == 1 && paras[|paras| - 1] == groups[|groups| - 1][0]
    requires chunks' == chunks[..|groups| - 1] && chunks' == PackParagraphs(paras[..|paras| - 1], size)
    ensures chunks == PackParagraphs(paras, size)
  {
    var n, p := |groups|, paras[|paras| - 1];
    assert chunks[n - 1] == p;
    if n > 1 {
      assert groups[n - 1][0] == p;
    }
    PushStep(paras, chunks', p, size);
    assert chunks == chunks' + [p];
  }

  /** A last group of several paragraphs: the fold merges its last paragraph. */
  lemma GreedyLastMerged(paras: seq<string>, groups: seq<seq<string>>, chunks: seq<string>, chunks': seq<string>, size: int)
    requires GreedyGrouping(paras, groups, chunks, size) && |paras| > 0 && |groups| > 0
    requires |groups[|groups| - 1]| > 1
    requires |chunks'| == |groups| && chunks'[..|groups| - 1] == chunks[..|groups| - 1]
    requires chunks[|groups| - 1] == chunks'[|groups| - 1] + "\n\n" + paras[|paras| - 1]
    requires chunks' == PackParagraphs(paras[..|paras| - 1], size)
    ensures chunks == PackParagraphs(paras, size)
  {
    var n, p := |groups|, paras[|paras| - 1];
    assert |chunks[n - 1]| <= size;
    MergeStep(paras, chunks', p, size);
    assert chunks == chunks[..n - 1] + [chunks[n - 1]];
  }

  /** The greedy grouping is unique: any grouping meeting it yields exactly the packed chunks. */
  lemma {:induction false} GreedyIsPack(paras: seq<string>, groups: seq<seq<string>>, chunks: seq<string>, size: int)
    requires GreedyGrouping(paras, groups, chunks, size)
    ensures chunks == PackParagraphs(paras, size)
    decreases |paras|
  {
    if |paras| == 0 {
      if |groups| > 0 {
        FlattenNonEmpty(groups);
      }
    } else {
      var groups', chunks' := GreedyInit(paras, groups, chunks, size);
      GreedyIsPack(paras[..|paras| - 1], groups', chunks', size);
      if |groups[|groups| - 1]| == 1 {
        GreedyLastAlone(paras, groups, chunks, chunks', size);
      } else {
        GreedyLastMerged(paras, groups, chunks, chunks', size);
      }
    }
  }

  /** Chunks of more than one paragraph; joined again, they give back every paragraph. */
  lemma {:induction false} JoinGroups(groups: seq<seq<string>>, chunks: seq<string>)
    requires |groups| == |chunks|
    requires forall i :: 0 <= i < |groups| ==> |groups[i]| > 0 && chunks[i] == Join(groups[i], "\n\n")
    ensures Join(chunks, "\n\n") == Join(Flatten(groups), "\n\n")
    ensures |groups| > 0 ==> |Flatten(groups)| > 0
    decreases |groups|
  {
    if |groups| > 0 {
      var n := |groups|;
      JoinGroups(groups[..n - 1], chunks[..n - 1]);
      assert Flatten(groups) == Flatten(groups[..n - 1]) + groups[n - 1];
      if n == 1 {
        assert Flatten(groups[..0]) == [];
        assert Flatten(groups) == groups[0];
      }
      assert chunks == chunks[..n - 1] + [chunks[n - 1]];
      JoinSnoc(chunks[..n - 1], chunks[n - 1], "\n\n");
      if n > 1 {
        JoinAppend(Flatten(groups[..n - 1]), groups[n - 1], "\n\n");
      }
    }
  }

  /** Paragraphs are never split or trimmed: the chunks joined by a blank line equal the paragraphs so joined. */
  lemma PreChunkKeepsParagraphs(text: string, size: int)
    ensures Join(PreChunk(text, size), "\n\n") == Join(ClientParagraphs(text), "\n\n")
  {
    var groups := PackIsGreedy(ClientParagraphs(text), size);
    JoinGroups(groups, PreChunk(text, size));
  }

  /** A chunk over the size is a single paragraph of the text, untouched. */
  lemma PreChunkWithinSize(text: string, size: int)
    ensures forall i :: 0 <= i < |PreChunk(text, size)| ==>
      |PreChunk(text, size)[i]| <= size || PreChunk(text, size)[i] in ClientParagraphs(text)
  {
    var chunks := PreChunk(text, size);
    var groups := PackIsGreedy(ClientParagraphs(text), size);
    forall i | 0 <= i < |chunks| && |chunks[i]| > size ensures chunks[i] in ClientParagraphs(text) {
      assert |groups[i]| == 1;
      assert chunks[i] == groups[i][0];
      FlattenContains(groups, i, 0);
    }
  }

  /** What the server answers to one request: `ok`, and the body's `translation` or `error` (empty when absent). */
  datatype HttpReply = HttpReply(ok: bool, translation: string, error: string)

  /** `error.error || 'Translation failed'`. */
  function FailureMessage(reply: HttpReply): (r: string)
    ensures r != ""
    ensures reply.error != "" ==> r == reply.error
  {
    if reply.error != "" then reply.error else "Translation failed"
  }

  /** What the generator yields, the requests it sends in order, and the message it throws, if any. */
  datatype Stream = Stream(yielded: seq<string>, requests: seq<string>, failure: Option<string>)

  /**
   The request loop: one request per chunk, in chunk order, the answers
   yielded in that order, until the first failed response.
   */
  function StreamTranslations(chunks: seq<string>, send: string -> HttpReply): (r: Stream)
    ensures |r.yielded| <= |r.requests| <= |chunks|
    ensures r.requests == chunks[..|r.requests|]
    ensures |chunks| > 0 ==> |r.requests| > 0
    decreases |chunks|
  {
    if |chunks| == 0 then Stream([], [], None)
    else
      var reply := send(chunks[0]);
      if !reply.ok then Stream([], [chunks[0]], Some(FailureMessage(reply)))
      else
        var rest := StreamTranslations(chunks[1..], send);
        assert [chunks[0]] + chunks[1..][..|rest.requests|] == chunks[..|rest.requests| + 1];
        Stream([reply.translation] + rest.yielded, [chunks[0]] + rest.requests, rest.failure)
  }

  /**
   The stream stops at the first failed response and throws its message; no
   later chunk is requested. Before it, every chunk was requested once and
   its answer yielded, in order.
   */
  lemma {:induction false} StreamStopsAtFirstFailure(chunks: seq<string>, send: string -> HttpReply)
    ensures var r := StreamTranslations(chunks, send);
      && (forall i :: 0 <= i < |r.yielded| ==> send(chunks[i]).ok && r.yielded[i] == send(chunks[i]).translation)
      && (r.failure.None? <==> forall i :: 0 <= i < |chunks| ==> send(chunks[i]).ok)
      && (r.failure.None? ==> |r.yielded| == |chunks| && r.requests == chunks)
      && (r.failure.Some? ==> |r.requests| == |r.yielded| + 1
                              && !send(chunks[|r.yielded|]).ok
                              && r.failure.value == FailureMessage(send(chunks[|r.yielded|])))
    decreases |chunks|
  {
    if |chunks| > 0 && send(chunks[0]).ok {
      var tail := chunks[1..];
      StreamStopsAtFirstFailure(tail, send);
      var rest := StreamTranslations(tail, send);
      var r := StreamTranslations(chunks, send);
      assert r == Stream([send(chunks[0]).translation] + rest.yielded, [chunks[0]] + rest.requests, rest.failure);
      assert forall i :: 0 < i < |chunks| ==> chunks[i] == tail[i - 1];
      if r.failure.None? {
        forall i | 0 <= i < |chunks| ensures send(chunks[i]).ok {
          if i > 0 { assert send(tail[i - 1]).ok; }
        }
      } else {
        assert chunks[|r.yielded|] == tail[|rest.yielded|];
        assert !send(chunks[|r.yielded|]).ok;
      }
    }
  }

  /** The client `translate`: pre-chunk with the model's chunk size, then stream. At least one request is always sent. */
  function ClientTranslate(text: string, chunkSize: int, send: string -> HttpReply): (r: Stream)
    ensures 1 <= |r.requests| <= |PreChunk(text, chunkSize)|
    ensures r.requests == PreChunk(text, chunkSize)[..|r.requests|]
  {
    StreamTranslations(PreChunk(text, chunkSize), send)
  }
}
