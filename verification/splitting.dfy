/**
 The regular-expression splitting the core performs, written out as the
 ECMAScript algorithms compute it:
 - `text.split(/\n\n+/)` (server chunker) and `text.split(/\n\s*\n/)` (client
   pre-chunker): the leftmost match is removed and the search resumes where it
   ended; a greedy quantifier takes as much as the rest of its pattern allows;
 - `paragraph.match(/[^.!?]+[.!?]+/g)` (sentence fallback): all successive
   matches, none at all giving `null`.
 None of the patterns looks behind, so a match found at position `q` of the
 whole string is the match found at position 0 of the suffix from `q`, which is
 what lets the functions below recurse on suffixes.
 */
module Splitting {
  import opened Base
  import opened Text

  predicate IsNewline(c: char) { c == '\n' }

  /** The sentence terminators of the class `[.!?]`. */
  predicate IsTerminal(c: char) { c == '.' || c == '!' || c == '?' }

  /** The class `[^.!?]`. */
  predicate IsNonTerminal(c: char) { !IsTerminal(c) }

  /** End of the longest run of characters satisfying `f` that starts at `i`. */
  function SpanEnd(s: string, i: nat, f: char -> bool): (e: nat)
    requires i <= |s|
    ensures i <= e <= |s|
    ensures forall k :: i <= k < e ==> f(s[k])
    ensures e == |s| || !f(s[e])
    decreases |s| - i
  {
    if i == |s| || !f(s[i]) then i else SpanEnd(s, i + 1, f)
  }

  /** The last line feed in `s[i..j]`, if any. */
  function LastNewline(s: string, i: nat, j: nat): (r: Option<nat>)
    requires i <= j <= |s|
    ensures r.Some? ==> i <= r.value < j && s[r.value] == '\n'
    ensures r.Some? ==> forall m :: r.value < m < j ==> s[m] != '\n'
    ensures r.None? ==> forall m :: i <= m < j ==> s[m] != '\n'
    decreases j - i
  {
    if j == i then None
    else if s[j - 1] == '\n' then Some(j - 1)
    else LastNewline(s, i, j - 1)
  }

  /** The two separators the source splits text on. */
  datatype Separator =
    | ParagraphBreak  // `/\n\n+/`: two or more line feeds
    | BlankLine       // `/\n\s*\n/`: a line feed, any whitespace, a line feed

  /** The shape of the text a match of `sep` covers. */
  predicate IsDelimiter(sep: Separator, d: string)
  {
    && |d| >= 2 && d[0] == '\n' && d[|d| - 1] == '\n'
    && (sep.ParagraphBreak? ==> forall k :: 0 <= k < |d| ==> d[k] == '\n')
    && (sep.BlankLine? ==> AllWhitespace(d))
  }

  /**
   Where a match of `sep` that starts at `q` ends, if one starts there. For
   `BlankLine` the greedy `\s*` backtracks to the last line feed of the
   whitespace run that follows the first line feed.
   */
  function MatchEnd(sep: Separator, s: string, q: nat): (r: Option<nat>)
    requires q <= |s|
    ensures r.Some? ==> q + 2 <= r.value <= |s| && s[q] == '\n' && s[r.value - 1] == '\n'
    ensures r.Some? ==> r.value == |s| || s[r.value] != '\n'
    ensures r.Some? ==> IsDelimiter(sep, s[q..r.value])
  {
    match sep
    case ParagraphBreak =>
      if q + 2 <= |s| && s[q] == '\n' && s[q + 1] == '\n' then
        var e := SpanEnd(s, q + 2, IsNewline);
        var d := s[q..e];
        assert forall k :: 0 <= k < |d| ==> d[k] == '\n' by {
          forall k | 0 <= k < |d| ensures d[k] == '\n' {
            assert d[k] == s[q + k];
          }
        }
        Some(e)
      else None
    case BlankLine =>
      if q < |s| && s[q] == '\n' then
        var run := SpanEnd(s, q + 1, IsWhitespace);
        match LastNewline(s, q + 1, run)
        case Some(k) =>
          var e := k + 1;
          var d := s[q..e];
          assert AllWhitespace(d) by {
            forall m | 0 <= m < |d| ensures IsWhitespace(d[m]) {
              assert d[m] == s[q + m];
            }
          }
          Some(e)
        case None => None
      else None
  }

  /**
   A match starts at `q` exactly when some stretch from `q` has the shape of
   a delimiter, and the greedy quantifiers make it the longest such stretch:
   for `/\n\n+/` every following line feed, for `/\n\s*\n/` up to the last
   line feed of the whitespace run.
   */
  lemma MatchEndLongest(sep: Separator, s: string, q: nat)
    requires q <= |s|
    ensures MatchEnd(sep, s, q).Some? <==> exists e :: q < e <= |s| && IsDelimiter(sep, s[q..e])
    ensures forall e :: q < e <= |s| && IsDelimiter(sep, s[q..e]) ==>
      MatchEnd(sep, s, q).Some? && e <= MatchEnd(sep, s, q).value
    ensures sep.ParagraphBreak? ==> (MatchEnd(sep, s, q).Some? <==> q + 2 <= |s| && s[q] == '\n' && s[q + 1] == '\n')
  {
    var r := MatchEnd(sep, s, q);
    if r.Some? {
      assert q < r.value <= |s| && IsDelimiter(sep, s[q..r.value]);
    }
    forall e | q < e <= |s| && IsDelimiter(sep, s[q..e])
      ensures r.Some? && e <= r.value
    {
      LongestDelimiter(sep, s, q, e);
    }
    if sep.ParagraphBreak? && q + 2 <= |s| && s[q] == '\n' && s[q + 1] == '\n' {
      var d := s[q..q + 2];
      assert d[0] == s[q] && d[1] == s[q + 1];
      LongestDelimiter(sep, s, q, q + 2);
    }
  }

  /** Any delimiter-shaped stretch from `q` ends no later than the match at `q`. */
  lemma LongestDelimiter(sep: Separator, s: string, q: nat, e: nat)
    requires q < e <= |s| && IsDelimiter(sep, s[q..e])
    ensures MatchEnd(sep, s, q).Some? && e <= MatchEnd(sep, s, q).value
  {
    var d := s[q..e];
    assert s[q] == d[0] && s[e - 1] == d[|d| - 1];
    match sep
    case ParagraphBreak =>
      assert s[q + 1] == d[1];
      var end := SpanEnd(s, q + 2, IsNewline);
    case BlankLine =>
      var run := SpanEnd(s, q + 1, IsWhitespace);
      var last := LastNewline(s, q + 1, run);
  }

  /** The leftmost match of `sep` starting at or after `q`, as (start, end). */
  function FirstMatch(sep: Separator, s: string, q: nat): (r: Option<(nat, nat)>)
    requires q <= |s|
    ensures r.Some? ==> q <= r.value.0 < |s| && MatchEnd(sep, s, r.value.0) == Some(r.value.1)
    ensures r.Some? ==> forall k :: q <= k < r.value.0 ==> MatchEnd(sep, s, k).None?
    ensures r.None? ==> forall k :: q <= k <= |s| ==> MatchEnd(sep, s, k).None?
    decreases |s| - q
  {
    if q == |s| then None
    else match MatchEnd(sep, s, q)
      case Some(e) => Some((q, e))
      case None => FirstMatch(sep, s, q + 1)
  }

  /** `String.prototype.split` with the regular expression of `sep`. */
  function Split(sep: Separator, s: string): (r: seq<string>)
    ensures |r| >= 1
    decreases |s|
  {
    match FirstMatch(sep, s, 0)
    case None => [s]
    case Some((i, e)) => [s[..i]] + Split(sep, s[e..])
  }

  /** The text each removed match covered, in order. */
  function Delimiters(sep: Separator, s: string): (r: seq<string>)
    ensures |r| + 1 == |Split(sep, s)|
    ensures forall k :: 0 <= k < |r| ==> IsDelimiter(sep, r[k])
    decreases |s|
  {
    match FirstMatch(sep, s, 0)
    case None => []
    case Some((i, e)) => [s[i..e]] + Delimiters(sep, s[e..])
  }

  /** Pieces and delimiters put back together alternately. */
  function Interleave(pieces: seq<string>, delims: seq<string>): string
    requires |delims| + 1 == |pieces|
    decreases |delims|
  {
    if |delims| == 0 then pieces[0]
    else pieces[0] + delims[0] + Interleave(pieces[1..], delims[1..])
  }

  /** One step of `Split` and `Delimiters`: the piece before the leftmost match, then the rest. */
  lemma SplitStep(sep: Separator, s: string, i: nat, e: nat)
    requires FirstMatch(sep, s, 0) == Some((i, e))
    ensures i < e <= |s|
    ensures Split(sep, s) == [s[..i]] + Split(sep, s[e..])
    ensures Delimiters(sep, s) == [s[i..e]] + Delimiters(sep, s[e..])
  {
  }

  /** Splitting loses nothing but the delimiters: putting them back gives the input. */
  lemma {:induction false} SplitReassembles(sep: Separator, s: string)
    ensures Interleave(Split(sep, s), Delimiters(sep, s)) == s
    decreases |s|
  {
    var m := FirstMatch(sep, s, 0);
    if m.Some? {
      var i, e := m.value.0, m.value.1;
      SplitStep(sep, s, i, e);
      var rest := s[e..];
      SplitReassembles(sep, rest);
      ReassembleStep(s, i, e, Split(sep, rest), Delimiters(sep, rest));
    }
  }

  /** The piece before a match and the match, put back in front of the reassembled rest, give the whole. */
  lemma ReassembleStep(s: string, i: nat, e: nat, ps: seq<string>, ds: seq<string>)
    requires i <= e <= |s| && |ds| + 1 == |ps|
    requires Interleave(ps, ds) == s[e..]
    ensures Interleave([s[..i]] + ps, [s[i..e]] + ds) == s
  {
    InterleaveCons(s[..i], s[i..e], ps, ds);
    assert s[..i] + s[i..e] == s[..e];
    assert s[..e] + s[e..] == s;
  }

  lemma InterleaveCons(p: string, d: string, ps: seq<string>, ds: seq<string>)
    requires |ds| + 1 == |ps|
    ensures Interleave([p] + ps, [d] + ds) == p + d + Interleave(ps, ds)
  {
    assert ([p] + ps)[1..] == ps;
    assert ([d] + ds)[1..] == ds;
  }

  /** Splitting the empty string yields one empty piece. */
  lemma SplitEmpty(sep: Separator)
    ensures Split(sep, "") == [""]
  {
  }

  /** No two adjacent line feeds. */
  predicate HasNoBreak(p: string)
  {
    forall k :: 0 <= k < |p| - 1 ==> !(p[k] == '\n' && p[k + 1] == '\n')
  }

  /**
   The shape of the pieces a split yields: no piece holds a paragraph break,
   a piece after the first never starts with a line feed and one before the
   last never ends with one, and only the first and the last may be empty.
   */
  predicate WellSeparated(ps: seq<string>)
  {
    forall i :: 0 <= i < |ps| ==>
      && HasNoBreak(ps[i])
      && (i > 0 && ps[i] != [] ==> ps[i][0] != '\n')
      && (i + 1 < |ps| && ps[i] != [] ==> ps[i][|ps[i]| - 1] != '\n')
      && (0 < i < |ps| - 1 ==> ps[i] != [])
  }

  lemma WellSeparatedCons(a: string, rest: seq<string>)
    requires WellSeparated(rest) && |rest| >= 1
    requires HasNoBreak(a) && (a == [] || a[|a| - 1] != '\n')
    requires rest[0] == [] ==> |rest| == 1
    requires rest[0] != [] ==> rest[0][0] != '\n'
    ensures WellSeparated([a] + rest)
  {
    var ps := [a] + rest;
    forall i | 0 <= i < |ps|
      ensures HasNoBreak(ps[i])
      ensures i > 0 && ps[i] != [] ==> ps[i][0] != '\n'
      ensures i + 1 < |ps| && ps[i] != [] ==> ps[i][|ps[i]| - 1] != '\n'
      ensures 0 < i < |ps| - 1 ==> ps[i] != []
    {
      if i > 0 {
        assert ps[i] == rest[i - 1];
      }
    }
  }

  /** No stretch of `p` has the shape of a match of `sep`. */
  predicate NoDelimiterIn(sep: Separator, p: string)
  {
    forall a, b :: 0 <= a < b <= |p| ==> !IsDelimiter(sep, p[a..b])
  }

  /**
   Both separators split text into well-separated pieces, and no piece holds
   anything a match of the separator could cover.
   */
  lemma {:induction false} SplitWellSeparated(sep: Separator, s: string)
    ensures WellSeparated(Split(sep, s))
    ensures forall i :: 0 <= i < |Split(sep, s)| ==> NoDelimiterIn(sep, Split(sep, s)[i])
    decreases |s|
  {
    SplitPiecesNoDelimiter(sep, s);
    match FirstMatch(sep, s, 0)
    case None =>
      SplitNoMatch(sep, s);
    case Some((i, e)) =>
      SplitStep(sep, s, i, e);
      SplitWellSeparated(sep, s[e..]);
      SplitAtMatch(sep, s, i, e);
  }

  lemma {:induction false} SplitPiecesNoDelimiter(sep: Separator, s: string)
    ensures forall i :: 0 <= i < |Split(sep, s)| ==> NoDelimiterIn(sep, Split(sep, s)[i])
    decreases |s|
  {
    match FirstMatch(sep, s, 0)
    case None =>
      assert Split(sep, s) == [s];
      NoMatchNoDelimiter(sep, s, |s|);
      assert s[..|s|] == s;
    case Some((i, e)) =>
      SplitStep(sep, s, i, e);
      SplitPiecesNoDelimiter(sep, s[e..]);
      NoMatchNoDelimiter(sep, s, i);
      NoDelimiterCons(sep, s[..i], Split(sep, s[e..]));
  }

  lemma NoDelimiterCons(sep: Separator, a: string, rest: seq<string>)
    requires NoDelimiterIn(sep, a) && forall i :: 0 <= i < |rest| ==> NoDelimiterIn(sep, rest[i])
    ensures forall i :: 0 <= i < |[a] + rest| ==> NoDelimiterIn(sep, ([a] + rest)[i])
  {
    var ps := [a] + rest;
    forall j | 0 <= j < |ps|
      ensures NoDelimiterIn(sep, ps[j])
    {
      if j > 0 {
        assert ps[j] == rest[j - 1];
      }
    }
  }

  /** Before the first position where a match starts, no stretch has the shape of one. */
  lemma NoMatchNoDelimiter(sep: Separator, s: string, hi: nat)
    requires hi <= |s|
    requires forall k :: 0 <= k < hi ==> MatchEnd(sep, s, k).None?
    ensures NoDelimiterIn(sep, s[..hi])
  {
    var p := s[..hi];
    forall a, b | 0 <= a < b <= |p|
      ensures !IsDelimiter(sep, p[a..b])
    {
      assert p[a..b] == s[a..b];
      if IsDelimiter(sep, s[a..b]) {
        LongestDelimiter(sep, s, a, b);
      }
    }
  }

  /** The separator's regular expression matches nowhere inside a piece of the split. */
  lemma SplitPiecesHoldNoMatch(sep: Separator, s: string)
    ensures forall i, k :: 0 <= i < |Split(sep, s)| && 0 <= k <= |Split(sep, s)[i]| ==>
      MatchEnd(sep, Split(sep, s)[i], k).None?
  {
    SplitPiecesNoDelimiter(sep, s);
    var ps := Split(sep, s);
    forall i, k | 0 <= i < |ps| && 0 <= k <= |ps[i]|
      ensures MatchEnd(sep, ps[i], k).None?
    {
    }
  }

  lemma SplitNoMatch(sep: Separator, s: string)
    requires FirstMatch(sep, s, 0).None?
    ensures WellSeparated(Split(sep, s))
  {
    NoMatchNoBreak(sep, s, 0, |s|);
    assert Split(sep, s) == [s];
  }

  lemma SplitAtMatch(sep: Separator, s: string, i: nat, e: nat)
    requires FirstMatch(sep, s, 0) == Some((i, e))
    requires WellSeparated(Split(sep, s[e..]))
    ensures WellSeparated(Split(sep, s))
  {
    SplitStep(sep, s, i, e);
    var rest := s[e..];
    PieceBeforeMatch(sep, s, i, e);
    SplitHeadStart(sep, rest);
    WellSeparatedCons(s[..i], Split(sep, rest));
  }

  /** The piece before the leftmost match holds no break and does not end with a line feed; the match ends the run of line feeds. */
  lemma PieceBeforeMatch(sep: Separator, s: string, i: nat, e: nat)
    requires FirstMatch(sep, s, 0) == Some((i, e))
    ensures HasNoBreak(s[..i]) && (i == 0 || s[i - 1] != '\n')
    ensures s[e..] == [] || s[e..][0] != '\n'
  {
    var a := s[..i];
    NoMatchNoBreak(sep, s, 0, i);
    assert HasNoBreak(a) by {
      forall k | 0 <= k < |a| - 1 ensures !(a[k] == '\n' && a[k + 1] == '\n') {
        assert a[k] == s[k] && a[k + 1] == s[k + 1];
      }
    }
    if i > 0 && s[i - 1] == '\n' {
      BreakStartsMatch(sep, s, i - 1);
      assert false;
    }
  }

  /** A text that does not start with a line feed splits into a first piece starting like the text. */
  lemma SplitHeadStart(sep: Separator, t: string)
    requires t == [] || t[0] != '\n'
    ensures t == [] ==> Split(sep, t) == [""]
    ensures t != [] ==> Split(sep, t)[0] != [] && Split(sep, t)[0][0] == t[0]
  {
    if t != [] {
      assert MatchEnd(sep, t, 0).None?;
      match FirstMatch(sep, t, 0)
      case None =>
      case Some((i, e)) =>
        assert i > 0;
        SplitStep(sep, t, i, e);
    }
  }

  /** A line feed followed by whitespace holding another line feed is where a match starts. */
  lemma BreakStartsMatch(sep: Separator, s: string, k: nat)
    requires k + 1 < |s| && s[k] == '\n' && s[k + 1] == '\n'
    ensures MatchEnd(sep, s, k).Some?
  {
    if sep.BlankLine? {
      var run := SpanEnd(s, k + 1, IsWhitespace);
      assert k + 1 < run;
    }
  }

  /** Where no match starts, no two line feeds are adjacent. */
  lemma NoMatchNoBreak(sep: Separator, s: string, lo: nat, hi: nat)
    requires lo <= hi <= |s|
    requires forall k :: lo <= k < hi ==> MatchEnd(sep, s, k).None?
    ensures forall k :: lo <= k && k + 1 < hi ==> !(s[k] == '\n' && s[k + 1] == '\n')
  {
    forall k | lo <= k && k + 1 < hi
      ensures !(s[k] == '\n' && s[k + 1] == '\n')
    {
      if s[k] == '\n' && s[k + 1] == '\n' {
        BreakStartsMatch(sep, s, k);
      }
    }
  }

  lemma WellSeparatedTail(ps: seq<string>)
    requires |ps| >= 1 && WellSeparated(ps)
    ensures WellSeparated(ps[1..])
  {
    var tail := ps[1..];
    forall i | 0 <= i < |tail|
      ensures HasNoBreak(tail[i])
      ensures i > 0 && tail[i] != [] ==> tail[i][0] != '\n'
      ensures i + 1 < |tail| && tail[i] != [] ==> tail[i][|tail[i]| - 1] != '\n'
      ensures 0 < i < |tail| - 1 ==> tail[i] != []
    {
      assert tail[i] == ps[i + 1];
    }
  }

  /** The join of the pieces after the first starts with a line feed only if it is empty. */
  lemma JoinTailStart(ps: seq<string>)
    requires |ps| >= 2 && WellSeparated(ps)
    ensures var t := Join(ps[1..], "\n\n"); t == [] || t[0] != '\n'
  {
    var tail := ps[1..];
    if |tail| > 1 {
      assert ps[1] != [];
      JoinAppend([tail[0]], tail[1..], "\n\n");
      assert [tail[0]] + tail[1..] == tail;
    }
  }

  /** In `a + "\n\n" + t` the leftmost paragraph break is the one after `a`. */
  lemma FirstBreakAfter(a: string, t: string)
    requires HasNoBreak(a) && (a == [] || a[|a| - 1] != '\n')
    requires t == [] || t[0] != '\n'
    ensures var s := a + "\n\n" + t;
      FirstMatch(ParagraphBreak, s, 0) == Some((|a|, |a| + 2))
  {
    var s := a + "\n\n" + t;
    forall k | 0 <= k < |a| ensures MatchEnd(ParagraphBreak, s, k).None? {
      assert s[k] == a[k];
      if k + 1 < |a| {
        assert s[k + 1] == a[k + 1];
      }
    }
    var e := SpanEnd(s, |a| + 2, IsNewline);
    assert e == |a| + 2 by {
      if |a| + 2 < |s| {
        assert s[|a| + 2] == t[0];
      }
    }
    assert MatchEnd(ParagraphBreak, s, |a|) == Some(|a| + 2);
  }

  /** A run of consecutive pieces of a split is shaped like a split itself. */
  lemma WellSeparatedSlice(ps: seq<string>, a: nat, b: nat)
    requires WellSeparated(ps) && a < b <= |ps|
    ensures WellSeparated(ps[a..b])
  {
    var qs := ps[a..b];
    forall i | 0 <= i < |qs|
      ensures HasNoBreak(qs[i])
      ensures i > 0 && qs[i] != [] ==> qs[i][0] != '\n'
      ensures i + 1 < |qs| && qs[i] != [] ==> qs[i][|qs[i]| - 1] != '\n'
      ensures 0 < i < |qs| - 1 ==> qs[i] != []
    {
      assert qs[i] == ps[a + i];
    }
  }

  /**
   Splitting on paragraph breaks undoes joining with a blank line, exactly for
   well-separated pieces.
   */
  lemma {:induction false} SplitJoinParagraphs(ps: seq<string>)
    requires |ps| >= 1 && WellSeparated(ps)
    ensures Split(ParagraphBreak, Join(ps, "\n\n")) == ps
    decreases |ps|
  {
    var s := Join(ps, "\n\n");
    if |ps| == 1 {
      assert s == ps[0];
      forall k | 0 <= k <= |s| ensures MatchEnd(ParagraphBreak, s, k).None? {
        if k + 2 <= |s| {
          assert !(s[k] == '\n' && s[k + 1] == '\n');
        }
      }
      assert FirstMatch(ParagraphBreak, s, 0).None?;
    } else {
      var a, tail := ps[0], ps[1..];
      var t := Join(tail, "\n\n");
      JoinAppend([a], tail, "\n\n");
      assert [a] + tail == ps;
      assert s == a + "\n\n" + t;
      WellSeparatedTail(ps);
      JoinTailStart(ps);
      FirstBreakAfter(a, t);
      assert s[..|a|] == a;
      assert s[|a| + 2..] == t;
      SplitJoinParagraphs(tail);
    }
  }

  /** A match of `/[^.!?]+[.!?]+/`: non-terminators, then terminators only. */
  predicate IsSentence(x: string)
  {
    && |x| >= 2 && !IsTerminal(x[0]) && IsTerminal(x[|x| - 1])
    && forall a, b :: 0 <= a < b < |x| && IsTerminal(x[a]) ==> IsTerminal(x[b])
  }

  predicate NoTerminal(s: string)
  {
    forall k :: 0 <= k < |s| ==> !IsTerminal(s[k])
  }

  predicate OnlyTerminals(s: string)
  {
    forall k :: 0 <= k < |s| ==> IsTerminal(s[k])
  }

  /** `s.match(/[^.!?]+[.!?]+/g)`, with `null` as the empty sequence. */
  function SentenceMatches(s: string): seq<string>
    decreases |s|
  {
    if |s| == 0 then []
    else if IsTerminal(s[0]) then SentenceMatches(s[1..])
    else
      var run := SpanEnd(s, 0, IsNonTerminal);
      if run == |s| then []
      else [s[..SpanEnd(s, run, IsTerminal)]] + SentenceMatches(s[SpanEnd(s, run, IsTerminal)..])
  }

  /** Every match is a run of non-terminators followed by a run of terminators. */
  lemma {:induction false} SentenceMatchesShape(s: string)
    ensures forall k :: 0 <= k < |SentenceMatches(s)| ==> IsSentence(SentenceMatches(s)[k])
    decreases |s|
  {
    if |s| == 0 {
    } else if IsTerminal(s[0]) {
      SentenceMatchesShape(s[1..]);
    } else {
      var run := SpanEnd(s, 0, IsNonTerminal);
      if run < |s| {
        var e := SpanEnd(s, run, IsTerminal);
        var x := s[..e];
        SentenceStep(s, run, e);
        SentenceMatchesShape(s[e..]);
        forall a, b | 0 <= a < b < |x| && IsTerminal(x[a]) ensures IsTerminal(x[b]) {
          assert a >= run;
        }
        assert IsSentence(x);
        var ms := SentenceMatches(s);
        forall k | 0 <= k < |ms| ensures IsSentence(ms[k]) {
          if k > 0 { assert ms[k] == SentenceMatches(s[e..])[k - 1]; }
        }
      }
    }
  }

  /**
   What the sentence matches cover: one contiguous stretch of the input. Only
   terminators are dropped before it and nothing dropped after it contains
   one, so text after the last terminator is lost.
   */
  lemma SentenceMatchesCover(s: string)
    ensures exists lead, tail :: s == lead + Join(SentenceMatches(s), "") + tail
                                 && OnlyTerminals(lead) && NoTerminal(tail)
  {
    var lead, tail := SentenceSpan(s);
  }

  lemma {:induction false} SentenceSpan(s: string) returns (lead: string, tail: string)
    ensures s == lead + Join(SentenceMatches(s), "") + tail
    ensures OnlyTerminals(lead) && NoTerminal(tail)
    decreases |s|
  {
    if |s| == 0 {
      lead, tail := "", "";
    } else if IsTerminal(s[0]) {
      var lead', tail' := SentenceSpan(s[1..]);
      lead, tail := [s[0]] + lead', tail';
      SpanAfterTerminal(s, lead', tail');
    } else {
      var run := SpanEnd(s, 0, IsNonTerminal);
      if run == |s| {
        lead, tail := "", s;
      } else {
        var e := SpanEnd(s, run, IsTerminal);
        var lead', tail' := SentenceSpan(s[e..]);
        SpanAfterSentence(s, run, e, lead', tail');
        lead, tail := "", tail';
      }
    }
  }

  lemma SpanAfterTerminal(s: string, lead': string, tail': string)
    requires |s| > 0 && IsTerminal(s[0])
    requires s[1..] == lead' + Join(SentenceMatches(s[1..]), "") + tail'
    requires OnlyTerminals(lead')
    ensures s == ([s[0]] + lead') + Join(SentenceMatches(s), "") + tail'
    ensures OnlyTerminals([s[0]] + lead')
  {
    SkipLeadingTerminal(s);
    PrependPiece(s, lead', Join(SentenceMatches(s[1..]), ""), tail');
    var l := [s[0]] + lead';
    forall k | 0 <= k < |l| ensures IsTerminal(l[k]) {
      if k > 0 { assert l[k] == lead'[k - 1]; }
    }
  }

  lemma SkipLeadingTerminal(s: string)
    requires |s| > 0 && IsTerminal(s[0])
    ensures SentenceMatches(s) == SentenceMatches(s[1..])
  {
  }

  lemma PrependPiece(s: string, a: string, b: string, c: string)
    requires |s| > 0 && s[1..] == a + b + c
    ensures s == ([s[0]] + a) + b + c
  {
    assert s == [s[0]] + s[1..];
  }

  lemma SpanAfterSentence(s: string, run: nat, e: nat, lead': string, tail': string)
    requires 0 < |s| && !IsTerminal(s[0])
    requires run == SpanEnd(s, 0, IsNonTerminal) && run < |s| && e == SpanEnd(s, run, IsTerminal)
    requires s[e..] == lead' + Join(SentenceMatches(s[e..]), "") + tail'
    requires OnlyTerminals(lead')
    ensures s == "" + Join(SentenceMatches(s), "") + tail'
  {
    SentenceStep(s, run, e);
    var j' := Join(SentenceMatches(s[e..]), "");
    NoLeadAfterSentence(s[e..], lead', j', tail');
    JoinCons(s[..e], SentenceMatches(s[e..]), "");
    ConcatAssoc(s[..e], "", j');
    Reassociate(s, e, j', tail');
  }

  lemma NoLeadAfterSentence(rest: string, lead': string, j: string, tail': string)
    requires rest == lead' + j + tail' && OnlyTerminals(lead')
    requires rest == [] || !IsTerminal(rest[0])
    ensures lead' == [] && rest == j + tail'
  {
  }

  lemma Reassociate(s: string, e: nat, j: string, tail: string)
    requires e <= |s| && s[e..] == j + tail
    ensures s == "" + (s[..e] + j) + tail
  {
    assert s == s[..e] + s[e..];
    ConcatAssoc(s[..e], j, tail);
  }

  /** One step of `SentenceMatches` at a non-terminator followed later by a terminator. */
  lemma SentenceStep(s: string, run: nat, e: nat)
    requires 0 < |s| && !IsTerminal(s[0])
    requires run == SpanEnd(s, 0, IsNonTerminal) && run < |s| && e == SpanEnd(s, run, IsTerminal)
    ensures run < e && (e == |s| || !IsTerminal(s[e]))
    ensures SentenceMatches(s) == [s[..e]] + SentenceMatches(s[e..])
  {
  }

  /**
   The units the sentence fallback packs: the sentence matches, or the whole
   paragraph when there are none (`match(...) || [paragraph]`).
   */
  function SentenceUnits(p: string): (r: seq<string>)
    ensures |r| >= 1
    ensures p != [] ==> forall k :: 0 <= k < |r| ==> r[k] != []
  {
    var m := SentenceMatches(p);
    SentenceMatchesShape(p);
    if |m| == 0 then [p] else m
  }

  /** Text without terminators has no sentence match. */
  lemma NoTerminalNoSentence(s: string)
    requires NoTerminal(s)
    ensures SentenceMatches(s) == []
  {
    if |s| > 0 {
      var run := SpanEnd(s, 0, IsNonTerminal);
      assert run == |s|;
    }
  }

  /** The pieces of whitespace-only text are whitespace-only. */
  lemma {:induction false} SplitWhitespace(sep: Separator, s: string)
    requires AllWhitespace(s)
    ensures forall i :: 0 <= i < |Split(sep, s)| ==> AllWhitespace(Split(sep, s)[i])
    decreases |s|
  {
    var m := FirstMatch(sep, s, 0);
    if m.Some? {
      var i, e := m.value.0, m.value.1;
      SplitStep(sep, s, i, e);
      assert AllWhitespace(s[..i]) by {
        forall k | 0 <= k < i ensures IsWhitespace(s[..i][k]) {
          assert s[..i][k] == s[k];
        }
      }
      assert AllWhitespace(s[e..]) by {
        forall k | 0 <= k < |s| - e ensures IsWhitespace(s[e..][k]) {
          assert s[e..][k] == s[e + k];
        }
      }
      SplitWhitespace(sep, s[e..]);
      var ps := Split(sep, s);
      forall k | 0 <= k < |ps| ensures AllWhitespace(ps[k]) {
        if k > 0 { assert ps[k] == Split(sep, s[e..])[k - 1]; }
      }
    }
  }

  /** Only the empty text and runs of two or more line feeds split into nothing but empty paragraphs. */
  lemma ParagraphsAllEmpty(s: string)
    ensures AllEmpty(Split(ParagraphBreak, s)) <==> (s == [] || (|s| >= 2 && forall k :: 0 <= k < |s| ==> s[k] == '\n'))
  {
    var ps := Split(ParagraphBreak, s);
    if s != [] && |s| >= 2 && forall k :: 0 <= k < |s| ==> s[k] == '\n' {
      var e := SpanEnd(s, 2, IsNewline);
      assert e == |s|;
      assert MatchEnd(ParagraphBreak, s, 0) == Some(|s|);
      SplitStep(ParagraphBreak, s, 0, |s|);
      assert s[|s|..] == [];
      assert ps == ["", ""];
    }
    if AllEmpty(ps) {
      SplitReassembles(ParagraphBreak, s);
      InterleaveOfEmpty(ps, Delimiters(ParagraphBreak, s));
    }
  }

  /** Putting empty pieces between paragraph-break delimiters gives only line feeds, never exactly one. */
  lemma {:induction false} InterleaveOfEmpty(ps: seq<string>, ds: seq<string>)
    requires |ds| + 1 == |ps| && AllEmpty(ps)
    requires forall i :: 0 <= i < |ds| ==> IsDelimiter(ParagraphBreak, ds[i])
    ensures var s := Interleave(ps, ds);
      s == [] || (|s| >= 2 && forall k :: 0 <= k < |s| ==> s[k] == '\n')
    decreases |ds|
  {
    if |ds| > 0 {
      InterleaveOfEmpty(ps[1..], ds[1..]);
      var rest := Interleave(ps[1..], ds[1..]);
      assert Interleave(ps, ds) == ds[0] + rest;
      var s := ds[0] + rest;
      forall k | 0 <= k < |s| ensures s[k] == '\n' {
        if k >= |ds[0]| { assert s[k] == rest[k - |ds[0]|]; }
      }
    }
  }
}
