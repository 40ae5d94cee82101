/** Text chunking: overlapping windows of a fixed size, cut back to just after the last
    sentence end (". ") when that lies beyond half the window, with chunks of at most 20
    non-blank characters dropped; the `DocumentChunker` wrapper; and the metadata derived
    from a document's path. */
module Chunking {
  import opened Wrappers
  import opened Records
  import PyText
  import Seqs

  /** Default chunk size and overlap of `chunk_text` and `DocumentChunker`. */
  const DefaultChunkSize: int := 500
  const DefaultOverlap: int := 50

  /** The sentence end the windows are snapped to. */
  const SentenceEnd: string := ". "

  // ---------------------------------------------------------------- windows

  /** The windowing loop advances for every window that does not reach the end of the text:
      a window is `chunk_size` long, or, when cut at a sentence end found beyond
      `chunk_size // 2`, at least `chunk_size // 2 + 3` long, so the overlap must be less
      than both. */
  predicate Progresses(chunkSize: int, overlap: int) {
    overlap < chunkSize && overlap < chunkSize / 2 + 3
  }

  /** `chunk_text` terminates: a text that fits is returned at once; otherwise each window
      must move the start forward. */
  predicate Terminates(text: string, chunkSize: int, overlap: int) {
    |text| <= chunkSize || Progresses(chunkSize, overlap)
  }

  /** Where the window starting at `start` ends: `start + chunk_size`, cut back to just
      after the last ". " of the window when the window does not reach the end of the text
      and that sentence end lies beyond `chunk_size // 2`. */
  function WindowEnd(text: string, start: nat, chunkSize: int): int {
    var end := start + chunkSize;
    if end < |text| then
      var sentenceEnd := PyText.RFind(PyText.Slice(text, start, end), SentenceEnd);
      if sentenceEnd > chunkSize / 2 then start + sentenceEnd + 2 else end
    else end
  }

  /** The start of every window that does not reach the end of the text moves forward. */
  lemma WindowAdvances(text: string, start: nat, chunkSize: int, overlap: int)
    requires Progresses(chunkSize, overlap)
    ensures WindowEnd(text, start, chunkSize) - overlap > start
  {
  }

  /** Without `Progresses` the loop can stall: with `chunk_size` 10 and `overlap` 8, a first
      window cut just after the ". " at offset 6 ends at 8, so the next start is again 0. */
  lemma WindowStalls()
    ensures !Progresses(10, 8)
    ensures WindowEnd("aaaaaa. bbbbbbbbbbbbbb", 0, 10) - 8 == 0
  {
    var text := "aaaaaa. bbbbbbbbbbbbbb";
    var window := PyText.Slice(text, 0, 10);
    assert window == "aaaaaa. bb";
    assert PyText.OccursAt(window, SentenceEnd, 6) by {
      assert window[6..8] == SentenceEnd;
    }
    var r := PyText.RFind(window, SentenceEnd);
    assert !PyText.OccursAt(window, SentenceEnd, 7) by {
      assert window[7] != SentenceEnd[0];
    }
    assert !PyText.OccursAt(window, SentenceEnd, 8) by {
      assert window[8] != SentenceEnd[0];
    }
    assert r == 6;
  }

  /** A window `[lo, hi)` of the text. */
  datatype Span = Span(lo: nat, hi: int)

  /** Every window starting before `n` is followed by a later start. */
  predicate Advancing(n: nat, endOf: nat -> int, overlap: int) {
    forall s: nat :: s < n ==> endOf(s) - overlap > s
  }

  /** The windows of a text of length `n` from `start`, where the window starting at `s`
      ends at `endOf(s)`: the loop stops after a window that reaches the end of the text. */
  function Spans(n: nat, endOf: nat -> int, overlap: int, start: nat): (r: seq<Span>)
    requires Advancing(n, endOf, overlap)
    decreases n - start
  {
    if start >= n then []
    else
      var end := endOf(start);
      [Span(start, end)] + (if end < n then Spans(n, endOf, overlap, end - overlap) else [])
  }

  /** The window ends of `chunk_text` for one text and chunk size. */
  function WindowEnds(text: string, chunkSize: int): nat -> int {
    (s: nat) => WindowEnd(text, s, chunkSize)
  }

  /** Under the termination condition the windows advance. */
  lemma WindowEndsAdvance(text: string, chunkSize: int, overlap: int)
    requires Progresses(chunkSize, overlap)
    ensures Advancing(|text|, WindowEnds(text, chunkSize), overlap)
  {
    forall s: nat | s < |text| ensures WindowEnds(text, chunkSize)(s) - overlap > s {
      WindowAdvances(text, s, chunkSize, overlap);
    }
  }

  /** The windows `chunk_text` cuts `text` into. */
  function TextSpans(text: string, chunkSize: int, overlap: int): seq<Span>
    requires Progresses(chunkSize, overlap)
  {
    WindowEndsAdvance(text, chunkSize, overlap);
    Spans(|text|, WindowEnds(text, chunkSize), overlap, 0)
  }

  /** The text of each window: `text[lo:hi]`. */
  function Pieces(text: string, spans: seq<Span>): (r: seq<string>)
    ensures |r| == |spans|
  {
    if spans == [] then [] else [PyText.Slice(text, spans[0].lo, spans[0].hi)] + Pieces(text, spans[1..])
  }

  lemma PiecesCons(text: string, span: Span, rest: seq<Span>)
    ensures Pieces(text, [span] + rest) == [PyText.Slice(text, span.lo, span.hi)] + Pieces(text, rest)
  {
    assert ([span] + rest)[1..] == rest;
  }

  /** The filter of `chunk_text`: more than 20 characters once stripped. */
  predicate Substantial(chunk: string) {
    |PyText.Strip(chunk)| > 20
  }

  /** `chunk_text(text, chunk_size, overlap)` as a function: the text itself when it fits in
      one chunk, otherwise the substantial window texts in order. */
  function Chunks(text: string, chunkSize: int, overlap: int): seq<string>
    requires Terminates(text, chunkSize, overlap)
  {
    if |text| <= chunkSize then [text]
    else Seqs.Filter(Pieces(text, TextSpans(text, chunkSize, overlap)), Substantial)
  }

  // ---------------------------------------------------------------- the loop

  /** `chunk_text`: the text itself when it fits, otherwise the window texts filtered on
      stripped length. */
  method ChunkText(text: string, chunkSize: int, overlap: int) returns (chunks: seq<string>)
    requires Terminates(text, chunkSize, overlap)
    ensures chunks == Chunks(text, chunkSize, overlap)
  {
    if |text| <= chunkSize {
      return [text];
    }
    chunks := WindowTexts(text, chunkSize, overlap);
    chunks := Seqs.Filter(chunks, Substantial);
  }

  /** The `while` loop of `chunk_text`: the text of every window in order. */
  method WindowTexts(text: string, chunkSize: int, overlap: int) returns (chunks: seq<string>)
    requires Progresses(chunkSize, overlap)
    ensures chunks == Pieces(text, TextSpans(text, chunkSize, overlap))
  {
    ghost var endOf := WindowEnds(text, chunkSize);
    ghost var all := Pieces(text, TextSpans(text, chunkSize, overlap));
    chunks := [];
    var start: nat := 0;
    LoopStart(text, chunkSize, overlap, endOf, chunks, all);
    while start < |text|
      invariant Done(text, |text|, endOf, overlap, start, chunks, all)
      decreases |text| - start
    {
      var end, chunk := NextWindow(text, start, chunkSize);
      var next := if end < |text| then end - overlap else |text|;
      LoopStep(text, |text|, endOf, overlap, start, chunks, all, end, chunk, next);
      chunks := chunks + [chunk];
      start := next;
    }
    LoopEnd(text, |text|, endOf, overlap, start, chunks, all);
  }

  /** The loop invariant: the window texts so far followed by those of the windows from
      `start` are all the window texts. */
  ghost predicate Done(text: string, n: nat, endOf: nat -> int, overlap: int, start: nat,
                       chunks: seq<string>, all: seq<string>) {
    Advancing(n, endOf, overlap) && chunks + Pieces(text, Spans(n, endOf, overlap, start)) == all
  }

  lemma LoopStart(text: string, chunkSize: int, overlap: int, endOf: nat -> int,
                  chunks: seq<string>, all: seq<string>)
    requires Progresses(chunkSize, overlap)
    requires endOf == WindowEnds(text, chunkSize) && chunks == []
    requires all == Pieces(text, TextSpans(text, chunkSize, overlap))
    ensures Done(text, |text|, endOf, overlap, 0, chunks, all)
  {
    TextSpansIs(text, chunkSize, overlap);
    Seqs.EmptyPrefix(all);
  }

  lemma TextSpansIs(text: string, chunkSize: int, overlap: int)
    requires Progresses(chunkSize, overlap)
    ensures Advancing(|text|, WindowEnds(text, chunkSize), overlap)
    ensures TextSpans(text, chunkSize, overlap) == Spans(|text|, WindowEnds(text, chunkSize), overlap, 0)
  {
    WindowEndsAdvance(text, chunkSize, overlap);
  }

  lemma LoopEnd(text: string, n: nat, endOf: nat -> int, overlap: int, start: nat,
                chunks: seq<string>, all: seq<string>)
    requires start >= n && Done(text, n, endOf, overlap, start, chunks, all)
    ensures chunks == all
  {
    assert chunks + [] == chunks;
  }

  /** The window at `start`: `chunk_size` characters, cut just after the last ". " when that
      lies beyond `chunk_size // 2` and the window does not reach the end of the text. */
  method NextWindow(text: string, start: nat, chunkSize: int) returns (end: int, chunk: string)
    ensures end == WindowEnds(text, chunkSize)(start) && chunk == PyText.Slice(text, start, end)
  {
    end := start + chunkSize;
    chunk := PyText.Slice(text, start, end);
    if end < |text| {
      var sentenceEnd := PyText.RFind(chunk, SentenceEnd);
      if sentenceEnd > chunkSize / 2 {
        chunk := PyText.Slice(text, start, start + sentenceEnd + 2);
        end := start + sentenceEnd + 2;
      }
    }
  }

  /** One pass of the loop body appends the text of the window at `start` and moves on to
      the next start, or past the end of the text after the last window. */
  lemma LoopStep(text: string, n: nat, endOf: nat -> int, overlap: int, start: nat,
                 chunks: seq<string>, all: seq<string>, end: int, chunk: string, next: int)
    requires start < n && Done(text, n, endOf, overlap, start, chunks, all)
    requires end == endOf(start) && chunk == PyText.Slice(text, start, end)
    requires next == if end < n then end - overlap else n
    ensures start < next && Done(text, n, endOf, overlap, next, chunks + [chunk], all)
  {
    SpansStep(n, endOf, overlap, start);
    if end < n {
      var rest := Spans(n, endOf, overlap, next);
      assert Spans(n, endOf, overlap, start) == [Span(start, end)] + rest;
      PiecesCons(text, Span(start, end), rest);
      Seqs.AppendAssoc(chunks, [chunk], Pieces(text, rest));
    } else {
      var none: seq<Span> := [];
      assert Spans(n, endOf, overlap, start) == [Span(start, end)] + none;
      PiecesCons(text, Span(start, end), none);
      Seqs.AppendAssoc(chunks, [chunk], Pieces(text, none));
      assert Spans(n, endOf, overlap, n) == none;
    }
  }

  // ---------------------------------------------------------------- properties

  /** One step of the windows: the first window, then the windows from the next start. */
  lemma SpansStep(n: nat, endOf: nat -> int, overlap: int, start: nat)
    requires Advancing(n, endOf, overlap) && start < n
    ensures var end := endOf(start);
      && end - overlap > start
      && Spans(n, endOf, overlap, start)
         == [Span(start, end)] + (if end < n then Spans(n, endOf, overlap, end - overlap) else [])
  {
  }

  /** `piece` is a contiguous part of `text`. */
  predicate SliceOf(piece: string, text: string) {
    exists a, b :: 0 <= a <= b <= |text| && piece == text[a..b]
  }

  /** Every Python slice is a contiguous part of the text, no longer than its bounds allow. */
  lemma SliceIsPart(text: string, i: int, j: int)
    ensures SliceOf(PyText.Slice(text, i, j), text)
    ensures 0 <= i <= j ==> |PyText.Slice(text, i, j)| <= j - i
  {
    var a, b := PyText.SliceBound(i, |text|), PyText.SliceBound(j, |text|);
    if a < b {
      assert PyText.Slice(text, i, j) == text[a..b];
    } else {
      assert PyText.Slice(text, i, j) == text[a..a];
    }
  }

  /** A window is never longer than a non-negative chunk size. */
  lemma WindowWithinSize(text: string, start: nat, chunkSize: int)
    requires chunkSize >= 0
    ensures start <= WindowEnd(text, start, chunkSize) <= start + chunkSize
  {
    var end := start + chunkSize;
    if end < |text| {
      var window := PyText.Slice(text, start, end);
      var sentenceEnd := PyText.RFind(window, SentenceEnd);
      if sentenceEnd > chunkSize / 2 {
        SliceIsPart(text, start, end);
        assert PyText.OccursAt(window, SentenceEnd, sentenceEnd);
      }
    }
  }

  /** Sentence snapping: a window that does not end `chunk_size` after its start was cut just
      after the LAST ". " of the full window, which lies beyond `chunk_size // 2`, and that
      only happens when the full window does not reach the end of the text; conversely, a
      ". " beyond `chunk_size // 2` in a full window short of the end always causes a cut at
      or after it. */
  lemma WindowSnap(text: string, start: nat, chunkSize: int, j: int)
    requires chunkSize >= 0
    ensures var end := WindowEnd(text, start, chunkSize);
      var window := PyText.Slice(text, start, start + chunkSize);
      || end == start + chunkSize
      || (&& start + chunkSize < |text|
          && end - start - 2 > chunkSize / 2
          && PyText.OccursAt(window, SentenceEnd, end - start - 2)
          && forall k :: end - start - 2 < k ==> !PyText.OccursAt(window, SentenceEnd, k))
    ensures var window := PyText.Slice(text, start, start + chunkSize);
      start + chunkSize < |text| && j > chunkSize / 2 && PyText.OccursAt(window, SentenceEnd, j) ==>
        WindowEnd(text, start, chunkSize) >= start + j + 2
    ensures start + chunkSize >= |text| ==> WindowEnd(text, start, chunkSize) == start + chunkSize
  {
  }

  /** The shape of the window list of a text of length `n`: the first window starts at or
      after `from`, every window starts inside the text, each later window starts at the
      previous end minus the overlap, every window but the last ends inside the text, and
      with a non-negative overlap the last one ends at or after its end. */
  predicate Chained(n: nat, overlap: int, from: int, spans: seq<Span>)
    decreases |spans|
  {
    || spans == []
    || (&& from <= spans[0].lo < n
        && if |spans| == 1 then overlap >= 0 ==> spans[0].hi >= n
           else
             && spans[0].hi < n
             && spans[1].lo == spans[0].hi - overlap
             && Chained(n, overlap, spans[1].lo, spans[1..]))
  }

  lemma ChainedCons(n: nat, overlap: int, from: int, start: nat, end: int, rest: seq<Span>)
    requires from <= start < n && Chained(n, overlap, end - overlap, rest)
    requires rest == [] ==> overlap < 0 || end >= n
    requires rest != [] ==> end < n && rest[0].lo == end - overlap
    ensures Chained(n, overlap, from, [Span(start, end)] + rest)
  {
    assert ([Span(start, end)] + rest)[1..] == rest;
  }

  /** What `Chained` says about window `k`. */
  lemma {:induction false} ChainedAt(n: nat, overlap: int, from: int, spans: seq<Span>, k: nat)
    requires Chained(n, overlap, from, spans) && k < |spans|
    ensures spans[k].lo < n
    ensures k == 0 ==> from <= spans[k].lo
    ensures k + 1 < |spans| ==> spans[k].hi < n && spans[k + 1].lo == spans[k].hi - overlap
    ensures k + 1 == |spans| && overlap >= 0 ==> spans[k].hi >= n
    decreases k
  {
    if k > 0 {
      ChainedAt(n, overlap, spans[1].lo, spans[1..], k - 1);
      assert spans[1..][k - 1] == spans[k];
      if k + 1 < |spans| {
        assert spans[1..][k] == spans[k + 1];
      }
    }
  }

  /** Every window ends where `endOf` says. */
  predicate EndsAt(endOf: nat -> int, spans: seq<Span>) {
    forall k :: 0 <= k < |spans| ==> spans[k].hi == endOf(spans[k].lo)
  }

  lemma EndsAtCons(endOf: nat -> int, start: nat, rest: seq<Span>)
    requires EndsAt(endOf, rest)
    ensures EndsAt(endOf, [Span(start, endOf(start))] + rest)
  {
    var spans := [Span(start, endOf(start))] + rest;
    forall k | 0 <= k < |spans| ensures spans[k].hi == endOf(spans[k].lo) {
      if k > 0 { assert spans[k] == rest[k - 1]; }
    }
  }

  /** The windows from `start` begin at `start`, are chained, and each ends where `endOf`
      says. */
  lemma {:induction false} SpansChain(n: nat, endOf: nat -> int, overlap: int, start: nat)
    requires Advancing(n, endOf, overlap)
    ensures var spans := Spans(n, endOf, overlap, start);
      && (start < n ==> spans != [] && spans[0].lo == start)
      && Chained(n, overlap, start, spans)
    decreases n - start
  {
    if start < n {
      SpansStep(n, endOf, overlap, start);
      var end := endOf(start);
      if end < n {
        var next: nat := end - overlap;
        var rest := Spans(n, endOf, overlap, next);
        assert Spans(n, endOf, overlap, start) == [Span(start, end)] + rest;
        SpansChain(n, endOf, overlap, next);
        ChainedCons(n, overlap, start, start, end, rest);
      } else {
        var none: seq<Span> := [];
        assert Spans(n, endOf, overlap, start) == [Span(start, end)] + none;
        ChainedCons(n, overlap, start, start, end, none);
      }
    }
  }

  /** Each window from `start` ends where `endOf` says. */
  lemma {:induction false} SpansEnd(n: nat, endOf: nat -> int, overlap: int, start: nat)
    requires Advancing(n, endOf, overlap)
    ensures EndsAt(endOf, Spans(n, endOf, overlap, start))
    decreases n - start
  {
    if start < n {
      SpansStep(n, endOf, overlap, start);
      var end := endOf(start);
      if end < n {
        var next: nat := end - overlap;
        var rest := Spans(n, endOf, overlap, next);
        assert Spans(n, endOf, overlap, start) == [Span(start, end)] + rest;
        SpansEnd(n, endOf, overlap, next);
        EndsAtCons(endOf, start, rest);
      } else {
        var none: seq<Span> := [];
        assert Spans(n, endOf, overlap, start) == [Span(start, end)] + none;
        EndsAtCons(endOf, start, none);
      }
    }
  }


  /** Position `i` lies in some window. */
  predicate Covered(spans: seq<Span>, i: int) {
    exists k :: 0 <= k < |spans| && spans[k].lo <= i < spans[k].hi
  }

  lemma CoveredCons(span: Span, rest: seq<Span>, i: int)
    requires span.lo <= i < span.hi || Covered(rest, i)
    ensures Covered([span] + rest, i)
  {
    var spans := [span] + rest;
    if !(span.lo <= i < span.hi) {
      var k :| 0 <= k < |rest| && rest[k].lo <= i < rest[k].hi;
      assert spans[k + 1] == rest[k];
    } else {
      assert spans[0] == span;
    }
  }

  /** With a non-negative overlap no character is lost: every position of the text from
      `start` on lies in some window. */
  lemma {:induction false} SpansCover(n: nat, endOf: nat -> int, overlap: int, start: nat, i: nat)
    requires Advancing(n, endOf, overlap) && overlap >= 0 && start <= i < n
    ensures Covered(Spans(n, endOf, overlap, start), i)
    decreases n - start
  {
    SpansStep(n, endOf, overlap, start);
    var end := endOf(start);
    if end < n {
      var next: nat := end - overlap;
      var rest := Spans(n, endOf, overlap, next);
      if i >= end {
        SpansCover(n, endOf, overlap, next, i);
      }
      CoveredCons(Span(start, end), rest, i);
    } else {
      var none: seq<Span> := [];
      CoveredCons(Span(start, end), none, i);
    }
  }

  /** The text of window `k` is `text[lo:hi]` of span `k`. */
  lemma {:induction false} PiecesAt(text: string, spans: seq<Span>, k: nat)
    requires k < |spans|
    ensures Pieces(text, spans)[k] == PyText.Slice(text, spans[k].lo, spans[k].hi)
    decreases k
  {
    if k > 0 {
      PiecesAt(text, spans[1..], k - 1);
    }
  }

  /** Every chunk is a contiguous part of the text; with a non-negative chunk size it is at
      most `chunk_size` characters long; a text that does not fit yields only chunks of more
      than 20 non-blank characters. */
  lemma ChunksShape(text: string, chunkSize: int, overlap: int)
    requires Terminates(text, chunkSize, overlap)
    ensures var r := Chunks(text, chunkSize, overlap);
      && (|text| <= chunkSize ==> r == [text])
      && (forall k :: 0 <= k < |r| ==> SliceOf(r[k], text))
      && (chunkSize >= 0 ==> forall k :: 0 <= k < |r| ==> |r[k]| <= chunkSize)
      && (|text| > chunkSize ==> forall k :: 0 <= k < |r| ==> Substantial(r[k]))
  {
    var r := Chunks(text, chunkSize, overlap);
    if |text| <= chunkSize {
      assert text == text[0..|text|];
    } else {
      var pieces := Pieces(text, TextSpans(text, chunkSize, overlap));
      Seqs.FilterMembers(pieces, Substantial);
      forall k | 0 <= k < |r|
        ensures SliceOf(r[k], text)
        ensures chunkSize >= 0 ==> |r[k]| <= chunkSize
        ensures Substantial(r[k])
      {
        assert r[k] in r;
        var m :| 0 <= m < |pieces| && pieces[m] == r[k];
        WindowTextShape(text, chunkSize, overlap, m);
      }
    }
  }

  /** The text of every window is a contiguous part of the text, and with a non-negative
      chunk size it is at most `chunk_size` characters long. */
  lemma WindowTextShape(text: string, chunkSize: int, overlap: int, m: nat)
    requires Progresses(chunkSize, overlap) && m < |TextSpans(text, chunkSize, overlap)|
    ensures var piece := Pieces(text, TextSpans(text, chunkSize, overlap))[m];
      SliceOf(piece, text) && (chunkSize >= 0 ==> |piece| <= chunkSize)
  {
    var spans := TextSpans(text, chunkSize, overlap);
    TextSpansIs(text, chunkSize, overlap);
    SpansEnd(|text|, WindowEnds(text, chunkSize), overlap, 0);
    PiecesAt(text, spans, m);
    SliceIsPart(text, spans[m].lo, spans[m].hi);
    if chunkSize >= 0 {
      assert spans[m].hi == WindowEnd(text, spans[m].lo, chunkSize);
      WindowWithinSize(text, spans[m].lo, chunkSize);
    }
  }


  /** The windows of a non-empty text that does not fit start at 0, follow each other by the overlap,
      and with a non-negative overlap cover every character, the last one running to the end
      of the text. */
  lemma TextSpansShape(text: string, chunkSize: int, overlap: int)
    requires |text| > chunkSize && Progresses(chunkSize, overlap)
    ensures var spans := TextSpans(text, chunkSize, overlap);
      && (|text| > 0 ==> spans != [] && spans[0].lo == 0)
      && Chained(|text|, overlap, 0, spans)
      && (overlap >= 0 ==> forall i :: 0 <= i < |text| ==> Covered(spans, i))
  {
    var endOf := WindowEnds(text, chunkSize);
    TextSpansIs(text, chunkSize, overlap);
    SpansChain(|text|, endOf, overlap, 0);
    if overlap >= 0 {
      forall i | 0 <= i < |text| ensures Covered(TextSpans(text, chunkSize, overlap), i) {
        SpansCover(|text|, endOf, overlap, 0, i);
      }
    }
  }

  /** With a non-negative overlap the last window runs to the end of the text: it is a
      suffix of it. */
  lemma LastWindowIsSuffix(text: string, chunkSize: int, overlap: int)
    requires |text| > chunkSize && Progresses(chunkSize, overlap) && overlap >= 0
    ensures var pieces := Pieces(text, TextSpans(text, chunkSize, overlap));
      pieces != [] && PyText.EndsWith(text, pieces[|pieces| - 1])
  {
    var spans := TextSpans(text, chunkSize, overlap);
    TextSpansShape(text, chunkSize, overlap);
    var last := spans[|spans| - 1];
    ChainedAt(|text|, overlap, 0, spans, |spans| - 1);
    PiecesAt(text, spans, |spans| - 1);
    PyText.SliceToEnd(text, last.lo, last.hi);
  }

  /** The defaults satisfy the termination condition. */
  lemma DefaultsTerminate(text: string)
    ensures Terminates(text, DefaultChunkSize, DefaultOverlap)
  {
  }

  // ---------------------------------------------------------------- DocumentChunker

  /** `DocumentChunker`: a configured chunk size and overlap. */
  datatype DocumentChunker = DocumentChunker(chunkSize: int, overlap: int) {

    /** `max_length if max_length else self.chunk_size`: None and 0 fall back to the
        configured size. */
    function EffectiveSize(maxLength: Option<int>): (size: int)
      ensures maxLength.None? || maxLength == Some(0) ==> size == chunkSize
      ensures maxLength.Some? && maxLength.value != 0 ==> size == maxLength.value
    {
      if maxLength.Some? && maxLength.value != 0 then maxLength.value else chunkSize
    }

    /** `DocumentChunker.chunk_text`: `chunk_text` with the effective size and the configured
        overlap. */
    method Chunk(text: string, maxLength: Option<int>) returns (chunks: seq<string>)
      requires Terminates(text, EffectiveSize(maxLength), overlap)
      ensures chunks == Chunks(text, EffectiveSize(maxLength), overlap)
    {
      chunks := ChunkText(text, EffectiveSize(maxLength), overlap);
    }
  }

  /** `DocumentChunker()` */
  function DefaultChunker(): (c: DocumentChunker)
    ensures c.chunkSize == DefaultChunkSize && c.overlap == DefaultOverlap
  {
    DocumentChunker(DefaultChunkSize, DefaultOverlap)
  }

  // ---------------------------------------------------------------- metadata from a path

  /** The path separator `os.sep` (POSIX). */
  const Sep: char := '/'

  /** `os.path.basename(path)`: everything after the last separator. */
  function Basename(path: string): (r: string)
    ensures PyText.EndsWith(path, r)
    ensures Sep !in r
    ensures Sep !in path ==> r == path
  {
    var i := PyText.RFind(path, [Sep]);
    if i < 0 then
      assert Sep !in path by {
        forall k | 0 <= k < |path| ensures path[k] != Sep {
          assert path[k..k + 1] == [path[k]];
          assert !PyText.OccursAt(path, [Sep], k);
        }
      }
      path
    else
      assert path[i..i + 1] == [path[i]];
      assert Sep !in path[i + 1..] by {
        forall k | i + 1 <= k < |path| ensures path[k] != Sep {
          assert path[k..k + 1] == [path[k]];
          assert !PyText.OccursAt(path, [Sep], k);
        }
      }
      path[i + 1..]
  }

  /** The title: the basename with its last three characters removed when it ends in ".md"
      or ".txt" (so one character of ".txt" remains). */
  function Title(path: string): (r: string)
    ensures var base := Basename(path);
      if PyText.EndsWith(base, ".md") || PyText.EndsWith(base, ".txt") then r == base[..|base| - 3]
      else r == base
  {
    var base := Basename(path);
    if PyText.EndsWith(base, ".md") || PyText.EndsWith(base, ".txt") then PyText.Slice(base, 0, -3) else base
  }

  /** A path part names a module directory: its lower case contains "module". */
  predicate IsModulePart(part: string) {
    PyText.Contains(PyText.Lower(part), "module")
  }

  /** The index of the first module part, if any. */
  function FirstModulePart(parts: seq<string>): (r: Option<nat>)
    ensures r.Some? ==> (&& r.value < |parts| && IsModulePart(parts[r.value])
                         && forall k :: 0 <= k < r.value ==> !IsModulePart(parts[k]))
    ensures r.None? ==> forall k :: 0 <= k < |parts| ==> !IsModulePart(parts[k])
  {
    if parts == [] then None
    else if IsModulePart(parts[0]) then Some(0)
    else match FirstModulePart(parts[1..])
      case None => None
      case Some(k) => Some(k + 1)
  }

  /** The first module part is the one no other module part precedes. */
  lemma {:induction false} FirstModulePartAt(parts: seq<string>, k: nat)
    requires k < |parts| && IsModulePart(parts[k])
    requires forall m :: 0 <= m < k ==> !IsModulePart(parts[m])
    ensures FirstModulePart(parts) == Some(k)
  {
    if k > 0 {
      FirstModulePartAt(parts[1..], k - 1);
    }
  }

  /** The section: for a path of at least two parts, the first part naming a module
      directory; "unknown" otherwise. */
  function Section(parts: seq<string>): string {
    if |parts| >= 2 && FirstModulePart(parts).Some? then parts[FirstModulePart(parts).value] else "unknown"
  }

  /** The section search of `extract_metadata_from_path`: a loop over the path parts that
      stops at the first module part, run only for paths of two parts or more. */
  method FindSection(parts: seq<string>) returns (section: string)
    ensures section == Section(parts)
  {
    section := "unknown";
    if |parts| >= 2 {
      var k := 0;
      while k < |parts|
        invariant 0 <= k <= |parts|
        invariant forall m :: 0 <= m < k ==> !IsModulePart(parts[m])
      {
        if IsModulePart(parts[k]) {
          FirstModulePartAt(parts, k);
          return parts[k];
        }
        k := k + 1;
      }
    }
  }

  /** `extract_metadata_from_path`: the path itself, the title and the section. */
  method ExtractMetadataFromPath(path: string) returns (metadata: Metadata)
    ensures metadata.Keys == {"relative_path", "title", "section"}
    ensures metadata["relative_path"] == VStr(path)
    ensures metadata["title"] == VStr(Title(path))
    ensures metadata["section"] == VStr(Section(PyText.SplitOn(path, Sep)))
  {
    var parts := PyText.SplitOn(path, Sep);
    var title := Title(path);
    var section := FindSection(parts);
    metadata := map["relative_path" := VStr(path), "title" := VStr(title), "section" := VStr(section)];
  }

  /** The section names a path part containing "module" (in lower case) with no such part
      before it, or is "unknown" when the path has one part or no such part. */
  lemma SectionMeaning(parts: seq<string>)
    ensures var s := Section(parts);
      || (|parts| >= 2 && exists k :: 0 <= k < |parts| && s == parts[k] && IsModulePart(parts[k])
                                      && forall m :: 0 <= m < k ==> !IsModulePart(parts[m]))
      || (s == "unknown" && (|parts| < 2 || forall k :: 0 <= k < |parts| ==> !IsModulePart(parts[k])))
  {
    if |parts| >= 2 && FirstModulePart(parts).Some? {
      var k := FirstModulePart(parts).value;
      assert Section(parts) == parts[k];
    }
  }

  /** "a.txt" has the title "a." and "a.md" the title "a". */
  lemma TitleExamples()
    ensures Title("a.txt") == "a." && Title("a.md") == "a"
  {
    assert Sep !in "a.txt";
    assert PyText.EndsWith("a.txt", ".txt");
    assert Sep !in "a.md";
    assert PyText.EndsWith("a.md", ".md");
  }
}
