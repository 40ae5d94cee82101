/** The `CitationService`: source references built from retrieved documents, previews of
    their content, relevance labels, and the validation, filtering, sorting and top-k
    selection of references. */
module Citation {
  import opened Wrappers
  import opened Records
  import opened ResponseModel
  import Seqs
  import PyText

  function Max(a: int, b: int): int { if a >= b then a else b }
  function Min(a: int, b: int): int { if a <= b then a else b }

  // ---------------------------------------------------------------- truncation

  /** `_truncate_content`: content that fits is returned unchanged; longer content is cut to
      `content[:max_length]` and followed by "..." (so `max_length + 3` characters long). */
  function Truncate(content: string, maxLength: int): (r: string)
    ensures |content| <= maxLength ==> r == content
    ensures |content| > maxLength >= 0 ==> r == content[..maxLength] + "..." && |r| == maxLength + 3
    ensures |content| > maxLength && maxLength < 0 ==> r == PyText.Prefix(content, maxLength) + "..."
    ensures maxLength >= 0 ==> |r| <= maxLength + 3
  {
    if |content| <= maxLength then content else PyText.Prefix(content, maxLength) + "..."
  }

  // ---------------------------------------------------------------- references

  /** `doc['metadata'].get('relative_path', 'Unknown')` as the `str` field of a reference: a
      missing key gives "Unknown", a string itself; any other value is refused by the field. */
  function PathOf(metadata: Metadata): (r: Result<string>)
    ensures "relative_path" !in metadata ==> r == Ok("Unknown")
    ensures "relative_path" in metadata ==>
      (r.Ok? <==> metadata["relative_path"].VStr?) && (r.Ok? ==> r.value == metadata["relative_path"].s)
  {
    match Get(metadata, "relative_path")
    case VStr(p) => Ok(p)
    case VNone => if "relative_path" in metadata then Err("ValidationError: relative_path must be a string") else Ok("Unknown")
    case _ => Err("ValidationError: relative_path must be a string")
  }

  /** The reference `create_source_references` builds for one document: its id (default
      "unknown"), its relative path (default "Unknown"), its score (default 0.0) and its
      content truncated to 200 characters. Construction fails on a score outside [0, 1] or a
      relative path that is not a string. */
  function ReferenceOf(doc: Doc): (r: Result<SourceReference>)
    ensures r.Ok? <==> PathOf(doc.metadata).Ok? && InRange(ScoreOrZero(doc))
    ensures r.Ok? ==> r.value == SourceReference(doc.id.GetOr("unknown"), PathOf(doc.metadata).value,
                                                 ScoreOrZero(doc), Truncate(doc.content, 200))
  {
    match PathOf(doc.metadata)
    case Err(e) => Err(e)
    case Ok(path) => NewSourceReference(doc.id.GetOr("unknown"), path, ScoreOrZero(doc), Truncate(doc.content, 200))
  }

  /** `create_source_references`: one reference per document, in order; the first document
      whose reference cannot be constructed raises. */
  method CreateSourceReferences(retrievedDocs: seq<Doc>) returns (r: Result<seq<SourceReference>>)
    ensures r.Err? <==> exists k :: 0 <= k < |retrievedDocs| && ReferenceOf(retrievedDocs[k]).Err?
    ensures r.Ok? ==> (&& |r.value| == |retrievedDocs|
                       && forall k :: 0 <= k < |retrievedDocs| ==> ReferenceOf(retrievedDocs[k]) == Ok(r.value[k]))
  {
    var sources: seq<SourceReference> := [];
    var k := 0;
    while k < |retrievedDocs|
      invariant 0 <= k <= |retrievedDocs|
      invariant |sources| == k
      invariant forall m :: 0 <= m < k ==> ReferenceOf(retrievedDocs[m]) == Ok(sources[m])
    {
      var sourceRef := ReferenceOf(retrievedDocs[k]);
      if sourceRef.Err? {
        return Err(sourceRef.error);
      }
      sources := sources + [sourceRef.value];
      k := k + 1;
    }
    return Ok(sources);
  }

  // ---------------------------------------------------------------- context preview

  /** Query word number `k < w` occurs in `text` at index `i`. */
  predicate HitBelow(text: string, words: seq<string>, w: int, i: int) {
    exists k :: 0 <= k < w && k < |words| && PyText.OccursAt(text, words[k], i)
  }

  /** Some query word occurs in `text` at index `i`. */
  predicate Hit(text: string, words: seq<string>, i: int) {
    HitBelow(text, words, |words|, i)
  }

  /** The indices where some query word occurs, ascending and each once. */
  function HitPositions(text: string, words: seq<string>): seq<nat> {
    Seqs.Filter(Seqs.Range(|text|), (i: nat) => Hit(text, words, i))
  }

  /** The hit positions are ascending and are exactly the indices of the text where a word
      occurs. */
  lemma HitPositionsMeaning(text: string, words: seq<string>)
    ensures Seqs.Increasing(HitPositions(text, words))
    ensures forall i: nat :: i in HitPositions(text, words) <==> i < |text| && Hit(text, words, i)
  {
    var range := Seqs.Range(|text|);
    Seqs.FilterIncreasing(range, (i: nat) => Hit(text, words, i));
    Seqs.FilterMembers(range, (i: nat) => Hit(text, words, i));
    forall i: nat | i < |text| && Hit(text, words, i) ensures i in HitPositions(text, words) {
      assert range[i] == i;
    }
  }

  /** There are no hit positions exactly when no query word occurs anywhere in the text. */
  lemma HitPositionsEmpty(text: string, words: seq<string>)
    ensures HitPositions(text, words) == [] <==> forall i :: 0 <= i < |text| ==> !Hit(text, words, i)
  {
    var range := Seqs.Range(|text|);
    var hit := (i: nat) => Hit(text, words, i);
    Seqs.FilterMembers(range, hit);
    if forall i :: 0 <= i < |text| ==> !Hit(text, words, i) {
      assert forall k :: 0 <= k < |range| ==> !hit(range[k]);
      Seqs.FilterNone(range, hit);
    } else {
      var i :| 0 <= i < |text| && Hit(text, words, i);
      assert range[i] == i && hit(range[i]);
    }
  }

  /** One past the largest element (0 for an empty list). */
  function Bound(xs: seq<nat>): (b: nat)
    ensures forall k :: 0 <= k < |xs| ==> xs[k] < b
  {
    if xs == [] then 0 else Max(xs[0] + 1, Bound(xs[1..]))
  }

  /** `sorted(set(xs))` */
  function SortedSet(xs: seq<nat>): (r: seq<nat>)
    ensures Seqs.Increasing(r)
    ensures forall i: nat :: i in r <==> i in xs
  {
    var range := Seqs.Range(Bound(xs));
    Seqs.FilterIncreasing(range, (i: nat) => i in xs);
    Seqs.FilterMembers(range, (i: nat) => i in xs);
    assert forall i: nat :: i in xs ==> i < Bound(xs) && range[i] == i;
    Seqs.Filter(range, (i: nat) => i in xs)
  }

  /** The window of the snippet around position `pos` in a content of length `n`, as
      `(start, end)`: centred on `pos` and shifted left when it would run past the end. */
  function Window(n: nat, pos: int, snippetSize: int): (int, int) {
    var start := Max(0, pos - snippetSize / 2);
    var end := Min(n, start + snippetSize);
    if end - start < snippetSize then (Max(0, end - snippetSize), end) else (start, end)
  }

  /** For a position inside the content and a positive snippet size the window lies in the
      content, contains the position, and is `min(snippet_size, n)` long; it is shifted only
      when it reaches the end of the content. */
  lemma WindowMeaning(n: nat, pos: int, snippetSize: int)
    requires 0 <= pos < n && snippetSize >= 1
    ensures var (start, end) := Window(n, pos, snippetSize);
      && 0 <= start <= pos < end <= n
      && end - start == Min(snippetSize, n)
      && (end < n ==> start == Max(0, pos - snippetSize / 2))
  {
  }

  /** With a non-negative snippet size the slice of a window is at most that long. */
  lemma WindowSliceLength(content: string, pos: int, snippetSize: int)
    ensures var (start, end) := Window(|content|, pos, snippetSize);
      snippetSize >= 0 ==> |PyText.Slice(content, start, end)| <= snippetSize
  {
  }

  /** The snippet around position `pos`: the stripped slice of its window. */
  function SnippetAt(content: string, pos: int, snippetSize: int): (r: string)
    ensures snippetSize >= 0 ==> |r| <= snippetSize
  {
    var w := Window(|content|, pos, snippetSize);
    var slice := PyText.Slice(content, w.0, w.1);
    PyText.StripIsSlice(slice);
    WindowSliceLength(content, pos, snippetSize);
    PyText.Strip(slice)
  }

  /** The snippets the loop over the sorted positions collects, after `acc`: a position before
      `processedEnd` is skipped; otherwise the snippet around it is added and the window's end
      becomes `processedEnd`; the loop stops at two snippets. */
  function Snippets(content: string, positions: seq<nat>, snippetSize: int, processedEnd: int,
                    acc: seq<string>): seq<string>
    decreases |positions|
  {
    if positions == [] then acc
    else if positions[0] < processedEnd then Snippets(content, positions[1..], snippetSize, processedEnd, acc)
    else
      var acc' := acc + [SnippetAt(content, positions[0], snippetSize)];
      if |acc'| >= 2 then acc'
      else Snippets(content, positions[1..], snippetSize, Window(|content|, positions[0], snippetSize).1, acc')
  }

  /** The snippets extend `acc` and there are at most two of them in all. */
  lemma {:induction false} SnippetsExtend(content: string, positions: seq<nat>, snippetSize: int,
                                          processedEnd: int, acc: seq<string>)
    requires |acc| <= 1
    ensures var r := Snippets(content, positions, snippetSize, processedEnd, acc);
      |acc| <= |r| <= 2 && r[..|acc|] == acc
    decreases |positions|
  {
    if positions != [] {
      if positions[0] < processedEnd {
        SnippetsExtend(content, positions[1..], snippetSize, processedEnd, acc);
      } else {
        var acc' := acc + [SnippetAt(content, positions[0], snippetSize)];
        if |acc'| < 2 {
          var end := Window(|content|, positions[0], snippetSize).1;
          SnippetsExtend(content, positions[1..], snippetSize, end, acc');
          var r := Snippets(content, positions[1..], snippetSize, end, acc');
          assert r[..|acc'|] == acc';
          assert r[..|acc|] == acc'[..|acc|];
        }
      }
    }
  }

  /** Every string of `ss` has at most `n` characters. */
  predicate AllAtMost(ss: seq<string>, n: int) {
    forall k :: 0 <= k < |ss| ==> |ss[k]| <= n
  }

  lemma AllAtMostAppend(ss: seq<string>, x: string, n: int)
    requires AllAtMost(ss, n) && |x| <= n
    ensures AllAtMost(ss + [x], n)
  {
    assert forall k :: 0 <= k < |ss| ==> (ss + [x])[k] == ss[k];
  }

  /** Every snippet added is a stripped window no longer than a non-negative snippet size. */
  lemma {:induction false} SnippetsBounded(content: string, positions: seq<nat>, snippetSize: int,
                                           processedEnd: int, acc: seq<string>)
    requires snippetSize >= 0 && AllAtMost(acc, snippetSize)
    ensures AllAtMost(Snippets(content, positions, snippetSize, processedEnd, acc), snippetSize)
    decreases |positions|
  {
    if positions != [] {
      if positions[0] < processedEnd {
        SnippetsBounded(content, positions[1..], snippetSize, processedEnd, acc);
      } else {
        var snippet := SnippetAt(content, positions[0], snippetSize);
        AllAtMostAppend(acc, snippet, snippetSize);
        var acc' := acc + [snippet];
        var end := Window(|content|, positions[0], snippetSize).1;
        SnippetsBounded(content, positions[1..], snippetSize, end, acc');
      }
    }
  }

  /** A position at or after `processedEnd` always yields a snippet. */
  lemma SnippetsProgress(content: string, positions: seq<nat>, snippetSize: int, processedEnd: int,
                         acc: seq<string>)
    requires |acc| <= 1 && positions != [] && positions[0] >= processedEnd
    ensures |Snippets(content, positions, snippetSize, processedEnd, acc)| > |acc|
  {
    var acc' := acc + [SnippetAt(content, positions[0], snippetSize)];
    if |acc'| < 2 {
      SnippetsExtend(content, positions[1..], snippetSize, Window(|content|, positions[0], snippetSize).1, acc');
    }
  }

  /** `create_context_preview`, as a function of the content, the query and the snippet size. */
  function ContextPreview(content: string, query: Option<string>, snippetSize: int): string {
    if query.None? || query.value == [] then Truncate(content, snippetSize)
    else
      var words := PyText.Words(PyText.Lower(query.value));
      var positions := HitPositions(PyText.Lower(content), words);
      if positions == [] then Truncate(content, snippetSize)
      else
        var snippets := Snippets(content, positions, snippetSize, -1, []);
        if snippets == [] then Truncate(content, snippetSize)
        else
          var preview := PyText.Join(snippets, " ... ");
          if |preview| > snippetSize * 2 then Truncate(preview, snippetSize * 2) else preview
  }

  /** Without a query, or when no lower-cased query word occurs in the lower-cased content,
      the preview is the content truncated to the snippet size. */
  lemma PreviewFallback(content: string, query: Option<string>, snippetSize: int)
    requires query.None? || query.value == []
      || forall i :: 0 <= i < |content| ==> !Hit(PyText.Lower(content), PyText.Words(PyText.Lower(query.value)), i)
    ensures ContextPreview(content, query, snippetSize) == Truncate(content, snippetSize)
  {
    if query.Some? && query.value != [] {
      var words := PyText.Words(PyText.Lower(query.value));
      var lower := PyText.Lower(content);
      assert forall i :: 0 <= i < |content| ==> !Hit(PyText.Lower(content), PyText.Words(PyText.Lower(query.value)), i);
      HitPositionsEmpty(lower, words);
    }
  }

  /** With a hit the snippet list is never empty, so the last fallback of the code (its
      `else` branch after the snippet loop) is never taken; the preview is made of at most
      two snippets. */
  lemma PreviewFromSnippets(content: string, query: string, snippetSize: int)
    requires HitPositions(PyText.Lower(content), PyText.Words(PyText.Lower(query))) != []
    ensures var snippets := Snippets(content, HitPositions(PyText.Lower(content), PyText.Words(PyText.Lower(query))),
                                     snippetSize, -1, []);
      && 1 <= |snippets| <= 2
      && (snippetSize >= 0 ==> forall k :: 0 <= k < |snippets| ==> |snippets[k]| <= snippetSize)
  {
    var positions := HitPositions(PyText.Lower(content), PyText.Words(PyText.Lower(query)));
    SnippetsExtend(content, positions, snippetSize, -1, []);
    SnippetsProgress(content, positions, snippetSize, -1, []);
    if snippetSize >= 0 {
      SnippetsBounded(content, positions, snippetSize, -1, []);
    }
  }

  /** The preview is at most `2 * snippet_size + 3` characters (not `2 * snippet_size`): a
      joined preview longer than twice the snippet size is truncated to exactly that plus the
      three dots. */
  lemma PreviewBound(content: string, query: Option<string>, snippetSize: int)
    requires snippetSize >= 0
    ensures |ContextPreview(content, query, snippetSize)| <= 2 * snippetSize + 3
  {
  }

  /** The bound of twice the snippet size is exceeded: content "aa", query "a" and snippet
      size 1 give the two snippets "a" and "a", joined as "a ... a" and cut to "a ...". */
  lemma PreviewExceedsTwiceSnippet()
    ensures ContextPreview("aa", Some("a"), 1) == "a ..."
  {
    ExampleWords();
    var words := PyText.Words(PyText.Lower("a"));
    ExampleHits();
    var positions := HitPositions(PyText.Lower("aa"), words);
    assert positions == [0, 1];
    ExampleSnippets();
    var snippets := Snippets("aa", positions, 1, -1, []);
    assert snippets == ["a", "a"];
    var preview := PyText.Join(snippets, " ... ");
    assert preview == "a ... a" by {
      assert PyText.Join(["a"], " ... ") == "a";
    }
    assert Truncate(preview, 2) == "a ...";
  }

  lemma ExampleWords()
    ensures PyText.Lower("aa") == "aa" && PyText.Words(PyText.Lower("a")) == ["a"]
  {
    assert PyText.Lower("a") == "a";
    assert PyText.Lower("aa") == "aa";
    assert !PyText.IsSpace('a');
    assert PyText.TokenLength("a") == 1;
    assert "a"[..1] == "a" && "a"[1..] == [];
    assert PyText.Words([]) == [];
  }

  lemma ExampleHits()
    ensures HitPositions("aa", ["a"]) == [0, 1]
  {
    var words := ["a"];
    var p := (i: nat) => Hit("aa", words, i);
    assert PyText.OccursAt("aa", words[0], 0) && PyText.OccursAt("aa", words[0], 1);
    assert p(0) && p(1);
    var r: seq<nat> := [0, 1];
    var r1: seq<nat> := [1];
    assert Seqs.Range(2) == r && r[1..] == r1 && r1[1..] == [];
    assert Seqs.Filter(r1, p) == r1;
  }

  lemma ExampleSnippets()
    ensures var positions: seq<nat> := [0, 1]; Snippets("aa", positions, 1, -1, []) == ["a", "a"]
  {
    var positions: seq<nat> := [0, 1];
    ExampleSnippetAt(0, 0, 1);
    ExampleSnippetAt(1, 1, 2);
    assert positions[1..] == [1];
  }

  lemma ExampleSnippetAt(pos: nat, start: int, end: int)
    requires pos < 2 && start == pos && end == pos + 1
    ensures Window(2, pos, 1) == (start, end) && SnippetAt("aa", pos, 1) == "a"
  {
    assert PyText.Slice("aa", start, end) == "a";
    assert !PyText.IsSpace('a');
    assert PyText.LStrip("a") == "a";
    assert PyText.Strip("a") == "a";
  }

  /** `create_context_preview`: the content truncated to the snippet size without a query or
      without a hit; otherwise at most two snippets around the hit positions, joined with
      " ... " and cut to twice the snippet size plus "..." when longer. */
  method CreateContextPreview(content: string, query: Option<string>, snippetSize: int)
    returns (preview: string)
    ensures preview == ContextPreview(content, query, snippetSize)
  {
    if query.None? || query.value == [] {
      return Truncate(content, snippetSize);
    }
    var queryWords := PyText.Words(PyText.Lower(query.value));
    var contentLower := PyText.Lower(content);
    var termPositions := FindTermPositions(contentLower, queryWords);

    ghost var hits := HitPositions(contentLower, queryWords);
    HitPositionsMeaning(contentLower, queryWords);
    assert |hits| > 0 ==> hits[0] in hits;
    if termPositions == [] {
      assert hits == [];
      return Truncate(content, snippetSize);
    }
    var positions := SortedSet(termPositions);
    Seqs.IncreasingUnique(positions, hits);

    var snippets := CollectSnippets(content, positions, snippetSize);
    if snippets != [] {
      preview := PyText.Join(snippets, " ... ");
      if |preview| > snippetSize * 2 {
        preview := Truncate(preview, snippetSize * 2);
      }
      return preview;
    } else {
      return Truncate(content, snippetSize);
    }
  }

  /** The search loop of `create_context_preview`: every position where a query word occurs
      in the lower-cased content, word by word (a position may be found by several words). */
  method FindTermPositions(contentLower: string, queryWords: seq<string>) returns (termPositions: seq<nat>)
    requires forall k :: 0 <= k < |queryWords| ==> |queryWords[k]| > 0
    ensures forall i: nat :: i in termPositions <==> i < |contentLower| && Hit(contentLower, queryWords, i)
  {
    termPositions := [];
    var w := 0;
    while w < |queryWords|
      invariant 0 <= w <= |queryWords|
      invariant forall i: nat :: i in termPositions <==> HitBelow(contentLower, queryWords, w, i)
    {
      var word := queryWords[w];
      var start: nat := 0;
      while true
        invariant start <= |contentLower|
        invariant forall i: nat :: i in termPositions <==>
          HitBelow(contentLower, queryWords, w, i) || (i < start && PyText.OccursAt(contentLower, word, i))
        decreases |contentLower| - start
      {
        var pos := PyText.Find(contentLower, word, start);
        if pos == -1 {
          break;
        }
        termPositions := termPositions + [pos];
        start := pos + 1;
      }
      HitBelowStep(contentLower, queryWords, w, start, termPositions);
      w := w + 1;
    }
    HitBelowInside(contentLower, queryWords);
  }

  /** A hit lies inside the text. */
  lemma HitBelowInside(text: string, words: seq<string>)
    requires forall k :: 0 <= k < |words| ==> |words[k]| > 0
    ensures forall i: nat :: Hit(text, words, i) ==> i < |text|
  {
    forall i: nat | Hit(text, words, i) ensures i < |text| {
      var k :| 0 <= k < |words| && PyText.OccursAt(text, words[k], i);
    }
  }

  /** The steps of the window computation give `Window`. */
  lemma WindowSteps(n: nat, pos: int, snippetSize: int, start0: int, end: int, start: int)
    requires start0 == Max(0, pos - snippetSize / 2) && end == Min(n, start0 + snippetSize)
    requires start == if end - start0 < snippetSize then Max(0, end - snippetSize) else start0
    ensures Window(n, pos, snippetSize) == (start, end)
  {
  }

  /** The snippet loop of `create_context_preview` over the sorted positions. */
  method CollectSnippets(content: string, positions: seq<nat>, snippetSize: int) returns (snippets: seq<string>)
    ensures snippets == Snippets(content, positions, snippetSize, -1, [])
  {
    snippets := [];
    var processedEnd := -1;
    ghost var target := Snippets(content, positions, snippetSize, -1, []);
    var p := 0;
    assert positions[p..] == positions;
    while p < |positions|
      invariant 0 <= p <= |positions|
      invariant |snippets| <= 1
      invariant Snippets(content, positions[p..], snippetSize, processedEnd, snippets) == target
    {
      var pos := positions[p];
      assert positions[p..][1..] == positions[p + 1..];
      if pos < processedEnd {
        p := p + 1;
        continue;
      }
      var start := Max(0, pos - snippetSize / 2);
      var end := Min(|content|, start + snippetSize);
      ghost var start0 := start;
      if end - start < snippetSize {
        start := Max(0, end - snippetSize);
      }
      WindowSteps(|content|, pos, snippetSize, start0, end, start);
      var snippet := PyText.Slice(content, start, end);
      assert PyText.Strip(snippet) == SnippetAt(content, pos, snippetSize);
      snippets := snippets + [PyText.Strip(snippet)];
      processedEnd := end;
      if |snippets| >= 2 {
        return;
      }
      p := p + 1;
    }
  }

  /** After the search loop for word `w` ends, the positions found are the hits of the first
      `w + 1` words. */
  lemma HitBelowStep(text: string, words: seq<string>, w: nat, start: nat, found: seq<nat>)
    requires w < |words|
    requires PyText.Find(text, words[w], start) == -1
    requires forall i: nat :: i in found <==> HitBelow(text, words, w, i) || (i < start && PyText.OccursAt(text, words[w], i))
    ensures forall i: nat :: i in found <==> HitBelow(text, words, w + 1, i)
  {
    forall i: nat ensures i in found <==> HitBelow(text, words, w + 1, i) {
      if HitBelow(text, words, w + 1, i) {
        var k :| 0 <= k < w + 1 && k < |words| && PyText.OccursAt(text, words[k], i);
        if k < w {
          assert HitBelow(text, words, w, i);
        }
      }
      if HitBelow(text, words, w, i) {
        var k :| 0 <= k < w && k < |words| && PyText.OccursAt(text, words[k], i);
        assert HitBelow(text, words, w + 1, i);
      }
    }
  }

  // ---------------------------------------------------------------- relevance labels

  /** `_get_relevance_indicator`: five buckets with lower bounds 0.8, 0.6, 0.4 and 0.2. */
  function RelevanceIndicator(score: real): (r: string)
    ensures r == "Highly Relevant" <==> score >= 0.8
    ensures r == "Relevant" <==> 0.6 <= score < 0.8
    ensures r == "Moderately Relevant" <==> 0.4 <= score < 0.6
    ensures r == "Slightly Relevant" <==> 0.2 <= score < 0.4
    ensures r == "Minimally Relevant" <==> score < 0.2
  {
    if score >= 0.8 then "Highly Relevant"
    else if score >= 0.6 then "Relevant"
    else if score >= 0.4 then "Moderately Relevant"
    else if score >= 0.2 then "Slightly Relevant"
    else "Minimally Relevant"
  }

  /** The rank of a label on the scale, from 0 (minimally) to 4 (highly relevant). */
  function Rank(indicator: string): nat {
    if indicator == "Highly Relevant" then 4
    else if indicator == "Relevant" then 3
    else if indicator == "Moderately Relevant" then 2
    else if indicator == "Slightly Relevant" then 1
    else 0
  }

  /** A higher score never gets a lower label. */
  lemma RelevanceIndicatorMonotone(a: real, b: real)
    requires a <= b
    ensures Rank(RelevanceIndicator(a)) <= Rank(RelevanceIndicator(b))
  {
  }

  /** The dictionary `create_source_preview` returns. */
  datatype SourcePreview = SourcePreview(
    documentId: string,
    relativePath: string,
    score: real,
    preview: string,
    relevanceIndicator: string,
    contentLength: nat)

  /** `create_source_preview`: the full content when it is given and non-empty, else the
      reference's preview, with the reference's fields, its label and the preview's length. */
  function CreateSourcePreview(sourceRef: SourceReference, fullContent: Option<string>): (r: SourcePreview)
    ensures fullContent.Some? && fullContent.value != [] ==> r.preview == fullContent.value
    ensures fullContent.None? || fullContent.value == [] ==> r.preview == sourceRef.contentPreview
    ensures r.contentLength == |r.preview|
    ensures r.relevanceIndicator == RelevanceIndicator(sourceRef.score)
    ensures r.documentId == sourceRef.documentId && r.relativePath == sourceRef.relativePath
    ensures r.score == sourceRef.score
  {
    var previewContent := if fullContent.Some? && fullContent.value != [] then fullContent.value
                          else sourceRef.contentPreview;
    SourcePreview(sourceRef.documentId, sourceRef.relativePath, sourceRef.score, previewContent,
                  RelevanceIndicator(sourceRef.score), if previewContent != [] then |previewContent| else 0)
  }

  // ---------------------------------------------------------------- citation text

  /** `format_citation_text`, with the two-decimal rendering of the score passed in as
      `formatScore`: the relative path in brackets, then the relevance in parentheses. */
  function FormatCitationText(source: SourceReference, formatScore: real -> string): (r: string)
    ensures PyText.StartsWith(r, "[" + source.relativePath + "] (Relevance: ")
    ensures PyText.EndsWith(r, formatScore(source.score) + ")")
    ensures |r| == |"[" + source.relativePath + "] (Relevance: "| + |formatScore(source.score)| + 1
  {
    var head := "[" + source.relativePath + "] (Relevance: ";
    var r := head + formatScore(source.score) + ")";
    assert r[..|head|] == head;
    assert r[|r| - |formatScore(source.score) + ")"|..] == formatScore(source.score) + ")";
    r
  }

  /** `format_multiple_citations`: one citation text per source, in order. */
  function FormatMultipleCitations(sources: seq<SourceReference>, formatScore: real -> string): (r: seq<string>)
    ensures |r| == |sources|
    ensures forall k :: 0 <= k < |sources| ==> r[k] == FormatCitationText(sources[k], formatScore)
  {
    seq(|sources|, k requires 0 <= k < |sources| => FormatCitationText(sources[k], formatScore))
  }

  // ---------------------------------------------------------------- validation and selection

  /** A reference passes `validate_source_references` when its score lies in [0, 1] and its
      document id and relative path are non-empty. */
  predicate Acceptable(source: SourceReference) {
    InRange(source.score) && source.documentId != [] && source.relativePath != []
  }

  /** `validate_source_references`: false for no references, otherwise whether every
      reference is acceptable. */
  method ValidateSourceReferences(sources: seq<SourceReference>) returns (ok: bool)
    ensures ok <==> sources != [] && forall k :: 0 <= k < |sources| ==> Acceptable(sources[k])
  {
    if sources == [] {
      return false;
    }
    var i := 0;
    while i < |sources|
      invariant 0 <= i <= |sources|
      invariant forall k :: 0 <= k < i ==> Acceptable(sources[k])
    {
      var source := sources[i];
      if !(0.0 <= source.score <= 1.0) {
        return false;
      }
      if source.documentId == [] {
        return false;
      }
      if source.relativePath == [] {
        return false;
      }
      i := i + 1;
    }
    return true;
  }

  /** The sources reaching `minScore`. */
  function AtLeast(minScore: real): SourceReference -> bool {
    (source: SourceReference) => source.score >= minScore
  }

  /** `filter_by_relevance_threshold`: the sources whose score reaches `min_score`, in order. */
  method FilterByRelevanceThreshold(sources: seq<SourceReference>, minScore: real)
    returns (filteredSources: seq<SourceReference>)
    ensures filteredSources == Seqs.Filter(sources, AtLeast(minScore))
  {
    filteredSources := [];
    var i := 0;
    while i < |sources|
      invariant 0 <= i <= |sources|
      invariant filteredSources == Seqs.Filter(sources[..i], AtLeast(minScore))
    {
      var source := sources[i];
      assert sources[..i + 1] == sources[..i] + [source];
      Seqs.FilterAppend(sources[..i], source, AtLeast(minScore));
      if source.score >= minScore {
        filteredSources := filteredSources + [source];
      }
      i := i + 1;
    }
    assert sources[..i] == sources;
  }

  /** The threshold filter keeps exactly the sources reaching `min_score`, in their order:
      filtering again changes nothing, and its two sides split the input. */
  lemma FilterByRelevanceThresholdMeaning(sources: seq<SourceReference>, minScore: real)
    ensures var r := Seqs.Filter(sources, AtLeast(minScore));
      && (forall x :: x in r <==> x in sources && x.score >= minScore)
      && Seqs.Filter(r, AtLeast(minScore)) == r
      && |r| <= |sources|
  {
    var r := Seqs.Filter(sources, AtLeast(minScore));
    Seqs.FilterMembers(sources, AtLeast(minScore));
    forall x | x in sources && x.score >= minScore ensures x in r {
      var k :| 0 <= k < |sources| && sources[k] == x;
    }
    forall k | 0 <= k < |r| ensures AtLeast(minScore)(r[k]) {
      assert r[k] in r;
    }
    Seqs.FilterAll(r, AtLeast(minScore));
  }

  /** A reference's score, as a sort key. */
  function ScoreOf(): SourceReference -> real {
    (source: SourceReference) => source.score
  }

  /** `sort_sources_by_relevance`: Python's stable sort by descending score. */
  function SortSourcesByRelevance(sources: seq<SourceReference>): (r: seq<SourceReference>)
    ensures |r| == |sources| && multiset(r) == multiset(sources)
  {
    Seqs.SortDesc(sources, ScoreOf())
  }

  /** The sort is a permutation in descending score order that keeps the input order among
      equal scores, and sorting again changes nothing. */
  lemma SortSourcesMeaning(sources: seq<SourceReference>)
    ensures var r := SortSourcesByRelevance(sources);
      && multiset(r) == multiset(sources)
      && (forall a, b :: 0 <= a < b < |r| ==> r[a].score >= r[b].score)
      && (forall c :: Seqs.Filter(r, Seqs.KeyIs(ScoreOf(), c)) == Seqs.Filter(sources, Seqs.KeyIs(ScoreOf(), c)))
      && SortSourcesByRelevance(r) == r
  {
    var r := SortSourcesByRelevance(sources);
    Seqs.SortDescSorted(sources, ScoreOf());
    forall a, b | 0 <= a < b < |r| ensures r[a].score >= r[b].score {
      assert ScoreOf()(r[a]) >= ScoreOf()(r[b]);
    }
    forall c ensures Seqs.Filter(r, Seqs.KeyIs(ScoreOf(), c)) == Seqs.Filter(sources, Seqs.KeyIs(ScoreOf(), c)) {
      Seqs.SortDescStable(sources, ScoreOf(), c);
    }
    Seqs.SortDescOfSorted(r, ScoreOf());
  }

  /** `get_top_k_sources`: `sorted_sources[:k]` (a negative `k` counts from the end). */
  function GetTopKSources(sources: seq<SourceReference>, k: int): seq<SourceReference> {
    PyText.Prefix(SortSourcesByRelevance(sources), k)
  }

  /** For `k >= 0` the top-k are the first `min(k, n)` of the sorted sources: no source left
      out scores higher than one returned, and together with those left out they are the
      input. */
  lemma GetTopKSourcesMeaning(sources: seq<SourceReference>, k: int)
    requires k >= 0
    ensures var r := GetTopKSources(sources, k);
      var rest := SortSourcesByRelevance(sources)[|r|..];
      && |r| == Min(k, |sources|)
      && r == SortSourcesByRelevance(sources)[..|r|]
      && (forall x, y :: x in r && y in rest ==> y.score <= x.score)
      && multiset(r) + multiset(rest) == multiset(sources)
  {
    var sorted := SortSourcesByRelevance(sources);
    var n := Min(k, |sources|);
    assert GetTopKSources(sources, k) == sorted[..n];
    Seqs.SortDescSplit(sources, ScoreOf(), n);
    forall x, y | x in sorted[..n] && y in sorted[n..] ensures y.score <= x.score {
      assert ScoreOf()(y) <= ScoreOf()(x);
    }
  }
}
