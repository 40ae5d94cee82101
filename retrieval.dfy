/** Ranking, rescoring and filtering of retrieved documents (the `RetrievalService`).
    Cosine similarity is not computed here: `find_similar_documents` receives one similarity
    per corpus document, and the other operations receive the similarity as a function. */
module Retrieval {
  import opened Wrappers
  import opened Records
  import Seqs
  import PyText

  // ---------------------------------------------------------------- selecting the top k

  /** The similarity at index `i` (0.0 past the end, where it is never read). */
  function SimAt(sims: seq<real>, i: nat): real {
    if i < |sims| then sims[i] else 0.0
  }

  /** Indices ordered by their similarity. */
  function SimKey(sims: seq<real>): nat -> real {
    (i: nat) => SimAt(sims, i)
  }

  /** Index `i` reaches the threshold. */
  function Qualifies(sims: seq<real>, minScore: real): nat -> bool {
    (i: nat) => i < |sims| && sims[i] >= minScore
  }

  /** `np.where(similarities >= min_score)[0]`: the indices reaching the threshold, ascending. */
  function ValidIndices(sims: seq<real>, minScore: real): seq<nat> {
    Seqs.Filter(Seqs.Range(|sims|), Qualifies(sims, minScore))
  }

  /** The valid indices are exactly the qualifying ones, each once. */
  lemma ValidIndicesMembers(sims: seq<real>, minScore: real)
    ensures forall i :: i in ValidIndices(sims, minScore) <==> 0 <= i < |sims| && sims[i] >= minScore
    ensures Seqs.Distinct(ValidIndices(sims, minScore))
  {
    var range := Seqs.Range(|sims|);
    Seqs.FilterMembers(range, Qualifies(sims, minScore));
    forall i | 0 <= i < |sims| && sims[i] >= minScore ensures i in ValidIndices(sims, minScore) {
      assert range[i] == i;
    }
    Seqs.FilterDistinct(range, Qualifies(sims, minScore));
  }

  /** The first `k` elements of `s` (all of them when `s` is shorter). */
  function Take<T>(s: seq<T>, k: nat): (r: seq<T>)
    ensures |r| == if k < |s| then k else |s|
  {
    if k < |s| then s[..k] else s
  }

  /** The indices `find_similar_documents` returns, in order: the valid indices sorted by
      descending similarity, cut to `top_k`. This is the intended selection; the code as
      written orders the partitioned branch differently (see `TopIndicesAsWritten`). */
  function TopIndices(sims: seq<real>, topK: nat, minScore: real): seq<nat> {
    Take(Seqs.SortDesc(ValidIndices(sims, minScore), SimKey(sims)), topK)
  }

  /** Every element of a sorted list comes from the input. */
  lemma SortDescMembers<T>(s: seq<T>, key: T -> real)
    ensures forall x :: x in Seqs.SortDesc(s, key) <==> x in s
  {
    var r := Seqs.SortDesc(s, key);
    forall x ensures x in r <==> x in s {
      assert x in r <==> x in multiset(r);
      assert x in s <==> x in multiset(s);
    }
  }

  /** Nothing is returned exactly when no document reaches the threshold (for `top_k >= 1`). */
  lemma TopIndicesEmpty(sims: seq<real>, topK: nat, minScore: real)
    requires topK >= 1
    ensures TopIndices(sims, topK, minScore) == [] <==> forall i :: 0 <= i < |sims| ==> sims[i] < minScore
  {
    ValidIndicesMembers(sims, minScore);
    var valid := ValidIndices(sims, minScore);
    if valid != [] {
      assert valid[0] in valid;
    } else {
      forall i | 0 <= i < |sims| ensures sims[i] < minScore {
        assert i !in valid;
      }
    }
  }

  /** At most `top_k` indices, each once, each of a document reaching the threshold, in
      descending order of similarity; `min(top_k, #qualifying)` of them. */
  lemma TopIndicesShape(sims: seq<real>, topK: nat, minScore: real)
    ensures var r := TopIndices(sims, topK, minScore);
      && |r| <= topK
      && |r| == (if topK < |ValidIndices(sims, minScore)| then topK else |ValidIndices(sims, minScore)|)
      && Seqs.Distinct(r)
      && (forall k :: 0 <= k < |r| ==> r[k] < |sims| && sims[r[k]] >= minScore)
      && (forall a, b :: 0 <= a < b < |r| ==> sims[r[a]] >= sims[r[b]])
  {
    var valid := ValidIndices(sims, minScore);
    var sorted := Seqs.SortDesc(valid, SimKey(sims));
    var r := TopIndices(sims, topK, minScore);
    ValidIndicesMembers(sims, minScore);
    SortDescMembers(valid, SimKey(sims));
    Seqs.PermutationDistinct(valid, sorted);
    Seqs.SortDescSorted(valid, SimKey(sims));
    forall k | 0 <= k < |r| ensures r[k] < |sims| && sims[r[k]] >= minScore {
      assert r[k] == sorted[k];
      assert sorted[k] in sorted;
    }
    forall a, b | 0 <= a < b < |r| ensures sims[r[a]] >= sims[r[b]] {
      assert r[a] == sorted[a] && r[b] == sorted[b];
      assert SimKey(sims)(sorted[a]) >= SimKey(sims)(sorted[b]);
    }
  }

  /** The returned indices are the highest-scoring qualifying ones: a qualifying index left
      out scores no higher than any index returned. */
  lemma TopIndicesAreTop(sims: seq<real>, topK: nat, minScore: real)
    ensures var r := TopIndices(sims, topK, minScore);
      forall a, j :: 0 <= a < |r| && 0 <= j < |sims| && sims[j] >= minScore && j !in r ==>
        r[a] < |sims| && sims[j] <= sims[r[a]]
  {
    var valid := ValidIndices(sims, minScore);
    var sorted := Seqs.SortDesc(valid, SimKey(sims));
    var r := TopIndices(sims, topK, minScore);
    var k := |r|;
    TopIndicesShape(sims, topK, minScore);
    TopIndicesPrefix(sims, topK, minScore);
    forall a, j | 0 <= a < |r| && 0 <= j < |sims| && sims[j] >= minScore && j !in r
      ensures sims[j] <= sims[r[a]]
    {
      TopIndexBeatsRest(sims, topK, minScore, a, j);
    }
  }

  /** The result is the first `|r|` indices of the sorted qualifying ones. */
  lemma TopIndicesPrefix(sims: seq<real>, topK: nat, minScore: real)
    ensures var r := TopIndices(sims, topK, minScore);
      var sorted := Seqs.SortDesc(ValidIndices(sims, minScore), SimKey(sims));
      |r| <= |sorted| && r == sorted[..|r|]
  {
  }

  /** One returned index against one qualifying index left out. */
  lemma TopIndexBeatsRest(sims: seq<real>, topK: nat, minScore: real, a: nat, j: nat)
    requires var r := TopIndices(sims, topK, minScore);
      a < |r| && r[a] < |sims| && j < |sims| && sims[j] >= minScore && j !in r
    ensures sims[j] <= sims[TopIndices(sims, topK, minScore)[a]]
  {
    var valid := ValidIndices(sims, minScore);
    var r := TopIndices(sims, topK, minScore);
    TopIndicesPrefix(sims, topK, minScore);
    ValidIndicesMembers(sims, minScore);
    assert j in valid;
    assert r[a] in r;
    Seqs.SortDescLeftOut(valid, SimKey(sims), |r|, j, r[a]);
  }

  /** When at most `top_k` documents qualify, all of them are returned. */
  lemma TopIndicesAll(sims: seq<real>, topK: nat, minScore: real)
    requires |ValidIndices(sims, minScore)| <= topK
    ensures multiset(TopIndices(sims, topK, minScore)) == multiset(ValidIndices(sims, minScore))
  {
    var valid := ValidIndices(sims, minScore);
    var sorted := Seqs.SortDesc(valid, SimKey(sims));
    TopIndicesShape(sims, topK, minScore);
    TopIndicesPrefix(sims, topK, minScore);
    Seqs.SortDescSplit(valid, SimKey(sims), |valid|);
    assert sorted[..|valid|] == sorted;
  }

  /** `similarities[valid_indices]`: the similarities of the valid documents, by position. */
  function Gathered(sims: seq<real>, valid: seq<nat>): (sub: seq<real>)
    requires forall k :: 0 <= k < |valid| ==> valid[k] < |sims|
    ensures |sub| == |valid|
  {
    seq(|valid|, p requires 0 <= p < |valid| => sims[valid[p]])
  }

  /** `valid_indices[positions]` */
  function Pick(valid: seq<nat>, positions: seq<nat>): (r: seq<nat>)
    requires forall k :: 0 <= k < |positions| ==> positions[k] < |valid|
    ensures |r| == |positions|
  {
    seq(|positions|, k requires 0 <= k < |positions| => valid[positions[k]])
  }

  /** The positions that `np.argpartition(similarities[valid_indices], -top_k)[-top_k:]`
      selects: `top_k` positions of largest gathered similarity (numpy leaves the choice
      among ties open; the model takes the earliest). */
  function PartitionTop(sub: seq<real>, topK: nat): (part: seq<nat>)
    ensures forall k :: 0 <= k < |part| ==> part[k] < |sub|
  {
    var sorted := Seqs.SortDesc(Seqs.Range(|sub|), SimKey(sub));
    SortDescMembers(Seqs.Range(|sub|), SimKey(sub));
    assert forall k :: 0 <= k < |sorted| ==> sorted[k] in Seqs.Range(|sub|);
    Take(sorted, topK)
  }

  /** The order the code at line 102 gives the partitioned branch: the selected POSITIONS
      are sorted by `similarities[position]`, the similarity of the document whose corpus
      index equals the position, rather than by the similarity of `valid_indices[position]`. */
  function TopIndicesAsWritten(sims: seq<real>, topK: nat, minScore: real): seq<nat> {
    var valid := ValidIndices(sims, minScore);
    ValidIndicesMembers(sims, minScore);
    assert forall k :: 0 <= k < |valid| ==> valid[k] in valid;
    if |valid| <= topK then Seqs.SortDesc(valid, SimKey(sims))
    else
      var part := PartitionTop(Gathered(sims, valid), topK);
      var ordered := Seqs.SortDesc(part, SimKey(sims));
      SortDescMembers(part, SimKey(sims));
      assert forall k :: 0 <= k < |ordered| ==> ordered[k] in part;
      Pick(valid, ordered)
  }

  /** The similarities of the example that shows the discrepancy. */
  function ExampleSims(): seq<real> {
    [0.0, 0.5, 0.9, 0.8]
  }

  /** The input that shows the discrepancy: with similarities [0.0, 0.5, 0.9, 0.8],
      `min_score` 0.1 and `top_k` 2, the code returns documents 3 then 2, so the scores come
      out as 0.8 then 0.9; the intended order is documents 2 then 3. */
  lemma AsWrittenOutOfOrder()
    ensures TopIndicesAsWritten(ExampleSims(), 2, 0.1) == [3, 2]
    ensures TopIndices(ExampleSims(), 2, 0.1) == [2, 3]
  {
    ExampleAsWritten();
    ExampleIntendedTop();
  }

  lemma ExampleIntendedTop()
    ensures TopIndices(ExampleSims(), 2, 0.1) == [2, 3]
  {
    var sims := ExampleSims();
    ExampleValid();
    ExampleIntended();
    var sorted: seq<nat> := [2, 3, 1];
    assert Seqs.SortDesc(ValidIndices(sims, 0.1), SimKey(sims)) == sorted;
    ExampleTake(sorted);
  }

  lemma ExampleTake(sorted: seq<nat>)
    requires sorted == [2, 3, 1]
    ensures Take(sorted, 2) == [2, 3]
  {
  }

  lemma ExampleAsWritten()
    ensures TopIndicesAsWritten(ExampleSims(), 2, 0.1) == [3, 2]
  {
    var valid: seq<nat> := [1, 2, 3];
    ExampleValid();
    ExampleGathered();
    ExamplePartition();
    ExampleReordered();
    var ordered: seq<nat> := [2, 1];
    assert Pick(valid, ordered) == [3, 2];
  }

  lemma ExampleValid()
    ensures ValidIndices(ExampleSims(), 0.1) == [1, 2, 3]
  {
    var q := Qualifies(ExampleSims(), 0.1);
    var i3: seq<nat> := [3];
    var i23: seq<nat> := [2, 3];
    var i123: seq<nat> := [1, 2, 3];
    assert Seqs.Range(4) == [0] + i123 && i123[1..] == i23 && i23[1..] == i3;
    assert Seqs.Filter(i3, q) == i3;
    assert Seqs.Filter(i23, q) == i23;
    assert Seqs.Filter(i123, q) == i123;
  }

  lemma ExampleIntended()
    ensures var valid: seq<nat> := [1, 2, 3];
      Seqs.SortDesc(valid, SimKey(ExampleSims())) == [2, 3, 1]
  {
    ExampleKeys();
    Seqs.SortDescThreeLast<nat>(1, 2, 3, SimKey(ExampleSims()));
  }

  lemma ExampleKeys()
    ensures var key := SimKey(ExampleSims()); key(1) == 0.5 && key(2) == 0.9 && key(3) == 0.8
  {
  }


  lemma ExampleGathered()
    ensures var valid: seq<nat> := [1, 2, 3];
      Gathered(ExampleSims(), valid) == [0.5, 0.9, 0.8]
  {
  }

  lemma ExamplePartition()
    ensures PartitionTop([0.5, 0.9, 0.8], 2) == [1, 2]
  {
    var sub := [0.5, 0.9, 0.8];
    var p012: seq<nat> := [0, 1, 2];
    ExampleRange(Seqs.Range(|sub|));
    ExampleSubSorted();
    var sorted: seq<nat> := [1, 2, 0];
    assert Seqs.SortDesc(Seqs.Range(|sub|), SimKey(sub)) == sorted;
    ExampleTakeSub(sorted);
  }

  lemma ExampleRange(r: seq<nat>)
    requires r == Seqs.Range(3)
    ensures r == [0, 1, 2]
  {
  }

  lemma ExampleTakeSub(sorted: seq<nat>)
    requires sorted == [1, 2, 0]
    ensures Take(sorted, 2) == [1, 2]
  {
  }

  lemma ExampleSubSorted()
    ensures var p012: seq<nat> := [0, 1, 2];
      Seqs.SortDesc(p012, SimKey([0.5, 0.9, 0.8])) == [1, 2, 0]
  {
    var key := SimKey([0.5, 0.9, 0.8]);
    assert key(0) == 0.5 && key(1) == 0.9 && key(2) == 0.8;
    Seqs.SortDescThreeLast<nat>(0, 1, 2, key);
  }



  lemma ExampleReordered()
    ensures var part: seq<nat> := [1, 2];
      Seqs.SortDesc(part, SimKey(ExampleSims())) == [2, 1]
  {
    ExampleKeys();
    Seqs.SortDescTwo<nat>(1, 2, SimKey(ExampleSims()));
  }


  /** When the threshold drops no document, the valid positions are the corpus indices and
      the code's order is the intended one. */
  lemma AsWrittenAgreesWhenNothingDropped(sims: seq<real>, topK: nat, minScore: real)
    requires forall i :: 0 <= i < |sims| ==> sims[i] >= minScore
    ensures TopIndicesAsWritten(sims, topK, minScore) == TopIndices(sims, topK, minScore)
  {
    var range := Seqs.Range(|sims|);
    Seqs.FilterAll(range, Qualifies(sims, minScore));
    var valid := ValidIndices(sims, minScore);
    assert valid == range;
    assert forall k :: 0 <= k < |valid| ==> valid[k] < |sims|;
    if |valid| > topK {
      var sub := Gathered(sims, valid);
      assert sub == sims;
      var sorted := Seqs.SortDesc(range, SimKey(sims));
      var part := PartitionTop(sub, topK);
      assert part == sorted[..topK];
      Seqs.SortDescSorted(range, SimKey(sims));
      assert Seqs.SortedDesc(part, SimKey(sims));
      Seqs.SortDescOfSorted(part, SimKey(sims));
      assert Pick(valid, part) == part;
    }
  }

  /** Even as written, the partitioned branch returns the right SET: `top_k` distinct
      qualifying indices, and a qualifying index left out scores no higher than any returned. */
  lemma AsWrittenIsTopSet(sims: seq<real>, topK: nat, minScore: real)
    requires topK < |ValidIndices(sims, minScore)|
    ensures var r := TopIndicesAsWritten(sims, topK, minScore);
      && |r| == topK
      && (forall i :: i in r ==> i < |sims| && sims[i] >= minScore)
      && (forall i, j :: i in r && 0 <= j < |sims| && sims[j] >= minScore && j !in r ==> sims[j] <= sims[i])
  {
    var valid := ValidIndices(sims, minScore);
    ValidIndicesMembers(sims, minScore);
    assert forall k :: 0 <= k < |valid| ==> valid[k] in valid;
    var part: seq<nat> := PartitionTop(Gathered(sims, valid), topK);
    GatheredTop(sims, valid, topK);
    var ordered: seq<nat> := Seqs.SortDesc(part, SimKey(sims));
    SortDescMembers(part, SimKey(sims));
    PickIsTopSet(sims, minScore, valid, part, ordered);
    assert TopIndicesAsWritten(sims, topK, minScore) == Pick(valid, ordered);
  }

  /** Picking the valid indices at positions that are a permutation of top-scoring positions
      picks top-scoring indices. */
  lemma PickIsTopSet(sims: seq<real>, minScore: real, valid: seq<nat>, part: seq<nat>, ordered: seq<nat>)
    requires forall i :: i in valid <==> 0 <= i < |sims| && sims[i] >= minScore
    requires forall k :: 0 <= k < |part| ==> part[k] < |valid|
    requires forall p, q :: p in part && p < |valid| && 0 <= q < |valid| && q !in part ==>
      SimAt(sims, valid[q]) <= SimAt(sims, valid[p])
    requires multiset(ordered) == multiset(part)
    ensures forall k :: 0 <= k < |ordered| ==> ordered[k] < |valid|
    ensures var r := Pick(valid, ordered);
      && |r| == |part|
      && (forall i :: i in r ==> i < |sims| && sims[i] >= minScore)
      && (forall i, j :: i in r && 0 <= j < |sims| && sims[j] >= minScore && j !in r ==> sims[j] <= sims[i])
  {
    forall k | 0 <= k < |ordered| ensures ordered[k] in part && ordered[k] < |valid| {
      assert ordered[k] in multiset(ordered);
    }
    assert |ordered| == |multiset(ordered)| == |part|;
    var r := Pick(valid, ordered);
    forall i | i in r ensures i < |sims| && sims[i] >= minScore {
      var k :| 0 <= k < |r| && r[k] == i;
      assert valid[ordered[k]] in valid;
    }
    forall q | q in part ensures valid[q] in r {
      assert q in multiset(ordered);
      var n :| 0 <= n < |ordered| && ordered[n] == q;
      assert r[n] == valid[q];
    }
    forall i, j | i in r && 0 <= j < |sims| && sims[j] >= minScore && j !in r
      ensures sims[j] <= sims[i]
    {
      var k :| 0 <= k < |r| && r[k] == i;
      var p := ordered[k];
      assert j in valid;
      var q :| 0 <= q < |valid| && valid[q] == j;
      assert q !in part;
      assert p in part;
    }
  }

  /** The partitioned positions pick documents of largest similarity among the valid ones. */
  lemma GatheredTop(sims: seq<real>, valid: seq<nat>, topK: nat)
    requires (forall k :: 0 <= k < |valid| ==> valid[k] < |sims|) && topK <= |valid|
    ensures var part := PartitionTop(Gathered(sims, valid), topK);
      && |part| == topK
      && (forall k :: 0 <= k < |part| ==> part[k] < |valid|)
      && (forall p, q :: p in part && p < |valid| && 0 <= q < |valid| && q !in part ==>
            SimAt(sims, valid[q]) <= SimAt(sims, valid[p]))
  {
    var sub := Gathered(sims, valid);
    var part: seq<nat> := PartitionTop(sub, topK);
    PartitionTopIsTop(sub, topK);
    forall p, q | p in part && p < |valid| && 0 <= q < |valid| && q !in part
      ensures SimAt(sims, valid[q]) <= SimAt(sims, valid[p])
    {
      assert sub[q] <= sub[p];
    }
  }

  lemma PartitionTopIsTop(sub: seq<real>, topK: nat)
    requires topK <= |sub|
    ensures var part := PartitionTop(sub, topK);
      && |part| == topK
      && (forall p, q :: p in part && 0 <= q < |sub| && q !in part ==> sub[q] <= sub[p])
  {
    var range := Seqs.Range(|sub|);
    var sorted := Seqs.SortDesc(range, SimKey(sub));
    var part := PartitionTop(sub, topK);
    assert part == sorted[..topK];
    Seqs.SortDescSplit(range, SimKey(sub), topK);
    forall p, q | p in part && 0 <= q < |sub| && q !in part ensures sub[q] <= sub[p] {
      assert range[q] == q;
      assert q in multiset(sorted[..topK]) + multiset(sorted[topK..]);
      assert q in sorted[topK..];
      assert SimKey(sub)(q) <= SimKey(sub)(p);
      assert p in sorted;
      SortDescMembers(range, SimKey(sub));
    }
  }

  // ---------------------------------------------------------------- rescoring

  /** `max(0.0, min(1.0, x))` */
  function Clamp(x: real): (r: real)
    ensures 0.0 <= r <= 1.0
    ensures 0.0 <= x <= 1.0 ==> r == x
    ensures x < 0.0 ==> r == 0.0
    ensures x > 1.0 ==> r == 1.0
  {
    if x < 0.0 then 0.0 else if x > 1.0 then 1.0 else x
  }

  /** `calculate_relevance_score`, given the cosine similarity `base`: with a numeric
      `quality_score` in the metadata the score is `0.7 * base + 0.3 * quality`, otherwise the
      base score, clamped to [0, 1] either way. A `quality_score` that is not a number makes
      the multiplication raise TypeError. (An empty or missing metadata dictionary has no
      `quality_score`; the recency test at lines 223-225 does nothing.) */
  function RelevanceScore(base: real, metadata: Metadata): (r: Result<real>)
    ensures r.Err? <==> "quality_score" in metadata && AsNumber(metadata["quality_score"]).None?
    ensures r.Ok? ==> 0.0 <= r.value <= 1.0
    ensures "quality_score" !in metadata ==> r == Ok(Clamp(base))
    ensures "quality_score" in metadata && AsNumber(metadata["quality_score"]).Some? ==>
      r == Ok(Clamp(0.7 * base + 0.3 * AsNumber(metadata["quality_score"]).value))
  {
    if metadata != map[] && "quality_score" in metadata then
      match AsNumber(metadata["quality_score"])
      case None => Err("TypeError: quality_score is not a number")
      case Some(q) => Ok(Clamp(base * 0.7 + q * 0.3))
    else Ok(Clamp(base))
  }

  /** The documents `rerank_documents` rescored: `documents[:rerank_top_k]` when
      `rerank_top_k` is truthy (given and non-zero), otherwise all of them. */
  function RerankPrefix(documents: seq<Doc>, rerankTopK: Option<int>): seq<Doc> {
    if rerankTopK.Some? && rerankTopK.value != 0 then PyText.Prefix(documents, rerankTopK.value)
    else documents
  }

  /** The documents `rerank_documents` appends unchanged after the rescored ones. */
  function RerankRest(documents: seq<Doc>, rerankTopK: Option<int>): seq<Doc> {
    if rerankTopK.Some? && rerankTopK.value != 0 && |documents| > rerankTopK.value
    then PyText.Suffix(documents, rerankTopK.value)
    else []
  }

  /** The cut of `rerank_documents` loses no document: prefix and rest make up the input. */
  lemma RerankSplit(documents: seq<Doc>, rerankTopK: Option<int>)
    ensures RerankPrefix(documents, rerankTopK) + RerankRest(documents, rerankTopK) == documents
  {
    if rerankTopK.Some? && rerankTopK.value != 0 {
      var k := rerankTopK.value;
      var n := |documents|;
      if k > 0 && n <= k {
        assert PyText.Prefix(documents, k) == documents;
      } else {
        var c := if k >= 0 then k else if k + n < 0 then 0 else k + n;
        assert PyText.Prefix(documents, k) == documents[..c];
        assert PyText.Suffix(documents, k) == documents[c..];
        assert documents[..c] + documents[c..] == documents;
      }
    }
  }

  /** A document's score, as the sort key of `rerank_documents`. */
  function ScoreKey(): Doc -> real {
    (d: Doc) => ScoreOrZero(d)
  }

  /** Each document of `docs` with its score replaced by its relevance score; fails when a
      relevance score does. */
  function Rescored(base: Doc -> real, docs: seq<Doc>): (r: Result<seq<Doc>>)
    ensures r.Ok? ==> |r.value| == |docs|
    ensures r.Ok? ==> forall k :: 0 <= k < |docs| ==>
      RelevanceScore(base(docs[k]), docs[k].metadata).Ok? &&
      r.value[k] == docs[k].(score := Some(RelevanceScore(base(docs[k]), docs[k].metadata).value))
    ensures r.Err? <==> exists k :: 0 <= k < |docs| && RelevanceScore(base(docs[k]), docs[k].metadata).Err?
  {
    if docs == [] then Ok([])
    else
      match RelevanceScore(base(docs[0]), docs[0].metadata)
      case Err(e) => Err(e)
      case Ok(s) =>
        match Rescored(base, docs[1..])
        case Err(e) => assert exists k :: 0 <= k < |docs| && RelevanceScore(base(docs[k]), docs[k].metadata).Err? by {
            var k :| 0 <= k < |docs[1..]| && RelevanceScore(base(docs[1..][k]), docs[1..][k].metadata).Err?;
            assert docs[1..][k] == docs[k + 1];
          }
          Err(e)
        case Ok(rest) =>
          assert forall k :: 1 <= k < |docs| ==> docs[k] == docs[1..][k - 1];
          Ok([docs[0].(score := Some(s))] + rest)
  }

  // ---------------------------------------------------------------- statistics

  /** `sum(s)` */
  function Sum(s: seq<real>): real {
    if s == [] then 0.0 else s[0] + Sum(s[1..])
  }

  function Neg(x: real): real { -x }

  /** `sorted(s)` (ascending): descending order of the negated values. */
  function SortAsc(s: seq<real>): (r: seq<real>)
    ensures |r| == |s| && multiset(r) == multiset(s)
  {
    Seqs.SortDesc(s, Neg)
  }

  lemma SortAscSorted(s: seq<real>)
    ensures forall i, j :: 0 <= i < j < |SortAsc(s)| ==> SortAsc(s)[i] <= SortAsc(s)[j]
  {
    Seqs.SortDescSorted(s, Neg);
    var r := SortAsc(s);
    forall i, j | 0 <= i < j < |r| ensures r[i] <= r[j] {
      assert Neg(r[i]) >= Neg(r[j]);
    }
  }

  /** The statistics `get_relevance_statistics` reports (the standard deviation is not part
      of this model). */
  datatype Stats = Stats(mean: real, median: real, minScore: real, maxScore: real, scoreRange: real)

  /** The scores of the documents, a missing score read as 0.0. */
  function Scores(documents: seq<Doc>): (r: seq<real>)
    ensures |r| == |documents|
    ensures forall k :: 0 <= k < |r| ==> r[k] == ScoreOrZero(documents[k])
  {
    seq(|documents|, k requires 0 <= k < |documents| => ScoreOrZero(documents[k]))
  }

  /** `get_relevance_statistics`: all zeros for no documents; otherwise the mean, the median
      of the sorted scores (the mean of the two middle ones for an even count), the least and
      greatest score and their difference. */
  function RelevanceStatistics(documents: seq<Doc>): Stats {
    if documents == [] then Stats(0.0, 0.0, 0.0, 0.0, 0.0)
    else
      var s := SortAsc(Scores(documents));
      Stats(Sum(s) / |s| as real, Median(s), s[0], s[|s| - 1], s[|s| - 1] - s[0])
  }

  /** The middle element of a sorted list, or the mean of the two middle ones for an even
      length. */
  function Median(s: seq<real>): real
    requires s != []
  {
    var n := |s|;
    if n % 2 == 0 then (s[n / 2 - 1] + s[n / 2]) / 2.0 else s[n / 2]
  }

  /** The median of an ascending list lies between its ends. */
  lemma MedianBounds(s: seq<real>)
    requires s != []
    requires forall k :: 0 <= k < |s| ==> s[0] <= s[k] <= s[|s| - 1]
    ensures s[0] <= Median(s) <= s[|s| - 1]
  {
    var n := |s|;
    if n % 2 == 0 {
      assert s[0] <= s[n / 2 - 1] && s[n / 2] <= s[n - 1];
    } else {
      assert s[0] <= s[n / 2] <= s[n - 1];
    }
  }

  /** The sum lies between `n` times the least and `n` times the greatest element. */
  lemma {:induction false} SumBounds(s: seq<real>, lo: real, hi: real)
    requires forall k :: 0 <= k < |s| ==> lo <= s[k] <= hi
    ensures |s| as real * lo <= Sum(s) <= |s| as real * hi
  {
    if s != [] {
      SumBounds(s[1..], lo, hi);
    }
  }

  /** Statistics of a non-empty list: the median and the mean lie between the least and the
      greatest score, and the range is their difference. */
  lemma RelevanceStatisticsBounds(documents: seq<Doc>)
    ensures documents == [] ==> RelevanceStatistics(documents) == Stats(0.0, 0.0, 0.0, 0.0, 0.0)
    ensures documents != [] ==> var st := RelevanceStatistics(documents);
      && st.minScore <= st.median <= st.maxScore
      && st.minScore <= st.mean <= st.maxScore
      && st.scoreRange == st.maxScore - st.minScore >= 0.0
  {
    if documents != [] {
      var s := SortAsc(Scores(documents));
      var n := |s|;
      assert RelevanceStatistics(documents) == Stats(Sum(s) / n as real, Median(s), s[0], s[n - 1], s[n - 1] - s[0]);
      SortAscEnds(Scores(documents));
      MedianBounds(s);
      MeanWithin(s);
    }
  }

  /** The least and the greatest statistic are scores of documents in the list, and every
      document's score lies between them. */
  lemma RelevanceStatisticsExtremes(documents: seq<Doc>)
    requires documents != []
    ensures exists k :: 0 <= k < |documents| && ScoreOrZero(documents[k]) == RelevanceStatistics(documents).minScore
    ensures exists k :: 0 <= k < |documents| && ScoreOrZero(documents[k]) == RelevanceStatistics(documents).maxScore
    ensures forall k :: 0 <= k < |documents| ==>
      RelevanceStatistics(documents).minScore <= ScoreOrZero(documents[k]) <= RelevanceStatistics(documents).maxScore
  {
    var sc := Scores(documents);
    var s := SortAsc(sc);
    assert RelevanceStatistics(documents).minScore == s[0];
    assert RelevanceStatistics(documents).maxScore == s[|s| - 1];
    SortAscExtremes(sc);
  }

  /** The ends of the ascending sort are elements of the input and bound all of them. */
  lemma SortAscExtremes(sc: seq<real>)
    requires sc != []
    ensures exists k :: 0 <= k < |sc| && sc[k] == SortAsc(sc)[0]
    ensures exists k :: 0 <= k < |sc| && sc[k] == SortAsc(sc)[|sc| - 1]
    ensures forall k :: 0 <= k < |sc| ==> SortAsc(sc)[0] <= sc[k] <= SortAsc(sc)[|sc| - 1]
  {
    var s := SortAsc(sc);
    var n := |s|;
    SortAscEnds(sc);
    SamePermutationMembers(sc, s);
    var first :| 0 <= first < |sc| && sc[first] == s[0];
    var last :| 0 <= last < |sc| && sc[last] == s[n - 1];
    forall k | 0 <= k < |sc| ensures s[0] <= sc[k] <= s[n - 1] {
      var m :| 0 <= m < |s| && s[m] == sc[k];
    }
  }

  /** The ends of the ascending sort bound every element. */
  lemma SortAscEnds(s: seq<real>)
    requires s != []
    ensures var r := SortAsc(s);
      forall k :: 0 <= k < |r| ==> r[0] <= r[k] <= r[|r| - 1]
  {
    SortAscSorted(s);
    var r := SortAsc(s);
    forall k | 0 <= k < |r| ensures r[0] <= r[k] <= r[|r| - 1] {
      if 0 < k { assert r[0] <= r[k]; }
      if k < |r| - 1 { assert r[k] <= r[|r| - 1]; }
    }
  }

  /** The mean of a list lies between any bounds of its elements. */
  lemma MeanWithin(s: seq<real>)
    requires s != []
    requires forall k :: 0 <= k < |s| ==> s[0] <= s[k] <= s[|s| - 1]
    ensures s[0] <= Sum(s) / |s| as real <= s[|s| - 1]
  {
    SumBounds(s, s[0], s[|s| - 1]);
    MeanBounds(Sum(s), |s|, s[0], s[|s| - 1]);
  }

  /** A mean lies between the bounds of what it averages. */
  lemma MeanBounds(total: real, n: nat, lo: real, hi: real)
    requires n > 0 && n as real * lo <= total <= n as real * hi
    ensures lo <= total / n as real <= hi
  {
    var m := total / n as real;
    assert m * n as real == total;
  }

  /** Two permutations of each other have the same elements, position by position. */
  lemma SamePermutationMembers(a: seq<real>, b: seq<real>)
    requires multiset(a) == multiset(b)
    ensures forall k :: 0 <= k < |b| ==> exists m :: 0 <= m < |a| && a[m] == b[k]
    ensures forall k :: 0 <= k < |a| ==> exists m :: 0 <= m < |b| && b[m] == a[k]
  {
    forall k | 0 <= k < |b| ensures exists m :: 0 <= m < |a| && a[m] == b[k] {
      assert b[k] in multiset(b);
      assert b[k] in a;
    }
    forall k | 0 <= k < |a| ensures exists m :: 0 <= m < |b| && b[m] == a[k] {
      assert a[k] in multiset(a);
      assert a[k] in b;
    }
  }

  // ---------------------------------------------------------------- the service

  /** Which documents `apply_diversity_filter` keeps among `documents[..n]` (`n >= 1`), as
      indices, ascending: the first always, and each later one when its similarity to every
      document kept before it is at most `threshold`. */
  function Kept(documents: seq<Doc>, sim: (Doc, Doc) -> real, threshold: real, n: nat): (kept: seq<nat>)
    requires 1 <= n <= |documents|
    ensures |kept| >= 1 && kept[0] == 0
    ensures forall a, b :: 0 <= a < b < |kept| ==> kept[a] < kept[b]
    ensures forall a :: 0 <= a < |kept| ==> kept[a] < n
    decreases n
  {
    if n == 1 then [0]
    else
      var prev := Kept(documents, sim, threshold, n - 1);
      if DiverseFrom(documents, sim, threshold, prev, n - 1) then prev + [n - 1] else prev
  }

  /** Document `j` is at most `threshold` similar to every kept document. */
  predicate DiverseFrom(documents: seq<Doc>, sim: (Doc, Doc) -> real, threshold: real, kept: seq<nat>, j: nat)
    requires j < |documents| && forall a :: 0 <= a < |kept| ==> kept[a] < |documents|
  {
    forall a :: 0 <= a < |kept| ==> sim(documents[j], documents[kept[a]]) <= threshold
  }

  /** The kept indices below `j` are the ones kept after looking at `documents[..j]`. */
  lemma {:induction false} KeptPrefix(documents: seq<Doc>, sim: (Doc, Doc) -> real, threshold: real, n: nat, j: nat)
    requires 1 <= j <= n <= |documents|
    ensures var kn := Kept(documents, sim, threshold, n);
      && (forall i :: i in Kept(documents, sim, threshold, j) <==> i in kn && i < j)
    decreases n
  {
    if n > j {
      KeptPrefix(documents, sim, threshold, n - 1, j);
    }
  }

  /** Greedy diversity: a later document is kept exactly when every document kept before it
      is at most `threshold` similar to it; so every kept pair is diverse, and each dropped
      document has a kept, earlier document more than `threshold` similar to it. */
  lemma KeptIff(documents: seq<Doc>, sim: (Doc, Doc) -> real, threshold: real, j: nat)
    requires 1 <= j < |documents|
    ensures var kept := Kept(documents, sim, threshold, |documents|);
      j in kept <==> forall i :: i in kept && i < j ==> sim(documents[j], documents[i]) <= threshold
  {
    var n := |documents|;
    var kept := Kept(documents, sim, threshold, n);
    var before := Kept(documents, sim, threshold, j);
    KeptPrefix(documents, sim, threshold, n, j);
    KeptPrefix(documents, sim, threshold, n, j + 1);
    var upto := Kept(documents, sim, threshold, j + 1);
    assert upto == if DiverseFrom(documents, sim, threshold, before, j) then before + [j] else before;
    assert j in kept <==> j in upto;
    assert j !in before;
    if DiverseFrom(documents, sim, threshold, before, j) {
      forall i | i in kept && i < j ensures sim(documents[j], documents[i]) <= threshold {
        assert i in before;
        var a :| 0 <= a < |before| && before[a] == i;
      }
    } else {
      var a :| 0 <= a < |before| && sim(documents[j], documents[before[a]]) > threshold;
      assert before[a] in kept && before[a] < j;
    }
  }

  /** The documents at the given ascending indices. */
  function At(documents: seq<Doc>, indices: seq<nat>): (r: seq<Doc>)
    requires forall a :: 0 <= a < |indices| ==> indices[a] < |documents|
    ensures |r| == |indices|
  {
    seq(|indices|, a requires 0 <= a < |indices| => documents[indices[a]])
  }

  /** `apply_diversity_filter`: lists of at most one document come back unchanged; otherwise
      the documents that `Kept` selects, in order. */
  method ApplyDiversityFilter(documents: seq<Doc>, sim: (Doc, Doc) -> real, threshold: real)
    returns (selected: seq<Doc>)
    ensures |documents| <= 1 ==> selected == documents
    ensures |documents| > 1 ==> selected == At(documents, Kept(documents, sim, threshold, |documents|))
  {
    if |documents| <= 1 {
      return documents;
    }
    selected := [documents[0]];
    ghost var kept: seq<nat> := [0];
    assert kept == Kept(documents, sim, threshold, 1);
    var j := 1;
    while j < |documents|
      invariant 1 <= j <= |documents|
      invariant kept == Kept(documents, sim, threshold, j)
      invariant selected == At(documents, kept)
    {
      var doc := documents[j];
      var isDiverse := DiverseFromSelected(doc, selected, sim, threshold);
      KeptStep(documents, sim, threshold, kept, selected, j, isDiverse);
      if isDiverse {
        selected := selected + [doc];
        kept := kept + [j];
      }
      j := j + 1;
    }
  }

  /** One pass of the outer loop: a diverse document is kept and selected, any other is
      passed over. */
  lemma KeptStep(documents: seq<Doc>, sim: (Doc, Doc) -> real, threshold: real, kept: seq<nat>,
                 selected: seq<Doc>, j: nat, isDiverse: bool)
    requires 1 <= j < |documents|
    requires kept == Kept(documents, sim, threshold, j) && selected == At(documents, kept)
    requires isDiverse <==> forall b :: 0 <= b < |selected| ==> sim(documents[j], selected[b]) <= threshold
    ensures isDiverse ==> kept + [j] == Kept(documents, sim, threshold, j + 1)
    ensures isDiverse ==> selected + [documents[j]] == At(documents, kept + [j])
    ensures !isDiverse ==> kept == Kept(documents, sim, threshold, j + 1)
  {
    DiverseStep(documents, sim, threshold, kept, j, isDiverse);
    if isDiverse {
      AtAppend(documents, kept, j);
    }
  }


  /** The inner loop of the diversity filter: whether `doc` is at most `threshold` similar
      to every document selected so far; it stops at the first one too similar. */
  method DiverseFromSelected(doc: Doc, selected: seq<Doc>, sim: (Doc, Doc) -> real, threshold: real)
    returns (isDiverse: bool)
    ensures isDiverse <==> forall b :: 0 <= b < |selected| ==> sim(doc, selected[b]) <= threshold
  {
    var a := 0;
    while a < |selected|
      invariant 0 <= a <= |selected|
      invariant forall b :: 0 <= b < a ==> sim(doc, selected[b]) <= threshold
    {
      if sim(doc, selected[a]) > threshold {
        return false;
      }
      a := a + 1;
    }
    return true;
  }

  /** Deciding diversity against the selected documents decides `DiverseFrom`. */
  lemma DiverseStep(documents: seq<Doc>, sim: (Doc, Doc) -> real, threshold: real, kept: seq<nat>,
                    j: nat, isDiverse: bool)
    requires 1 <= j < |documents|
    requires kept == Kept(documents, sim, threshold, j)
    requires isDiverse <==> forall b :: 0 <= b < |kept| ==> sim(documents[j], At(documents, kept)[b]) <= threshold
    ensures Kept(documents, sim, threshold, j + 1) == if isDiverse then kept + [j] else kept
  {
    var sel := At(documents, kept);
    if isDiverse {
      forall b | 0 <= b < |kept| ensures sim(documents[j], documents[kept[b]]) <= threshold {
        assert sel[b] == documents[kept[b]];
      }
      assert DiverseFrom(documents, sim, threshold, kept, j);
    } else {
      var a :| 0 <= a < |kept| && sim(documents[j], sel[a]) > threshold;
      assert sel[a] == documents[kept[a]];
      assert !DiverseFrom(documents, sim, threshold, kept, j);
    }
  }

  /** Selecting one more index selects one more document. */
  lemma AtAppend(documents: seq<Doc>, indices: seq<nat>, j: nat)
    requires j < |documents| && forall a :: 0 <= a < |indices| ==> indices[a] < |documents|
    ensures At(documents, indices + [j]) == At(documents, indices) + [documents[j]]
  {
  }

  /** The service over its loaded corpus, `embedded_docs` (loading it from the JSON file is
      not part of this model). */
  class RetrievalService {
    const embeddedDocs: seq<Doc>

    constructor (docs: seq<Doc>)
      ensures embeddedDocs == docs
    {
      embeddedDocs := docs;
    }

    /** `find_similar_documents`, given `sims[i]`, the cosine similarity of the query and
        document `i`: copies of the documents that `TopIndices` selects, in its order, each
        with `score` set to its similarity. */
    method FindSimilarDocuments(sims: seq<real>, topK: nat, minScore: real) returns (topDocs: seq<Doc>)
      requires |sims| == |embeddedDocs|
      requires topK >= 1
      ensures var idx := TopIndices(sims, topK, minScore);
        && |topDocs| == |idx|
        && forall k :: 0 <= k < |idx| ==>
             idx[k] < |sims| && topDocs[k] == embeddedDocs[idx[k]].(score := Some(sims[idx[k]]))
    {
      if |embeddedDocs| == 0 {
        return [];
      }
      var topIndices := TopIndices(sims, topK, minScore);
      TopIndicesShape(sims, topK, minScore);
      topDocs := [];
      var k := 0;
      while k < |topIndices|
        invariant 0 <= k <= |topIndices|
        invariant |topDocs| == k
        invariant forall m :: 0 <= m < k ==>
          topDocs[m] == embeddedDocs[topIndices[m]].(score := Some(sims[topIndices[m]]))
      {
        var idx := topIndices[k];
        var doc := embeddedDocs[idx].(score := Some(sims[idx]));
        topDocs := topDocs + [doc];
        k := k + 1;
      }
    }

    /** `get_document_by_id`: the first document whose `id` is `docId`, or None. */
    method GetDocumentById(docId: string) returns (r: Option<Doc>)
      ensures r.None? <==> forall k :: 0 <= k < |embeddedDocs| ==> embeddedDocs[k].id != Some(docId)
      ensures r.Some? ==> exists k :: FirstWithId(embeddedDocs, docId, k) && r.value == embeddedDocs[k]
    {
      var k := 0;
      while k < |embeddedDocs|
        invariant 0 <= k <= |embeddedDocs|
        invariant forall m :: 0 <= m < k ==> embeddedDocs[m].id != Some(docId)
      {
        if embeddedDocs[k].id == Some(docId) {
          return Some(embeddedDocs[k]);
        }
        k := k + 1;
      }
      return None;
    }

    /** `filter_by_metadata`, the filter dictionary given as its items: the documents, in
        order, whose metadata value under every filter key equals the filter value. */
    method FilterByMetadata(metadataFilters: seq<(string, Value)>) returns (filteredDocs: seq<Doc>)
      ensures filteredDocs == Seqs.Filter(embeddedDocs, MatchesAll(metadataFilters))
    {
      filteredDocs := [];
      var k := 0;
      while k < |embeddedDocs|
        invariant 0 <= k <= |embeddedDocs|
        invariant filteredDocs == Seqs.Filter(embeddedDocs[..k], MatchesAll(metadataFilters))
      {
        var doc := embeddedDocs[k];
        var match_ := true;
        var f := 0;
        while f < |metadataFilters|
          invariant 0 <= f <= |metadataFilters|
          invariant match_ <==> forall g :: 0 <= g < f ==>
            PyEq(Get(doc.metadata, metadataFilters[g].0), metadataFilters[g].1)
        {
          var (key, value) := metadataFilters[f];
          if !PyEq(Get(doc.metadata, key), value) {
            match_ := false;
            break;
          }
          f := f + 1;
        }
        assert match_ == MatchesAll(metadataFilters)(doc);
        assert embeddedDocs[..k + 1] == embeddedDocs[..k] + [doc];
        Seqs.FilterAppend(embeddedDocs[..k], doc, MatchesAll(metadataFilters));
        if match_ {
          filteredDocs := filteredDocs + [doc];
        }
        k := k + 1;
      }
      assert embeddedDocs[..k] == embeddedDocs;
    }
  }

  /** `documents[k]` is the first document whose `id` is `docId`. */
  predicate FirstWithId(documents: seq<Doc>, docId: string, k: int) {
    && 0 <= k < |documents|
    && documents[k].id == Some(docId)
    && forall m :: 0 <= m < k ==> documents[m].id != Some(docId)
  }

  /** A document matches every `(key, value)` filter pair: `doc['metadata'].get(key) == value`. */
  function MatchesAll(metadataFilters: seq<(string, Value)>): Doc -> bool {
    (doc: Doc) => forall g :: 0 <= g < |metadataFilters| ==>
      PyEq(Get(doc.metadata, metadataFilters[g].0), metadataFilters[g].1)
  }

  /** The filter keeps exactly the matching documents; an empty filter keeps all of them,
      and a filter value None matches exactly the documents lacking the key or holding None. */
  lemma FilterByMetadataMeaning(docs: seq<Doc>, metadataFilters: seq<(string, Value)>)
    ensures forall d :: d in Seqs.Filter(docs, MatchesAll(metadataFilters)) <==>
      d in docs && forall g :: 0 <= g < |metadataFilters| ==>
        PyEq(Get(d.metadata, metadataFilters[g].0), metadataFilters[g].1)
    ensures metadataFilters == [] ==> Seqs.Filter(docs, MatchesAll(metadataFilters)) == docs
    ensures forall d: Doc, key :: MatchesAll([(key, VNone)])(d) <==> key !in d.metadata || d.metadata[key] == VNone
  {
    Seqs.FilterMembers(docs, MatchesAll(metadataFilters));
    forall d | d in docs && MatchesAll(metadataFilters)(d)
      ensures d in Seqs.Filter(docs, MatchesAll(metadataFilters))
    {
      var k :| 0 <= k < |docs| && docs[k] == d;
    }
    if metadataFilters == [] {
      Seqs.FilterAll(docs, MatchesAll(metadataFilters));
    }
    forall d: Doc, key: string
      ensures MatchesAll([(key, VNone)])(d) <==> key !in d.metadata || d.metadata[key] == VNone
    {
      PyEqNone(Get(d.metadata, key));
      assert [(key, VNone)][0] == (key, VNone);
    }
  }

  /** `validate_retrieval_results`: false for no results or when a score (a missing one read
      as 0.0) lies outside [0, 1]. `top_k` is not consulted. */
  method ValidateRetrievalResults(results: seq<Doc>, topK: int) returns (ok: bool)
    ensures ok <==> results != [] && forall k :: 0 <= k < |results| ==> 0.0 <= ScoreOrZero(results[k]) <= 1.0
  {
    if results == [] {
      return false;
    }
    var k := 0;
    while k < |results|
      invariant 0 <= k <= |results|
      invariant forall m :: 0 <= m < k ==> 0.0 <= ScoreOrZero(results[m]) <= 1.0
    {
      var s := ScoreOrZero(results[k]);
      if !(0.0 <= s <= 1.0) {
        return false;
      }
      k := k + 1;
    }
    return true;
  }

  /** `rerank_documents`, given the cosine similarity `base(doc)` of the query and each
      document: empty input comes back as is; otherwise the rescored prefix sorted by
      descending score, followed by the rest of the documents unchanged and not re-sorted. */
  method RerankDocuments(base: Doc -> real, documents: seq<Doc>, rerankTopK: Option<int>)
    returns (r: Result<seq<Doc>>)
    ensures documents == [] ==> r == Ok(documents)
    ensures documents != [] ==> var prefix := RerankPrefix(documents, rerankTopK);
      && (r.Err? <==> Rescored(base, prefix).Err?)
      && (r.Ok? ==> r.value == Seqs.SortDesc(Rescored(base, prefix).value, ScoreKey())
                               + RerankRest(documents, rerankTopK))
  {
    if documents == [] {
      return Ok(documents);
    }
    var docsToRerank := RerankPrefix(documents, rerankTopK);
    var rerankedDocs := [];
    var k := 0;
    while k < |docsToRerank|
      invariant 0 <= k <= |docsToRerank|
      invariant Rescored(base, docsToRerank[..k]) == Ok(rerankedDocs)
    {
      var doc := docsToRerank[k];
      var enhanced := RelevanceScore(base(doc), doc.metadata);
      RescoredStep(base, docsToRerank, k, rerankedDocs, enhanced);
      if enhanced.Err? {
        return Err(enhanced.error);
      }
      rerankedDocs := rerankedDocs + [doc.(score := Some(enhanced.value))];
      k := k + 1;
    }
    Seqs.PrefixAll(docsToRerank);
    rerankedDocs := Seqs.SortDesc(rerankedDocs, ScoreKey());
    if rerankTopK.Some? && rerankTopK.value != 0 && |documents| > rerankTopK.value {
      rerankedDocs := rerankedDocs + PyText.Suffix(documents, rerankTopK.value);
    }
    return Ok(rerankedDocs);
  }

  /** Rescoring a list that grows by one document. */
  lemma RescoredAppend(base: Doc -> real, docs: seq<Doc>, doc: Doc)
    requires Rescored(base, docs).Ok?
    ensures var s := RelevanceScore(base(doc), doc.metadata);
      && (s.Err? ==> Rescored(base, docs + [doc]).Err?)
      && (s.Ok? ==> Rescored(base, docs + [doc]) == Ok(Rescored(base, docs).value + [doc.(score := Some(s.value))]))
  {
    var all := docs + [doc];
    assert all[|docs|] == doc;
    var s := RelevanceScore(base(doc), doc.metadata);
    if s.Ok? {
      forall k | 0 <= k < |all| ensures RelevanceScore(base(all[k]), all[k].metadata).Ok? {
        if k < |docs| {
          assert all[k] == docs[k];
        }
      }
      var r := Rescored(base, all);
      var expected := Rescored(base, docs).value + [doc.(score := Some(s.value))];
      forall k | 0 <= k < |all| ensures r.value[k] == expected[k] {
        if k < |docs| {
          assert all[k] == docs[k];
        }
      }
      assert r.value == expected;
    }
  }

  /** One pass of the rescoring loop: a failed relevance score fails the whole rescoring,
      a successful one extends the rescored prefix by one document. */
  lemma RescoredStep(base: Doc -> real, docs: seq<Doc>, k: nat, done: seq<Doc>, enhanced: Result<real>)
    requires k < |docs| && Rescored(base, docs[..k]) == Ok(done)
    requires enhanced == RelevanceScore(base(docs[k]), docs[k].metadata)
    ensures enhanced.Err? ==> Rescored(base, docs).Err?
    ensures enhanced.Ok? ==> Rescored(base, docs[..k + 1]) == Ok(done + [docs[k].(score := Some(enhanced.value))])
  {
    var before, doc := docs[..k], docs[k];
    RescoredAppend(base, before, doc);
    Seqs.PrefixStep(docs, k);
    if enhanced.Err? {
      RescoredPrefixError(base, docs, k + 1);
    }
  }

  lemma RescoredPrefixError(base: Doc -> real, docs: seq<Doc>, k: nat)
    requires k <= |docs| && Rescored(base, docs[..k]).Err?
    ensures Rescored(base, docs).Err?
  {
    var m :| 0 <= m < k && RelevanceScore(base(docs[..k][m]), docs[..k][m].metadata).Err?;
    assert docs[..k][m] == docs[m];
  }

  /** What rerank promises: the length is kept; the first `|prefix|` results are the rescored
      prefix documents (each score in [0, 1]) reordered by descending score, stably; the rest
      of the documents follow unchanged; a falsy `rerank_top_k` rescores everything. */
  lemma RerankMeaning(base: Doc -> real, documents: seq<Doc>, rerankTopK: Option<int>)
    requires Rescored(base, RerankPrefix(documents, rerankTopK)).Ok?
    ensures var prefix := RerankPrefix(documents, rerankTopK);
      var rescored := Rescored(base, prefix).value;
      var r := Seqs.SortDesc(rescored, ScoreKey()) + RerankRest(documents, rerankTopK);
      && |r| == |documents|
      && r[|prefix|..] == documents[|prefix|..]
      && multiset(r[..|prefix|]) == multiset(rescored)
      && (forall a, b :: 0 <= a < b < |prefix| ==> ScoreOrZero(r[a]) >= ScoreOrZero(r[b]))
      && (forall a :: 0 <= a < |prefix| ==> 0.0 <= ScoreOrZero(r[a]) <= 1.0)
      && (forall c :: Seqs.Filter(r[..|prefix|], Seqs.KeyIs(ScoreKey(), c)) == Seqs.Filter(rescored, Seqs.KeyIs(ScoreKey(), c)))
      && ((rerankTopK.None? || rerankTopK == Some(0)) ==> |prefix| == |documents|)
  {
    var prefix := RerankPrefix(documents, rerankTopK);
    var rescored := Rescored(base, prefix).value;
    var sorted := Seqs.SortDesc(rescored, ScoreKey());
    var rest := RerankRest(documents, rerankTopK);
    RerankSplit(documents, rerankTopK);
    ConcatParts(sorted, rest);
    ConcatParts(prefix, rest);
    Seqs.SortDescSorted(rescored, ScoreKey());
    RescoredInUnit(base, prefix);
    InUnitPermuted(rescored, sorted);
    forall c ensures Seqs.Filter(sorted, Seqs.KeyIs(ScoreKey(), c)) == Seqs.Filter(rescored, Seqs.KeyIs(ScoreKey(), c)) {
      Seqs.SortDescStable(rescored, ScoreKey(), c);
    }
  }

  /** The two parts of a concatenation. */
  lemma ConcatParts<T>(a: seq<T>, b: seq<T>)
    ensures (a + b)[..|a|] == a && (a + b)[|a|..] == b
  {
  }

  /** Every score a relevance score lies in [0, 1]. */
  predicate InUnit(docs: seq<Doc>) {
    forall k :: 0 <= k < |docs| ==> 0.0 <= ScoreOrZero(docs[k]) <= 1.0
  }

  /** Rescored documents carry relevance scores, which lie in [0, 1]. */
  lemma RescoredInUnit(base: Doc -> real, docs: seq<Doc>)
    requires Rescored(base, docs).Ok?
    ensures InUnit(Rescored(base, docs).value)
  {
    var r := Rescored(base, docs).value;
    forall k | 0 <= k < |r| ensures 0.0 <= ScoreOrZero(r[k]) <= 1.0 {
      assert RelevanceScore(base(docs[k]), docs[k].metadata).Ok?;
    }
  }

  /** A rearrangement keeps the scores in [0, 1]. */
  lemma InUnitPermuted(s: seq<Doc>, t: seq<Doc>)
    requires InUnit(s) && multiset(s) == multiset(t)
    ensures InUnit(t)
  {
    forall a | 0 <= a < |t| ensures 0.0 <= ScoreOrZero(t[a]) <= 1.0 {
      assert t[a] in multiset(s);
      var m :| 0 <= m < |s| && s[m] == t[a];
    }
  }

}
