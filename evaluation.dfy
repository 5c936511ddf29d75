/** scripts/evaluation.py: score what the retriever returns for a query
    against the expected passages (precision, recall, F1), and score the QA
    chain's answer by its best similarity to an expected passage.

    `cosine_sim` over the embedding model is the parameter `sim`; the
    retriever and the chain are parameters too, and the clock readings are
    left to the caller. */
module Evaluation {

  /** `cosine_sim(text1, text2, embedding_model)`. */
  type Similarity = (string, string) -> real

  /** How many retrieved documents `evaluate_query` scores at most. */
  const TOP_K: nat := 10

  /** What `str(e)` gives for the `ValueError` raised by `max` over an empty
      sequence (CPython 3.12 and later). */
  const EMPTY_MAX_MESSAGE: string := "max() iterable argument is empty"

  /** `any(cosine_sim(r, e, ...) >= threshold for r in retrieved)`. */
  function AnyMatch(sim: Similarity, retrieved: seq<string>, e: string, threshold: real): (b: bool)
    ensures b <==> exists i :: 0 <= i < |retrieved| && sim(retrieved[i], e) >= threshold
    decreases |retrieved|
  {
    if retrieved == [] then false
    else sim(retrieved[0], e) >= threshold || AnyMatch(sim, retrieved[1..], e, threshold)
  }

  /** The true positives: how many expected passages some retrieved text
      matches. */
  function MatchCount(sim: Similarity, retrieved: seq<string>, expected: seq<string>, threshold: real): (n: nat)
    ensures n <= |expected|
    decreases |expected|
  {
    if expected == [] then 0
    else
      var last := expected[|expected| - 1];
      MatchCount(sim, retrieved, expected[..|expected| - 1], threshold) + (if AnyMatch(sim, retrieved, last, threshold) then 1 else 0)
  }

  /** `num / den if den else 0`. */
  function Ratio(num: int, den: int): real {
    if den != 0 then num as real / den as real else 0.0
  }

  /** `2 * prec * rec / (prec + rec) if (prec + rec) else 0`. */
  function F1Score(prec: real, rec: real): real {
    if prec + rec != 0.0 then 2.0 * prec * rec / (prec + rec) else 0.0
  }

  function Precision(sim: Similarity, retrieved: seq<string>, expected: seq<string>, threshold: real): real {
    Ratio(MatchCount(sim, retrieved, expected, threshold), |retrieved|)
  }

  function Recall(sim: Similarity, retrieved: seq<string>, expected: seq<string>, threshold: real): real {
    Ratio(MatchCount(sim, retrieved, expected, threshold), |expected|)
  }

  /** `evaluate_accuracy(retrieved, expected, embedding_model, threshold)`:
      the counters make `tp + fp` the number of retrieved texts and `tp + fn`
      the number of expected passages, so precision and recall are the true
      positives over those. */
  method EvaluateAccuracy(sim: Similarity, retrieved: seq<string>, expected: seq<string>, threshold: real)
    returns (prec: real, rec: real, f1: real)
    ensures prec == Precision(sim, retrieved, expected, threshold)
    ensures rec == Recall(sim, retrieved, expected, threshold)
    ensures f1 == F1Score(prec, rec)
  {
    var tp, fn := 0, 0;
    for i := 0 to |expected|
      invariant tp == MatchCount(sim, retrieved, expected[..i], threshold)
      invariant tp + fn == i
    {
      assert expected[..i + 1][..i] == expected[..i];
      if AnyMatch(sim, retrieved, expected[i], threshold) {
        tp := tp + 1;
      } else {
        fn := fn + 1;
      }
    }
    assert expected[..|expected|] == expected;
    var fp := |retrieved| - tp;
    prec := if tp + fp != 0 then tp as real / (tp + fp) as real else 0.0;
    rec := if tp + fn != 0 then tp as real / (tp + fn) as real else 0.0;
    f1 := if prec + rec != 0.0 then 2.0 * prec * rec / (prec + rec) else 0.0;
  }

  /** Recall lies in [0, 1], and is 0 when nothing is expected. */
  lemma RecallBounds(sim: Similarity, retrieved: seq<string>, expected: seq<string>, threshold: real)
    ensures 0.0 <= Recall(sim, retrieved, expected, threshold) <= 1.0
    ensures expected == [] ==> Recall(sim, retrieved, expected, threshold) == 0.0
  {
    var tp := MatchCount(sim, retrieved, expected, threshold);
    if |expected| != 0 {
      assert tp as real <= |expected| as real;
      assert tp as real / |expected| as real <= |expected| as real / |expected| as real;
    }
  }

  /** Precision is never negative, but it is bounded by the number of
      expected passages over the number retrieved, not by 1: `fp` is not
      clamped at 0. */
  lemma PrecisionBounds(sim: Similarity, retrieved: seq<string>, expected: seq<string>, threshold: real)
    ensures 0.0 <= Precision(sim, retrieved, expected, threshold)
    ensures retrieved != [] ==> Precision(sim, retrieved, expected, threshold) <= |expected| as real / |retrieved| as real
  {
    var tp := MatchCount(sim, retrieved, expected, threshold);
    if retrieved != [] {
      assert tp as real <= |expected| as real;
      DivideMonotone(tp as real, |expected| as real, |retrieved| as real);
    }
  }

  lemma DivideMonotone(x: real, y: real, d: real)
    requires x <= y && d > 0.0
    ensures x / d <= y / d
  {
    assert y / d - x / d == (y - x) / d;
  }

  /** One retrieved text that matches two expected passages counts as two
      true positives: `fp` becomes -1 and precision 2. */
  lemma PrecisionCanExceedOne(sim: Similarity, t: string, threshold: real)
    requires sim(t, t) >= threshold
    ensures MatchCount(sim, [t], [t, t], threshold) == 2
    ensures Precision(sim, [t], [t, t], threshold) == 2.0
  {
    assert AnyMatch(sim, [t], t, threshold);
    assert [t, t][..1] == [t];
    assert [t][..0] == [];
  }

  /** Nothing matches when nothing was retrieved. */
  lemma {:induction false} NothingRetrievedNothingMatched(sim: Similarity, expected: seq<string>, threshold: real)
    ensures MatchCount(sim, [], expected, threshold) == 0
    decreases |expected|
  {
    if expected != [] {
      NothingRetrievedNothingMatched(sim, expected[..|expected| - 1], threshold);
    }
  }

  /** An empty retrieval scores 0 on all three measures. */
  lemma EmptyRetrievalScoresZero(sim: Similarity, expected: seq<string>, threshold: real)
    ensures Precision(sim, [], expected, threshold) == 0.0
    ensures Recall(sim, [], expected, threshold) == 0.0
    ensures F1Score(Precision(sim, [], expected, threshold), Recall(sim, [], expected, threshold)) == 0.0
  {
    NothingRetrievedNothingMatched(sim, expected, threshold);
  }

  /** For non-negative precision and recall, F1 is 0 exactly when one of
      them is 0. */
  lemma F1Zero(prec: real, rec: real)
    requires prec >= 0.0 && rec >= 0.0
    ensures F1Score(prec, rec) == 0.0 <==> prec == 0.0 || rec == 0.0
  {
    if prec > 0.0 && rec > 0.0 {
      assert 2.0 * prec * rec > 0.0;
    }
  }

  /** For positive precision and recall, F1 (their harmonic mean) lies
      between the two. */
  lemma F1Between(prec: real, rec: real)
    requires prec > 0.0 && rec > 0.0
    ensures prec <= rec ==> prec <= F1Score(prec, rec) <= rec
    ensures rec <= prec ==> rec <= F1Score(prec, rec) <= prec
  {
    var f := F1Score(prec, rec);
    var s := prec + rec;
    assert f * s == 2.0 * prec * rec;
    assert (f - prec) * s == prec * (rec - prec);
    assert (f - rec) * s == rec * (prec - rec);
    if prec <= rec {
      ProductNonNegative(prec, rec - prec);
      SignOfFactor(f - prec, s);
      SignOfFactor(rec - f, s);
    }
    if rec <= prec {
      ProductNonNegative(rec, prec - rec);
      SignOfFactor(f - rec, s);
      SignOfFactor(prec - f, s);
    }
  }

  lemma ProductNonNegative(a: real, b: real)
    requires a >= 0.0 && b >= 0.0
    ensures a * b >= 0.0
  {
  }

  lemma SignOfFactor(x: real, s: real)
    requires s > 0.0
    ensures x * s >= 0.0 ==> x >= 0.0
  {
  }

  /** Scoring more retrieved texts never loses a true positive. */
  lemma {:induction false} MatchCountMonotone(sim: Similarity, retrieved: seq<string>, extra: seq<string>, expected: seq<string>, threshold: real)
    ensures MatchCount(sim, retrieved, expected, threshold) <= MatchCount(sim, retrieved + extra, expected, threshold)
    decreases |expected|
  {
    if expected != [] {
      var e := expected[|expected| - 1];
      MatchCountMonotone(sim, retrieved, extra, expected[..|expected| - 1], threshold);
      if AnyMatch(sim, retrieved, e, threshold) {
        var i :| 0 <= i < |retrieved| && sim(retrieved[i], e) >= threshold;
        assert (retrieved + extra)[i] == retrieved[i];
      }
    }
  }

  /** A document the retriever returns; only its text is scored. */
  datatype RetrievedDoc = RetrievedDoc(pageContent: string)

  /** `[doc.page_content for doc in docs]`. */
  function PageContents(docs: seq<RetrievedDoc>): (r: seq<string>)
    ensures |r| == |docs|
    ensures forall i :: 0 <= i < |r| ==> r[i] == docs[i].pageContent
  {
    seq(|docs|, i requires 0 <= i < |docs| => docs[i].pageContent)
  }

  /** `results[:TOP_K]`. */
  function TopK(results: seq<RetrievedDoc>): (r: seq<RetrievedDoc>)
    ensures |r| <= TOP_K && |r| <= |results| && r == results[..|r|]
    ensures |results| <= TOP_K ==> r == results
    ensures |results| > TOP_K ==> |r| == TOP_K
  {
    if |results| <= TOP_K then results else results[..TOP_K]
  }

  /** `evaluate_query(query, expected, embedding_model, retriever, threshold)`
      without the timing: `retrieve` is `retriever.invoke`.  The texts of at
      most the first TOP_K results are scored. */
  method EvaluateQuery(sim: Similarity, retrieve: string -> seq<RetrievedDoc>, query: string, expected: seq<string>, threshold: real)
    returns (prec: real, rec: real, f1: real, retrieved: seq<string>)
    ensures var results := retrieve(query);
      && |retrieved| == (if |results| <= TOP_K then |results| else TOP_K)
      && (forall i :: 0 <= i < |retrieved| ==> retrieved[i] == results[i].pageContent)
    ensures prec == Precision(sim, retrieved, expected, threshold)
    ensures rec == Recall(sim, retrieved, expected, threshold)
    ensures f1 == F1Score(prec, rec)
  {
    var results := retrieve(query);
    retrieved := PageContents(TopK(results));
    prec, rec, f1 := EvaluateAccuracy(sim, retrieved, expected, threshold);
  }

  /** Cutting the results to TOP_K can only lower recall: every expected
      passage matched by the scored texts is matched by the full list. */
  lemma TruncationLowersRecall(sim: Similarity, results: seq<RetrievedDoc>, expected: seq<string>, threshold: real)
    ensures Recall(sim, PageContents(TopK(results)), expected, threshold) <= Recall(sim, PageContents(results), expected, threshold)
  {
    var top := TopK(results);
    var rest := results[|top|..];
    assert results == top + rest;
    PageContentsAppend(top, rest);
    var scored, all := PageContents(top), PageContents(results);
    MatchCountMonotone(sim, scored, PageContents(rest), expected, threshold);
    if |expected| != 0 {
      DivideMonotone(MatchCount(sim, scored, expected, threshold) as real, MatchCount(sim, all, expected, threshold) as real, |expected| as real);
    }
  }

  lemma PageContentsAppend(a: seq<RetrievedDoc>, b: seq<RetrievedDoc>)
    ensures PageContents(a + b) == PageContents(a) + PageContents(b)
  {
    var l, r := PageContents(a + b), PageContents(a) + PageContents(b);
    assert |l| == |r|;
    forall i | 0 <= i < |l| ensures l[i] == r[i] {
      if i < |a| {
        assert (a + b)[i] == a[i];
      } else {
        assert (a + b)[i] == b[i - |a|];
      }
    }
  }

  /** What `chain.invoke({"query": query})` does: it answers, or raises an
      exception whose `str` is `message`. */
  datatype ChainResult = Answered(answer: string) | Raised(message: string)

  /** `max(cosine_sim(answer, e, embedding) for e in expected)`. */
  function MaxSimilarity(sim: Similarity, answer: string, expected: seq<string>): (m: real)
    requires expected != []
    ensures forall i :: 0 <= i < |expected| ==> sim(answer, expected[i]) <= m
    ensures exists i :: 0 <= i < |expected| && sim(answer, expected[i]) == m
    decreases |expected|
  {
    if |expected| == 1 then sim(answer, expected[0])
    else
      var rest := MaxSimilarity(sim, answer, expected[1..]);
      var first := sim(answer, expected[0]);
      if first >= rest then first else rest
  }

  /** `evaluate_answer(query, expected, chain)`: `outcome` is what the chain
      did with the query and `elapsed` the time it took.  The result is
      `(elapsed, answer, best similarity)`, or `(0, str(e), 0)` when the chain
      raises or `expected` is empty. */
  function EvaluateAnswer(sim: Similarity, outcome: ChainResult, elapsed: real, expected: seq<string>): (r: (real, string, real))
    ensures outcome.Answered? && expected != [] ==>
      && r.0 == elapsed && r.1 == outcome.answer
      && (forall i :: 0 <= i < |expected| ==> sim(outcome.answer, expected[i]) <= r.2)
      && (exists i :: 0 <= i < |expected| && sim(outcome.answer, expected[i]) == r.2)
    ensures outcome.Raised? ==> r == (0.0, outcome.message, 0.0)
    ensures outcome.Answered? && expected == [] ==> r == (0.0, EMPTY_MAX_MESSAGE, 0.0)
  {
    match outcome
    case Raised(message) => (0.0, message, 0.0)
    case Answered(answer) =>
      if expected == [] then (0.0, EMPTY_MAX_MESSAGE, 0.0)
      else (elapsed, answer, MaxSimilarity(sim, answer, expected))
  }
}
