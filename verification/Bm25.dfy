/**
 BM25 scoring over tokenized documents. The natural logarithm is a parameter, of which only its sign above one and, where
 said, that it is increasing are used.
 */
module Bm25 {
  import opened Reals

  type Tokens = seq<string>

  const K1 := 1.5
  const B := 0.75

  datatype Stats = Stats(idf: map<string, real>, avgLen: real, count: nat)

  type Log = real -> real

  ghost predicate PositiveAboveOne(ln: Log) {
    forall x :: x > 1.0 ==> ln(x) > 0.0
  }

  // ---------- corpus statistics ----------

  /** In how many documents the term occurs. */
  function DocFreq(docs: seq<Tokens>, term: string): nat {
    if docs == [] then 0
    else DocFreq(docs[..|docs| - 1], term) + if term in docs[|docs| - 1] then 1 else 0
  }

  function Vocabulary(docs: seq<Tokens>): set<string> {
    if docs == [] then {}
    else Vocabulary(docs[..|docs| - 1]) + Terms(docs[|docs| - 1])
  }

  function Terms(doc: Tokens): set<string> {
    set t | t in doc
  }

  function TotalLen(docs: seq<Tokens>): nat {
    if docs == [] then 0 else TotalLen(docs[..|docs| - 1]) + |docs[|docs| - 1]|
  }

  function Ratio(n: int, df: nat): real {
    (n as real - df as real + 0.5) / (df as real + 0.5)
  }

  function StatsOf(docs: seq<Tokens>, ln: Log): (stats: Stats)
    ensures stats.avgLen >= 0.0
  {
    if docs == [] then Stats(map[], 0.0, 0)
    else
      LengthRatio(TotalLen(docs), |docs| as real);
      Stats(map t | t in Vocabulary(docs) :: ln(1.0 + Ratio(|docs|, DocFreq(docs, t))),
               TotalLen(docs) as real / |docs| as real, |docs|)
  }

  /** A term of the corpus occurs in at least one document and in no more than there are. */
  lemma {:induction false} DocFreqBounds(docs: seq<Tokens>, term: string)
    ensures DocFreq(docs, term) <= |docs|
    ensures DocFreq(docs, term) > 0 <==> term in Vocabulary(docs)
    ensures term in Vocabulary(docs) <==> exists i :: 0 <= i < |docs| && term in docs[i]
  {
    if docs != [] {
      DocFreqBounds(docs[..|docs| - 1], term);
      var front := docs[..|docs| - 1];
      assert forall i :: 0 <= i < |front| ==> front[i] == docs[i];
    }
  }

  lemma QuotientPositive(a: real, b: real)
    requires a > 0.0 && b > 0.0
    ensures a / b > 0.0
  {
  }

  /** Every term of the corpus has a positive weight, because it occurs in at most as many documents as there are. */
  lemma IdfPositive(docs: seq<Tokens>, ln: Log, term: string)
    requires PositiveAboveOne(ln) && term in Vocabulary(docs)
    ensures term in StatsOf(docs, ln).idf && StatsOf(docs, ln).idf[term] > 0.0
  {
    DocFreqBounds(docs, term);
    var df := DocFreq(docs, term);
    QuotientPositive(|docs| as real - df as real + 0.5, df as real + 0.5);
  }

  method BuildCorpusStats(docs: seq<Tokens>, ln: Log) returns (stats: Stats)
    ensures stats == StatsOf(docs, ln)
  {
    if |docs| == 0 {
      return Stats(map[], 0.0, 0);
    }
    var docFreq, total := CountDocuments(docs);
    var idf := InverseFrequencies(docFreq, |docs|, ln);
    stats := Stats(idf, total as real / |docs| as real, |docs|);
  }

  method InverseFrequencies(docFreq: map<string, nat>, n: nat, ln: Log) returns (idf: map<string, real>)
    ensures idf == map t | t in docFreq.Keys :: ln(1.0 + Ratio(n, docFreq[t]))
  {
    idf := map[];
    var remaining := docFreq.Keys;
    while remaining != {}
      invariant remaining <= docFreq.Keys
      invariant idf == map t | t in docFreq.Keys - remaining :: ln(1.0 + Ratio(n, docFreq[t]))
    {
      var term :| term in remaining;
      idf := idf[term := ln(1.0 + Ratio(n, docFreq[term]))];
      remaining := remaining - {term};
    }
  }

  method CountDocuments(docs: seq<Tokens>) returns (docFreq: map<string, nat>, total: nat)
    ensures docFreq.Keys == Vocabulary(docs) && forall t :: t in docFreq ==> docFreq[t] == DocFreq(docs, t)
    ensures total == TotalLen(docs)
  {
    docFreq, total := map[], 0;
    assert docs[..0] == [];
    for i := 0 to |docs|
      invariant docFreq.Keys == Vocabulary(docs[..i])
      invariant forall t :: t in docFreq ==> docFreq[t] == DocFreq(docs[..i], t)
      invariant total == TotalLen(docs[..i])
    {
      assert docs[..i + 1][..i] == docs[..i];
      total := total + |docs[i]|;
      ghost var before := docFreq;
      forall t ensures DocFreq(docs[..i], t) > 0 <==> t in Vocabulary(docs[..i]) {
        DocFreqBounds(docs[..i], t);
      }
      var remaining := Terms(docs[i]);
      while remaining != {}
        invariant remaining <= Terms(docs[i])
        invariant docFreq.Keys == Vocabulary(docs[..i]) + (Terms(docs[i]) - remaining)
        invariant forall t :: t in docFreq ==>
          docFreq[t] == DocFreq(docs[..i], t) + if t in Terms(docs[i]) - remaining then 1 else 0
      {
        hide DocFreq, Vocabulary;
        var term :| term in remaining;
        docFreq := docFreq[term := (if term in docFreq then docFreq[term] else 0) + 1];
        remaining := remaining - {term};
      }
    }
    assert docs[..|docs|] == docs;
  }

  // ---------- scoring a document ----------

  function TermFreq(doc: Tokens, term: string): nat {
    if doc == [] then 0 else TermFreq(doc[..|doc| - 1], term) + if doc[|doc| - 1] == term then 1 else 0
  }

  function Weight(stats: Stats, ln: Log, term: string): real {
    if term in stats.idf then stats.idf[term]
    else if stats.count > 0 then ln(1.0 + (stats.count as real + 0.5) / 0.5)
    else 1.0
  }

  /** The average length to compare with; never zero for a non-empty document. */
  function Average(stats: Stats, len: nat): real {
    if stats.avgLen != 0.0 then stats.avgLen else if len > 0 then len as real else 1.0
  }

  function Denominator(tf: nat, len: nat, average: real): (d: real)
    requires average > 0.0
    ensures d > 0.0
  {
    LengthRatio(len, average);
    tf as real + K1 * (1.0 - B + B * (len as real / average))
  }

  lemma LengthRatio(len: nat, average: real)
    requires average > 0.0
    ensures len as real / average >= 0.0
  {
    if len > 0 {
      QuotientPositive(len as real, average);
    }
  }

  /** What one occurrence of a term in the query adds to the score of a document. */
  function Gain(doc: Tokens, stats: Stats, ln: Log, term: string): real
    requires stats.avgLen >= 0.0
  {
    var tf := TermFreq(doc, term);
    if tf == 0 then 0.0 else Contribution(stats, ln, term, tf, |doc|)
  }

  function Contribution(stats: Stats, ln: Log, term: string, tf: nat, len: nat): real
    requires stats.avgLen >= 0.0
  {
    Weight(stats, ln, term) * (tf as real * (K1 + 1.0)) / Denominator(tf, len, Average(stats, len))
  }

  function Score(query: Tokens, doc: Tokens, stats: Stats, ln: Log): real
    requires stats.avgLen >= 0.0
  {
    if query == [] then 0.0
    else Score(query[..|query| - 1], doc, stats, ln) + Gain(doc, stats, ln, query[|query| - 1])
  }

  ghost predicate Shares(query: Tokens, doc: Tokens) {
    exists t :: t in query && t in doc
  }

  lemma {:induction false} TermFreqPositive(doc: Tokens, term: string)
    ensures TermFreq(doc, term) > 0 <==> term in doc
  {
    if doc != [] {
      TermFreqPositive(doc[..|doc| - 1], term);
    }
  }

  lemma GainPositive(docs: seq<Tokens>, d: int, ln: Log, term: string)
    requires PositiveAboveOne(ln) && 0 <= d < |docs|
    ensures Gain(docs[d], StatsOf(docs, ln), ln, term) >= 0.0
    ensures Gain(docs[d], StatsOf(docs, ln), ln, term) > 0.0 <==> term in docs[d]
  {
    var doc, stats := docs[d], StatsOf(docs, ln);
    TermFreqPositive(doc, term);
    if term in doc {
      DocFreqBounds(docs, term);
      IdfPositive(docs, ln, term);
      hide StatsOf;
      var numerator := Weight(stats, ln, term) * (TermFreq(doc, term) as real * (K1 + 1.0));
      ProductPositive(Weight(stats, ln, term), TermFreq(doc, term) as real * (K1 + 1.0));
      QuotientPositive(numerator, Denominator(TermFreq(doc, term), |doc|, Average(stats, |doc|)));
    }
  }

  /** A document of the corpus scores above zero exactly when it shares a token with the query. */
  lemma {:induction false} PositiveIffShares(query: Tokens, docs: seq<Tokens>, d: int, ln: Log)
    requires PositiveAboveOne(ln) && 0 <= d < |docs|
    ensures Score(query, docs[d], StatsOf(docs, ln), ln) >= 0.0
    ensures Score(query, docs[d], StatsOf(docs, ln), ln) > 0.0 <==> Shares(query, docs[d])
  {
    if query != [] {
      hide StatsOf, Gain;
      var front, last := query[..|query| - 1], query[|query| - 1];
      PositiveIffShares(front, docs, d, ln);
      GainPositive(docs, d, ln, last);
      assert Shares(query, docs[d]) <==> Shares(front, docs[d]) || last in docs[d] by {
        assert query == front + [last];
      }
    }
  }

  method CountTerms(doc: Tokens) returns (tf: map<string, nat>)
    ensures forall t :: (if t in tf then tf[t] else 0) == TermFreq(doc, t)
  {
    tf := map[];
    assert doc[..0] == [];
    for i := 0 to |doc|
      invariant forall t :: (if t in tf then tf[t] else 0) == TermFreq(doc[..i], t)
    {
      assert doc[..i + 1][..i] == doc[..i];
      tf := tf[doc[i] := (if doc[i] in tf then tf[doc[i]] else 0) + 1];
    }
    assert doc[..|doc|] == doc;
  }

  method Bm25Score(query: Tokens, doc: Tokens, stats: Stats, ln: Log) returns (score: real)
    requires stats.avgLen >= 0.0
    ensures score == Score(query, doc, stats, ln)
  {
    if query == [] || doc == [] {
      EmptyDocument(query, stats, ln);
      return 0.0;
    }
    var tf := CountTerms(doc);
    hide Contribution, TermFreq;
    score := 0.0;
    assert query[..0] == [];
    for i := 0 to |query|
      invariant score == Score(query[..i], doc, stats, ln)
    {
      assert query[..i + 1][..i] == query[..i];
      var term := query[i];
      if term !in tf || tf[term] == 0 {
        continue;
      }
      score := score + Contribution(stats, ln, term, tf[term], |doc|);
    }
    assert query[..|query|] == query;
  }

  lemma {:induction false} EmptyDocument(query: Tokens, stats: Stats, ln: Log)
    requires stats.avgLen >= 0.0
    ensures Score(query, [], stats, ln) == 0.0
  {
    if query != [] {
      EmptyDocument(query[..|query| - 1], stats, ln);
    }
  }

  // ---------- the shape of a score ----------

  lemma ProductOrder(x: real, y: real, c: real)
    requires x < y && c > 0.0
    ensures x * c < y * c
  {
    ProductPositive(y - x, c);
    assert (y - x) * c == y * c - x * c;
  }

  /** Quotients compare as their cross products do. */
  lemma CrossProducts(a: real, b: real, c: real, d: real)
    requires b > 0.0 && d > 0.0 && a * d < c * b
    ensures a / b < c / d
  {
    var x, y := a / b, c / d;
    assert x * b == a && y * d == c;
    ProductPositive(b, d);
    assert (x * b) * d == x * (b * d);
    assert (y * d) * b == y * (b * d);
    if y <= x {
      NotBelow(y, x, b * d);
    }
  }

  lemma NotBelow(y: real, x: real, c: real)
    requires y <= x && c > 0.0
    ensures y * c <= x * c
  {
    if y < x {
      ProductOrder(y, x, c);
    }
  }

  /** The part of the denominator that depends on the length of the document only. */
  function LengthPart(len: nat, average: real): real
    requires average > 0.0
  {
    K1 * (1.0 - B + B * (len as real / average))
  }

  lemma LengthPartPositive(len: nat, average: real)
    requires average > 0.0
    ensures LengthPart(len, average) > 0.0
  {
    LengthRatio(len, average);
  }

  /** Saturation: tf/(tf + c) grows with tf and stays below one. */
  lemma Saturates(w: real, a: real, b: real, c: real)
    requires w > 0.0 && 0.0 < a < b && c > 0.0
    ensures w * (a * (K1 + 1.0)) / (a + c) < w * (b * (K1 + 1.0)) / (b + c)
    ensures w * (b * (K1 + 1.0)) / (b + c) < w * (K1 + 1.0)
  {
    var v := w * (K1 + 1.0);
    assert w * (a * (K1 + 1.0)) == v * a && w * (b * (K1 + 1.0)) == v * b;
    ProductPositive(v, c);
    ProductOrder(a, b, v * c);
    assert (v * a) * (b + c) == (v * a) * b + a * (v * c);
    assert (v * b) * (a + c) == (v * a) * b + b * (v * c);
    CrossProducts(v * a, a + c, v * b, b + c);
    assert (v * b) * 1.0 < v * (b + c);
    CrossProducts(v * b, b + c, v, 1.0);
  }

  /** In documents of one length, a term scores higher the oftener it occurs, but never reaches K1 + 1 times its weight. */
  lemma OftenerScoresHigher(stats: Stats, ln: Log, term: string, tf: nat, more: nat, len: nat)
    requires stats.avgLen >= 0.0 && Weight(stats, ln, term) > 0.0 && 0 < tf < more
    ensures Contribution(stats, ln, term, tf, len) < Contribution(stats, ln, term, more, len) < Weight(stats, ln, term) * (K1 + 1.0)
  {
    var average := Average(stats, len);
    LengthPartPositive(len, average);
    assert Denominator(tf, len, average) == tf as real + LengthPart(len, average);
    assert Denominator(more, len, average) == more as real + LengthPart(len, average);
    hide Denominator, Weight, LengthPart;
    Saturates(Weight(stats, ln, term), tf as real, more as real, LengthPart(len, average));
  }

  /** Among documents with equally many occurrences, the longer one scores lower. */
  lemma LongerScoresLower(stats: Stats, ln: Log, term: string, tf: nat, len: nat, longer: nat)
    requires stats.avgLen > 0.0 && Weight(stats, ln, term) > 0.0 && tf > 0 && len < longer
    ensures Contribution(stats, ln, term, tf, longer) < Contribution(stats, ln, term, tf, len)
  {
    var average := stats.avgLen;
    var d, e := Denominator(tf, len, average), Denominator(tf, longer, average);
    ProductOrder(len as real, longer as real, average);
    CrossProducts(len as real, average, longer as real, average);
    assert d < e;
    hide Denominator, Weight;
    var n := Weight(stats, ln, term) * (tf as real * (K1 + 1.0));
    ProductPositive(Weight(stats, ln, term), tf as real * (K1 + 1.0));
    ProductOrder(d, e, n);
    CrossProducts(n, e, n, d);
  }

  // ---------- what a score is made of ----------

  /** The documents in which the term occurs. */
  ghost function Containing(docs: seq<Tokens>, term: string): set<nat> {
    set d: nat | d < |docs| && term in docs[d]
  }

  lemma {:induction false} DocFreqCounts(docs: seq<Tokens>, term: string)
    ensures DocFreq(docs, term) == |Containing(docs, term)|
  {
    if docs != [] {
      var front, last := docs[..|docs| - 1], docs[|docs| - 1];
      DocFreqCounts(front, term);
      assert forall d: nat :: d < |front| ==> front[d] == docs[d];
      var before, after := Containing(front, term), Containing(docs, term);
      if term in last {
        assert after == before + {|front|};
      } else {
        assert after == before;
      }
    }
  }

  lemma OnePlusRatio(n: int, df: nat)
    ensures 1.0 + Ratio(n, df) == (n as real + 1.0) / (df as real + 0.5)
  {
    var d := df as real + 0.5;
    SumOverOne(n as real - df as real + 0.5, d);
    assert n as real - df as real + 0.5 + d == n as real + 1.0;
  }

  lemma SumOverOne(x: real, d: real)
    requires d > 0.0
    ensures 1.0 + x / d == (x + d) / d
  {
    var q := x / d;
    assert q * d == x;
    assert (1.0 + q) * d == d + q * d;
    QuotientUnique(x + d, d, 1.0 + q);
  }

  lemma QuotientUnique(z: real, d: real, y: real)
    requires d > 0.0 && y * d == z
    ensures z / d == y
  {
    var q := z / d;
    assert q * d == z;
    if q < y {
      ProductOrder(q, y, d);
    } else if y < q {
      ProductOrder(y, q, d);
    }
  }

  /** The weight of a term, in the corpus or not, is set by the number of documents it occurs in alone. */
  lemma WeightIs(docs: seq<Tokens>, ln: Log, term: string)
    requires docs != []
    ensures Weight(StatsOf(docs, ln), ln, term) == ln((|docs| as real + 1.0) / (|Containing(docs, term)| as real + 0.5))
  {
    DocFreqCounts(docs, term);
    DocFreqBounds(docs, term);
    OnePlusRatio(|docs|, DocFreq(docs, term));
    UnseenWeight(|docs| as real);
    hide Ratio, Containing;
  }

  lemma UnseenWeight(n: real)
    ensures 1.0 + (n + 0.5) / 0.5 == (n + 1.0) / 0.5
  {
  }

  ghost predicate Increasing(ln: Log) {
    forall x, y :: 0.0 < x < y ==> ln(x) < ln(y)
  }

  /** A term in fewer documents weighs more, and terms in equally many weigh the same. */
  lemma RarerWeighsMore(docs: seq<Tokens>, ln: Log, rare: string, common: string)
    requires docs != [] && Increasing(ln)
    ensures Weight(StatsOf(docs, ln), ln, rare) > Weight(StatsOf(docs, ln), ln, common)
      <==> |Containing(docs, rare)| < |Containing(docs, common)|
  {
    WeightIs(docs, ln, rare);
    WeightIs(docs, ln, common);
    hide Weight, StatsOf;
    var n, r, c := |docs| as real + 1.0, |Containing(docs, rare)|, |Containing(docs, common)|;
    hide Containing;
    QuotientPositive(n, r as real + 0.5);
    QuotientPositive(n, c as real + 0.5);
    if r < c {
      SmallerDivisor(n, r as real + 0.5, c as real + 0.5);
    } else if c < r {
      SmallerDivisor(n, c as real + 0.5, r as real + 0.5);
    }
  }

  lemma SmallerDivisor(n: real, d: real, e: real)
    requires n > 0.0 && 0.0 < d < e
    ensures n / e < n / d
  {
    ProductOrder(d, e, n);
    CrossProducts(n, e, n, d);
  }

  lemma {:induction false} TermFreqCounts(doc: Tokens, term: string)
    ensures TermFreq(doc, term) == multiset(doc)[term]
  {
    if doc != [] {
      TermFreqCounts(doc[..|doc| - 1], term);
      assert doc == doc[..|doc| - 1] + [doc[|doc| - 1]];
    }
  }

  /** A query scores what its parts score, and a single token what it contributes if it occurs. */
  lemma {:induction false} ScoreAdds(query: Tokens, more: Tokens, doc: Tokens, stats: Stats, ln: Log)
    requires stats.avgLen >= 0.0
    ensures Score(query + more, doc, stats, ln) == Score(query, doc, stats, ln) + Score(more, doc, stats, ln)
  {
    hide Gain;
    if more == [] {
      assert query + more == query;
    } else {
      var front := more[..|more| - 1];
      ScoreAdds(query, front, doc, stats, ln);
      assert (query + more)[..|query + more| - 1] == query + front;
    }
  }

  lemma {:induction false} TotalOfEqual(docs: seq<Tokens>, len: nat)
    requires forall d :: 0 <= d < |docs| ==> |docs[d]| == len
    ensures TotalLen(docs) == len * |docs|
  {
    if docs != [] {
      TotalOfEqual(docs[..|docs| - 1], len);
    }
  }

  /** What `tf` occurrences of a term of weight `w` are worth when length is left out of account. */
  function Saturating(w: real, tf: nat): real {
    w * (tf as real * 2.5) / (tf as real + 1.5)
  }

  /** In a corpus of equally long documents the length makes no difference. */
  lemma EqualLengthsNeutral(docs: seq<Tokens>, ln: Log, d: nat, term: string)
    requires d < |docs| && term in docs[d] && forall e :: 0 <= e < |docs| ==> |docs[e]| == |docs[d]|
    ensures Score([term], docs[d], StatsOf(docs, ln), ln) == Saturating(Weight(StatsOf(docs, ln), ln, term), multiset(docs[d])[term])
  {
    var len, stats := |docs[d]|, StatsOf(docs, ln);
    AverageOfEqual(docs, ln, len);
    TermFreqCounts(docs[d], term);
    TermFreqPositive(docs[d], term);
    OneToken(term, docs[d], stats, ln);
    hide StatsOf, Weight, TermFreq, Contribution, Score, Saturating;
    NeutralContribution(stats, ln, term, TermFreq(docs[d], term), len);
  }

  lemma NeutralContribution(stats: Stats, ln: Log, term: string, tf: nat, len: nat)
    requires len > 0 && stats.avgLen == len as real
    ensures Contribution(stats, ln, term, tf, len) == Saturating(Weight(stats, ln, term), tf)
  {
    NeutralDenominator(tf, len);
    hide Weight, Denominator;
    assert Average(stats, len) == len as real;
  }

  lemma AverageOfEqual(docs: seq<Tokens>, ln: Log, len: nat)
    requires docs != [] && forall d :: 0 <= d < |docs| ==> |docs[d]| == len
    ensures StatsOf(docs, ln).avgLen == len as real
  {
    TotalOfEqual(docs, len);
    EqualAverage(len, |docs|);
    hide TotalLen;
  }

  /** How much the length counts: three quarters of it in proportion to the average, one quarter not at all. */
  lemma DenominatorIs(tf: nat, len: nat, average: real)
    requires average > 0.0
    ensures Denominator(tf, len, average) == tf as real + 0.375 + 1.125 * (len as real / average)
  {
  }

  /** Without an average to compare with, neither does it for a document that is not empty. */
  lemma NoAverageNeutral(stats: Stats, ln: Log, term: string, tf: nat, len: nat)
    requires len > 0 && stats.avgLen == 0.0
    ensures Contribution(stats, ln, term, tf, len) == Saturating(Weight(stats, ln, term), tf)
  {
    NeutralDenominator(tf, len);
    hide Weight, Denominator;
    assert Average(stats, len) == len as real;
  }

  /** Nor in an empty corpus, where every token weighs one. */
  lemma EmptyCorpusNeutral(ln: Log, term: string, tf: nat, len: nat)
    requires len > 0
    ensures Contribution(StatsOf([], ln), ln, term, tf, len) == Saturating(1.0, tf)
  {
    NoAverageNeutral(StatsOf([], ln), ln, term, tf, len);
  }

  lemma OneToken(term: string, doc: Tokens, stats: Stats, ln: Log)
    requires stats.avgLen >= 0.0
    ensures Score([term], doc, stats, ln) == Gain(doc, stats, ln, term)
  {
    hide Gain;
    assert [term][..0] == [];
    assert Score([], doc, stats, ln) == 0.0;
  }

  lemma EqualAverage(len: nat, n: nat)
    requires n > 0
    ensures (len * n) as real / n as real == len as real
  {
    assert (len * n) as real == len as real * n as real;
    QuotientUnique((len * n) as real, n as real, len as real);
  }

  lemma NeutralDenominator(tf: nat, len: nat)
    requires len > 0
    ensures Denominator(tf, len, len as real) == tf as real + 1.5
  {
    QuotientUnique(len as real, len as real, 1.0);
  }
}
