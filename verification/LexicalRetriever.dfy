/**
 The in-memory lexical retriever: BM25 over the chunks with usable text, highest score first, ties in
 document order. Tokenization is an arbitrary function.
 */
module LexicalRetriever {
  import opened Sequences
  import opened Bm25
  import opened Sorting

  datatype Chunk = Chunk(id: string, text: string)

  datatype Hit = Hit(index: nat, score: real)

  datatype Retrieved = Retrieved(chunk: Chunk, score: real)

  function UsableOnly(chunks: seq<Chunk>, usable: string -> bool): seq<Chunk> {
    if chunks == [] then []
    else
      var front := UsableOnly(chunks[..|chunks| - 1], usable);
      if usable(chunks[|chunks| - 1].text) then front + [chunks[|chunks| - 1]] else front
  }

  /** The chunks without usable text drop out; the others keep their order. */
  lemma {:induction false} UsableKept(before: seq<Chunk>, c: Chunk, after: seq<Chunk>, usable: string -> bool)
    ensures UsableOnly(before + [c] + after, usable) ==
      UsableOnly(before, usable) + (if usable(c.text) then [c] else []) + UsableOnly(after, usable)
    decreases |after|
  {
    if after == [] {
      assert (before + [c] + after)[..|before|] == before;
      assert before + [c] + after == before + [c];
    } else {
      var front, last := after[..|after| - 1], after[|after| - 1];
      UsableKept(before, c, front, usable);
      assert (before + [c] + after)[..|before| + 1 + |front|] == before + [c] + front;
    }
  }

  function TokensOf(chunks: seq<Chunk>, tokenize: string -> Tokens): (docs: seq<Tokens>)
    ensures |docs| == |chunks| && forall i :: 0 <= i < |docs| ==> docs[i] == tokenize(chunks[i].text)
  {
    seq(|chunks|, i requires 0 <= i < |chunks| => tokenize(chunks[i].text))
  }

  /** The chunks scoring above the threshold, in document order. */
  function Scored(query: Tokens, docs: seq<Tokens>, stats: Stats, ln: Log, least: real, n: nat): seq<Hit>
    requires stats.avgLen >= 0.0 && n <= |docs|
  {
    if n == 0 then []
    else
      var front := Scored(query, docs, stats, ln, least, n - 1);
      var score := Score(query, docs[n - 1], stats, ln);
      if score > least then front + [Hit(n - 1, score)] else front
  }

  predicate NoLater(p: Hit, q: Hit) {
    p.score > q.score || (p.score == q.score && p.index <= q.index)
  }

  /** Higher score first, then the earlier chunk. */
  predicate Ahead(p: Hit, q: Hit) {
    p.score > q.score || (p.score == q.score && p.index < q.index)
  }

  function Top(query: Tokens, docs: seq<Tokens>, stats: Stats, ln: Log, topK: int, least: real): seq<Hit>
    requires stats.avgLen >= 0.0
  {
    Take(Sort(Scored(query, docs, stats, ln, least, |docs|), NoLater), topK)
  }

  /** What a query is answered with; nothing when it has no tokens. */
  function Answer(query: Tokens, docs: seq<Tokens>, stats: Stats, ln: Log, topK: int, least: real): seq<Hit>
    requires stats.avgLen >= 0.0
  {
    if topK <= 0 || docs == [] || query == [] then [] else Top(query, docs, stats, ln, topK, least)
  }

  ghost predicate Listed(hits: seq<Hit>, index: nat) {
    exists i :: 0 <= i < |hits| && hits[i].index == index
  }

  function Limit(topK: int): nat {
    if topK < 0 then 0 else topK
  }

  lemma {:induction false} ScoredExact(query: Tokens, docs: seq<Tokens>, stats: Stats, ln: Log, least: real, n: nat)
    requires stats.avgLen >= 0.0 && n <= |docs|
    ensures var hits := Scored(query, docs, stats, ln, least, n);
      && (forall h :: h in hits <==> h.index < n && h.score == Score(query, docs[h.index], stats, ln) && h.score > least)
      && NoRepeats(hits)
  {
    hide Score;
    if n > 0 {
      ScoredExact(query, docs, stats, ln, least, n - 1);
    }
  }

  ghost predicate StrictlyRanked(hits: seq<Hit>) {
    forall i, j :: 0 <= i < j < |hits| ==> Ahead(hits[i], hits[j])
  }

  /** The hit is listed, or the list is full of better ones. */
  ghost predicate NotMissed(hits: seq<Hit>, h: Hit, topK: int) {
    Listed(hits, h.index) || (|hits| == Limit(topK) && forall g :: g in hits ==> Ahead(g, h))
  }

  /**
   The list holds chunks above the threshold with their scores, in strict order, at most `topK` of
   them; a chunk above the threshold is missing only when `topK` better ones are listed.
   */
  lemma TopIsTop(query: Tokens, docs: seq<Tokens>, stats: Stats, ln: Log, topK: int, least: real)
    requires stats.avgLen >= 0.0
    ensures var hits := Top(query, docs, stats, ln, topK, least);
      && StrictlyRanked(hits) && |hits| <= Limit(topK)
      && (forall h :: h in hits ==> h.index < |docs| && h.score == Score(query, docs[h.index], stats, ln) && h.score > least)
      && (forall d: nat :: d < |docs| && Score(query, docs[d], stats, ln) > least ==>
            NotMissed(hits, Hit(d, Score(query, docs[d], stats, ln)), topK))
  {
    var scored := Scored(query, docs, stats, ln, least, |docs|);
    ScoredExact(query, docs, stats, ln, least, |docs|);
    SortMembers(scored, NoLater);
    SortDistinct(scored, NoLater);
    hide Score, Scored, Sort, NotMissed, StrictlyRanked, Ahead, NoLater, NoRepeats;
    var sorted := Sort(scored, NoLater);
    var hits := Take(sorted, topK);
    SortedStrictly(sorted);
    TakeRanked(sorted, topK);
    forall d: nat | d < |docs| && Score(query, docs[d], stats, ln) > least
      ensures NotMissed(hits, Hit(d, Score(query, docs[d], stats, ln)), topK)
    {
      assert Hit(d, Score(query, docs[d], stats, ln)) in sorted;
    }
  }

  lemma SortedStrictly(sorted: seq<Hit>)
    requires Ordered(sorted, NoLater) && NoRepeats(sorted)
    ensures StrictlyRanked(sorted)
  {
    forall i, j | 0 <= i < j < |sorted| ensures Ahead(sorted[i], sorted[j]) {
      assert NoLater(sorted[i], sorted[j]) && sorted[i] != sorted[j];
    }
  }

  lemma TakeRanked(sorted: seq<Hit>, topK: int)
    requires StrictlyRanked(sorted)
    ensures var hits := Take(sorted, topK);
      && StrictlyRanked(hits) && |hits| <= Limit(topK)
      && (forall h :: h in hits ==> h in sorted)
      && (forall h :: h in sorted ==> NotMissed(hits, h, topK))
  {
    var hits := Take(sorted, topK);
    hide Ahead;
    forall h | h in sorted ensures NotMissed(hits, h, topK) {
      var m :| 0 <= m < |sorted| && sorted[m] == h;
      if m < |hits| {
        assert hits[m] == h;
      } else {
        forall g | g in hits ensures Ahead(g, h) {
          var i :| 0 <= i < |hits| && hits[i] == g;
          assert sorted[i] == g;
        }
      }
    }
  }

  /**
   With a positive logarithm and no threshold, the list holds the first chunks, in strict order, of
   those sharing a token with the query: all of them, or `topK`.
   */
  lemma AnswerShares(query: Tokens, docs: seq<Tokens>, ln: Log, topK: int)
    requires PositiveAboveOne(ln)
    ensures var stats := StatsOf(docs, ln);
      var hits := Answer(query, docs, stats, ln, topK, 0.0);
      && StrictlyRanked(hits) && |hits| <= Limit(topK)
      && (forall h :: h in hits ==> h.index < |docs| && h.score == Score(query, docs[h.index], stats, ln) && Shares(query, docs[h.index]))
      && (forall d: nat :: d < |docs| && Shares(query, docs[d]) ==> NotMissed(hits, Hit(d, Score(query, docs[d], stats, ln)), topK))
  {
    var stats := StatsOf(docs, ln);
    TopIsTop(query, docs, stats, ln, topK, 0.0);
    hide Top, Score, StatsOf, Ahead;
    forall d: nat | d < |docs| ensures Score(query, docs[d], stats, ln) > 0.0 <==> Shares(query, docs[d]) {
      PositiveIffShares(query, docs, d, ln);
    }
  }

  /** The chunks behind the hits, with their scores. */
  function Present(hits: seq<Hit>, chunks: seq<Chunk>): seq<Retrieved> {
    if hits == [] then []
    else
      var front, last := Present(hits[..|hits| - 1], chunks), hits[|hits| - 1];
      if last.index < |chunks| then front + [Retrieved(chunks[last.index], last.score)] else front
  }

  lemma {:induction false} PresentExact(hits: seq<Hit>, chunks: seq<Chunk>)
    requires forall h :: h in hits ==> h.index < |chunks|
    ensures var results := Present(hits, chunks);
      |results| == |hits| && forall i :: 0 <= i < |hits| ==> results[i] == Retrieved(chunks[hits[i].index], hits[i].score)
  {
    if hits != [] {
      PresentExact(hits[..|hits| - 1], chunks);
    }
  }

  // ---------- what the caller gets ----------

  /** Each result is the chunk at its position. */
  ghost predicate FoundAt(results: seq<Retrieved>, positions: seq<nat>, chunks: seq<Chunk>) {
    |positions| == |results| && forall i :: 0 <= i < |results| ==> positions[i] < |chunks| && results[i].chunk == chunks[positions[i]]
  }

  /** All results score more than `score`, or as much at an earlier position than `d`. */
  ghost predicate Beaten(results: seq<Retrieved>, positions: seq<nat>, score: real, d: nat)
    requires |positions| == |results|
  {
    forall i :: 0 <= i < |results| ==> results[i].score > score || (results[i].score == score && positions[i] < d)
  }

  /** Scores fall, and equal scores stand in the order of the chunks. */
  ghost predicate BestFirst(results: seq<Retrieved>, positions: seq<nat>)
    requires |positions| == |results|
  {
    forall j :: 0 <= j < |results| ==> Beaten(results[..j], positions[..j], results[j].score, positions[j])
  }

  /** The chunk is among the results, or `topK` better ones are. */
  ghost predicate ReturnedOrBeaten(results: seq<Retrieved>, positions: seq<nat>, topK: int, score: real, d: nat)
    requires |positions| == |results|
  {
    d in positions || (|results| == topK && Beaten(results, positions, score, d))
  }

  ghost function Positions(hits: seq<Hit>): (r: seq<nat>)
    ensures |r| == |hits| && forall i :: 0 <= i < |hits| ==> r[i] == hits[i].index
  {
    seq(|hits|, i requires 0 <= i < |hits| => hits[i].index)
  }

  lemma PresentedInOrder(hits: seq<Hit>, chunks: seq<Chunk>)
    requires StrictlyRanked(hits) && forall h :: h in hits ==> h.index < |chunks|
    ensures FoundAt(Present(hits, chunks), Positions(hits), chunks) && BestFirst(Present(hits, chunks), Positions(hits))
  {
    PresentExact(hits, chunks);
    hide Present;
  }

  lemma NoneMissed(hits: seq<Hit>, chunks: seq<Chunk>, topK: int, score: real, d: nat)
    requires NotMissed(hits, Hit(d, score), topK) && topK > 0 && forall h :: h in hits ==> h.index < |chunks|
    ensures |Present(hits, chunks)| == |Positions(hits)|
    ensures ReturnedOrBeaten(Present(hits, chunks), Positions(hits), topK, score, d)
  {
    PresentExact(hits, chunks);
    hide Present;
    if i :| 0 <= i < |hits| && hits[i].index == d {
      assert Positions(hits)[i] == d;
    }
  }

  class LexicalRetriever {
    const tokenize: string -> Tokens
    const ln: Log
    const chunks: seq<Chunk>
    const docTokens: seq<Tokens>
    const stats: Stats

    ghost predicate Valid() {
      docTokens == TokensOf(chunks, tokenize) && stats == StatsOf(docTokens, ln)
    }

    constructor (chunks: seq<Chunk>, usable: string -> bool, tokenize: string -> Tokens, ln: Log)
      ensures Valid() && this.chunks == UsableOnly(chunks, usable) && this.tokenize == tokenize && this.ln == ln
    {
      var docs := TokensOf(UsableOnly(chunks, usable), tokenize);
      var built := BuildCorpusStats(docs, ln);
      this.tokenize, this.ln := tokenize, ln;
      this.chunks, this.docTokens, this.stats := UsableOnly(chunks, usable), docs, built;
    }

    ghost function ScoreAt(query: string, d: nat): real
      requires Valid() && d < |chunks|
    {
      Score(tokenize(query), tokenize(chunks[d].text), stats, ln)
    }

    /** The best chunks for the query, and where they were found. */
    method Retrieve(query: string, topK: int, minScore: real) returns (results: seq<Retrieved>, ghost positions: seq<nat>)
      requires Valid()
      ensures results == Present(Answer(tokenize(query), docTokens, stats, ln, topK, minScore), chunks)
      ensures FoundAt(results, positions, chunks) && BestFirst(results, positions) && (results == [] || |results| <= topK)
      ensures forall i :: 0 <= i < |results| ==> results[i].score == ScoreAt(query, positions[i]) > minScore
      ensures forall d: nat :: d < |chunks| && topK > 0 && tokenize(query) != [] && ScoreAt(query, d) > minScore ==>
        ReturnedOrBeaten(results, positions, topK, ScoreAt(query, d), d)
      ensures PositiveAboveOne(ln) && minScore == 0.0 ==>
        forall d: nat :: d < |chunks| ==> (Shares(tokenize(query), tokenize(chunks[d].text)) <==> ScoreAt(query, d) > minScore)
    {
      hide StatsOf, Score, Present, FoundAt, BestFirst, ReturnedOrBeaten, Sort, Positions, Shares;
      var tokens := tokenize(query);
      SharingScores(tokens, minScore);
      results, positions := [], [];
      Nothing(chunks);
      if topK <= 0 || chunks == [] {
        return;
      }
      if tokens == [] {
        return;
      }
      var scored: seq<Hit> := [];
      for i := 0 to |docTokens|
        invariant scored == Scored(tokens, docTokens, stats, ln, minScore, i)
      {
        var score := Bm25Score(tokens, docTokens[i], stats, ln);
        if score > minScore {
          scored := scored + [Hit(i, score)];
        }
      }
      TopIsTop(tokens, docTokens, stats, ln, topK, minScore);
      var hits := Take(Sort(scored, NoLater), topK);
      assert hits == Answer(tokens, docTokens, stats, ln, topK, minScore);
      positions := Positions(hits);
      results := BuildResults(hits, chunks);
      PresentedInOrder(hits, chunks);
      PresentExact(hits, chunks);
      forall d: nat | d < |chunks| && ScoreAt(query, d) > minScore
        ensures ReturnedOrBeaten(results, positions, topK, ScoreAt(query, d), d)
      {
        NoneMissed(hits, chunks, topK, ScoreAt(query, d), d);
      }
    }

    lemma SharingScores(tokens: Tokens, minScore: real)
      requires Valid()
      ensures PositiveAboveOne(ln) && minScore == 0.0 ==>
        forall d: nat :: d < |chunks| ==> (Shares(tokens, tokenize(chunks[d].text)) <==> Score(tokens, tokenize(chunks[d].text), stats, ln) > minScore)
    {
      hide StatsOf, Score, Shares;
      if PositiveAboveOne(ln) && minScore == 0.0 {
        forall d: nat | d < |chunks|
          ensures Shares(tokens, docTokens[d]) <==> Score(tokens, docTokens[d], stats, ln) > minScore
        {
          PositiveIffShares(tokens, docTokens, d, ln);
        }
      }
    }
  }

  lemma Nothing(chunks: seq<Chunk>)
    ensures Present([], chunks) == [] && FoundAt([], [], chunks) && BestFirst([], [])
  {
  }

  method BuildResults(hits: seq<Hit>, chunks: seq<Chunk>) returns (results: seq<Retrieved>)
    requires forall h :: h in hits ==> h.index < |chunks|
    ensures results == Present(hits, chunks)
  {
    results := [];
    for i := 0 to |hits|
      invariant results == Present(hits[..i], chunks)
    {
      assert hits[..i + 1][..i] == hits[..i];
      results := results + [Retrieved(chunks[hits[i].index], hits[i].score)];
    }
    assert hits[..|hits|] == hits;
  }
}
