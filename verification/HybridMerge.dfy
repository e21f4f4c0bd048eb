/**
 Merging lexical and vector hits into one ranking: scores are scaled by the best of their kind,
 weighted and added, with a boost where both kinds agree.
 */
module HybridMerge {
  import opened Reals
  import opened Sequences
  import opened Wrappers
  import opened Sorting

  datatype LexicalHit = LexicalHit(id: string, text: string, score: real)

  type Scores = seq<(string, real)>

  datatype Merged = Merged(id: string, text: string, score: real, lexical: real, vector: real, sources: seq<string>)

  datatype Weights = Weights(lexical: real, vector: real, boost: real)

  // ---------- scores by id ----------

  /** The ids, in the order they first appear. */
  function Ids(scores: Scores): seq<string> {
    if scores == [] then []
    else
      var front, id := Ids(scores[..|scores| - 1]), scores[|scores| - 1].0;
      if id in front then front else front + [id]
  }

  /** The score of an id; a repeated id has its last one. */
  function Raw(scores: Scores, id: string): Option<real> {
    if scores == [] then None
    else if scores[|scores| - 1].0 == id then Some(scores[|scores| - 1].1)
    else Raw(scores[..|scores| - 1], id)
  }

  lemma {:induction false} IdsExact(scores: Scores)
    ensures NoRepeats(Ids(scores))
    ensures forall id :: id in Ids(scores) <==> Raw(scores, id).Some?
  {
    if scores != [] {
      IdsExact(scores[..|scores| - 1]);
    }
  }

  /** The largest score among some ids. */
  function Best(scores: Scores, ids: seq<string>): real {
    if ids == [] then 0.0
    else
      var last := Raw(scores, ids[|ids| - 1]).GetOr(0.0);
      if |ids| == 1 then last
      else
        var front := Best(scores, ids[..|ids| - 1]);
        if last > front then last else front
  }

  /** A score relative to the best of its kind; nothing counts when no score is positive. */
  function Scaled(scores: Scores, id: string): real {
    var best := Best(scores, Ids(scores));
    if best <= 0.0 then 0.0 else Raw(scores, id).GetOr(0.0) / best
  }

  lemma {:induction false} BestIsBest(scores: Scores, ids: seq<string>)
    requires ids != []
    ensures forall id :: id in ids ==> Raw(scores, id).GetOr(0.0) <= Best(scores, ids)
    ensures exists id :: id in ids && Raw(scores, id).GetOr(0.0) == Best(scores, ids)
  {
    if |ids| > 1 {
      var front, last := ids[..|ids| - 1], ids[|ids| - 1];
      BestIsBest(scores, front);
      assert ids == front + [last];
      var id :| id in front && Raw(scores, id).GetOr(0.0) == Best(scores, front);
      assert id in ids && last in ids;
    } else {
      assert ids[0] in ids;
    }
  }

  lemma ScaleOrder(x: real, y: real, c: real)
    requires c > 0.0
    ensures x <= y <==> x * c <= y * c
  {
    if x <= y {
      ProductNonNegative(y - x, c);
      assert (y - x) * c == y * c - x * c;
    } else {
      ProductPositive(x - y, c);
      assert (x - y) * c == x * c - y * c;
    }
  }

  lemma QuotientOrder(x: real, y: real, best: real)
    requires best > 0.0
    ensures x <= y <==> x / best <= y / best
    ensures best / best == 1.0
  {
    var a, b := x / best, y / best;
    assert a * best == x;
    assert b * best == y;
    ScaleOrder(a, b, best);
  }

  /** Scaling keeps the order of scores, and the best of them becomes one. */
  lemma ScaledOrder(scores: Scores, a: string, b: string)
    requires a in Ids(scores) && b in Ids(scores) && Best(scores, Ids(scores)) > 0.0
    ensures Raw(scores, a).GetOr(0.0) <= Raw(scores, b).GetOr(0.0) <==> Scaled(scores, a) <= Scaled(scores, b)
    ensures Scaled(scores, a) <= 1.0
    ensures Scaled(scores, a) == 1.0 <==> forall id :: id in Ids(scores) ==> Raw(scores, id).GetOr(0.0) <= Raw(scores, a).GetOr(0.0)
  {
    var best := Best(scores, Ids(scores));
    BestIsBest(scores, Ids(scores));
    var top :| top in Ids(scores) && Raw(scores, top).GetOr(0.0) == best;
    QuotientOrder(Raw(scores, a).GetOr(0.0), Raw(scores, b).GetOr(0.0), best);
    QuotientOrder(Raw(scores, a).GetOr(0.0), best, best);
    QuotientOrder(best, Raw(scores, a).GetOr(0.0), best);
  }

  // ---------- the merged ranking ----------

  function Share(weight: real, scaled: real): real {
    weight * scaled
  }

  function ScoresOf(hits: seq<LexicalHit>): (r: Scores)
    ensures |r| == |hits| && forall i :: 0 <= i < |r| ==> r[i] == (hits[i].id, hits[i].score)
  {
    seq(|hits|, i requires 0 <= i < |hits| => (hits[i].id, hits[i].score))
  }

  /** The text of the last lexical hit for the id. */
  function HitText(hits: seq<LexicalHit>, id: string): string {
    if hits == [] then ""
    else if hits[|hits| - 1].id == id then hits[|hits| - 1].text
    else HitText(hits[..|hits| - 1], id)
  }

  /** A chunk's own text; a lexical hit carries text for a chunk that is unknown or blank. */
  function TextFor(chunks: map<string, string>, id: string, fallback: string): string {
    if id in chunks && chunks[id] != "" then chunks[id] else fallback
  }

  function LexicalRecord(hits: seq<LexicalHit>, chunks: map<string, string>, w: Weights, id: string): Merged {
    RecordWith(HitText(hits, id), ScoresOf(hits), chunks, w, id)
  }

  function RecordWith(text: string, scores: Scores, chunks: map<string, string>, w: Weights, id: string): Merged {
    Merged(id, TextFor(chunks, id, text), Share(w.lexical, Scaled(scores, id)), Raw(scores, id).GetOr(0.0), 0.0, ["bm25"])
  }

  function VectorRecord(vectors: Scores, chunks: map<string, string>, w: Weights, id: string): Merged {
    Merged(id, TextFor(chunks, id, ""), Share(w.vector, Scaled(vectors, id)), 0.0, Raw(vectors, id).GetOr(0.0), ["vector"])
  }

  function Agreeing(m: Merged, vectors: Scores, w: Weights): Merged {
    m.(score := m.score + (Share(w.vector, Scaled(vectors, m.id)) + w.boost), vector := Raw(vectors, m.id).GetOr(0.0), sources := m.sources + ["vector"])
  }

  /** What an id merges to. */
  function Record(hits: seq<LexicalHit>, vectors: Scores, chunks: map<string, string>, w: Weights, id: string): Merged {
    if Raw(ScoresOf(hits), id).None? then VectorRecord(vectors, chunks, w, id)
    else
      var m := LexicalRecord(hits, chunks, w, id);
      if Raw(vectors, id).None? then m else Agreeing(m, vectors, w)
  }

  /** Ids added in order, those already there skipped. */
  function Extend(ids: seq<string>, more: seq<string>): seq<string> {
    if more == [] then ids
    else
      var front, last := Extend(ids, more[..|more| - 1]), more[|more| - 1];
      if last in front then front else front + [last]
  }

  function Everyone(hits: seq<LexicalHit>, vectors: Scores): seq<string> {
    Extend(Ids(ScoresOf(hits)), Ids(vectors))
  }

  function Records(hits: seq<LexicalHit>, vectors: Scores, chunks: map<string, string>, w: Weights, ids: seq<string>): (r: seq<Merged>)
    ensures |r| == |ids| && forall i :: 0 <= i < |r| ==> r[i] == Record(hits, vectors, chunks, w, ids[i])
  {
    seq(|ids|, i requires 0 <= i < |ids| => Record(hits, vectors, chunks, w, ids[i]))
  }

  predicate HigherScore(x: Merged, y: Merged) {
    x.score >= y.score
  }

  function Ranking(hits: seq<LexicalHit>, vectors: Scores, chunks: map<string, string>, w: Weights): seq<Merged> {
    Sort(Records(hits, vectors, chunks, w, Everyone(hits, vectors)), HigherScore)
  }

  lemma {:induction false} ExtendExact(ids: seq<string>, more: seq<string>)
    requires NoRepeats(ids)
    ensures NoRepeats(Extend(ids, more))
    ensures forall id :: id in Extend(ids, more) <==> id in ids || id in more
  {
    if more != [] {
      ExtendExact(ids, more[..|more| - 1]);
      assert more == more[..|more| - 1] + [more[|more| - 1]];
    }
  }

  /** An id some hit names. */
  predicate Named(hits: seq<LexicalHit>, vectors: Scores, id: string) {
    Raw(ScoresOf(hits), id).Some? || Raw(vectors, id).Some?
  }

  lemma RecordKeepsId(hits: seq<LexicalHit>, vectors: Scores, chunks: map<string, string>, w: Weights, id: string)
    ensures Record(hits, vectors, chunks, w, id).id == id
  {
  }

  /** The full ranking holds one record for each id a hit names, and is in descending score order. */
  lemma RankingIsUnion(hits: seq<LexicalHit>, vectors: Scores, chunks: map<string, string>, w: Weights)
    ensures var ranking := Ranking(hits, vectors, chunks, w);
      && Ordered(ranking, HigherScore) && NoRepeats(ranking)
      && (forall m :: m in ranking <==> Named(hits, vectors, m.id) && m == Record(hits, vectors, chunks, w, m.id))
  {
    var ids := Everyone(hits, vectors);
    IdsExact(ScoresOf(hits));
    IdsExact(vectors);
    ExtendExact(Ids(ScoresOf(hits)), Ids(vectors));
    var records := Records(hits, vectors, chunks, w, ids);
    forall id ensures Record(hits, vectors, chunks, w, id).id == id {
      RecordKeepsId(hits, vectors, chunks, w, id);
    }
    hide Record, Records, Ids, Extend, Raw, Sort;
    assert forall id :: id in ids <==> Named(hits, vectors, id);
    forall m ensures m in records <==> Named(hits, vectors, m.id) && m == Record(hits, vectors, chunks, w, m.id) {
      if m.id in ids && m == Record(hits, vectors, chunks, w, m.id) {
        var i :| 0 <= i < |ids| && ids[i] == m.id;
        assert records[i] == m;
      }
    }
    forall i, j | 0 <= i < j < |records| ensures records[i] != records[j] {
      assert records[i].id == ids[i] && records[j].id == ids[j];
    }
    SortMembers(records, HigherScore);
    SortDistinct(records, HigherScore);
  }

  /** What is cut off scores no higher than what is kept. */
  lemma CutKeepsBest(ranking: seq<Merged>, topK: int, m: Merged)
    requires Ordered(ranking, HigherScore) && m in ranking && m !in Take(ranking, topK)
    ensures |Take(ranking, topK)| == (if topK < 0 then 0 else topK)
    ensures forall kept :: kept in Take(ranking, topK) ==> kept.score >= m.score
  {
    var n :| 0 <= n < |ranking| && ranking[n] == m;
    var cut := Take(ranking, topK);
    assert n >= |cut| by {
      assert forall i :: 0 <= i < |cut| ==> cut[i] == ranking[i] && cut[i] in cut;
    }
    forall kept | kept in cut ensures kept.score >= m.score {
      var i :| 0 <= i < |cut| && cut[i] == kept;
      assert HigherScore(ranking[i], ranking[n]);
    }
  }

  lemma {:induction false} IdsInOrder(scores: Scores, more: Scores)
    ensures Ids(scores) <= Ids(scores + more)
  {
    if more == [] {
      assert scores + more == scores;
    } else {
      IdsInOrder(scores, more[..|more| - 1]);
      assert (scores + more)[..|scores + more| - 1] == scores + more[..|more| - 1];
    }
  }

  lemma {:induction false} ExtendBegins(ids: seq<string>, more: seq<string>)
    ensures ids <= Extend(ids, more)
  {
    if more != [] {
      ExtendBegins(ids, more[..|more| - 1]);
    }
  }

  /** Records of equal score stay in the order their ids were first named, those of lexical hits before the others. */
  lemma TiesInOrder(hits: seq<LexicalHit>, vectors: Scores, chunks: map<string, string>, w: Weights)
    ensures IsStableSortOf(Ranking(hits, vectors, chunks, w), Records(hits, vectors, chunks, w, Everyone(hits, vectors)), HigherScore)
    ensures Ids(ScoresOf(hits)) <= Everyone(hits, vectors)
  {
    SortIsStableSort(Records(hits, vectors, chunks, w, Everyone(hits, vectors)), HigherScore);
    ExtendBegins(Ids(ScoresOf(hits)), Ids(vectors));
  }

  ghost predicate LastHit(hits: seq<LexicalHit>, id: string, k: int) {
    0 <= k < |hits| && hits[k].id == id && forall m :: k < m < |hits| ==> hits[m].id != id
  }

  lemma {:induction false} HitTextIs(hits: seq<LexicalHit>, id: string, k: int)
    requires LastHit(hits, id, k)
    ensures HitText(hits, id) == hits[k].text
  {
    if k < |hits| - 1 {
      assert hits[|hits| - 1].id != id;
      HitTextIs(hits[..|hits| - 1], id, k);
    }
  }

  lemma HitGiven(hits: seq<LexicalHit>, id: string, k: int)
    requires LastHit(hits, id, k)
    ensures Raw(ScoresOf(hits), id) == Some(hits[k].score)
  {
    assert ScoresOf(hits)[k] == (id, hits[k].score);
    RawIsLast(ScoresOf(hits), id, hits[k].score);
  }

  /** A record has the text of its chunk; where that is unknown or blank, the text of the last lexical hit, or none. */
  lemma RecordText(hits: seq<LexicalHit>, vectors: Scores, chunks: map<string, string>, w: Weights, id: string)
    ensures id in chunks && chunks[id] != "" ==> Record(hits, vectors, chunks, w, id).text == chunks[id]
    ensures id !in chunks || chunks[id] == "" ==> forall k :: LastHit(hits, id, k) ==> Record(hits, vectors, chunks, w, id).text == hits[k].text
    ensures (id !in chunks || chunks[id] == "") && Raw(ScoresOf(hits), id).None? ==> Record(hits, vectors, chunks, w, id).text == ""
  {
    hide Raw, Scaled;
    forall k | LastHit(hits, id, k) ensures HitText(hits, id) == hits[k].text && Raw(ScoresOf(hits), id) == Some(hits[k].score) {
      HitTextIs(hits, id, k);
      HitGiven(hits, id, k);
    }
  }

  // ---------- what a merged score is made of ----------

  /** The last score given for the id. */
  ghost predicate GivenLast(scores: Scores, id: string, x: real) {
    exists k :: 0 <= k < |scores| && scores[k] == (id, x) && forall m :: k < m < |scores| ==> scores[m].0 != id
  }

  lemma {:induction false} RawIsLast(scores: Scores, id: string, x: real)
    ensures Raw(scores, id) == Some(x) <==> GivenLast(scores, id, x)
  {
    if scores != [] {
      var front, last := scores[..|scores| - 1], scores[|scores| - 1];
      RawIsLast(front, id, x);
      if k :| 0 <= k < |front| && front[k] == (id, x) && forall m :: k < m < |front| ==> front[m].0 != id {
        assert scores[k] == (id, x) && forall m :: k < m < |front| ==> scores[m] == front[m];
      }
      if k :| 0 <= k < |scores| && scores[k] == (id, x) && forall m :: k < m < |scores| ==> scores[m].0 != id {
        assert k < |front| ==> front[k] == (id, x) && forall m :: k < m < |front| ==> front[m] == scores[m];
      }
    }
  }

  /** The best score of its kind. */
  ghost predicate IsBest(scores: Scores, best: real) {
    (exists id :: Raw(scores, id) == Some(best)) && forall id :: Raw(scores, id).Some? ==> Raw(scores, id).value <= best
  }

  /** A part is to the weight as the score is to the best. */
  predicate Proportional(part: real, weight: real, score: real, best: real) {
    part * best == weight * score
  }

  /** What one kind of hit adds for an id: its weight, in the proportion of the id's score to the best. */
  ghost predicate IsPart(scores: Scores, id: string, weight: real, part: real) {
    && (Raw(scores, id).None? ==> part == 0.0)
    && (forall best :: Raw(scores, id).Some? && IsBest(scores, best) ==>
          if best > 0.0 then Proportional(part, weight, Raw(scores, id).value, best) else part == 0.0)
  }

  lemma BestUnique(scores: Scores, best: real)
    requires IsBest(scores, best)
    ensures Best(scores, Ids(scores)) == best
  {
    IdsExact(scores);
    var id :| Raw(scores, id) == Some(best);
    assert Ids(scores) != [];
    BestIsBest(scores, Ids(scores));
    hide Raw, Ids, Best;
    var top :| top in Ids(scores) && Raw(scores, top).GetOr(0.0) == Best(scores, Ids(scores));
    assert Raw(scores, top).Some? && Raw(scores, id).GetOr(0.0) == best;
  }

  lemma SharePart(scores: Scores, id: string, weight: real)
    requires Raw(scores, id).Some?
    ensures IsPart(scores, id, weight, Share(weight, Scaled(scores, id)))
  {
    hide Raw, Ids, Best;
    forall best | IsBest(scores, best)
      ensures if best > 0.0 then Share(weight, Scaled(scores, id)) * best == weight * Raw(scores, id).value else Share(weight, Scaled(scores, id)) == 0.0
    {
      BestUnique(scores, best);
      if best > 0.0 {
        InProportion(weight, Raw(scores, id).value, best);
      }
    }
  }

  lemma InProportion(weight: real, x: real, best: real)
    requires best > 0.0
    ensures weight * (x / best) * best == weight * x
  {
    var q := x / best;
    assert q * best == x;
    assert weight * q * best == weight * (q * best);
  }

  /** A merged score is what each kind of hit adds, and the boost exactly when both kinds name the id. */
  lemma ScoreIsParts(hits: seq<LexicalHit>, vectors: Scores, chunks: map<string, string>, w: Weights, id: string)
    requires Named(hits, vectors, id)
    ensures exists l, v ::
      && IsPart(ScoresOf(hits), id, w.lexical, l) && IsPart(vectors, id, w.vector, v)
      && Record(hits, vectors, chunks, w, id).score ==
        l + v + (if Raw(ScoresOf(hits), id).Some? && Raw(vectors, id).Some? then w.boost else 0.0)
  {
    hide IsPart, Share, Raw, Scaled;
    var lexical := Raw(ScoresOf(hits), id).Some?;
    var l := if lexical then Share(w.lexical, Scaled(ScoresOf(hits), id)) else 0.0;
    var v := if Raw(vectors, id).Some? then Share(w.vector, Scaled(vectors, id)) else 0.0;
    if lexical {
      SharePart(ScoresOf(hits), id, w.lexical);
    } else {
      NoPart(ScoresOf(hits), id, w.lexical);
    }
    if Raw(vectors, id).Some? {
      SharePart(vectors, id, w.vector);
    } else {
      NoPart(vectors, id, w.vector);
    }
    assert IsPart(ScoresOf(hits), id, w.lexical, l) && IsPart(vectors, id, w.vector, v);
  }

  lemma NoPart(scores: Scores, id: string, weight: real)
    requires Raw(scores, id).None?
    ensures IsPart(scores, id, weight, 0.0)
  {
  }

  /** The best hit of a kind adds the whole weight of its kind, and a better hit more than a worse one. */
  lemma PartsOrdered(scores: Scores, weight: real, a: string, b: string, best: real, x: real, y: real)
    requires IsBest(scores, best) && best > 0.0 && Raw(scores, a).Some? && Raw(scores, b).Some?
    requires IsPart(scores, a, weight, x) && IsPart(scores, b, weight, y)
    ensures Raw(scores, a).value == best ==> x == weight
    ensures weight > 0.0 ==> (x < y <==> Raw(scores, a).value < Raw(scores, b).value)
  {
    var p, q := Raw(scores, a).value, Raw(scores, b).value;
    PartInProportion(scores, a, weight, x, best);
    PartInProportion(scores, b, weight, y, best);
    hide Raw, IsPart, IsBest, Proportional;
    if p == best {
      WholeWeight(weight, best, x);
    }
    if weight > 0.0 {
      ProportionsOrdered(weight, p, q, best, x, y);
    }
  }

  lemma PartInProportion(scores: Scores, id: string, weight: real, part: real, best: real)
    requires IsPart(scores, id, weight, part) && IsBest(scores, best) && best > 0.0 && Raw(scores, id).Some?
    ensures Proportional(part, weight, Raw(scores, id).value, best)
  {
    hide Raw, IsBest;
  }

  lemma WholeWeight(weight: real, best: real, x: real)
    requires best > 0.0 && Proportional(x, weight, best, best)
    ensures x == weight
  {
    ScaleOrder(x, weight, best);
    ScaleOrder(weight, x, best);
  }

  lemma ProportionsOrdered(weight: real, p: real, q: real, best: real, x: real, y: real)
    requires weight > 0.0 && best > 0.0 && Proportional(x, weight, p, best) && Proportional(y, weight, q, best)
    ensures x < y <==> p < q
  {
    ScaleOrder(y, x, best);
    ScaleOrder(q, p, weight);
    Commutes(weight, p);
    Commutes(weight, q);
  }

  lemma Commutes(x: real, y: real)
    ensures x * y == y * x
  {
  }

  // ---------- the computation ----------

  /** The scores by id; a later hit for the same id overrides. */
  method RawScores(scores: Scores) returns (order: seq<string>, raw: map<string, real>)
    ensures order == Ids(scores)
    ensures forall id :: (if id in raw then Some(raw[id]) else None) == Raw(scores, id)
  {
    order, raw := [], map[];
    assert scores[..0] == [];
    for i := 0 to |scores|
      invariant order == Ids(scores[..i])
      invariant forall id :: (if id in raw then Some(raw[id]) else None) == Raw(scores[..i], id)
    {
      assert scores[..i + 1][..i] == scores[..i];
      IdsExact(scores[..i]);
      var (id, score) := scores[i];
      assert id in raw <==> id in order;
      if id !in raw {
        order := order + [id];
      }
      raw := raw[id := score];
    }
    assert scores[..|scores|] == scores;
  }

  method Normalise(ghost scores: Scores, order: seq<string>, raw: map<string, real>) returns (scaled: map<string, real>)
    requires order == Ids(scores)
    requires forall id :: (if id in raw then Some(raw[id]) else None) == Raw(scores, id)
    ensures forall id :: id in scaled <==> id in order
    ensures forall id :: id in scaled ==> scaled[id] == Scaled(scores, id)
  {
    IdsExact(scores);
    hide Ids, Raw;
    if order == [] {
      return map[];
    }
    var best := BestScore(scores, order, raw);
    scaled := map id | id in order :: if best <= 0.0 then 0.0 else raw[id] / best;
  }

  method BestScore(ghost scores: Scores, order: seq<string>, raw: map<string, real>) returns (best: real)
    requires order != [] && forall id :: id in order ==> id in raw && Raw(scores, id) == Some(raw[id])
    ensures best == Best(scores, order)
  {
    hide Raw;
    best := raw[order[0]];
    for i := 1 to |order|
      invariant best == Best(scores, order[..i])
    {
      assert order[..i + 1][..i] == order[..i];
      if raw[order[i]] > best {
        best := raw[order[i]];
      }
    }
    assert order[..|order|] == order;
  }

  method MergeHits(hits: seq<LexicalHit>, vectors: Scores, chunks: map<string, string>, w: Weights, topK: int) returns (r: seq<Merged>)
    ensures r == Take(Ranking(hits, vectors, chunks, w), topK)
  {
    var order, merged := AddLexical(hits, chunks, w);
    order, merged := AddVectors(hits, vectors, chunks, w, order, merged);
    hide Record;
    var records: seq<Merged> := [];
    for i := 0 to |order|
      invariant records == Records(hits, vectors, chunks, w, order[..i])
    {
      assert order[..i + 1] == order[..i] + [order[i]];
      records := records + [merged[order[i]]];
    }
    assert order[..|order|] == order;
    r := Take(Sort(records, HigherScore), topK);
  }

  /** The records of the first `i` hits. */
  ghost predicate LexicalUpTo(hits: seq<LexicalHit>, chunks: map<string, string>, w: Weights, i: int, merged: map<string, Merged>) {
    && 0 <= i <= |hits|
    && (forall id :: id in merged <==> id in Ids(ScoresOf(hits)[..i]))
    && (forall id :: id in merged ==> merged[id] == RecordWith(HitText(hits[..i], id), ScoresOf(hits), chunks, w, id))
  }

  lemma LexicalNext(hits: seq<LexicalHit>, chunks: map<string, string>, w: Weights, i: int, merged: map<string, Merged>)
    requires LexicalUpTo(hits, chunks, w, i, merged) && i < |hits|
    ensures LexicalUpTo(hits, chunks, w, i + 1, merged[hits[i].id := RecordWith(hits[i].text, ScoresOf(hits), chunks, w, hits[i].id)])
  {
    IdsNext(ScoresOf(hits), i);
    assert ScoresOf(hits)[i].0 == hits[i].id;
    forall id ensures HitText(hits[..i + 1], id) == if id == hits[i].id then hits[i].text else HitText(hits[..i], id) {
      HitTextNext(hits, i, id);
    }
    hide RecordWith, Ids, HitText, ScoresOf;
  }

  method AddLexical(hits: seq<LexicalHit>, chunks: map<string, string>, w: Weights) returns (order: seq<string>, merged: map<string, Merged>)
    ensures order == Ids(ScoresOf(hits))
    ensures forall id :: id in merged <==> id in order
    ensures forall id :: id in order ==> merged[id] == LexicalRecord(hits, chunks, w, id)
  {
    var scores := ScoresOf(hits);
    var raw, scaled;
    order, raw := RawScores(scores);
    scaled := Normalise(scores, order, raw);
    merged := map[];
    assert LexicalUpTo(hits, chunks, w, 0, merged) by {
      assert scores[..0] == [];
    }
    hide Scaled, RecordWith, Raw, Ids, NoRepeats, Share;
    for i := 0 to |hits|
      invariant LexicalUpTo(hits, chunks, w, i, merged)
    {
      hide LexicalUpTo;
      var hit := hits[i];
      RawNamed(scores, i);
      LexicalNext(hits, chunks, w, i, merged);
      IsRecordWith(hit.text, scores, chunks, w, hit.id);
      merged := merged[hit.id :=
        Merged(hit.id, TextFor(chunks, hit.id, hit.text), Share(w.lexical, scaled[hit.id]), raw[hit.id], 0.0, ["bm25"])];
    }
    assert hits[..|hits|] == hits && scores[..|hits|] == scores;
  }

  lemma IsRecordWith(text: string, scores: Scores, chunks: map<string, string>, w: Weights, id: string)
    ensures RecordWith(text, scores, chunks, w, id) ==
      Merged(id, TextFor(chunks, id, text), Share(w.lexical, Scaled(scores, id)), Raw(scores, id).GetOr(0.0), 0.0, ["bm25"])
  {
  }

  lemma IdsNext(scores: Scores, i: int)
    requires 0 <= i < |scores|
    ensures forall id :: id in Ids(scores[..i + 1]) <==> id in Ids(scores[..i]) || id == scores[i].0
  {
    assert scores[..i + 1][..i] == scores[..i];
  }

  lemma HitTextNext(hits: seq<LexicalHit>, i: int, id: string)
    requires 0 <= i < |hits|
    ensures HitText(hits[..i + 1], id) == if id == hits[i].id then hits[i].text else HitText(hits[..i], id)
  {
    assert hits[..i + 1][..i] == hits[..i];
  }

  lemma {:induction false} RawNamed(scores: Scores, i: int)
    requires 0 <= i < |scores|
    ensures Raw(scores, scores[i].0).Some? && scores[i].0 in Ids(scores)
  {
    IdsExact(scores);
    if i < |scores| - 1 {
      RawNamed(scores[..|scores| - 1], i);
    }
  }

  /** A record once a vector hit has joined it, or the record of the vector hit alone. */
  function Grown(merged: map<string, Merged>, chunks: map<string, string>, w: Weights, id: string, contribution: real, raw: real): Merged {
    if id in merged then
      var m := merged[id];
      m.(score := m.score + (contribution + w.boost), vector := raw, sources := m.sources + ["vector"])
    else Merged(id, TextFor(chunks, id, ""), contribution, 0.0, raw, ["vector"])
  }

  lemma GrownIsRecord(hits: seq<LexicalHit>, vectors: Scores, chunks: map<string, string>, w: Weights, merged: map<string, Merged>, id: string)
    requires id in Ids(vectors) && (id in merged <==> id in Ids(ScoresOf(hits)))
    requires id in merged ==> merged[id] == LexicalRecord(hits, chunks, w, id)
    ensures Grown(merged, chunks, w, id, Share(w.vector, Scaled(vectors, id)), Raw(vectors, id).GetOr(0.0)) == Record(hits, vectors, chunks, w, id)
  {
    RecordCases(hits, vectors, chunks, w, id);
    hide Record, LexicalRecord, Ids, Scaled, Raw, Share;
  }

  method AddVector(order: seq<string>, merged: map<string, Merged>, chunks: map<string, string>, w: Weights,
                   id: string, contribution: real, raw: real)
    returns (order': seq<string>, merged': map<string, Merged>)
    ensures order' == if id in merged then order else order + [id]
    ensures merged' == merged[id := Grown(merged, chunks, w, id, contribution, raw)]
  {
    order', merged' := order, merged;
    if id in merged {
      var m := merged[id];
      merged' := merged'[id := m.(score := m.score + (contribution + w.boost), vector := raw, sources := m.sources + ["vector"])];
    } else {
      order' := order' + [id];
      merged' := merged'[id := Merged(id, TextFor(chunks, id, ""), contribution, 0.0, raw, ["vector"])];
    }
  }

  method AddVectors(ghost hits: seq<LexicalHit>, vectors: Scores, chunks: map<string, string>, w: Weights,
                    order: seq<string>, merged: map<string, Merged>)
    returns (order': seq<string>, merged': map<string, Merged>)
    requires order == Ids(ScoresOf(hits))
    requires forall id :: id in merged <==> id in order
    requires forall id :: id in order ==> merged[id] == LexicalRecord(hits, chunks, w, id)
    ensures order' == Everyone(hits, vectors)
    ensures forall id :: id in merged' <==> id in order'
    ensures forall id :: id in order' ==> merged'[id] == Record(hits, vectors, chunks, w, id)
  {
    var ids, raw := RawScores(vectors);
    var scaled := Normalise(vectors, ids, raw);
    IdsExact(ScoresOf(hits));
    IdsExact(vectors);
    order', merged' := order, merged;
    ghost var final := (id: string) => Record(hits, vectors, chunks, w, id);
    ghost var initial := (id: string) => LexicalRecord(hits, chunks, w, id);
    hide Raw, Scaled, Ids, LexicalRecord, Record, NoRepeats, Share, Grown;
    MergedStart(order, ids, merged', final, initial);
    for i := 0 to |ids|
      invariant MergedUpTo(order, ids, i, order', merged', final, initial)
    {
      hide MergedUpTo, ScoresOf;
      var id := ids[i];
      assert id in ids;
      MergedNext(order, ids, i, order', merged', final, initial);
      GrownIsRecord(hits, vectors, chunks, w, merged', id);
      assert Grown(merged', chunks, w, id, Share(w.vector, scaled[id]), raw[id]) == final(id);
      order', merged' := AddVector(order', merged', chunks, w, id, Share(w.vector, scaled[id]), raw[id]);
    }
    MergedEnd(order, ids, order', merged', final, initial);
    forall id | id in order' ensures merged'[id] == Record(hits, vectors, chunks, w, id) {
      RecordCases(hits, vectors, chunks, w, id);
    }
  }

  /** Records once the first `i` of further ids have been merged in: those are final, the others as they were. */
  ghost predicate MergedUpTo<V>(first: seq<string>, ids: seq<string>, i: nat, order: seq<string>, merged: map<string, V>,
                                final: string -> V, initial: string -> V)
  {
    && i <= |ids| && order == Extend(first, ids[..i])
    && (forall id :: id in merged <==> id in order)
    && (forall id :: id in order <==> id in first || Done(ids, i, id))
    && (forall id :: id in order ==> merged[id] == if Done(ids, i, id) then final(id) else initial(id))
  }

  lemma MergedStart<V>(first: seq<string>, ids: seq<string>, merged: map<string, V>, final: string -> V, initial: string -> V)
    requires forall id :: id in merged <==> id in first
    requires forall id :: id in merged ==> merged[id] == initial(id)
    ensures MergedUpTo(first, ids, 0, first, merged, final, initial)
  {
    NoneDone(ids);
    hide Done;
  }

  lemma MergedNext<V>(first: seq<string>, ids: seq<string>, i: nat, order: seq<string>, merged: map<string, V>,
                      final: string -> V, initial: string -> V)
    requires MergedUpTo(first, ids, i, order, merged, final, initial) && i < |ids| && NoRepeats(ids)
    ensures ids[i] in merged <==> ids[i] in first
    ensures ids[i] in merged ==> merged[ids[i]] == initial(ids[i])
    ensures MergedUpTo(first, ids, i + 1, if ids[i] in merged then order else order + [ids[i]],
                       merged[ids[i] := final(ids[i])], final, initial)
  {
    DoneNext(ids, i);
    ExtendNext(first, ids, i);
    hide Done, Extend, NoRepeats;
  }

  lemma MergedEnd<V>(first: seq<string>, ids: seq<string>, order: seq<string>, merged: map<string, V>,
                     final: string -> V, initial: string -> V)
    requires MergedUpTo(first, ids, |ids|, order, merged, final, initial)
    ensures order == Extend(first, ids)
    ensures forall id :: id in merged <==> id in order
    ensures forall id :: id in order <==> id in first || id in ids
    ensures forall id :: id in order ==> merged[id] == if id in ids then final(id) else initial(id)
  {
    assert ids[..|ids|] == ids;
  }

  ghost predicate Done(ids: seq<string>, i: nat, id: string) {
    i <= |ids| && id in ids[..i]
  }

  lemma NoneDone(ids: seq<string>)
    ensures forall id :: !Done(ids, 0, id)
  {
  }

  lemma DoneNext(ids: seq<string>, i: nat)
    requires i < |ids| && NoRepeats(ids)
    ensures forall id :: Done(ids, i + 1, id) <==> Done(ids, i, id) || id == ids[i]
    ensures !Done(ids, i, ids[i])
  {
    assert ids[..i + 1] == ids[..i] + [ids[i]];
    forall id ensures Done(ids, i + 1, id) <==> Done(ids, i, id) || id == ids[i] {
      hide NoRepeats;
      assert id in ids[..i] + [ids[i]] <==> id in ids[..i] || id == ids[i];
    }
  }

  lemma ExtendNext(order: seq<string>, ids: seq<string>, i: nat)
    requires i < |ids|
    ensures Extend(order, ids[..i + 1]) ==
      if ids[i] in Extend(order, ids[..i]) then Extend(order, ids[..i]) else Extend(order, ids[..i]) + [ids[i]]
  {
    assert ids[..i + 1][..i] == ids[..i];
  }

  lemma RecordCases(hits: seq<LexicalHit>, vectors: Scores, chunks: map<string, string>, w: Weights, id: string)
    ensures var record, lexical := Record(hits, vectors, chunks, w, id), LexicalRecord(hits, chunks, w, id);
      && (id !in Ids(vectors) && id in Ids(ScoresOf(hits)) ==> record == lexical)
      && (id in Ids(vectors) && id in Ids(ScoresOf(hits)) ==> record == lexical.(
            score := lexical.score + (Share(w.vector, Scaled(vectors, id)) + w.boost),
            vector := Raw(vectors, id).GetOr(0.0),
            sources := lexical.sources + ["vector"]))
      && (id in Ids(vectors) && id !in Ids(ScoresOf(hits)) ==>
            record == Merged(id, TextFor(chunks, id, ""), Share(w.vector, Scaled(vectors, id)), 0.0, Raw(vectors, id).GetOr(0.0), ["vector"]))
  {
    IdsExact(vectors);
    IdsExact(ScoresOf(hits));
    hide Ids, Raw, Scaled, ScoresOf;
  }
}
