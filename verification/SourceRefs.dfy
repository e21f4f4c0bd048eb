/**
 Citations of sources in the public result: repeated citations of one passage become one, with the
 strongest provenance kept in the place of the first.
 */
module SourceRefs {
  import opened Wrappers

  datatype Ref = Ref(sourceType: string, sourceId: string, document: string, quote: string, chunkId: Option<string>, confidence: real)

  type Key = (string, string, string, string, Option<string>)

  /** What makes two citations the same; utterances in different chunks stay apart. `quoteForm` evens out spacing and case. */
  function KeyOf(r: Ref, quoteForm: string -> string): Key {
    (r.sourceType, r.sourceId, r.document, quoteForm(r.quote), if r.sourceType == "audio" then r.chunkId else None)
  }

  function Keys(refs: seq<Ref>, f: string -> string): seq<Key> {
    if refs == [] then []
    else
      var front, key := Keys(refs[..|refs| - 1], f), KeyOf(refs[|refs| - 1], f);
      if key in front then front else front + [key]
  }

  /** The first of the most confident citations with the key. */
  function Strongest(refs: seq<Ref>, f: string -> string, key: Key): Option<Ref> {
    if refs == [] then None
    else
      var front, last := Strongest(refs[..|refs| - 1], f, key), refs[|refs| - 1];
      if KeyOf(last, f) == key && (front.None? || last.confidence > front.value.confidence) then Some(last) else front
  }

  ghost predicate Cites(refs: seq<Ref>, f: string -> string, i: int, key: Key) {
    0 <= i < |refs| && KeyOf(refs[i], f) == key
  }

  ghost predicate Cited(refs: seq<Ref>, f: string -> string, key: Key) {
    exists i :: Cites(refs, f, i, key)
  }

  lemma CitesAppend(refs: seq<Ref>, r: Ref, f: string -> string, key: Key)
    ensures forall i :: Cites(refs + [r], f, i, key) <==> Cites(refs, f, i, key) || (i == |refs| && KeyOf(r, f) == key)
  {
    hide KeyOf;
  }

  lemma {:induction false} KeysExact(refs: seq<Ref>, f: string -> string)
    ensures forall i, j :: 0 <= i < j < |Keys(refs, f)| ==> Keys(refs, f)[i] != Keys(refs, f)[j]
    ensures forall k :: k in Keys(refs, f) <==> Cited(refs, f, k)
  {
    hide KeyOf;
    if refs != [] {
      var front, last := refs[..|refs| - 1], refs[|refs| - 1];
      KeysExact(front, f);
      assert refs == front + [last];
      forall k ensures Cited(refs, f, k) <==> Cited(front, f, k) || KeyOf(last, f) == k {
        CitesAppend(front, last, f, k);
        if i :| Cites(front, f, i, k) {
          assert Cites(refs, f, i, k);
        }
        assert KeyOf(last, f) == k ==> Cites(refs, f, |front|, k);
      }
    }
  }

  /** The citation kept for the key is the first one given of those that no other exceeds in confidence. */
  ghost predicate Represents(kept: Ref, refs: seq<Ref>, f: string -> string, key: Key) {
    exists i :: RepresentsAt(i, kept, refs, f, key)
  }

  ghost predicate RepresentsAt(i: int, kept: Ref, refs: seq<Ref>, f: string -> string, key: Key) {
    && Cites(refs, f, i, key) && refs[i] == kept
    && (forall m :: Cites(refs, f, m, key) ==> refs[m].confidence <= kept.confidence)
    && (forall m :: Cites(refs, f, m, key) && m < i ==> refs[m].confidence < kept.confidence)
  }

  lemma {:induction false} StrongestRepresents(refs: seq<Ref>, f: string -> string, key: Key)
    ensures Strongest(refs, f, key).None? ==> !Cited(refs, f, key)
    ensures Strongest(refs, f, key).Some? ==> Represents(Strongest(refs, f, key).value, refs, f, key)
  {
    hide KeyOf;
    if refs != [] {
      var front, last := refs[..|refs| - 1], refs[|refs| - 1];
      StrongestRepresents(front, f, key);
      assert refs == front + [last];
      CitesAppend(front, last, f, key);
      if Strongest(front, f, key).Some? {
        var i :| RepresentsAt(i, Strongest(front, f, key).value, front, f, key);
        assert RepresentsAt(if Strongest(refs, f, key) == Strongest(front, f, key) then i else |front|, Strongest(refs, f, key).value, refs, f, key);
      } else if KeyOf(last, f) == key {
        assert RepresentsAt(|front|, last, refs, f, key);
      }
    }
  }

  function Deduped(refs: seq<Ref>, f: string -> string, keys: seq<Key>): seq<Ref> {
    if keys == [] then []
    else
      var front, kept := Deduped(refs, f, keys[..|keys| - 1]), Strongest(refs, f, keys[|keys| - 1]);
      if kept.Some? then front + [kept.value] else front
  }

  lemma {:induction false} DedupedAt(refs: seq<Ref>, f: string -> string, keys: seq<Key>)
    requires forall k :: k in keys ==> Strongest(refs, f, k).Some?
    ensures |Deduped(refs, f, keys)| == |keys|
    ensures forall n :: 0 <= n < |keys| ==> Some(Deduped(refs, f, keys)[n]) == Strongest(refs, f, keys[n])
  {
    hide Strongest;
    if keys != [] {
      assert keys[|keys| - 1] in keys;
      DedupedAt(refs, f, keys[..|keys| - 1]);
    }
  }

  lemma EveryKeyKept(refs: seq<Ref>, f: string -> string)
    ensures forall k :: k in Keys(refs, f) ==> Strongest(refs, f, k).Some?
  {
    KeysExact(refs, f);
    forall k | k in Keys(refs, f) ensures Strongest(refs, f, k).Some? {
      StrongestRepresents(refs, f, k);
    }
  }

  /** One citation for each passage cited, in the order first cited, each the strongest given for it. */
  lemma OneRefPerPassage(refs: seq<Ref>, f: string -> string)
    ensures var keys, kept := Keys(refs, f), Deduped(refs, f, Keys(refs, f));
      && |kept| == |keys|
      && (forall n :: 0 <= n < |kept| ==> KeyOf(kept[n], f) == keys[n] && Represents(kept[n], refs, f, keys[n]))
  {
    var keys := Keys(refs, f);
    EveryKeyKept(refs, f);
    DedupedAt(refs, f, keys);
    hide Keys, KeyOf, Strongest, Represents;
    forall n | 0 <= n < |keys| ensures KeyOf(Deduped(refs, f, keys)[n], f) == keys[n] && Represents(Deduped(refs, f, keys)[n], refs, f, keys[n]) {
      StrongestRepresents(refs, f, keys[n]);
      RepresentativeHasKey(Deduped(refs, f, keys)[n], refs, f, keys[n]);
    }
  }

  lemma RepresentativeHasKey(kept: Ref, refs: seq<Ref>, f: string -> string, key: Key)
    requires Represents(kept, refs, f, key)
    ensures KeyOf(kept, f) == key
  {
    hide KeyOf;
  }

  // ---------- passages ----------

  /** Two citations of one passage; of recordings only within one chunk, of documents wherever. */
  predicate SamePassage(a: Ref, b: Ref, f: string -> string) {
    && a.sourceType == b.sourceType && a.sourceId == b.sourceId && a.document == b.document && f(a.quote) == f(b.quote)
    && (a.sourceType == "audio" ==> a.chunkId == b.chunkId)
  }

  lemma SamePassageIff(a: Ref, b: Ref, f: string -> string)
    ensures SamePassage(a, b, f) <==> KeyOf(a, f) == KeyOf(b, f)
  {
  }

  lemma {:induction false} KeysInOrder(refs: seq<Ref>, more: seq<Ref>, f: string -> string)
    ensures Keys(refs, f) <= Keys(refs + more, f)
  {
    hide KeyOf;
    if more == [] {
      assert refs + more == refs;
    } else {
      KeysInOrder(refs, more[..|more| - 1], f);
      assert (refs + more)[..|refs + more| - 1] == refs + more[..|more| - 1];
    }
  }

  ghost predicate KeptFor(kept: seq<Ref>, r: Ref, f: string -> string) {
    exists n :: 0 <= n < |kept| && SamePassage(kept[n], r, f) && kept[n].confidence >= r.confidence
  }

  /** The citations kept are of different passages, each one of those given, and every citation given has one at least as confident. */
  lemma KeptExactly(refs: seq<Ref>, f: string -> string)
    ensures var kept := Deduped(refs, f, Keys(refs, f));
      && (forall m, n :: 0 <= m < n < |kept| ==> !SamePassage(kept[m], kept[n], f))
      && (forall n :: 0 <= n < |kept| ==> kept[n] in refs)
      && (forall i :: 0 <= i < |refs| ==> KeptFor(kept, refs[i], f))
  {
    var keys, kept := Keys(refs, f), Deduped(refs, f, Keys(refs, f));
    KeysExact(refs, f);
    OneRefPerPassage(refs, f);
    hide KeyOf, Keys, Deduped, SamePassage;
    forall m, n | 0 <= m < n < |kept| ensures !SamePassage(kept[m], kept[n], f) {
      SamePassageIff(kept[m], kept[n], f);
    }
    forall i | 0 <= i < |refs| ensures KeptFor(kept, refs[i], f) {
      assert Cites(refs, f, i, KeyOf(refs[i], f));
      assert Cited(refs, f, KeyOf(refs[i], f));
      var n :| 0 <= n < |keys| && keys[n] == KeyOf(refs[i], f);
      SamePassageIff(kept[n], refs[i], f);
      assert kept[n].confidence >= refs[i].confidence;
    }
  }

  // ---------- the computation ----------

  /** The citations kept so far, and where each key's is. */
  ghost predicate KeptSoFar(refs: seq<Ref>, f: string -> string, kept: seq<Ref>, positions: map<Key, nat>) {
    && |kept| == |Keys(refs, f)|
    && (forall k :: k in positions <==> k in Keys(refs, f))
    && (forall k :: k in positions ==> positions[k] < |kept| && Keys(refs, f)[positions[k]] == k)
    && (forall n :: 0 <= n < |kept| ==> Strongest(refs, f, Keys(refs, f)[n]) == Some(kept[n]))
  }

  method DedupeSourceRefs(refs: seq<Ref>, f: string -> string) returns (kept: seq<Ref>)
    ensures kept == Deduped(refs, f, Keys(refs, f))
  {
    hide KeyOf, KeptSoFar;
    kept := [];
    var positions: map<Key, nat> := map[];
    NothingKept(f);
    assert refs[..0] == [];
    for n := 0 to |refs|
      invariant KeptSoFar(refs[..n], f, kept, positions)
    {
      assert refs[..n + 1] == refs[..n] + [refs[n]];
      var r, key := refs[n], KeyOf(refs[n], f);
      KeepNew(refs[..n], r, f, kept, positions);
      KeepOld(refs[..n], r, f, kept, positions);
      if key !in positions {
        positions := positions[key := |kept|];
        kept := kept + [r];
        continue;
      }
      if r.confidence > kept[positions[key]].confidence {
        kept := kept[positions[key] := r];
      }
    }
    assert refs[..|refs|] == refs;
    AllKept(refs, f, kept, positions);
  }

  lemma NothingKept(f: string -> string)
    ensures KeptSoFar([], f, [], map[])
  {
  }

  function Stronger(kept: Option<Ref>, r: Ref, cited: bool): Option<Ref> {
    if cited && (kept.None? || r.confidence > kept.value.confidence) then Some(r) else kept
  }

  lemma KeysAppend(refs: seq<Ref>, r: Ref, f: string -> string)
    ensures Keys(refs + [r], f) == if KeyOf(r, f) in Keys(refs, f) then Keys(refs, f) else Keys(refs, f) + [KeyOf(r, f)]
    ensures forall k :: Strongest(refs + [r], f, k) == Stronger(Strongest(refs, f, k), r, KeyOf(r, f) == k)
  {
    hide KeyOf;
    assert (refs + [r])[..|refs|] == refs;
  }

  lemma KeepNew(refs: seq<Ref>, r: Ref, f: string -> string, kept: seq<Ref>, positions: map<Key, nat>)
    requires KeptSoFar(refs, f, kept, positions)
    ensures KeyOf(r, f) !in positions ==> KeptSoFar(refs + [r], f, kept + [r], positions[KeyOf(r, f) := |kept|])
  {
    if KeyOf(r, f) !in positions {
      KeysAppend(refs, r, f);
      KeysExact(refs, f);
      StrongestRepresents(refs, f, KeyOf(r, f));
      AbsentUnkept(refs, f, KeyOf(r, f));
      hide KeyOf, Keys, Strongest, Cited, Represents;
    }
  }

  lemma AbsentUnkept(refs: seq<Ref>, f: string -> string, key: Key)
    requires !Cited(refs, f, key)
    ensures Strongest(refs, f, key).None?
  {
    StrongestRepresents(refs, f, key);
    hide KeyOf, Strongest;
  }

  lemma KeepOld(refs: seq<Ref>, r: Ref, f: string -> string, kept: seq<Ref>, positions: map<Key, nat>)
    requires KeptSoFar(refs, f, kept, positions)
    ensures KeyOf(r, f) in positions ==>
      && positions[KeyOf(r, f)] < |kept|
      && var at := positions[KeyOf(r, f)];
         KeptSoFar(refs + [r], f, if r.confidence > kept[at].confidence then kept[at := r] else kept, positions)
  {
    if KeyOf(r, f) in positions {
      KeysAppend(refs, r, f);
      KeysExact(refs, f);
      hide KeyOf, Keys, Strongest, Cited;
    }
  }

  lemma AllKept(refs: seq<Ref>, f: string -> string, kept: seq<Ref>, positions: map<Key, nat>)
    requires KeptSoFar(refs, f, kept, positions)
    ensures kept == Deduped(refs, f, Keys(refs, f))
  {
    EveryKeyKept(refs, f);
    DedupedAt(refs, f, Keys(refs, f));
    hide Keys, Strongest, Deduped;
  }
}
