/**
 The bounded registry of source indexes, one for each job: the latest build is kept, and the job built
 least recently is evicted when there are too many.
 */
module SourceIndex {
  import opened Sequences
  import opened Wrappers

  const MAX_INDEXES := 256

  /** Jobs and their indexes, the least recently built first. */
  type Entries<V> = seq<(string, V)>

  ghost predicate OnePerJob<V>(s: Entries<V>) {
    forall i, j :: 0 <= i < j < |s| ==> s[i].0 != s[j].0
  }

  function Keys<V>(s: Entries<V>): set<string> {
    set i | 0 <= i < |s| :: s[i].0
  }

  function Without<V>(s: Entries<V>, id: string): Entries<V> {
    if s == [] then []
    else
      var front := Without(s[..|s| - 1], id);
      if s[|s| - 1].0 == id then front else front + [s[|s| - 1]]
  }

  function Find<V>(s: Entries<V>, id: string): Option<V> {
    if s == [] then None
    else if s[|s| - 1].0 == id then Some(s[|s| - 1].1)
    else Find(s[..|s| - 1], id)
  }

  function Trimmed<V>(s: Entries<V>): Entries<V> {
    if |s| > MAX_INDEXES then s[|s| - MAX_INDEXES..] else s
  }

  /** A blank job id registers nothing. */
  function Built<V>(s: Entries<V>, id: string, v: V): Entries<V> {
    if id == "" then s else Trimmed(Without(s, id) + [(id, v)])
  }

  // ---------- runs ----------

  datatype Op<V> = Build(id: string, index: V) | Clear(id: string)

  function Apply<V>(s: Entries<V>, op: Op<V>): Entries<V> {
    match op
    case Build(id, v) => Built(s, id, v)
    case Clear(id) => Without(s, id)
  }

  function Run<V>(s: Entries<V>, ops: seq<Op<V>>): Entries<V> {
    if ops == [] then s else Apply(Run(s, ops[..|ops| - 1]), ops[|ops| - 1])
  }

  /** The jobs built and not cleared again over a run. */
  function Fresh<V>(ops: seq<Op<V>>): set<string> {
    if ops == [] then {}
    else
      var before, op := Fresh(ops[..|ops| - 1]), ops[|ops| - 1];
      if op.id == "" then before else if op.Build? then before + {op.id} else before - {op.id}
  }

  ghost predicate Sound<V>(s: Entries<V>) {
    OnePerJob(s) && |s| <= MAX_INDEXES && forall i :: 0 <= i < |s| ==> s[i].0 != ""
  }

  lemma {:induction false} WithoutExact<V>(s: Entries<V>, id: string)
    requires OnePerJob(s)
    ensures OnePerJob(Without(s, id)) && Keys(Without(s, id)) == Keys(s) - {id}
    ensures |Without(s, id)| == if id in Keys(s) then |s| - 1 else |s|
    ensures forall i :: 0 <= i < |Without(s, id)| ==> Without(s, id)[i] in s
  {
    if s != [] {
      var front, last := s[..|s| - 1], s[|s| - 1];
      WithoutExact(front, id);
      assert Keys(s) == Keys(front) + {last.0} by {
        KeysAppend(front, last);
        assert s == front + [last];
      }
      if last.0 != id {
        KeysAppend(Without(front, id), last);
        AppendDistinct(Without(front, id), last);
      }
    }
  }

  lemma KeysAppend<V>(s: Entries<V>, e: (string, V))
    ensures Keys(s + [e]) == Keys(s) + {e.0}
  {
    var t := s + [e];
    assert forall i :: 0 <= i < |s| ==> t[i] == s[i];
    assert t[|s|] == e;
  }

  lemma AppendDistinct<V>(s: Entries<V>, e: (string, V))
    requires OnePerJob(s) && e.0 !in Keys(s)
    ensures OnePerJob(s + [e])
  {
    assert forall i :: 0 <= i < |s| ==> s[i].0 in Keys(s);
  }

  lemma {:induction false} WithoutConcat<V>(s: Entries<V>, t: Entries<V>, id: string)
    ensures Without(s + t, id) == Without(s, id) + Without(t, id)
  {
    if t == [] {
      assert s + t == s;
    } else {
      WithoutConcat(s, t[..|t| - 1], id);
      assert (s + t)[..|s + t| - 1] == s + t[..|t| - 1];
    }
  }

  /** Every operation keeps at most one index for each job, and no more indexes than allowed. */
  lemma ApplyKeepsSound<V>(s: Entries<V>, op: Op<V>)
    requires Sound(s)
    ensures Sound(Apply(s, op))
  {
    WithoutExact(s, op.id);
    var left := Without(s, op.id);
    if op.Build? && op.id != "" {
      AppendDistinct(left, (op.id, op.index));
    }
  }

  lemma {:induction false} FindExact<V>(s: Entries<V>, i: int)
    requires OnePerJob(s) && 0 <= i < |s|
    ensures Find(s, s[i].0) == Some(s[i].1)
  {
    if i < |s| - 1 {
      FindExact(s[..|s| - 1], i);
    }
  }

  lemma {:induction false} FindMissing<V>(s: Entries<V>, id: string)
    ensures Find(s, id).None? <==> id !in Keys(s)
  {
    if s != [] {
      var front, last := s[..|s| - 1], s[|s| - 1];
      FindMissing(front, id);
      KeysAppend(front, last);
      assert s == front + [last];
    }
  }

  /** Right after a build, the lookup finds it. */
  lemma BuiltIsFound<V>(s: Entries<V>, id: string, v: V)
    requires Sound(s) && id != ""
    ensures Find(Built(s, id, v), id) == Some(v)
  {
  }

  ghost predicate Untouched<V>(ops: seq<Op<V>>, id: string) {
    forall i :: 0 <= i < |ops| ==> ops[i].id != id
  }

  /** At no point of the run have as many other jobs been built as the registry holds. */
  ghost predicate NeverCrowded<V>(ops: seq<Op<V>>) {
    forall n :: 0 <= n <= |ops| ==> |Fresh(ops[..n])| < MAX_INDEXES
  }

  /** The job's entry stands before exactly the jobs built since. */
  ghost predicate Standing<V>(s: Entries<V>, id: string, v: V, since: set<string>, older: Entries<V>, newer: Entries<V>) {
    s == older + [(id, v)] + newer && Keys(newer) == since && |newer| == |since| && Sound(s)
  }

  lemma Halves<V>(older: Entries<V>, e: (string, V), newer: Entries<V>)
    requires OnePerJob(older + [e] + newer)
    ensures OnePerJob(older) && OnePerJob(newer) && e.0 !in Keys(older) && e.0 !in Keys(newer) && Keys(older) !! Keys(newer)
  {
    var s := older + [e] + newer;
    assert forall i :: 0 <= i < |older| ==> older[i] == s[i];
    assert s[|older|] == e;
    assert forall i :: 0 <= i < |newer| ==> newer[i] == s[|older| + 1 + i];
  }

  /** Taking another job out leaves the entry between what is left of the older and the newer ones. */
  lemma WithoutOther<V>(older: Entries<V>, e: (string, V), newer: Entries<V>, id: string)
    requires id != e.0
    ensures Without(older + [e] + newer, id) == Without(older, id) + [e] + Without(newer, id)
  {
    WithoutConcat(older + [e], newer, id);
    WithoutConcat(older, [e], id);
    assert [e][..0] == [];
    assert Without([e], id) == [e];
  }

  lemma Shrinks(since: set<string>, id: string)
    ensures |since - {id}| == if id in since then |since| - 1 else |since|
    ensures |since + {id}| == |since - {id}| + 1
  {
    assert since + {id} == (since - {id}) + {id};
    if id !in since {
      assert since - {id} == since;
    }
  }

  lemma ClearStep<V>(s: Entries<V>, x: string, id: string, v: V, since: set<string>, older: Entries<V>, newer: Entries<V>)
    requires Standing(s, id, v, since, older, newer) && x != id
    ensures Standing(Without(s, x), id, v, since - {x}, Without(older, x), Without(newer, x))
  {
    Halves(older, (id, v), newer);
    WithoutOther(older, (id, v), newer, x);
    WithoutExact(newer, x);
    Shrinks(since, x);
    ApplyKeepsSound(s, Clear(x));
  }

  lemma TrimParts<V>(older: Entries<V>, e: (string, V), newer: Entries<V>) returns (older': Entries<V>)
    requires |older| + 1 + |newer| <= MAX_INDEXES + 1
    ensures |newer| < MAX_INDEXES ==> Trimmed(older + [e] + newer) == older' + [e] + newer
    ensures |newer| >= MAX_INDEXES ==> Trimmed(older + [e] + newer) == newer
  {
    var t := older + [e] + newer;
    if |t| <= MAX_INDEXES {
      older' := older;
    } else if older != [] {
      older' := older[1..];
      assert t[1..] == older' + [e] + newer;
    } else {
      older' := [];
      assert t[1..] == newer;
    }
  }

  lemma BuildParts<V>(s: Entries<V>, x: string, w: V, id: string, v: V, since: set<string>, older: Entries<V>, newer: Entries<V>)
    returns (older1: Entries<V>, newer1: Entries<V>)
    requires Standing(s, id, v, since, older, newer) && x != id && x != ""
    ensures Without(s, x) + [(x, w)] == older1 + [(id, v)] + newer1
    ensures Keys(newer1) == since + {x} && |newer1| == |since + {x}| && id !in Keys(newer1)
    ensures |older1| + 1 + |newer1| <= MAX_INDEXES + 1
  {
    ClearStep(s, x, id, v, since, older, newer);
    Shrinks(since, x);
    older1, newer1 := Without(older, x), Without(newer, x) + [(x, w)];
    KeysAppend(Without(newer, x), (x, w));
    Halves(Without(older, x), (id, v), Without(newer, x));
    Regroup(Without(older, x), (id, v), Without(newer, x), (x, w));
    hide Without, Keys, OnePerJob, Sound;
    assert since - {x} + {x} == since + {x};
  }

  lemma Regroup<V>(older: Entries<V>, e: (string, V), newer: Entries<V>, f: (string, V))
    ensures older + [e] + newer + [f] == older + [e] + (newer + [f])
  {
  }

  lemma BuildStep<V>(s: Entries<V>, x: string, w: V, id: string, v: V, since: set<string>, older: Entries<V>, newer: Entries<V>)
    returns (older': Entries<V>, newer': Entries<V>)
    requires Standing(s, id, v, since, older, newer) && x != id && x != ""
    ensures |since + {x}| < MAX_INDEXES ==> Standing(Built(s, x, w), id, v, since + {x}, older', newer')
    ensures |since + {x}| >= MAX_INDEXES ==> id !in Keys(Built(s, x, w))
  {
    var older1;
    ApplyKeepsSound(s, Build(x, w));
    older1, newer' := BuildParts(s, x, w, id, v, since, older, newer);
    older' := TrimParts(older1, (id, v), newer');
    hide Without, Keys, Sound, Trimmed;
  }

  lemma {:induction false} KeepsStanding<V>(s: Entries<V>, id: string, v: V, later: seq<Op<V>>)
    returns (older: Entries<V>, newer: Entries<V>)
    requires Sound(s) && id != "" && Untouched(later, id) && NeverCrowded(later)
    ensures Standing(Run(Built(s, id, v), later), id, v, Fresh(later), older, newer)
  {
    if later == [] {
      older, newer := StandingStart(s, id, v);
    } else {
      var front, op := later[..|later| - 1], later[|later| - 1];
      assert later == front + [op];
      FrontNeverCrowded(front, op);
      hide Built, Standing, Sound, NeverCrowded;
      older, newer := KeepsStanding(s, id, v, front);
      older, newer := StandingStep(Run(Built(s, id, v), front), op, id, v, front, later, older, newer);
    }
  }

  lemma FrontNeverCrowded<V>(front: seq<Op<V>>, op: Op<V>)
    requires NeverCrowded(front + [op])
    ensures NeverCrowded(front) && |Fresh(front + [op])| < MAX_INDEXES
  {
    var later := front + [op];
    assert later[..|later|] == later;
    assert forall n :: 0 <= n <= |front| ==> front[..n] == later[..n];
  }

  lemma StandingStart<V>(s: Entries<V>, id: string, v: V) returns (older: Entries<V>, newer: Entries<V>)
    requires Sound(s) && id != ""
    ensures Standing(Built(s, id, v), id, v, {}, older, newer)
  {
    ApplyKeepsSound(s, Build(id, v));
    hide Sound, Without;
    var b := Built(s, id, v);
    older, newer := b[..|b| - 1], [];
    assert b == older + [(id, v)] + newer;
  }

  lemma StandingStep<V>(before: Entries<V>, op: Op<V>, id: string, v: V, front: seq<Op<V>>, later: seq<Op<V>>,
                        older: Entries<V>, newer: Entries<V>)
    returns (older': Entries<V>, newer': Entries<V>)
    requires later == front + [op] && op.id != id && |Fresh(later)| < MAX_INDEXES
    requires Standing(before, id, v, Fresh(front), older, newer)
    ensures Standing(Apply(before, op), id, v, Fresh(later), older', newer')
  {
    assert later[..|later| - 1] == front;
    hide Without, Trimmed;
    if op.id == "" {
      BlankChanges(before, op);
      older', newer' := older, newer;
    } else if op.Build? {
      older', newer' := BuildStep(before, op.id, op.index, id, v, Fresh(front), older, newer);
    } else {
      ClearStep(before, op.id, id, v, Fresh(front), older, newer);
      older', newer' := Without(older, op.id), Without(newer, op.id);
    }
  }

  lemma {:induction false} WithoutAbsent<V>(s: Entries<V>, id: string)
    requires forall i :: 0 <= i < |s| ==> s[i].0 != id
    ensures Without(s, id) == s
  {
    if s != [] {
      WithoutAbsent(s[..|s| - 1], id);
    }
  }

  lemma BlankChanges<V>(s: Entries<V>, op: Op<V>)
    requires Sound(s) && op.id == ""
    ensures Apply(s, op) == s
  {
    WithoutAbsent(s, "");
  }

  lemma {:induction false} RunSound<V>(s: Entries<V>, ops: seq<Op<V>>)
    requires Sound(s)
    ensures Sound(Run(s, ops))
  {
    if ops != [] {
      RunSound(s, ops[..|ops| - 1]);
      ApplyKeepsSound(Run(s, ops[..|ops| - 1]), ops[|ops| - 1]);
    }
  }

  /** A job once evicted stays out until it is built again. */
  lemma {:induction false} StaysOut<V>(s: Entries<V>, id: string, later: seq<Op<V>>)
    requires Sound(s) && id !in Keys(s) && Untouched(later, id)
    ensures id !in Keys(Run(s, later))
  {
    if later != [] {
      var front, op := later[..|later| - 1], later[|later| - 1];
      StaysOut(s, id, front);
      RunSound(s, front);
      StepStaysOut(Run(s, front), op, id);
    }
  }

  lemma StepStaysOut<V>(s: Entries<V>, op: Op<V>, id: string)
    requires Sound(s) && id !in Keys(s) && op.id != id
    ensures id !in Keys(Apply(s, op))
  {
    WithoutExact(s, op.id);
    if op.Build? && op.id != "" {
      KeysAppend(Without(s, op.id), (op.id, op.index));
      hide Without;
      TrimKeys(Without(s, op.id) + [(op.id, op.index)]);
    }
  }

  lemma TrimKeys<V>(t: Entries<V>)
    ensures Keys(Trimmed(t)) <= Keys(t)
  {
  }

  lemma {:induction false} RunSplits<V>(s: Entries<V>, first: seq<Op<V>>, rest: seq<Op<V>>)
    ensures Run(s, first + rest) == Run(Run(s, first), rest)
  {
    if rest == [] {
      assert first + rest == first;
    } else {
      RunSplits(s, first, rest[..|rest| - 1]);
      assert (first + rest)[..|first + rest| - 1] == first + rest[..|rest| - 1];
    }
  }

  /** The first moment the registry is full of other jobs evicts the entry. */
  lemma CrowdingEvicts<V>(s: Entries<V>, id: string, v: V, later: seq<Op<V>>)
    requires Sound(s) && id != "" && Untouched(later, id) && !NeverCrowded(later)
    ensures id !in Keys(Run(Built(s, id, v), later))
  {
    var n := FirstCrowding(later);
    ApplyKeepsSound(s, Build(id, v));
    RunSound(Built(s, id, v), later[..n]);
    UntouchedParts(later, n, id);
    hide Sound, Built, Keys, Run, NeverCrowded, Untouched;
    EvictedAt(s, id, v, later[..n - 1], later[n - 1], later[..n]);
    StaysOut(Run(Built(s, id, v), later[..n]), id, later[n..]);
    RunSplits(Built(s, id, v), later[..n], later[n..]);
  }

  lemma UntouchedParts<V>(later: seq<Op<V>>, n: nat, id: string)
    requires Untouched(later, id) && 0 < n <= |later|
    ensures Untouched(later[..n], id) && Untouched(later[n..], id)
    ensures later[..n] == later[..n - 1] + [later[n - 1]] && later == later[..n] + later[n..]
  {
  }

  lemma EvictedAt<V>(s: Entries<V>, id: string, v: V, front: seq<Op<V>>, op: Op<V>, first: seq<Op<V>>)
    requires Sound(s) && id != "" && first == front + [op] && Untouched(first, id)
    requires NeverCrowded(front) && |Fresh(first)| >= MAX_INDEXES
    ensures id !in Keys(Run(Built(s, id, v), first))
  {
    assert first[..|first| - 1] == front;
    assert forall i :: 0 <= i < |front| ==> front[i] == first[i];
    var older, newer := KeepsStanding(s, id, v, front);
    assert front[..|front|] == front;
    FreshStep(first);
    assert op.id != id by {
      assert first[|front|] == op;
    }
    hide Built, Standing, Sound, NeverCrowded, Keys;
    older, newer := BuildStep(Run(Built(s, id, v), front), op.id, op.index, id, v, Fresh(front), older, newer);
  }

  lemma FreshStep<V>(ops: seq<Op<V>>)
    requires ops != [] && |Fresh(ops)| > |Fresh(ops[..|ops| - 1])|
    ensures ops[|ops| - 1].Build? && ops[|ops| - 1].id != ""
  {
    Shrinks(Fresh(ops[..|ops| - 1]), ops[|ops| - 1].id);
  }

  lemma {:induction false} FirstCrowding<V>(ops: seq<Op<V>>) returns (n: nat)
    requires !NeverCrowded(ops)
    ensures 0 < n <= |ops| && |Fresh(ops[..n])| >= MAX_INDEXES && NeverCrowded(ops[..n - 1])
  {
    assert ops != [] by {
      assert ops[..|ops|] == ops && Fresh<V>([]) == {};
    }
    var front := ops[..|ops| - 1];
    assert forall m :: 0 <= m <= |front| ==> front[..m] == ops[..m];
    if NeverCrowded(front) {
      n := |ops|;
    } else {
      n := FirstCrowding(front);
      assert ops[..n - 1] == front[..n - 1];
    }
  }

  /**
   After a build, and whatever is built and cleared for other jobs since, the job is found with that
   index exactly as long as the registry was never full of jobs built since.
   */
  lemma FoundIffNeverCrowded<V>(s: Entries<V>, id: string, v: V, later: seq<Op<V>>)
    requires Sound(s) && id != "" && Untouched(later, id)
    ensures Find(Run(Built(s, id, v), later), id) == if NeverCrowded(later) then Some(v) else None
  {
    var end := Run(Built(s, id, v), later);
    if NeverCrowded(later) {
      var older, newer := KeepsStanding(s, id, v, later);
      FindExact(end, |older|);
    } else {
      CrowdingEvicts(s, id, v, later);
      FindMissing(end, id);
    }
  }

  // ---------- the registry ----------

  ghost predicate AllIn<V>(order: seq<string>, indexes: map<string, V>) {
    forall i :: 0 <= i < |order| ==> order[i] in indexes
  }

  function Listing<V>(order: seq<string>, indexes: map<string, V>): (r: Entries<V>)
    requires AllIn(order, indexes)
    ensures |r| == |order| && forall i :: 0 <= i < |r| ==> r[i] == (order[i], indexes[order[i]])
  {
    seq(|order|, i requires 0 <= i < |order| => (order[i], indexes[order[i]]))
  }

  function Omit(order: seq<string>, id: string): seq<string> {
    if order == [] then []
    else
      var front := Omit(order[..|order| - 1], id);
      if order[|order| - 1] == id then front else front + [order[|order| - 1]]
  }

  lemma {:induction false} OmitExact(order: seq<string>, id: string)
    requires NoRepeats(order)
    ensures NoRepeats(Omit(order, id)) && |Omit(order, id)| <= |order|
    ensures forall k :: k in Omit(order, id) <==> k in order && k != id
  {
    if order != [] {
      var front, last := order[..|order| - 1], order[|order| - 1];
      OmitExact(front, id);
      assert order == front + [last];
      DistinctAppend(Omit(front, id), last);
    }
  }

  lemma DistinctAppend(order: seq<string>, id: string)
    requires NoRepeats(order) && id !in order
    ensures NoRepeats(order + [id])
  {
  }

  /** Every listed job is different and named, and the jobs listed are those with an index. */
  ghost predicate Consistent<V>(order: seq<string>, indexes: map<string, V>) {
    && NoRepeats(order) && AllIn(order, indexes) && "" !in order
    && forall id :: id in indexes ==> id in order
  }

  lemma DropOldest<V>(order: seq<string>, indexes: map<string, V>)
    requires order != [] && Consistent(order, indexes)
    ensures Consistent(order[1..], indexes - {order[0]})
    ensures Listing(order[1..], indexes - {order[0]}) == Listing(order, indexes)[1..]
  {
    var rest := order[1..];
    assert NoRepeats(rest) && AllIn(rest, indexes - {order[0]}) && "" !in rest by {
      assert forall i :: 0 <= i < |rest| ==> rest[i] == order[i + 1];
    }
    forall id | id in indexes - {order[0]} ensures id in rest {
      var i :| 0 <= i < |order| && order[i] == id;
      assert rest[i - 1] == id;
    }
    hide Consistent, NoRepeats;
    assert Listing(rest, indexes - {order[0]}) == Listing(order, indexes)[1..];
  }

  /** What is left of the listing is a tail of it. */
  ghost predicate Remains<V>(order: seq<string>, indexes: map<string, V>, all: Entries<V>) {
    Consistent(order, indexes) && |order| <= |all| && Listing(order, indexes) == all[|all| - |order|..]
  }

  lemma RemainsStart<V>(order: seq<string>, indexes: map<string, V>)
    requires Consistent(order, indexes)
    ensures AllIn(order, indexes) && Remains(order, indexes, Listing(order, indexes))
  {
    hide AllIn;
  }

  lemma RemainsTrimmed<V>(order: seq<string>, indexes: map<string, V>, all: Entries<V>)
    requires Remains(order, indexes, all) && |order| <= MAX_INDEXES && (|order| == |all| || |order| >= MAX_INDEXES)
    ensures Consistent(order, indexes) && AllIn(order, indexes) && Listing(order, indexes) == Trimmed(all)
  {
    hide AllIn;
  }

  lemma RemainsNext<V>(order: seq<string>, indexes: map<string, V>, all: Entries<V>)
    requires order != [] && Remains(order, indexes, all)
    ensures Remains(order[1..], indexes - {order[0]}, all)
  {
    DropOldest(order, indexes);
    hide Consistent, AllIn;
    assert all[|all| - |order|..][1..] == all[|all| - |order| + 1..];
  }

  lemma PutLatest<V>(order: seq<string>, indexes: map<string, V>, id: string, index: V)
    requires Consistent(order, indexes) && id != ""
    ensures Consistent(Omit(order, id) + [id], indexes[id := index])
    ensures |Omit(order, id)| <= |order|
    ensures Listing(Omit(order, id) + [id], indexes[id := index]) == Without(Listing(order, indexes), id) + [(id, index)]
  {
    WithoutListing(order, indexes, id, indexes[id := index]);
    OmitExact(order, id);
    DistinctAppend(Omit(order, id), id);
    hide Omit, Without, NoRepeats;
    assert Listing(Omit(order, id) + [id], indexes[id := index]) == Listing(Omit(order, id), indexes[id := index]) + [(id, index)];
  }

  lemma {:induction false} WithoutListing<V>(order: seq<string>, indexes: map<string, V>, id: string, indexes': map<string, V>)
    requires AllIn(order, indexes)
    requires forall k :: k in indexes && k != id ==> k in indexes' && indexes'[k] == indexes[k]
    ensures AllIn(Omit(order, id), indexes')
    ensures Without(Listing(order, indexes), id) == Listing(Omit(order, id), indexes')
  {
    if order != [] {
      var front := order[..|order| - 1];
      WithoutListing(front, indexes, id, indexes');
      assert Listing(order, indexes)[..|front|] == Listing(front, indexes);
    }
  }

  lemma FindListing<V>(order: seq<string>, indexes: map<string, V>, id: string)
    requires AllIn(order, indexes) && NoRepeats(order)
    ensures Find(Listing(order, indexes), id) == if id in order then Some(indexes[id]) else None
  {
    var s := Listing(order, indexes);
    if id in order {
      var i :| 0 <= i < |order| && order[i] == id;
      FindExact(s, i);
    } else {
      FindMissing(s, id);
    }
  }

  class Registry<V> {
    var order: seq<string>
    var indexes: map<string, V>

    ghost predicate Valid()
      reads this
    {
      |order| <= MAX_INDEXES && Consistent(order, indexes)
    }

    ghost function Contents(): Entries<V>
      reads this
      requires AllIn(order, indexes)
    {
      Listing(order, indexes)
    }

    constructor ()
      ensures Valid() && Contents() == []
    {
      order, indexes := [], map[];
    }

    /** Registers the index as the most recent; the least recent goes when there are too many. */
    method Build(id: string, index: V)
      requires Valid()
      modifies this
      ensures Valid() && Contents() == Built(old(Contents()), id, index)
    {
      if id == "" {
        return;
      }
      PutLatest(order, indexes, id, index);
      hide Omit, Without, Consistent, AllIn, Trimmed;
      order := Omit(order, id) + [id];
      indexes := indexes[id := index];
      Evict();
    }

    /** Drops the oldest indexes until there are few enough. */
    method Evict()
      requires Consistent(order, indexes)
      modifies this
      ensures Valid() && Contents() == Trimmed(old(Listing(order, indexes)))
    {
      hide Consistent, AllIn, Remains, Trimmed;
      RemainsStart(order, indexes);
      ghost var all := Listing(order, indexes);
      while |order| > MAX_INDEXES
        invariant Remains(order, indexes, all)
        invariant |order| == |all| || |order| >= MAX_INDEXES
      {
        RemainsNext(order, indexes, all);
        var oldest := order[0];
        order := order[1..];
        indexes := indexes - {oldest};
      }
      RemainsTrimmed(order, indexes, all);
    }

    method Get(id: string) returns (index: Option<V>)
      requires Valid()
      ensures index == Find(Contents(), id)
    {
      FindListing(order, indexes, id);
      if id == "" || id !in indexes {
        return None;
      }
      index := Some(indexes[id]);
    }

    method Clear(id: string)
      requires Valid()
      modifies this
      ensures Valid() && Contents() == Without(old(Contents()), id)
    {
      WithoutListing(order, indexes, id, indexes - {id});
      OmitExact(order, id);
      if id == "" {
        OmitAbsent(order, id);
        return;
      }
      order := Omit(order, id);
      indexes := indexes - {id};
    }
  }

  lemma {:induction false} OmitAbsent(order: seq<string>, id: string)
    requires id !in order
    ensures Omit(order, id) == order
  {
    if order != [] {
      OmitAbsent(order[..|order| - 1], id);
    }
  }
}
