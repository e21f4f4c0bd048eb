/**
 A model of the library's stable sort. `Sort` orders a sequence by a total preorder
 and keeps tied elements in their original order. `IsStableSortOf` says so without
 mentioning the algorithm, and `StableSortIsUnique` shows that the two agree.
 */
module Sorting {
  import opened Sequences

  ghost predicate TotalPreorder<T(!new)>(le: (T, T) -> bool) {
    && (forall x, y :: le(x, y) || le(y, x))
    && (forall x, y, z :: le(x, y) && le(y, z) ==> le(x, z))
  }

  ghost predicate Ordered<T>(s: seq<T>, le: (T, T) -> bool) {
    forall i, j :: 0 <= i < j < |s| ==> le(s[i], s[j])
  }

  /** The elements of `s` that tie with `v`, in order. */
  function Ties<T>(s: seq<T>, v: T, le: (T, T) -> bool): seq<T> {
    if s == [] then []
    else if le(s[0], v) && le(v, s[0]) then [s[0]] + Ties(s[1..], v, le)
    else Ties(s[1..], v, le)
  }

  ghost predicate IsStableSortOf<T(!new)>(t: seq<T>, s: seq<T>, le: (T, T) -> bool) {
    && multiset(t) == multiset(s)
    && Ordered(t, le)
    && (forall v :: Ties(t, v, le) == Ties(s, v, le))
  }

  function Insert<T>(x: T, s: seq<T>, le: (T, T) -> bool): seq<T> {
    if s == [] || le(x, s[0]) then [x] + s else [s[0]] + Insert(x, s[1..], le)
  }

  function Sort<T>(s: seq<T>, le: (T, T) -> bool): seq<T> {
    if s == [] then [] else Insert(s[0], Sort(s[1..], le), le)
  }

  lemma {:induction false} InsertKeeps<T(!new)>(x: T, s: seq<T>, le: (T, T) -> bool)
    ensures multiset(Insert(x, s, le)) == multiset{x} + multiset(s)
  {
    if s == [] {
    } else if le(x, s[0]) {
      assert multiset([x] + s) == multiset{x} + multiset(s);
    } else {
      InsertKeeps(x, s[1..], le);
      assert s == [s[0]] + s[1..];
    }
  }

  lemma ConsOrdered<T(!new)>(x: T, s: seq<T>, le: (T, T) -> bool)
    requires Ordered(s, le)
    requires forall k :: 0 <= k < |s| ==> le(x, s[k])
    ensures Ordered([x] + s, le)
  {
  }

  lemma {:induction false} InsertOrders<T(!new)>(x: T, s: seq<T>, le: (T, T) -> bool)
    requires TotalPreorder(le) && Ordered(s, le)
    ensures Ordered(Insert(x, s, le), le)
  {
    if s == [] {
    } else if le(x, s[0]) {
      forall k | 0 <= k < |s| ensures le(x, s[k]) {
        assert k == 0 || le(s[0], s[k]);
      }
      ConsOrdered(x, s, le);
    } else {
      var tail := Insert(x, s[1..], le);
      InsertOrders(x, s[1..], le);
      InsertKeeps(x, s[1..], le);
      forall k | 0 <= k < |tail| ensures le(s[0], tail[k]) {
        assert tail[k] in multiset(tail);
        assert tail[k] == x || tail[k] in s[1..];
      }
      ConsOrdered(s[0], tail, le);
    }
  }

  lemma {:induction false} InsertTies<T(!new)>(x: T, s: seq<T>, v: T, le: (T, T) -> bool)
    requires TotalPreorder(le) && Ordered(s, le)
    ensures Ties(Insert(x, s, le), v, le) == Ties([x] + s, v, le)
  {
    if s == [] || le(x, s[0]) {
    } else {
      InsertTies(x, s[1..], v, le);
      assert ([s[0]] + Insert(x, s[1..], le))[1..] == Insert(x, s[1..], le);
      assert ([x] + s)[1..] == s;
      assert ([x] + s[1..])[1..] == s[1..];
    }
  }

  /** Sorting permutes, orders, and keeps ties in their original order. */
  lemma {:induction false} SortIsStableSort<T(!new)>(s: seq<T>, le: (T, T) -> bool)
    requires TotalPreorder(le)
    ensures IsStableSortOf(Sort(s, le), s, le)
  {
    if s != [] {
      SortIsStableSort(s[1..], le);
      var t := Sort(s[1..], le);
      InsertKeeps(s[0], t, le);
      InsertOrders(s[0], t, le);
      assert s == [s[0]] + s[1..];
      forall v ensures Ties(Sort(s, le), v, le) == Ties(s, v, le) {
        InsertTies(s[0], t, v, le);
        assert ([s[0]] + t)[1..] == t;
      }
    }
  }

  lemma {:induction false} TiesHead<T(!new)>(s: seq<T>, v: T, le: (T, T) -> bool)
    requires Ties(s, v, le) != []
    ensures Ties(s, v, le)[0] in s
  {
    if s != [] && !(le(s[0], v) && le(v, s[0])) {
      TiesHead(s[1..], v, le);
    }
  }

  /** Two ordered sequences with the same ties everywhere are equal. */
  lemma {:induction false} OrderedTiesDetermine<T(!new)>(s: seq<T>, t: seq<T>, le: (T, T) -> bool)
    requires TotalPreorder(le)
    requires Ordered(s, le) && Ordered(t, le)
    requires forall v :: Ties(s, v, le) == Ties(t, v, le)
    ensures s == t
  {
    if s == [] {
      if t != [] {
        assert false;
      }
    } else {
      assert Ties(s, s[0], le)[0] == s[0];
      TiesHead(t, s[0], le);
      assert Ties(t, t[0], le)[0] == t[0];
      TiesHead(s, t[0], le);
      assert le(s[0], t[0]) && le(t[0], s[0]);
      assert Ties(t, s[0], le)[0] == t[0];
      forall v ensures Ties(s[1..], v, le) == Ties(t[1..], v, le) {
        assert Ties(s, v, le) == Ties(t, v, le);
        assert le(s[0], v) && le(v, s[0]) <==> le(t[0], v) && le(v, t[0]);
        var a, b := Ties(s[1..], v, le), Ties(t[1..], v, le);
        assert ([s[0]] + a)[1..] == a && ([t[0]] + b)[1..] == b;
      }
      OrderedTiesDetermine(s[1..], t[1..], le);
      assert s == [s[0]] + s[1..] && t == [t[0]] + t[1..];
    }
  }

  /** The specification of a stable sort has one solution, the one `Sort` computes. */
  lemma StableSortIsUnique<T(!new)>(s: seq<T>, t: seq<T>, le: (T, T) -> bool)
    requires TotalPreorder(le)
    ensures IsStableSortOf(t, s, le) <==> t == Sort(s, le)
  {
    SortIsStableSort(s, le);
    if IsStableSortOf(t, s, le) {
      OrderedTiesDetermine(t, Sort(s, le), le);
    }
  }

  /** Sorting changes neither the length nor the members. */
  lemma SortMembers<T(!new)>(s: seq<T>, le: (T, T) -> bool)
    requires TotalPreorder(le)
    ensures |Sort(s, le)| == |s|
    ensures forall x :: x in Sort(s, le) <==> x in s
    ensures Ordered(Sort(s, le), le)
  {
    SortIsStableSort(s, le);
    assert |multiset(Sort(s, le))| == |multiset(s)|;
    forall x ensures x in Sort(s, le) <==> x in s {
      assert x in multiset(Sort(s, le)) <==> x in multiset(s);
    }
  }

  function Removed<T>(s: seq<T>, i: nat): seq<T>
    requires i < |s|
  {
    s[..i] + s[i + 1..]
  }

  lemma WithoutOne<T(!new)>(s: seq<T>, i: nat)
    requires i < |s|
    ensures multiset(Removed(s, i)) == multiset(s) - multiset{s[i]} && |Removed(s, i)| == |s| - 1
  {
    assert s == s[..i] + [s[i]] + s[i + 1..];
  }

  lemma WithoutFirst<T(!new)>(s: seq<T>)
    requires s != []
    ensures multiset(s[1..]) == multiset(s) - multiset{s[0]}
  {
    WithoutOne(s, 0);
    assert Removed(s, 0) == s[1..];
  }

  function Mapped<T, U>(s: seq<T>, f: T -> U): (r: seq<U>)
    ensures |r| == |s| && forall i :: 0 <= i < |r| ==> r[i] == f(s[i])
  {
    seq(|s|, i requires 0 <= i < |s| => f(s[i]))
  }

  lemma MappedWithout<T(!new), U(!new)>(s: seq<T>, f: T -> U, i: nat)
    requires i < |s|
    ensures multiset(Mapped(s, f)) == multiset(Mapped(Removed(s, i), f)) + multiset{f(s[i])}
  {
    var r := Mapped(s, f);
    WithoutOne(r, i);
    assert Mapped(Removed(s, i), f) == Removed(r, i);
    assert r[i] in multiset(r);
  }

  /** Mapping a rearrangement rearranges what is mapped to. */
  lemma {:induction false} MappedPermute<T(!new), U(!new)>(p: seq<T>, q: seq<T>, f: T -> U)
    requires multiset(p) == multiset(q)
    ensures multiset(Mapped(p, f)) == multiset(Mapped(q, f))
    decreases |p|
  {
    hide Mapped, Removed;
    assert |multiset(p)| == |p| && |multiset(q)| == |q|;
    if p != [] {
      var i := Position(p, q);
      WithoutOne(p, 0);
      WithoutOne(q, i);
      MappedWithout(p, f, 0);
      MappedWithout(q, f, i);
      MappedPermute(Removed(p, 0), Removed(q, i), f);
    } else {
      assert p == q;
    }
  }

  lemma Position<T(!new)>(p: seq<T>, q: seq<T>) returns (i: nat)
    requires multiset(p) == multiset(q) && p != []
    ensures i < |q| && q[i] == p[0]
  {
    assert p[0] in multiset(q);
    i :| 0 <= i < |q| && q[i] == p[0];
  }

  lemma FirstsAgree<T(!new)>(s: seq<T>, t: seq<T>, le: (T, T) -> bool)
    requires TotalPreorder(le) && Ordered(s, le) && Ordered(t, le) && multiset(s) == multiset(t) && s != [] && t != []
    ensures le(s[0], t[0]) && le(t[0], s[0]) && t[0] in s
  {
    assert s[0] in multiset(t) && t[0] in multiset(s);
    var i :| 0 <= i < |t| && t[i] == s[0];
    var j :| 0 <= j < |s| && s[j] == t[0];
    assert le(s[0], s[0]) && le(t[0], t[0]);
    assert le(t[0], t[i]) && le(s[0], s[j]);
  }

  /** Where tied elements are equal, a multiset has one ordered arrangement. */
  lemma {:induction false} OrderedUnique<T(!new)>(s: seq<T>, t: seq<T>, le: (T, T) -> bool)
    requires TotalPreorder(le) && Ordered(s, le) && Ordered(t, le) && multiset(s) == multiset(t)
    requires forall x, y :: x in s && y in s && le(x, y) && le(y, x) ==> x == y
    ensures s == t
  {
    hide TotalPreorder, Ordered;
    assert |multiset(s)| == |s| && |multiset(t)| == |t|;
    if s != [] {
      FirstsAgree(s, t, le);
      TailOrdered(s, le);
      TailOrdered(t, le);
      WithoutFirst(s);
      WithoutFirst(t);
      assert s[0] == t[0] && multiset(s[1..]) == multiset(t[1..]);
      OrderedUnique(s[1..], t[1..], le);
      assert s == [s[0]] + s[1..] && t == [t[0]] + t[1..];
    }
  }

  lemma TailOrdered<T(!new)>(s: seq<T>, le: (T, T) -> bool)
    requires Ordered(s, le) && s != []
    ensures Ordered(s[1..], le) && s[0] in s && forall x :: x in s[1..] ==> x in s
  {
  }

  lemma ConsDistinct<T(!new)>(x: T, s: seq<T>)
    requires NoRepeats(s) && x !in s
    ensures NoRepeats([x] + s)
  {
    var t := [x] + s;
    forall i, j | 0 <= i < j < |t| ensures t[i] != t[j] {
      assert t[j] == s[j - 1] && t[j] in s;
    }
  }

  lemma {:induction false} InsertDistinct<T(!new)>(x: T, s: seq<T>, le: (T, T) -> bool)
    requires NoRepeats(s) && x !in s
    ensures NoRepeats(Insert(x, s, le))
  {
    if s == [] || le(x, s[0]) {
      ConsDistinct(x, s);
    } else {
      InsertDistinct(x, s[1..], le);
      InsertKeeps(x, s[1..], le);
      var tail := Insert(x, s[1..], le);
      assert s[0] !in multiset(tail);
      hide NoRepeats;
      ConsDistinct(s[0], tail);
    }
  }

  lemma {:induction false} SortDistinct<T(!new)>(s: seq<T>, le: (T, T) -> bool)
    requires TotalPreorder(le) && NoRepeats(s)
    ensures NoRepeats(Sort(s, le))
  {
    if s != [] {
      SortDistinct(s[1..], le);
      SortMembers(s[1..], le);
      InsertDistinct(s[0], Sort(s[1..], le), le);
    }
  }

  // ---------- ordering positions by a key ----------

  function Range(n: nat): (r: seq<nat>)
    ensures |r| == n && forall i :: 0 <= i < n ==> r[i] == i
  {
    seq(n, i => i)
  }

  function At(s: seq<nat>, i: nat): nat {
    if i < |s| then s[i] else 0
  }

  function ByKey(keys: seq<nat>): (nat, nat) -> bool {
    (i: nat, j: nat) => At(keys, i) <= At(keys, j)
  }

  /** Positions arranged by ascending key, ties in order. */
  function OrderBy(keys: seq<nat>): seq<nat> {
    Sort(Range(|keys|), ByKey(keys))
  }

  ghost predicate IsPermutationOf(order: seq<nat>, n: nat) {
    && |order| == n
    && (forall a :: 0 <= a < n ==> order[a] < n)
    && (forall a: nat :: a < n ==> a in order)
    && (forall a, b :: 0 <= a < b < n ==> order[a] != order[b])
  }

  lemma OrderBySorts(keys: seq<nat>)
    ensures |OrderBy(keys)| == |keys|
    ensures forall a :: 0 <= a < |keys| ==> OrderBy(keys)[a] < |keys|
    ensures forall a, b :: 0 <= a < b < |keys| ==> keys[OrderBy(keys)[a]] <= keys[OrderBy(keys)[b]]
  {
    var s, le, t := Range(|keys|), ByKey(keys), OrderBy(keys);
    SortMembers(s, le);
    forall a | 0 <= a < |keys| ensures t[a] < |keys| {
      assert t[a] in t && t[a] in s;
    }
    forall a, b | 0 <= a < b < |keys| ensures keys[t[a]] <= keys[t[b]] {
      assert le(t[a], t[b]);
    }
  }

  lemma OrderByPermutes(keys: seq<nat>)
    ensures IsPermutationOf(OrderBy(keys), |keys|)
  {
    OrderBySorts(keys);
    var s, le, t := Range(|keys|), ByKey(keys), OrderBy(keys);
    SortMembers(s, le);
    forall a: nat | a < |keys| ensures a in t {
      assert s[a] in s;
    }
    forall a, b | 0 <= a < b < |keys| ensures t[a] != t[b] {
      SortIsStableSort(s, le);
      RangeOnce(|keys|, t[a]);
      CountsTwice(t, a, b);
    }
  }

  lemma CountsTwice(t: seq<nat>, a: nat, b: nat)
    requires a < b < |t|
    ensures t[a] == t[b] ==> multiset(t)[t[a]] >= 2
  {
    assert t == t[..a] + [t[a]] + t[a + 1..b] + [t[b]] + t[b + 1..];
  }

  lemma {:induction false} RangeOnce(n: nat, i: nat)
    ensures multiset(Range(n))[i] <= 1
  {
    if n > 0 {
      assert Range(n) == Range(n - 1) + [n - 1];
      RangeOnce(n - 1, i);
      if i == n - 1 {
        assert i !in Range(n - 1);
      }
    }
  }
}
