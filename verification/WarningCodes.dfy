/**
 Rewriting internal requirement codes in warnings to public ones: code by code, each by a plain text
 replacement over the whole message.
 */
module WarningCodes {
  import opened Texts
  import opened Sequences
  import opened Decimal
  import opened IssueFamilies

  const REQ := "REQ"

  /** A message as codes with text between them. */
  datatype Token = Ref(id: nat) | Text(text: string)

  function RenderToken(t: Token): string {
    match t
    case Ref(id) => Code(REQ, id)
    case Text(text) => text
  }

  function Render(ts: seq<Token>): string {
    if ts == [] then "" else RenderToken(ts[0]) + Render(ts[1..])
  }

  /** Every occurrence replaced, scanning from the left. */
  function Replace(s: string, p: string, q: string): string
    requires p != ""
    decreases |s|
  {
    if |s| < |p| then s
    else if s[..|p|] == p then q + Replace(s[|p|..], p, q)
    else [s[0]] + Replace(s[1..], p, q)
  }

  /** One code replaced by another, as codes. */
  function Rewrite(ts: seq<Token>, a: nat, b: nat): (r: seq<Token>)
    ensures |r| == |ts| && forall i :: 0 <= i < |r| ==> r[i] == if ts[i] == Ref(a) then Ref(b) else ts[i]
  {
    seq(|ts|, i requires 0 <= i < |ts| => if ts[i] == Ref(a) then Ref(b) else ts[i])
  }

  // ---------- the table of public numbers ----------

  /** An internal id and the public number it gets. */
  type Entry = (nat, nat)

  /** A dictionary that remembers the order of its keys: a new key comes last, a known one keeps its place. */
  function Put(es: seq<Entry>, id: nat, number: nat): seq<Entry> {
    if es == [] then [(id, number)]
    else if es[0].0 == id then [(id, number)] + es[1..]
    else [es[0]] + Put(es[1..], id, number)
  }

  /** The requirements numbered from one, in order. */
  function Entries(ids: seq<nat>): seq<Entry> {
    if ids == [] then [] else Put(Entries(ids[..|ids| - 1]), ids[|ids| - 1], |ids|)
  }

  /** Each id once, each number once. */
  ghost predicate Table(es: seq<Entry>) {
    forall i, j :: 0 <= i < j < |es| ==> es[i].0 != es[j].0 && es[i].1 != es[j].1
  }

  lemma {:induction false} PutMembers(es: seq<Entry>, id: nat, number: nat)
    requires Table(es)
    ensures forall e :: e in Put(es, id, number) <==> e == (id, number) || (e in es && e.0 != id)
  {
    if es != [] {
      var rest := es[1..];
      assert es == [es[0]] + rest;
      assert forall i :: 0 <= i < |rest| ==> rest[i] == es[i + 1];
      PutMembers(rest, id, number);
    }
  }

  lemma ConsTable(e: Entry, later: seq<Entry>)
    requires Table(later) && forall x :: x in later ==> x.0 != e.0 && x.1 != e.1
    ensures Table([e] + later)
  {
    forall j | 0 <= j < |later| ensures e.0 != later[j].0 && e.1 != later[j].1 {
      assert later[j] in later;
    }
  }

  lemma {:induction false} PutTable(es: seq<Entry>, id: nat, number: nat)
    requires Table(es) && forall i :: 0 <= i < |es| ==> es[i].1 != number
    ensures Table(Put(es, id, number))
  {
    if es != [] && es[0].0 != id {
      var rest := es[1..];
      assert forall i :: 0 <= i < |rest| ==> rest[i] == es[i + 1];
      PutTable(rest, id, number);
      PutMembers(rest, id, number);
      ConsTable(es[0], Put(rest, id, number));
      hide Put;
    }
  }

  lemma EmptyTable()
    ensures Table([])
  {
  }

  /** Every id is numbered by its last requirement, and nothing else is in the table. */
  lemma {:induction false} EntriesExact(ids: seq<nat>)
    ensures Table(Entries(ids))
    ensures forall e :: e in Entries(ids) <==> 0 < e.1 <= |ids| && ids[e.1 - 1] == e.0 && e.0 !in ids[e.1..]
  {
    hide Put, Table;
    EmptyTable();
    if ids != [] {
      var front, last := ids[..|ids| - 1], ids[|ids| - 1];
      EntriesExact(front);
      forall i | 0 <= i < |Entries(front)| ensures Entries(front)[i].1 != |ids| {
        assert Entries(front)[i] in Entries(front);
      }
      PutTable(Entries(front), last, |ids|);
      PutMembers(Entries(front), last, |ids|);
      forall e: Entry | 0 < e.1 < |ids| ensures e.0 !in ids[e.1..] <==> e.0 !in front[e.1..] && e.0 != last {
        assert ids[e.1..] == front[e.1..] + [last];
      }
    }
  }

  lemma {:induction false} PutFresh(es: seq<Entry>, id: nat, number: nat)
    requires forall i :: 0 <= i < |es| ==> es[i].0 != id
    ensures Put(es, id, number) == es + [(id, number)]
  {
    if es != [] {
      PutFresh(es[1..], id, number);
    }
  }

  /** Distinct ids are numbered by position. */
  lemma {:induction false} EntriesDistinct(ids: seq<nat>)
    requires NoRepeats(ids)
    ensures |Entries(ids)| == |ids| && forall i :: 0 <= i < |ids| ==> Entries(ids)[i] == (ids[i], i + 1)
  {
    if ids != [] {
      var front := ids[..|ids| - 1];
      EntriesDistinct(front);
      PutFresh(Entries(front), ids[|ids| - 1], |ids|);
    }
  }

  // ---------- one after another, or all at once ----------

  /** The first `n` entries applied one after another. */
  function OneByOne(ts: seq<Token>, es: seq<Entry>, n: nat): seq<Token>
    requires n <= |es|
  {
    if n == 0 then ts else Rewrite(OneByOne(ts, es, n - 1), es[n - 1].0, es[n - 1].1)
  }

  /** The public number of an internal id, or the id itself. */
  function Public(es: seq<Entry>, id: nat): nat {
    if es == [] then id else if es[|es| - 1].0 == id then es[|es| - 1].1 else Public(es[..|es| - 1], id)
  }

  function Mapped(t: Token, es: seq<Entry>): Token {
    match t
    case Ref(id) => Ref(Public(es, id))
    case Text(_) => t
  }

  function AllAtOnce(ts: seq<Token>, es: seq<Entry>): (r: seq<Token>)
    ensures |r| == |ts| && forall i :: 0 <= i < |r| ==> r[i] == Mapped(ts[i], es)
  {
    seq(|ts|, i requires 0 <= i < |ts| => Mapped(ts[i], es))
  }

  /** The public number of an earlier entry is the internal id of a later one. */
  ghost predicate Clash(es: seq<Entry>, i: nat, k: nat) {
    i < k < |es| && es[k].0 == es[i].1
  }

  ghost predicate NoClash(es: seq<Entry>) {
    forall i: nat, k: nat :: !Clash(es, i, k)
  }

  ghost predicate Increasing(ids: seq<nat>) {
    (forall i :: 0 <= i < |ids| ==> ids[i] >= 1) && forall i, j :: 0 <= i < j < |ids| ==> ids[i] < ids[j]
  }

  lemma {:induction false} PublicIs(es: seq<Entry>, id: nat)
    requires Table(es)
    ensures (forall i :: 0 <= i < |es| ==> es[i].0 != id) ==> Public(es, id) == id
    ensures forall i :: 0 <= i < |es| && es[i].0 == id ==> Public(es, id) == es[i].1
  {
    if es != [] {
      PublicIs(es[..|es| - 1], id);
    }
  }

  lemma {:induction false} AtLeastPosition(ids: seq<nat>)
    requires Increasing(ids)
    ensures forall i :: 0 <= i < |ids| ==> ids[i] >= i + 1
  {
    if |ids| > 1 {
      var front := ids[..|ids| - 1];
      AtLeastPosition(front);
      assert front[|front| - 1] >= |front| && ids[|ids| - 2] < ids[|ids| - 1];
      assert forall i :: 0 <= i < |front| ==> front[i] == ids[i];
    }
  }

  /** Strictly increasing ids from one upwards never clash: each is at least its own position. */
  lemma IncreasingNoClash(ids: seq<nat>)
    requires Increasing(ids)
    ensures NoRepeats(ids) && NoClash(Entries(ids))
  {
    AtLeastPosition(ids);
    EntriesDistinct(ids);
  }

  /** Applying one more entry, when nothing before it was given its id. */
  lemma RewriteOne(t: Token, es: seq<Entry>, n: nat)
    requires 0 < n <= |es| && Table(es) && NoClash(es)
    ensures (if Mapped(t, es[..n - 1]) == Ref(es[n - 1].0) then Ref(es[n - 1].1) else Mapped(t, es[..n - 1])) == Mapped(t, es[..n])
  {
    if t.Ref? {
      PublicIs(es[..n - 1], t.id);
      PublicIs(es[..n], t.id);
      hide Public;
      if i :| 0 <= i < n - 1 && es[i].0 == t.id {
        assert es[..n - 1][i].0 == t.id && es[..n][i].0 == t.id;
        assert !Clash(es, i, n - 1);
      } else if es[n - 1].0 == t.id {
        assert es[..n][n - 1].0 == t.id;
      }
    }
  }

  lemma {:induction false} OneByOneIs(ts: seq<Token>, es: seq<Entry>, n: nat)
    requires n <= |es| && Table(es) && NoClash(es)
    ensures |OneByOne(ts, es, n)| == |ts|
    ensures forall i :: 0 <= i < |ts| ==> OneByOne(ts, es, n)[i] == Mapped(ts[i], es[..n])
  {
    if n > 0 {
      OneByOneIs(ts, es, n - 1);
      forall i | 0 <= i < |ts| ensures OneByOne(ts, es, n)[i] == Mapped(ts[i], es[..n]) {
        RewriteOne(ts[i], es, n);
      }
    }
  }

  lemma OneByOneIsAllAtOnce(ts: seq<Token>, es: seq<Entry>)
    requires Table(es) && NoClash(es)
    ensures OneByOne(ts, es, |es|) == AllAtOnce(ts, es)
  {
    OneByOneIs(ts, es, |es|);
    assert es[..|es|] == es;
  }

  /** A clash shows: the code given for the earlier entry is rewritten again for the later one. */
  lemma ClashShows(es: seq<Entry>, i: nat, k: nat) returns (m: nat)
    requires Table(es) && Clash(es, i, k)
    ensures AllAtOnce([Ref(es[i].0)], es) == [Ref(es[i].1)]
    ensures OneByOne([Ref(es[i].0)], es, |es|) == [Ref(m)] && m != es[i].1
  {
    PublicIs(es, es[i].0);
    var at := Leaves(es, i, k, |es|);
    m := es[at].1;
  }

  /** Once past entry `k`, the reference has been given the number of a later entry than `i`. */
  lemma {:induction false} Leaves(es: seq<Entry>, i: nat, k: nat, n: nat) returns (at: nat)
    requires Table(es) && Clash(es, i, k) && k < n <= |es|
    ensures i < at < |es| && OneByOne([Ref(es[i].0)], es, n) == [Ref(es[at].1)]
  {
    if n == k + 1 {
      Arrives(es, i, k, k);
      at := k;
    } else {
      at := Leaves(es, i, k, n - 1);
      if es[n - 1].0 == es[at].1 {
        at := n - 1;
      }
    }
    assert OneByOne([Ref(es[i].0)], es, n) == [Ref(es[at].1)];
  }

  lemma {:induction false} Unchanged(es: seq<Entry>, i: nat, n: nat)
    requires Table(es) && n <= i < |es|
    ensures OneByOne([Ref(es[i].0)], es, n) == [Ref(es[i].0)]
  {
    if n > 0 {
      Unchanged(es, i, n - 1);
    }
  }

  /** The reference reaches entry `k` with the number of entry `i`. */
  lemma {:induction false} Arrives(es: seq<Entry>, i: nat, k: nat, n: nat)
    requires Table(es) && Clash(es, i, k) && i < n <= k
    ensures OneByOne([Ref(es[i].0)], es, n) == [Ref(es[i].1)]
  {
    if n == i + 1 {
      Unchanged(es, i, i);
    } else {
      Arrives(es, i, k, n - 1);
    }
  }

  /** Rewriting codes one after another equals rewriting them all at once, in every message, exactly when no ids clash. */
  lemma SequentialIffNoClash(es: seq<Entry>)
    requires Table(es)
    ensures NoClash(es) <==> forall ts :: OneByOne(ts, es, |es|) == AllAtOnce(ts, es)
  {
    if NoClash(es) {
      forall ts ensures OneByOne(ts, es, |es|) == AllAtOnce(ts, es) {
        OneByOneIsAllAtOnce(ts, es);
      }
    } else {
      var i: nat, k: nat :| Clash(es, i, k);
      var m := ClashShows(es, i, k);
    }
  }

  /** Clashes exist: with ids 2 and 1, the code of the first requirement is rewritten to REQ-001 and then to REQ-002. */
  lemma TwoOneClashes()
    ensures Clash(Entries([2, 1]), 0, 1)
    ensures OneByOne([Ref(2)], Entries([2, 1]), 2) == [Ref(2)] && AllAtOnce([Ref(2)], Entries([2, 1])) == [Ref(1)]
  {
    EntriesDistinct([2, 1]);
    assert Entries([2, 1]) == [(2, 1), (1, 2)];
    assert OneByOne([Ref(2)], [(2, 1), (1, 2)], 1) == [Ref(1)];
    PublicIs([(2, 1), (1, 2)], 2);
  }

  // ---------- codes as characters ----------

  const MARK := "REQ-"

  /** Codes, with text between them that holds no code mark of its own. */
  ghost predicate Spaced(ts: seq<Token>) {
    && (forall i :: 0 <= i < |ts| && ts[i].Text? ==> !Contains(ts[i].text, MARK))
    && (forall i :: 0 <= i < |ts| - 1 ==> Alternates(ts, i))
  }

  /** No code has more than three digits. */
  ghost predicate Short(ts: seq<Token>) {
    forall i :: 0 <= i < |ts| && ts[i].Ref? ==> ts[i].id < 1000
  }

  predicate Alternates(ts: seq<Token>, i: nat) {
    i + 1 < |ts| && (ts[i].Ref? || ts[i + 1].Ref?)
  }

  /** A code begins with the mark and has at least three digits after it; its first letter occurs only in front. */
  lemma CodeShape(n: nat)
    ensures |Code(REQ, n)| >= 7 && Code(REQ, n)[..4] == MARK
    ensures forall i :: 1 <= i < |Code(REQ, n)| ==> Code(REQ, n)[i] != 'R'
    ensures n < 1000 ==> |Code(REQ, n)| == 7
  {
    NumeralLength(n);
    NumeralValue(n);
    PaddedValue(Numeral(n));
    hide Padded, Numeral, Value;
    var digits := Padded(Numeral(n));
    assert Code(REQ, n) == "REQ" + "-" + digits;
    assert forall i :: 4 <= i < |Code(REQ, n)| ==> Code(REQ, n)[i] == digits[i - 4];
  }

  /** What may come after a text: nothing, or a code. */
  predicate Starts(rest: string) {
    rest == "" || rest[0] == 'R'
  }

  /** No code begins within a text that holds no mark. */
  lemma NoMatchInText(text: string, rest: string, p: string)
    requires text != "" && !Contains(text, MARK) && Starts(rest)
    requires |p| >= 7 && p[..4] == MARK
    ensures |text + rest| < |p| || (text + rest)[..|p|] != p
  {
    var s := text + rest;
    assert |s| >= |p| ==> s[..|p|][..4] == s[..4];
    if |text| >= 4 {
      assert s[..4] == text[..4] == text[0..0 + |MARK|];
      assert !OccursAt(text, MARK, 0);
    } else if |s| >= |p| {
      assert s[..4][|text|] == s[|text|] == rest[0] == 'R';
      assert MARK[|text|] != 'R';
    }
  }

  lemma {:induction false} TextStays(text: string, rest: string, p: string, q: string)
    requires !Contains(text, MARK) && Starts(rest) && |p| >= 7 && p[..4] == MARK
    ensures Replace(text + rest, p, q) == text + Replace(rest, p, q)
  {
    hide Replace, Contains;
    if text == "" {
      assert text + rest == rest;
    } else {
      NoMatchInText(text, rest, p);
      if Contains(text[1..], MARK) {
        ContainsSuffix(text, 1, MARK);
      }
      TextStays(text[1..], rest, p, q);
      ReplaceSkips(text + rest, p, q);
      assert (text + rest)[1..] == text[1..] + rest;
      assert text == [text[0]] + text[1..];
    }
  }

  lemma ReplaceSkips(s: string, p: string, q: string)
    requires s != "" && p != "" && (|s| < |p| || s[..|p|] != p)
    ensures Replace(s, p, q) == [s[0]] + Replace(s[1..], p, q)
  {
    if |s| < |p| {
      assert s == [s[0]] + s[1..];
    }
  }

  lemma ReplaceHits(s: string, p: string, q: string)
    requires p != "" && p <= s
    ensures Replace(s, p, q) == q + Replace(s[|p|..], p, q)
  {
  }

  /** Nothing matches from within a code: the pattern's first letter does not occur there. */
  lemma {:induction false} TailStays(tail: string, rest: string, p: string, q: string)
    requires p != "" && p[0] == 'R' && 'R' !in tail
    ensures Replace(tail + rest, p, q) == tail + Replace(rest, p, q)
  {
    hide Replace;
    if tail == "" {
      assert tail + rest == rest;
    } else {
      var s := tail + rest;
      assert tail[0] in tail;
      assert |s| < |p| || s[..|p|][0] != p[0];
      ReplaceSkips(s, p, q);
      assert s[1..] == tail[1..] + rest;
      TailStays(tail[1..], rest, p, q);
      assert tail == [tail[0]] + tail[1..];
    }
  }

  /** A code that does not match is passed over, and the code itself is replaced. */
  lemma CodeReplaced(t: nat, rest: string, a: nat, b: nat)
    requires t == a || !(Code(REQ, a) <= Code(REQ, t) + rest)
    ensures Replace(Code(REQ, t) + rest, Code(REQ, a), Code(REQ, b)) == (if t == a then Code(REQ, b) else Code(REQ, t)) + Replace(rest, Code(REQ, a), Code(REQ, b))
  {
    hide Code, Replace;
    CodeShape(t);
    CodeShape(a);
    var c, p, q := Code(REQ, t), Code(REQ, a), Code(REQ, b);
    var s := c + rest;
    assert s[..|c|] == c && s[|c|..] == rest;
    if t == a {
      ReplaceHits(s, p, q);
    } else {
      assert p[..4][0] == 'R';
      ReplaceSkips(s, p, q);
      assert s[1..] == c[1..] + rest;
      TailStays(c[1..], rest, p, q);
      assert c == [c[0]] + c[1..];
    }
  }

  lemma RenderStarts(ts: seq<Token>)
    requires Spaced(ts) && (ts != [] ==> ts[0].Ref?)
    ensures Starts(Render(ts))
  {
    if ts != [] {
      CodeShape(ts[0].id);
      assert Code(REQ, ts[0].id)[..4][0] == 'R';
    }
  }

  lemma SpacedTail(ts: seq<Token>)
    requires Spaced(ts) && ts != []
    ensures Spaced(ts[1..])
  {
    var rest := ts[1..];
    assert forall i :: 0 <= i < |rest| ==> rest[i] == ts[i + 1];
    forall i | 0 <= i < |rest| - 1 ensures Alternates(rest, i) {
      assert Alternates(ts, i + 1);
    }
  }

  /** The code of `a` is read where another code stands: that one, with what follows it, begins with the code of `a`. */
  predicate MisreadFirst(ts: seq<Token>, a: nat) {
    ts != [] && ts[0].Ref? && ts[0].id != a && Code(REQ, a) <= Render(ts)
  }

  predicate Misread(ts: seq<Token>, a: nat) {
    ts != [] && (MisreadFirst(ts, a) || Misread(ts[1..], a))
  }

  function Replaced(ts: seq<Token>, a: nat, b: nat): string {
    CodeNotEmpty(a);
    Replace(Render(ts), Code(REQ, a), Code(REQ, b))
  }

  lemma CodeNotEmpty(n: nat)
    ensures Code(REQ, n) != ""
  {
  }

  /** What replacing makes of a message whose first token is not misread. */
  lemma ReplacedFirst(ts: seq<Token>, a: nat, b: nat)
    requires Spaced(ts) && ts != [] && !MisreadFirst(ts, a)
    ensures Replaced(ts, a, b) == RenderToken(Rewrite(ts, a, b)[0]) + Replaced(ts[1..], a, b)
    ensures Render(Rewrite(ts, a, b)) == RenderToken(Rewrite(ts, a, b)[0]) + Render(Rewrite(ts[1..], a, b))
  {
    var rest := ts[1..];
    assert Rewrite(ts, a, b)[1..] == Rewrite(rest, a, b);
    CodeShape(a);
    if ts[0].Ref? {
      CodeReplaced(ts[0].id, Render(rest), a, b);
    } else {
      SpacedTail(ts);
      assert rest != [] ==> Alternates(ts, 0);
      RenderStarts(rest);
      hide Code, Replace, Spaced;
      TextStays(ts[0].text, Render(rest), Code(REQ, a), Code(REQ, b));
    }
  }

  /** Without a misread, replacing characters is replacing codes. */
  lemma {:induction false} ReplaceIsRewrite(ts: seq<Token>, a: nat, b: nat)
    requires Spaced(ts) && !Misread(ts, a)
    ensures Replaced(ts, a, b) == Render(Rewrite(ts, a, b))
  {
    if ts == [] {
      CodeShape(a);
    } else {
      SpacedTail(ts);
      ReplaceIsRewrite(ts[1..], a, b);
      ReplacedFirst(ts, a, b);
    }
  }

  /** A match that begins in a code ends in that code or in the text after it. */
  lemma MatchEnds(ts: seq<Token>, p: string)
    requires Spaced(ts) && ts != [] && ts[0].Ref? && p <= Render(ts) && forall i :: 1 <= i < |p| ==> p[i] != 'R'
    requires |p| > |RenderToken(ts[0])|
    ensures |ts| > 1 && ts[1].Text? && |p| <= |RenderToken(ts[0])| + |ts[1].text|
  {
    var c, rest := RenderToken(ts[0]), ts[1..];
    CodeShape(ts[0].id);
    hide Code;
    assert Render(ts) == c + Render(rest);
    if rest != [] {
      SpacedTail(ts);
      TokenStarts(rest);
      assert p[|c|] == Render(rest)[0];
      if rest[0].Text? {
        var x := rest[0].text;
        assert Render(rest) == x + Render(rest[1..]);
        assert Render(ts) == c + x + Render(rest[1..]);
        assert Render(rest[1..]) != "" ==> Render(ts)[|c| + |x|] == 'R';
      }
    }
  }

  /** A code shows its first letter, and what follows a text does too. */
  lemma TokenStarts(ts: seq<Token>)
    requires Spaced(ts) && ts != []
    ensures ts[0].Ref? ==> Render(ts) != "" && Render(ts)[0] == 'R'
    ensures ts[0].Text? ==> Starts(Render(ts[1..]))
  {
    if ts[0].Ref? {
      CodeShape(ts[0].id);
      RenderStarts(ts);
    } else {
      SpacedTail(ts);
      assert ts[1..] != [] ==> Alternates(ts, 0);
      RenderStarts(ts[1..]);
    }
  }

  /** What replacing makes of a misread code and what follows it. */
  lemma MisreadTail(ts: seq<Token>, a: nat, b: nat)
    requires Spaced(ts) && MisreadFirst(ts, a)
    ensures Replaced(ts, a, b) == Code(REQ, b) + Replace(Render(ts)[|Code(REQ, a)|..], Code(REQ, a), Code(REQ, b))
    ensures |Replace(Render(ts)[|Code(REQ, a)|..], Code(REQ, a), Code(REQ, b))| ==
      |RenderToken(ts[0])| - |Code(REQ, a)| + |Replaced(ts[1..], a, b)|
  {
    var p, q, c, rest := Code(REQ, a), Code(REQ, b), RenderToken(ts[0]), ts[1..];
    CodeShape(a);
    CodeShape(ts[0].id);
    hide Code;
    var s := Render(ts);
    assert s == c + Render(rest);
    if |p| <= |c| {
      assert p[..4][0] == 'R';
      assert s[|p|..] == c[|p|..] + Render(rest);
      hide Replace;
      TailStays(c[|p|..], Render(rest), p, q);
    } else {
      MatchEnds(ts, p);
      MisreadIntoText(ts, p, q);
    }
  }

  lemma MisreadIntoText(ts: seq<Token>, p: string, q: string)
    requires Spaced(ts) && |ts| > 1 && ts[0].Ref? && ts[1].Text? && |p| >= 7 && p[..4] == MARK
    requires |RenderToken(ts[0])| <= |p| <= |RenderToken(ts[0])| + |ts[1].text| <= |Render(ts)|
    ensures |Replace(Render(ts)[|p|..], p, q)| == |RenderToken(ts[0])| - |p| + |Replace(Render(ts[1..]), p, q)|
  {
    var c, rest := RenderToken(ts[0]), ts[1..];
    var x, k, tail := rest[0].text, |p| - |c|, Render(rest[1..]);
    SpacedTail(ts);
    SpacedTail(rest);
    assert rest[1..] != [] ==> Alternates(rest, 0);
    RenderStarts(rest[1..]);
    assert Render(ts) == c + Render(rest) && Render(rest) == x + tail;
    hide Code, Replace, Render, RenderToken;
    assert Render(ts)[|p|..] == x[k..] + tail;
    if Contains(x[k..], MARK) {
      ContainsSuffix(x, k, MARK);
    }
    TextStays(x[k..], tail, p, q);
    TextStays(x, tail, p, q);
  }

  /** The right message still begins with the code that was misread. */
  lemma MisreadRight(ts: seq<Token>, a: nat, b: nat)
    requires Spaced(ts) && MisreadFirst(ts, a)
    ensures Code(REQ, a) <= Render(Rewrite(ts, a, b))
    ensures Render(Rewrite(ts, a, b)) == RenderToken(ts[0]) + Render(Rewrite(ts[1..], a, b))
  {
    hide Code, Replace, Spaced;
    var p, c, rest := Code(REQ, a), RenderToken(ts[0]), ts[1..];
    CodeShape(a);
    assert Rewrite(ts, a, b)[1..] == Rewrite(rest, a, b);
    if |p| > |c| {
      MatchEnds(ts, p);
      TextFirst(rest, a, b);
      hide Render, RenderToken, Rewrite;
      assert p <= c + rest[0].text;
    }
  }

  lemma TextFirst(rest: seq<Token>, a: nat, b: nat)
    requires rest != [] && rest[0].Text?
    ensures rest[0].text <= Render(rest) && rest[0].text <= Render(Rewrite(rest, a, b))
  {
  }

  /** The length replacing comes to, against the length of the right message. */
  ghost predicate Longer(ts: seq<Token>, a: nat, b: nat) {
    var found, right := |Replaced(ts, a, b)|, |Render(Rewrite(ts, a, b))|;
    if |Code(REQ, b)| == |Code(REQ, a)| then found == right
    else if |Code(REQ, b)| > |Code(REQ, a)| then found >= right && (Misread(ts, a) ==> found > right)
    else found <= right && (Misread(ts, a) ==> found < right)
  }

  lemma {:induction false} LengthTells(ts: seq<Token>, a: nat, b: nat)
    requires Spaced(ts)
    ensures Longer(ts, a, b)
  {
    if ts == [] {
      CodeShape(a);
    } else {
      SpacedTail(ts);
      LengthTells(ts[1..], a, b);
      hide Code, Spaced, Replace, Rewrite, Render;
      if MisreadFirst(ts, a) {
        MisreadTail(ts, a, b);
        MisreadRight(ts, a, b);
      } else {
        ReplacedFirst(ts, a, b);
      }
    }
  }

  lemma {:induction false} MisreadDamages(ts: seq<Token>, a: nat, b: nat)
    requires Spaced(ts) && Misread(ts, a) && a != b
    ensures Replaced(ts, a, b) != Render(Rewrite(ts, a, b))
  {
    LengthTells(ts, a, b);
    SpacedTail(ts);
    if |Code(REQ, b)| == |Code(REQ, a)| {
      if MisreadFirst(ts, a) {
        MisreadTail(ts, a, b);
        MisreadRight(ts, a, b);
        if Code(REQ, a) == Code(REQ, b) {
          CodeInjective(REQ, a, b);
        }
        hide Code;
        assert Replaced(ts, a, b)[..|Code(REQ, b)|] == Code(REQ, b);
        assert Render(Rewrite(ts, a, b))[..|Code(REQ, a)|] == Code(REQ, a);
      } else {
        ReplacedFirst(ts, a, b);
        MisreadDamages(ts[1..], a, b);
        hide Code;
        var c := RenderToken(Rewrite(ts, a, b)[0]);
        assert Replaced(ts, a, b)[|c|..] == Replaced(ts[1..], a, b);
        assert Render(Rewrite(ts, a, b))[|c|..] == Render(Rewrite(ts[1..], a, b));
      }
    }
  }

  /** Replacing characters replaces exactly the code meant, if and only if no other code is read for it. */
  lemma ReplaceRightIff(ts: seq<Token>, a: nat, b: nat)
    requires Spaced(ts) && a != b
    ensures Replaced(ts, a, b) == Render(Rewrite(ts, a, b)) <==> !Misread(ts, a)
  {
    if Misread(ts, a) {
      MisreadDamages(ts, a, b);
    } else {
      ReplaceIsRewrite(ts, a, b);
    }
  }

  /** Three-digit codes are not read for each other. */
  lemma {:induction false} ShortNotMisread(ts: seq<Token>, a: nat)
    requires Short(ts) && a < 1000
    ensures !Misread(ts, a)
  {
    if ts != [] {
      ShortNotMisread(ts[1..], a);
      if ts[0].Ref? {
        CodeShape(a);
        CodeShape(ts[0].id);
        if Code(REQ, a) <= Render(ts) {
          assert Render(ts)[..7] == Code(REQ, ts[0].id);
          CodeInjective(REQ, a, ts[0].id);
        }
      }
    }
  }

  /** A longer code that begins with another is read for it wherever it stands. */
  lemma {:induction false} ExtensionMisread(ts: seq<Token>, i: nat, a: nat)
    requires i < |ts| && ts[i].Ref? && ts[i].id != a && Code(REQ, a) <= Code(REQ, ts[i].id)
    ensures Misread(ts, a)
  {
    if i > 0 {
      ExtensionMisread(ts[1..], i - 1, a);
    }
  }

  /** The code of a thousand begins with the code of a hundred, and is damaged when that one is replaced. */
  lemma ThousandReadForHundred(b: nat)
    requires b != 100
    ensures Code(REQ, 1000) == Code(REQ, 100) + "0"
    ensures Replaced([Ref(1000)], 100, b) != Render([Ref(1000)])
  {
    assert Numeral(1000) == Numeral(100) + [Digit(0)];
    NumeralLength(100);
    assert Padded(Numeral(100)) == Numeral(100) && Padded(Numeral(1000)) == Numeral(1000);
    assert [Digit(0)] == "0";
    hide Code;
    ExtensionMisread([Ref(1000)], 0, 100);
    ReplaceRightIff([Ref(1000)], 100, b);
    assert Rewrite([Ref(1000)], 100, b) == [Ref(1000)];
  }

  // ---------- whole messages ----------

  lemma RewriteSpaced(ts: seq<Token>, a: nat, b: nat)
    requires Spaced(ts)
    ensures Spaced(Rewrite(ts, a, b))
  {
    hide Contains;
    var rs := Rewrite(ts, a, b);
    assert forall i :: 0 <= i < |ts| ==> rs[i].Ref? == ts[i].Ref?;
    forall i | 0 <= i < |rs| - 1 ensures Alternates(rs, i) {
      assert Alternates(ts, i);
    }
  }

  /** The message after the first `n` entries. */
  function Sequential(message: string, es: seq<Entry>, n: nat): string
    requires n <= |es|
  {
    if n == 0 then message
    else
      CodeNotEmpty(es[n - 1].0);
      Replace(Sequential(message, es, n - 1), Code(REQ, es[n - 1].0), Code(REQ, es[n - 1].1))
  }

  /** Entry `m` rewrites nothing, or its code is not read where another stands. */
  predicate StepReads(ts: seq<Token>, es: seq<Entry>, m: nat)
    requires m < |es|
  {
    es[m].0 == es[m].1 || !Misread(OneByOne(ts, es, m), es[m].0)
  }

  lemma StepRight(ts: seq<Token>, es: seq<Entry>, m: nat)
    requires m < |es| && Spaced(OneByOne(ts, es, m)) && Sequential(Render(ts), es, m) == Render(OneByOne(ts, es, m))
    ensures Spaced(OneByOne(ts, es, m + 1))
    ensures Sequential(Render(ts), es, m + 1) == Render(OneByOne(ts, es, m + 1)) <==> StepReads(ts, es, m)
  {
    hide Spaced, Code, Replace, Render, Misread;
    var before, a, b := OneByOne(ts, es, m), es[m].0, es[m].1;
    RewriteSpaced(before, a, b);
    CodeNotEmpty(a);
    if a == b {
      ReplaceSame(Render(before), Code(REQ, a));
      assert Rewrite(before, a, a) == before;
    } else {
      ReplaceRightIff(before, a, b);
    }
  }

  /** Characters follow codes as long as no step misreads one. */
  lemma {:induction false} SequentialIsOneByOne(ts: seq<Token>, es: seq<Entry>, n: nat)
    requires Spaced(ts) && n <= |es|
    requires forall m: nat :: m < n ==> StepReads(ts, es, m)
    ensures Spaced(OneByOne(ts, es, n)) && Sequential(Render(ts), es, n) == Render(OneByOne(ts, es, n))
  {
    hide Spaced, StepReads, Render, Sequential;
    if n > 0 {
      SequentialIsOneByOne(ts, es, n - 1);
      StepRight(ts, es, n - 1);
      assert StepReads(ts, es, n - 1);
    } else {
      NothingYet(ts, es);
    }
  }

  lemma NothingYet(ts: seq<Token>, es: seq<Entry>)
    ensures Sequential(Render(ts), es, 0) == Render(ts) && OneByOne(ts, es, 0) == ts
  {
  }

  /** A code below a hundred begins with a zero, as no longer code does, so it is never read for another. */
  lemma SmallCodeApart(a: nat, t: nat, rest: string)
    requires a < 100 && t != a
    ensures !(Code(REQ, a) <= Code(REQ, t) + rest)
  {
    CodeShape(a);
    CodeShape(t);
    CodeDigits(a);
    CodeDigits(t);
    if t < 1000 && Code(REQ, a) <= Code(REQ, t) + rest {
      assert (Code(REQ, t) + rest)[..7] == Code(REQ, t);
      CodeInjective(REQ, a, t);
    }
    hide Code;
    assert t >= 1000 ==> (Code(REQ, t) + rest)[4] != Code(REQ, a)[4];
  }

  lemma CodeDigits(n: nat)
    ensures |Code(REQ, n)| > 4 && (n < 100 ==> Code(REQ, n)[4] == '0') && (n >= 1000 ==> Code(REQ, n)[4] != '0')
    ensures n >= 100 ==> Code(REQ, n) == MARK + Numeral(n)
  {
    NumeralLength(n);
    LeadingDigit(n);
    hide Numeral;
    var digits := Padded(Numeral(n));
    assert Code(REQ, n)[4..] == digits;
    assert Code(REQ, n) == MARK + digits;
    if n < 100 {
      PaddedZero(Numeral(n));
    }
  }

  lemma {:induction false} PaddedZero(s: string)
    requires |s| < 3
    ensures Padded(s) != "" && Padded(s)[0] == '0'
    decreases 3 - |s|
  {
    if |s| < 2 {
      PaddedZero("0" + s);
    }
  }

  lemma {:induction false} SmallNotMisread(ts: seq<Token>, a: nat)
    requires a < 100
    ensures !Misread(ts, a)
  {
    if ts != [] {
      SmallNotMisread(ts[1..], a);
      if ts[0].Ref? && ts[0].id != a {
        SmallCodeApart(a, ts[0].id, Render(ts[1..]));
      }
    }
  }

  /** Codes of a hundred and more are read in longer ones. */
  lemma LongerCodeMisread(a: nat, t: nat)
    requires a >= 100 && t > a && Shortened(t, a)
    ensures Misread([Ref(t)], a)
  {
    CodeDigits(a);
    CodeDigits(t);
    PrefixIffShortened(t, a);
    hide Code, Numeral;
    ExtensionMisread([Ref(t)], 0, a);
  }

  /** After any number of entries, every message is as if those had been applied at once. */
  ghost predicate AlwaysRight(es: seq<Entry>) {
    forall ts, n :: Spaced(ts) && 0 <= n <= |es| ==> RightAfter(ts, es, n)
  }

  predicate RightAfter(ts: seq<Token>, es: seq<Entry>, n: nat)
    requires n <= |es|
  {
    Sequential(Render(ts), es, n) == Render(AllAtOnce(ts, es[..n]))
  }

  /** Every entry that rewrites anything is for an id below a hundred. */
  ghost predicate SmallTable(es: seq<Entry>) {
    forall i :: 0 <= i < |es| ==> es[i].0 == es[i].1 || es[i].0 < 100
  }

  lemma SmallSequential(ts: seq<Token>, es: seq<Entry>, n: nat)
    requires Spaced(ts) && SmallTable(es) && n <= |es|
    ensures Sequential(Render(ts), es, n) == Render(OneByOne(ts, es, n))
  {
    hide Spaced, Misread, Sequential, Render;
    forall m: nat | m < n ensures StepReads(ts, es, m) {
      if es[m].0 < 100 {
        SmallNotMisread(OneByOne(ts, es, m), es[m].0);
      }
    }
    SequentialIsOneByOne(ts, es, n);
  }

  lemma SmallAlwaysRight(es: seq<Entry>)
    requires Table(es) && SmallTable(es) && NoClash(es)
    ensures AlwaysRight(es)
  {
    hide Spaced, Sequential, Render, Table, SmallTable, NoClash;
    forall ts, n | Spaced(ts) && 0 <= n <= |es| ensures RightAfter(ts, es, n) {
      SmallSequential(ts, es, n);
      OneByOneIs(ts, es, n);
      assert OneByOne(ts, es, n) == AllAtOnce(ts, es[..n]);
    }
  }

  lemma {:induction false} KeyBound(es: seq<Entry>) returns (bound: nat)
    ensures forall i :: 0 <= i < |es| ==> es[i].0 <= bound
  {
    if es == [] {
      bound := 0;
    } else {
      bound := KeyBound(es[1..]);
      assert forall i :: 0 < i < |es| ==> es[i] == es[1..][i - 1];
      if bound < es[0].0 {
        bound := es[0].0;
      }
    }
  }

  lemma {:induction false} NoKeySame(es: seq<Entry>, t: nat)
    requires forall i :: 0 <= i < |es| ==> es[i].0 != t
    ensures AllAtOnce([Ref(t)], es) == [Ref(t)]
  {
    if es != [] {
      NoKeySame(es[..|es| - 1], t);
    }
  }

  /** An entry for an id of a hundred or more spoils a message, whatever comes before it. */
  lemma LargeEntrySpoils(es: seq<Entry>, i: nat)
    requires i < |es| && es[i].0 >= 100 && es[i].0 != es[i].1
    ensures !AlwaysRight(es)
  {
    var a, b := es[i].0, es[i].1;
    var bound := KeyBound(es);
    var t := LongerExists(a, bound);
    var ts := [Ref(t)];
    LongerCodeMisread(a, t);
    NoKeySame(es[..i], t);
    NoKeySame(es[..i + 1], t);
    assert Spaced(ts);
    hide Spaced, Misread, Render, Replace, Code;
    ReplaceRightIff(ts, a, b);
    assert Rewrite(ts, a, b) == ts;
    assert RightAfter(ts, es, i) ==> Sequential(Render(ts), es, i + 1) == Replaced(ts, a, b);
    assert !RightAfter(ts, es, i) || !RightAfter(ts, es, i + 1);
  }

  lemma ClashSpoils(es: seq<Entry>, i: nat, k: nat)
    requires Table(es) && SmallTable(es) && Clash(es, i, k)
    ensures !AlwaysRight(es)
  {
    var ts := [Ref(es[i].0)];
    var m := ClashShows(es, i, k);
    assert Spaced(ts) && es[..|es|] == es;
    SmallSequential(ts, es, |es|);
    RenderRef(m);
    RenderRef(es[i].1);
    if Code(REQ, m) == Code(REQ, es[i].1) {
      CodeInjective(REQ, m, es[i].1);
    }
    assert !RightAfter(ts, es, |es|);
  }

  /** For codes of any length, every step leaves every message right exactly when no ids clash and only ids below a hundred are rewritten. */
  lemma AlwaysRightIff(es: seq<Entry>)
    requires Table(es)
    ensures AlwaysRight(es) <==> NoClash(es) && SmallTable(es)
  {
    hide Table, AlwaysRight, Clash;
    if !SmallTable(es) {
      var i :| 0 <= i < |es| && es[i].0 != es[i].1 && es[i].0 >= 100;
      LargeEntrySpoils(es, i);
    } else if NoClash(es) {
      SmallAlwaysRight(es);
    } else {
      var i: nat, k: nat :| Clash(es, i, k);
      ClashSpoils(es, i, k);
    }
  }

  /** All internal ids and public numbers have at most three digits. */
  ghost predicate ShortTable(es: seq<Entry>) {
    forall i :: 0 <= i < |es| ==> es[i].0 < 1000 && es[i].1 < 1000
  }

  lemma {:induction false} OneByOneShort(ts: seq<Token>, es: seq<Entry>, n: nat)
    requires Short(ts) && n <= |es| && ShortTable(es)
    ensures Short(OneByOne(ts, es, n))
  {
    if n > 0 {
      OneByOneShort(ts, es, n - 1);
    }
  }

  lemma ShortSequential(ts: seq<Token>, es: seq<Entry>)
    requires Spaced(ts) && Short(ts) && ShortTable(es)
    ensures Sequential(Render(ts), es, |es|) == Render(OneByOne(ts, es, |es|))
  {
    hide Spaced, Misread, Short, Sequential;
    forall m: nat | m < |es| ensures StepReads(ts, es, m) {
      OneByOneShort(ts, es, m);
      ShortNotMisread(OneByOne(ts, es, m), es[m].0);
    }
    SequentialIsOneByOne(ts, es, |es|);
  }

  /** Every code in every message comes out as its public one. */
  ghost predicate AllMessagesRight(es: seq<Entry>) {
    forall ts :: Spaced(ts) && Short(ts) ==> Sequential(Render(ts), es, |es|) == Render(AllAtOnce(ts, es))
  }

  /** Up to three digits, every code in every message comes out as its public one exactly when no ids clash. */
  lemma MessagesRightIff(ids: seq<nat>)
    requires |ids| < 1000 && forall i :: 0 <= i < |ids| ==> ids[i] < 1000
    ensures AllMessagesRight(Entries(ids)) <==> NoClash(Entries(ids))
  {
    hide Entries, Table, NoClash, AllMessagesRight;
    EntriesShort(ids);
    if NoClash(Entries(ids)) {
      NoClashRight(Entries(ids));
    } else {
      SomeClashWrong(Entries(ids));
    }
  }

  lemma EntriesShort(ids: seq<nat>)
    requires |ids| < 1000 && forall i :: 0 <= i < |ids| ==> ids[i] < 1000
    ensures Table(Entries(ids)) && ShortTable(Entries(ids))
  {
    hide Entries, Table;
    var es := Entries(ids);
    EntriesExact(ids);
    forall i | 0 <= i < |es| ensures es[i].0 < 1000 && es[i].1 < 1000 {
      assert es[i] in es;
    }
  }

  lemma NoClashRight(es: seq<Entry>)
    requires Table(es) && ShortTable(es) && NoClash(es)
    ensures AllMessagesRight(es)
  {
    hide Spaced, Short, Sequential, Render, OneByOne, AllAtOnce, Table, ShortTable, NoClash;
    forall ts | Spaced(ts) && Short(ts) ensures Sequential(Render(ts), es, |es|) == Render(AllAtOnce(ts, es)) {
      ShortSequential(ts, es);
      OneByOneIsAllAtOnce(ts, es);
    }
  }

  lemma SomeClashWrong(es: seq<Entry>)
    requires Table(es) && ShortTable(es) && !NoClash(es)
    ensures !AllMessagesRight(es)
  {
    hide Clash, Table, ShortTable, AllMessagesRight;
    var i: nat, k: nat :| Clash(es, i, k);
    ClashMessage(es, i, k);
  }

  lemma ClashMessage(es: seq<Entry>, i: nat, k: nat)
    requires Table(es) && ShortTable(es) && Clash(es, i, k)
    ensures !AllMessagesRight(es)
  {
    var ts := [Ref(es[i].0)];
    var m := ClashShows(es, i, k);
    ShortSequential(ts, es);
    RenderRef(m);
    RenderRef(es[i].1);
    if Code(REQ, m) == Code(REQ, es[i].1) {
      CodeInjective(REQ, m, es[i].1);
    }
    assert Spaced(ts) && Short(ts);
    assert Sequential(Render(ts), es, |es|) != Render(AllAtOnce(ts, es));
  }

  lemma RenderRef(id: nat)
    ensures Render([Ref(id)]) == Code(REQ, id)
  {
    assert [Ref(id)][1..] == [];
  }

  /** In particular with increasing ids. */
  lemma MessageRewritten(ts: seq<Token>, ids: seq<nat>)
    requires Spaced(ts) && Short(ts) && Increasing(ids) && |ids| < 1000 && forall i :: 0 <= i < |ids| ==> ids[i] < 1000
    ensures Sequential(Render(ts), Entries(ids), |Entries(ids)|) == Render(AllAtOnce(ts, Entries(ids)))
  {
    hide Spaced, Short, Entries, NoClash;
    IncreasingNoClash(ids);
    MessagesRightIff(ids);
  }

  // ---------- the computation ----------

  /** Numbers the requirements, then rewrites code by code. */
  method RewriteMessage(message: string, ids: seq<nat>) returns (r: string)
    ensures r == Sequential(message, Entries(ids), |Entries(ids)|)
  {
    hide Code, Replace, Put;
    var es: seq<Entry> := [];
    assert ids[..0] == [];
    for i := 0 to |ids|
      invariant es == Entries(ids[..i])
    {
      assert ids[..i + 1][..i] == ids[..i];
      es := Put(es, ids[i], i + 1);
    }
    assert ids[..|ids|] == ids;
    hide Entries;
    r := message;
    for i := 0 to |es|
      invariant r == Sequential(message, es, i)
    {
      var oldCode, publicCode := Code(REQ, es[i].0), Code(REQ, es[i].1);
      CodeNotEmpty(es[i].0);
      ReplaceSame(r, oldCode);
      ReplaceAbsent(r, oldCode, publicCode);
      if oldCode != publicCode && Contains(r, oldCode) {
        r := Replace(r, oldCode, publicCode);
      }
    }
  }

  lemma {:induction false} ReplaceSame(s: string, p: string)
    requires p != ""
    ensures Replace(s, p, p) == s
    decreases |s|
  {
    if |s| >= |p| {
      if s[..|p|] == p {
        ReplaceSame(s[|p|..], p);
      } else {
        ReplaceSame(s[1..], p);
      }
    }
  }

  lemma {:induction false} ReplaceAbsent(s: string, p: string, q: string)
    requires p != ""
    ensures !Contains(s, p) ==> Replace(s, p, q) == s
    decreases |s|
  {
    if |s| >= |p| && !Contains(s, p) {
      assert !OccursAt(s, p, 0);
      assert s[0..0 + |p|] == s[..|p|];
      if Contains(s[1..], p) {
        ContainsSuffix(s, 1, p);
      }
      ReplaceAbsent(s[1..], p, q);
      assert s == [s[0]] + s[1..];
    }
  }
}
