/**
 Request fingerprints: the part of a request that identifies the logical job, brought to a canonical
 form. The digest is an arbitrary function.
 */
module Fingerprint {
  import opened Wrappers
  import opened Sorting
  import opened Stripping

  datatype Document = Document(
    documentId: Option<string>, storageKey: Option<string>, fileUrl: Option<string>,
    hash: Option<string>, sha256: Option<string>, mimeType: Option<string>, fileType: Option<string>)

  datatype Options = Options(stories: bool, summary: bool, embeddings: bool, hybrid: bool, language: string)

  datatype Request = Request(
    jobId: string, retry: bool, callback: Option<string>, priority: string,
    tenant: Option<string>, project: Option<string>, requestedBy: Option<string>, user: Option<string>,
    inputType: Option<string>, content: Option<string>, documents: seq<Document>, options: Options)

  /** A document as it enters the fingerprint. */
  datatype Entry = Entry(
    documentId: Option<string>, storageKey: Option<string>, hash: Option<string>, mimeType: Option<string>, fileType: Option<string>)

  datatype Payload = Payload(
    tenant: Option<string>, project: Option<string>, requestedBy: Option<string>, inputType: Option<string>,
    content: Option<string>, documents: seq<Entry>, options: Options)

  /** The first of two optional texts unless it is missing or empty. */
  function Or(a: Option<string>, b: Option<string>): Option<string> {
    if a.Some? && a.value != "" then a else b
  }

  function EntryOf(d: Document): Entry {
    Entry(d.documentId, Or(d.storageKey, d.fileUrl), Or(d.hash, d.sha256), d.mimeType, d.fileType)
  }

  function EntriesOf(docs: seq<Document>): seq<Entry> {
    Mapped(docs, EntryOf)
  }

  // ---------- the order of documents ----------

  /** Lexicographic order of texts. */
  predicate TextLe(a: string, b: string) {
    a == "" || (b != "" && (a[0] < b[0] || (a[0] == b[0] && TextLe(a[1..], b[1..]))))
  }

  /** Lexicographic order of lists of texts. */
  predicate KeyLe(a: seq<string>, b: seq<string>) {
    a == [] || (b != [] && (if a[0] == b[0] then KeyLe(a[1..], b[1..]) else TextLe(a[0], b[0])))
  }

  /** What documents are sorted by; a missing field sorts as an empty one. */
  function KeyOf(e: Entry): seq<string> {
    [e.documentId.GetOr(""), e.storageKey.GetOr(""), e.hash.GetOr(""), e.fileType.GetOr(""), e.mimeType.GetOr("")]
  }

  predicate EntryLe(a: Entry, b: Entry) {
    KeyLe(KeyOf(a), KeyOf(b))
  }

  function Canonical(docs: seq<Document>): seq<Entry> {
    Sort(EntriesOf(docs), EntryLe)
  }

  lemma {:induction false} TextTotal(a: string, b: string)
    ensures TextLe(a, b) || TextLe(b, a)
    ensures TextLe(a, b) && TextLe(b, a) ==> a == b
  {
    if a != "" && b != "" {
      TextTotal(a[1..], b[1..]);
      assert a == [a[0]] + a[1..] && b == [b[0]] + b[1..];
    }
  }

  lemma {:induction false} TextTransitive(a: string, b: string, c: string)
    requires TextLe(a, b) && TextLe(b, c)
    ensures TextLe(a, c)
  {
    if a != "" && a[0] == b[0] == c[0] {
      TextTransitive(a[1..], b[1..], c[1..]);
    }
  }

  lemma {:induction false} KeyTotal(a: seq<string>, b: seq<string>)
    ensures KeyLe(a, b) || KeyLe(b, a)
    ensures KeyLe(a, b) && KeyLe(b, a) ==> a == b
  {
    if a != [] && b != [] {
      TextTotal(a[0], b[0]);
      KeyTotal(a[1..], b[1..]);
      assert a == [a[0]] + a[1..] && b == [b[0]] + b[1..];
    }
  }

  lemma {:induction false} KeyTransitive(a: seq<string>, b: seq<string>, c: seq<string>)
    requires KeyLe(a, b) && KeyLe(b, c)
    ensures KeyLe(a, c)
  {
    if a != [] {
      if a[0] == b[0] == c[0] {
        KeyTransitive(a[1..], b[1..], c[1..]);
      } else {
        TextTotal(a[0], b[0]);
        TextTotal(b[0], c[0]);
        TextTransitive(a[0], if a[0] == b[0] then a[0] else b[0], c[0]);
        TextTotal(a[0], c[0]);
      }
    }
  }

  lemma EntryOrder()
    ensures TotalPreorder(EntryLe)
  {
    hide KeyLe;
    forall a, b ensures EntryLe(a, b) || EntryLe(b, a) {
      KeyTotal(KeyOf(a), KeyOf(b));
    }
    forall a, b, c | EntryLe(a, b) && EntryLe(b, c) ensures EntryLe(a, c) {
      KeyTransitive(KeyOf(a), KeyOf(b), KeyOf(c));
    }
  }

  /** Documents sorting alike are alike. */
  ghost predicate Separate(entries: seq<Entry>) {
    forall i, j :: 0 <= i < |entries| && 0 <= j < |entries| && KeyOf(entries[i]) == KeyOf(entries[j]) ==> entries[i] == entries[j]
  }

  /** Equal entries, however ordered, have one canonical list. */
  lemma SeparateOrderFree(docs: seq<Document>, other: seq<Document>)
    requires Separate(EntriesOf(docs)) && multiset(EntriesOf(other)) == multiset(EntriesOf(docs))
    ensures Canonical(other) == Canonical(docs)
  {
    EntryOrder();
    var es, fs := EntriesOf(docs), EntriesOf(other);
    SortIsStableSort(es, EntryLe);
    SortIsStableSort(fs, EntryLe);
    SortMembers(es, EntryLe);
    hide KeyLe, Sort, KeyOf;
    forall x, y | x in Sort(es, EntryLe) && y in Sort(es, EntryLe) && EntryLe(x, y) && EntryLe(y, x) ensures x == y {
      KeyTotal(KeyOf(x), KeyOf(y));
      assert x in es && y in es;
    }
    OrderedUnique(Sort(es, EntryLe), Sort(fs, EntryLe), EntryLe);
  }

  /** One document moved to the front. */
  function Fronted(docs: seq<Document>, i: nat): (r: seq<Document>)
    requires i < |docs|
    ensures multiset(r) == multiset(docs) && r != [] && r[0] == docs[i]
  {
    assert docs == docs[..i] + [docs[i]] + docs[i + 1..];
    [docs[i]] + docs[..i] + docs[i + 1..]
  }

  /** Of the documents sorting alike, the first given comes first. */
  lemma FrontedLeads(docs: seq<Document>, i: nat, e: Entry)
    requires i < |docs| && KeyOf(EntryOf(docs[i])) == KeyOf(e)
    ensures Ties(Canonical(Fronted(docs, i)), e, EntryLe) != []
    ensures Ties(Canonical(Fronted(docs, i)), e, EntryLe)[0] == EntryOf(docs[i])
  {
    var es := EntriesOf(Fronted(docs, i));
    EntryOrder();
    SortIsStableSort(es, EntryLe);
    assert EntryLe(es[0], e) && EntryLe(e, es[0]) by {
      KeyTotal(KeyOf(e), KeyOf(e));
    }
    hide Sort, KeyLe, KeyOf;
    assert Ties(Sort(es, EntryLe), e, EntryLe) == Ties(es, e, EntryLe);
  }

  /** The order in which documents are given makes no difference exactly when documents sorting alike are alike. */
  lemma OrderFreeIffSeparate(docs: seq<Document>)
    ensures Separate(EntriesOf(docs)) <==> forall other :: multiset(other) == multiset(docs) ==> Canonical(other) == Canonical(docs)
  {
    hide Canonical, KeyOf;
    if Separate(EntriesOf(docs)) {
      forall other | multiset(other) == multiset(docs) ensures Canonical(other) == Canonical(docs) {
        MappedPermute(docs, other, EntryOf);
        SeparateOrderFree(docs, other);
      }
    } else {
      var i, j :| 0 <= i < |docs| && 0 <= j < |docs| && KeyOf(EntriesOf(docs)[i]) == KeyOf(EntriesOf(docs)[j]) && EntriesOf(docs)[i] != EntriesOf(docs)[j];
      FrontedLeads(docs, i, EntryOf(docs[i]));
      FrontedLeads(docs, j, EntryOf(docs[i]));
      assert Canonical(Fronted(docs, i)) != Canonical(Fronted(docs, j));
      assert multiset(Fronted(docs, i)) == multiset(docs) && multiset(Fronted(docs, j)) == multiset(docs);
    }
  }

  /** Two documents that differ in a missing against an empty type: their order shows. */
  lemma MissingAndEmptyTie()
    ensures var missing := Document(Some("d"), None, None, None, None, None, None);
      var empty := missing.(fileType := Some(""));
      Canonical([missing, empty]) != Canonical([empty, missing])
  {
    var missing := Document(Some("d"), None, None, None, None, None, None);
    var empty := missing.(fileType := Some(""));
    FrontedLeads([missing, empty], 0, EntryOf(missing));
    FrontedLeads([empty, missing], 0, EntryOf(missing));
    assert Fronted([missing, empty], 0) == [missing, empty] && Fronted([empty, missing], 0) == [empty, missing];
    hide Canonical;
  }

  ghost predicate NotEmpty(field: Option<string>) {
    field != Some("")
  }

  /** No field of the document is an empty text. */
  ghost predicate Filled(d: Document) {
    && NotEmpty(d.documentId) && NotEmpty(d.storageKey) && NotEmpty(d.fileUrl) && NotEmpty(d.hash)
    && NotEmpty(d.sha256) && NotEmpty(d.mimeType) && NotEmpty(d.fileType)
  }

  lemma FieldFromKey(a: Option<string>, b: Option<string>)
    requires NotEmpty(a) && NotEmpty(b) && a.GetOr("") == b.GetOr("")
    ensures a == b
  {
  }

  /** Without empty fields, documents sorting alike are alike. */
  lemma FilledSeparate(docs: seq<Document>)
    requires forall i :: 0 <= i < |docs| ==> Filled(docs[i])
    ensures Separate(EntriesOf(docs))
  {
    var es := EntriesOf(docs);
    forall i, j | 0 <= i < |es| && 0 <= j < |es| && KeyOf(es[i]) == KeyOf(es[j]) ensures es[i] == es[j] {
      assert Filled(docs[i]) && Filled(docs[j]);
      var a, b := KeyOf(es[i]), KeyOf(es[j]);
      assert a[0] == b[0] && a[1] == b[1] && a[2] == b[2] && a[3] == b[3] && a[4] == b[4];
      FieldFromKey(es[i].documentId, es[j].documentId);
      FieldFromKey(es[i].storageKey, es[j].storageKey);
      FieldFromKey(es[i].hash, es[j].hash);
      FieldFromKey(es[i].fileType, es[j].fileType);
      FieldFromKey(es[i].mimeType, es[j].mimeType);
    }
  }

  /** Equal canonical lists hold the same documents, counted with repetition. */
  lemma CanonicalKeepsEntries(p: seq<Document>, q: seq<Document>)
    ensures multiset(Canonical(p)) == multiset(EntriesOf(p))
    ensures Canonical(p) == Canonical(q) ==> multiset(EntriesOf(p)) == multiset(EntriesOf(q))
  {
    EntryOrder();
    SortIsStableSort(EntriesOf(p), EntryLe);
    SortIsStableSort(EntriesOf(q), EntryLe);
    hide Sort, KeyLe, KeyOf;
  }

  // ---------- the content ----------

  /** Carriage return and line feed together become a line feed. */
  function JoinPairs(s: string): string {
    if |s| < 2 then s
    else if s[0] == '\r' && s[1] == '\n' then ['\n'] + JoinPairs(s[2..])
    else [s[0]] + JoinPairs(s[1..])
  }

  /** A carriage return becomes a line feed. */
  function ReturnsToFeeds(s: string): (r: string)
    ensures |r| == |s| && forall i :: 0 <= i < |r| ==> r[i] == if s[i] == '\r' then '\n' else s[i]
  {
    seq(|s|, i requires 0 <= i < |s| => if s[i] == '\r' then '\n' else s[i])
  }

  function LineFeeds(s: string): string {
    ReturnsToFeeds(JoinPairs(s))
  }

  function NormalizeContent(s: string, blank: char -> bool): string {
    Strip(LineFeeds(s), blank)
  }

  /** The end of one text and the beginning of the next do not make a pair. */
  predicate NoPair(a: string, b: string) {
    !(a != "" && b != "" && a[|a| - 1] == '\r' && b[0] == '\n')
  }

  lemma {:induction false} JoinPairsConcat(a: string, b: string)
    requires NoPair(a, b)
    ensures JoinPairs(a + b) == JoinPairs(a) + JoinPairs(b)
    decreases |a|
  {
    var s := a + b;
    if a == "" {
      assert s == b;
    } else if |a| == 1 {
      assert s[1..] == b;
      assert b == "" ==> s == a;
      JoinSkips(s);
    } else if a[0] == '\r' && a[1] == '\n' {
      assert s[2..] == a[2..] + b && s[0] == '\r' && s[1] == '\n';
      JoinPairsConcat(a[2..], b);
    } else {
      assert s[1..] == a[1..] + b;
      JoinPairsConcat(a[1..], b);
      JoinSkips(s);
      JoinSkips(a);
      hide JoinPairs;
      assert [s[0]] + (JoinPairs(a[1..]) + JoinPairs(b)) == ([a[0]] + JoinPairs(a[1..])) + JoinPairs(b);
    }
  }

  lemma JoinSkips(s: string)
    requires s != "" && (|s| >= 2 ==> !(s[0] == '\r' && s[1] == '\n'))
    ensures JoinPairs(s) == [s[0]] + JoinPairs(s[1..])
  {
    if |s| == 1 {
      assert s == [s[0]] + s[1..];
    }
  }

  lemma LineFeedsConcat(a: string, b: string)
    requires NoPair(a, b)
    ensures LineFeeds(a + b) == LineFeeds(a) + LineFeeds(b)
  {
    JoinPairsConcat(a, b);
    assert ReturnsToFeeds(JoinPairs(a) + JoinPairs(b)) == ReturnsToFeeds(JoinPairs(a)) + ReturnsToFeeds(JoinPairs(b));
  }

  lemma {:induction false} JoinPairsEnds(s: string)
    requires s != ""
    ensures JoinPairs(s) != ""
    ensures s[0] != '\r' ==> JoinPairs(s)[0] == s[0]
    ensures s[|s| - 1] != '\n' ==> JoinPairs(s)[|JoinPairs(s)| - 1] == s[|s| - 1]
    decreases |s|
  {
    if |s| >= 2 {
      if s[0] == '\r' && s[1] == '\n' {
        if |s| > 2 {
          JoinPairsEnds(s[2..]);
        }
      } else {
        JoinPairsEnds(s[1..]);
      }
    }
  }

  lemma {:induction false} JoinPairsBlank(s: string, blank: char -> bool)
    requires blank('\n') && AllBlank(s, blank)
    ensures AllBlank(JoinPairs(s), blank)
    decreases |s|
  {
    if |s| >= 2 {
      if s[0] == '\r' && s[1] == '\n' {
        JoinPairsBlank(s[2..], blank);
      } else {
        JoinPairsBlank(s[1..], blank);
      }
    }
  }

  lemma JoinPairsKeeps(s: string, blank: char -> bool)
    requires blank('\n')
    ensures s != "" ==> JoinPairs(s) != ""
    ensures s != "" && s[0] != '\r' ==> JoinPairs(s)[0] == s[0]
    ensures s != "" && s[|s| - 1] != '\n' ==> JoinPairs(s)[|JoinPairs(s)| - 1] == s[|s| - 1]
    ensures AllBlank(s, blank) ==> AllBlank(JoinPairs(s), blank)
  {
    hide JoinPairs, AllBlank;
    if s != "" {
      JoinPairsEnds(s);
    }
    if AllBlank(s, blank) {
      JoinPairsBlank(s, blank);
    }
  }

  /** Where line ends count as blank, normalizing line ends and stripping can be done in either order. */
  lemma NormalizeStripsFirst(s: string, blank: char -> bool)
    requires blank('\n') && blank('\r')
    ensures NormalizeContent(s, blank) == LineFeeds(Strip(s, blank))
  {
    var before, after := StripParts(s, blank);
    var core := Strip(s, blank);
    hide Strip, JoinPairs;
    if core == "" {
      JoinPairsKeeps(s, blank);
      assert s == before + after;
      assert AllBlank(LineFeeds(s), blank);
      BlankStripsAway(LineFeeds(s), blank);
      EmptyLineFeeds();
    } else {
      assert s == before + (core + after);
      LineFeedsConcat(before, core + after);
      LineFeedsConcat(core, after);
      JoinPairsKeeps(before, blank);
      JoinPairsKeeps(after, blank);
      JoinPairsKeeps(core, blank);
      assert AllBlank(LineFeeds(before), blank) && AllBlank(LineFeeds(after), blank) && Trim(LineFeeds(core), blank);
      assert LineFeeds(s) == LineFeeds(before) + LineFeeds(core) + LineFeeds(after);
      StripOf(LineFeeds(before), LineFeeds(core), LineFeeds(after), blank);
    }
  }

  lemma EmptyLineFeeds()
    ensures LineFeeds("") == ""
  {
  }

  lemma BlankStripsAway(s: string, blank: char -> bool)
    requires AllBlank(s, blank)
    ensures Strip(s, blank) == ""
  {
    assert s == s + "" + "";
    StripOf(s, "", "", blank);
  }

  /** Blanks around the content make no difference. */
  lemma OuterBlanksIgnored(before: string, s: string, after: string, blank: char -> bool)
    requires blank('\n') && blank('\r') && AllBlank(before, blank) && AllBlank(after, blank)
    ensures NormalizeContent(before + s + after, blank) == NormalizeContent(s, blank)
  {
    NormalizeStripsFirst(before + s + after, blank);
    NormalizeStripsFirst(s, blank);
    StripIgnoresOuterBlanks(before, s, after, blank);
  }

  ghost predicate Plain(line: string) {
    '\r' !in line && '\n' !in line
  }

  lemma {:induction false} PlainLine(line: string)
    requires Plain(line)
    ensures LineFeeds(line) == line
  {
    if |line| >= 2 {
      assert line == [line[0]] + line[1..];
      PlainLine(line[1..]);
      PlainJoin(line);
    }
  }

  lemma {:induction false} PlainJoin(line: string)
    requires Plain(line)
    ensures JoinPairs(line) == line
  {
    if |line| >= 2 {
      assert line == [line[0]] + line[1..];
      PlainJoin(line[1..]);
    }
  }

  lemma EndsAre(end: string)
    requires end == "\n" || end == "\r\n" || end == "\r"
    ensures LineFeeds(end) == "\n"
  {
    assert end == "\r\n" ==> end[2..] == "" && JoinPairs(end) == ['\n'] + "";
    assert |end| == 1 ==> JoinPairs(end) == end;
    assert |ReturnsToFeeds(JoinPairs(end))| == 1;
  }

  predicate IsEnd(end: string) {
    end == "\n" || end == "\r\n" || end == "\r"
  }

  /** Lines put together, each with its own end, and a last one without. */
  function Mixed(lines: seq<string>, ends: seq<string>, last: string): string
    requires |ends| == |lines|
  {
    if lines == [] then last else lines[0] + ends[0] + Mixed(lines[1..], ends[1..], last)
  }

  function Feeds(n: nat): (r: seq<string>)
    ensures |r| == n && forall i :: 0 <= i < n ==> r[i] == "\n"
  {
    seq(n, i => "\n")
  }

  ghost predicate PlainLines(lines: seq<string>, last: string) {
    Plain(last) && forall i :: 0 <= i < |lines| ==> Plain(lines[i])
  }

  ghost predicate AllEnds(ends: seq<string>) {
    forall i :: 0 <= i < |ends| ==> IsEnd(ends[i])
  }

  /** A carriage return before an empty line that ends in a line feed: together they read as one end. */
  predicate PairAt(lines: seq<string>, ends: seq<string>, i: nat)
    requires |ends| == |lines|
  {
    i + 1 < |lines| && ends[i] == "\r" && lines[i + 1] == "" && ends[i + 1] == "\n"
  }

  ghost predicate NoPairs(lines: seq<string>, ends: seq<string>)
    requires |ends| == |lines|
  {
    forall i: nat :: i < |lines| ==> !PairAt(lines, ends, i)
  }

  lemma NoPairsTail(lines: seq<string>, ends: seq<string>)
    requires |ends| == |lines| > 0
    ensures NoPairs(lines, ends) <==> !PairAt(lines, ends, 0) && NoPairs(lines[1..], ends[1..])
  {
    forall i: nat | i + 1 < |lines| ensures PairAt(lines, ends, i + 1) <==> PairAt(lines[1..], ends[1..], i) {
    }
    if NoPairs(lines[1..], ends[1..]) && !PairAt(lines, ends, 0) {
      forall i: nat | i < |lines| ensures !PairAt(lines, ends, i) {
        assert i > 0 && i < |lines| ==> !PairAt(lines[1..], ends[1..], i - 1);
      }
    }
  }

  /** The first line read, when its end is not part of a pair. */
  lemma FirstLineRead(lines: seq<string>, ends: seq<string>, last: string)
    requires |ends| == |lines| > 0 && PlainLines(lines, last) && AllEnds(ends) && !PairAt(lines, ends, 0)
    ensures LineFeeds(Mixed(lines, ends, last)) == lines[0] + "\n" + LineFeeds(Mixed(lines[1..], ends[1..], last))
  {
    var rest := Mixed(lines[1..], ends[1..], last);
    PlainLine(lines[0]);
    EndsAre(ends[0]);
    FeedFirst(lines[1..], ends[1..], last);
    hide LineFeeds;
    LineFeedsConcat(lines[0], ends[0]);
    LineFeedsConcat(lines[0] + ends[0], rest);
  }

  lemma FeedFirst(lines: seq<string>, ends: seq<string>, last: string)
    requires |ends| == |lines| && PlainLines(lines, last) && AllEnds(ends)
    ensures Mixed(lines, ends, last) == "" || Mixed(lines, ends, last)[0] != '\n' || (lines != [] && lines[0] == "" && ends[0] == "\n")
  {
    if lines == [] {
      if last != "" {
        assert last[0] in last;
      }
    } else if lines[0] != "" {
      assert lines[0][0] in lines[0];
    }
  }

  /** The first line read with a pair after it: the empty line is lost. */
  lemma PairRead(lines: seq<string>, ends: seq<string>, last: string)
    requires |ends| == |lines| > 1 && PlainLines(lines, last) && AllEnds(ends) && PairAt(lines, ends, 0)
    ensures LineFeeds(Mixed(lines, ends, last)) == lines[0] + "\n" + LineFeeds(Mixed(lines[2..], ends[2..], last))
  {
    var rest := Mixed(lines[2..], ends[2..], last);
    assert lines[1..][1..] == lines[2..] && ends[1..][1..] == ends[2..];
    assert Mixed(lines[1..], ends[1..], last) == "" + "\n" + rest;
    assert Mixed(lines, ends, last) == lines[0] + "\r\n" + rest by {
      assert lines[0] + "\r" + ("\n" + rest) == lines[0] + "\r\n" + rest;
    }
    PlainLine(lines[0]);
    EndsAre("\r\n");
    hide LineFeeds, Mixed;
    LineFeedsConcat(lines[0], "\r\n");
    LineFeedsConcat(lines[0] + "\r\n", rest);
  }

  /** Line ends of any kind, mixed in any way, become line feeds exactly when none pair up by accident. */
  lemma {:induction false} LineEndsIgnored(lines: seq<string>, ends: seq<string>, last: string)
    requires |ends| == |lines| && PlainLines(lines, last) && AllEnds(ends)
    ensures LineFeeds(Mixed(lines, ends, last)) == Mixed(lines, Feeds(|lines|), last) <==> NoPairs(lines, ends)
    ensures |LineFeeds(Mixed(lines, ends, last))| <= |Mixed(lines, Feeds(|lines|), last)|
    decreases |lines|
  {
    hide LineFeeds, Plain, IsEnd;
    if lines == [] {
      PlainLine(last);
    } else {
      var head := lines[0] + "\n";
      var right := Mixed(lines[1..], Feeds(|lines| - 1), last);
      assert Feeds(|lines|)[1..] == Feeds(|lines| - 1);
      assert Mixed(lines, Feeds(|lines|), last) == head + right;
      NoPairsTail(lines, ends);
      if PairAt(lines, ends, 0) {
        assert lines[1..][1..] == lines[2..];
        assert Feeds(|lines| - 1)[1..] == Feeds(|lines| - 2);
        PairRead(lines, ends, last);
        LineEndsIgnored(lines[2..], ends[2..], last);
      } else {
        var found := LineFeeds(Mixed(lines[1..], ends[1..], last));
        FirstLineRead(lines, ends, last);
        LineEndsIgnored(lines[1..], ends[1..], last);
        hide Mixed;
        assert (head + found)[|head|..] == found && (head + right)[|head|..] == right;
      }
    }
  }

  // ---------- the same content ----------

  /** The text is these lines, with line ends of any kind and blanks around. */
  ghost predicate Writes(s: string, lines: seq<string>, last: string, blank: char -> bool) {
    exists before, ends, after :: WrittenWith(s, lines, last, blank, before, ends, after)
  }

  ghost predicate WrittenWith(s: string, lines: seq<string>, last: string, blank: char -> bool, before: string, ends: seq<string>, after: string) {
    && |ends| == |lines| && PlainLines(lines, last) && AllEnds(ends) && NoPairs(lines, ends)
    && AllBlank(before, blank) && AllBlank(after, blank)
    && s == before + Mixed(lines, ends, last) + after
  }

  /** Every text reads as lines in one way. */
  lemma {:induction false} ReadLines(s: string) returns (lines: seq<string>, ends: seq<string>, last: string)
    ensures |ends| == |lines| && PlainLines(lines, last) && AllEnds(ends) && NoPairs(lines, ends)
    ensures s == Mixed(lines, ends, last)
    decreases |s|
  {
    if s == "" {
      lines, ends, last := [], [], "";
    } else if |s| >= 2 && s[0] == '\r' && s[1] == '\n' {
      lines, ends, last := ReadLines(s[2..]);
      lines, ends := PutLine(lines, ends, last, "\r\n", s[2..]);
      assert s == "\r\n" + s[2..];
    } else if s[0] == '\r' || s[0] == '\n' {
      lines, ends, last := ReadLines(s[1..]);
      lines, ends := PutLine(lines, ends, last, [s[0]], s[1..]);
      assert s == [s[0]] + s[1..];
    } else {
      lines, ends, last := ReadLines(s[1..]);
      lines, last := PutChar(lines, ends, last, s[0], s[1..]);
      assert s == [s[0]] + s[1..];
    }
  }

  lemma PutLine(lines: seq<string>, ends: seq<string>, last: string, end: string, rest: string) returns (lines': seq<string>, ends': seq<string>)
    requires |ends| == |lines| && PlainLines(lines, last) && AllEnds(ends) && NoPairs(lines, ends)
    requires rest == Mixed(lines, ends, last) && IsEnd(end) && (end == "\r" ==> rest == "" || rest[0] != '\n')
    ensures |ends'| == |lines'| && PlainLines(lines', last) && AllEnds(ends') && NoPairs(lines', ends')
    ensures Mixed(lines', ends', last) == end + rest
  {
    lines', ends' := [""] + lines, [end] + ends;
    assert lines'[1..] == lines && ends'[1..] == ends;
    assert Mixed(lines', ends', last) == "" + end + rest;
    NoPairsTail(lines', ends');
    assert lines != [] && lines[0] == "" ==> rest == "" + ends[0] + Mixed(lines[1..], ends[1..], last);
  }

  lemma PutChar(lines: seq<string>, ends: seq<string>, last: string, c: char, rest: string) returns (lines': seq<string>, last': string)
    requires |ends| == |lines| && PlainLines(lines, last) && AllEnds(ends) && NoPairs(lines, ends)
    requires rest == Mixed(lines, ends, last) && c != '\r' && c != '\n'
    ensures |ends| == |lines'| && PlainLines(lines', last') && NoPairs(lines', ends)
    ensures Mixed(lines', ends, last') == [c] + rest
  {
    if lines == [] {
      lines', last' := lines, [c] + last;
    } else {
      lines', last' := lines[0 := [c] + lines[0]], last;
      assert lines'[1..] == lines[1..];
      NoPairsTail(lines, ends);
      NoPairsTail(lines', ends);
      assert [c] + lines[0] + ends[0] == [c] + (lines[0] + ends[0]);
      assert Mixed(lines', ends, last) == [c] + rest;
    }
  }

  /** Lines joined by line feeds can be told apart again. */
  lemma {:induction false} FeedsTell(a: seq<string>, la: string, b: seq<string>, lb: string)
    requires PlainLines(a, la) && PlainLines(b, lb)
    requires Mixed(a, Feeds(|a|), la) == Mixed(b, Feeds(|b|), lb)
    ensures a == b && la == lb
    decreases |a|
  {
    var s := Mixed(a, Feeds(|a|), la);
    if a == [] || b == [] {
      OneLine(a, la);
      OneLine(b, lb);
    } else {
      assert Feeds(|a|)[1..] == Feeds(|a| - 1) && Feeds(|b|)[1..] == Feeds(|b| - 1);
      var x, y := Mixed(a[1..], Feeds(|a| - 1), la), Mixed(b[1..], Feeds(|b| - 1), lb);
      FirstFeed(a[0], x, b[0], y);
      FeedsTell(a[1..], la, b[1..], lb);
      assert a == [a[0]] + a[1..] && b == [b[0]] + b[1..];
    }
  }

  lemma OneLine(a: seq<string>, la: string)
    requires PlainLines(a, la)
    ensures a == [] <==> '\n' !in Mixed(a, Feeds(|a|), la)
  {
    if a != [] {
      var s := Mixed(a, Feeds(|a|), la);
      assert s[|a[0]|] == '\n';
    }
  }

  lemma FirstFeed(p: string, x: string, q: string, y: string)
    requires Plain(p) && Plain(q) && p + "\n" + x == q + "\n" + y
    ensures p == q && x == y
  {
    var s, t := p + "\n" + x, q + "\n" + y;
    assert s[|p|] == '\n' && t[|q|] == '\n';
    forall k | 0 <= k < |q| ensures t[k] != '\n' {
      assert t[k] == q[k] && q[k] in q;
    }
    forall k | 0 <= k < |p| ensures s[k] != '\n' {
      assert s[k] == p[k] && p[k] in p;
    }
    assert s[..|p|] == p && t[..|q|] == q;
    assert s[|p| + 1..] == x && t[|q| + 1..] == y;
  }

  /** What content written as these lines normalizes to. */
  lemma WrittenNormal(s: string, lines: seq<string>, last: string, blank: char -> bool)
    requires blank('\n') && blank('\r') && Writes(s, lines, last, blank)
    ensures NormalizeContent(s, blank) == Strip(Mixed(lines, Feeds(|lines|), last), blank)
  {
    var before, ends, after :| WrittenWith(s, lines, last, blank, before, ends, after);
    OuterBlanksIgnored(before, Mixed(lines, ends, last), after, blank);
    LineEndsIgnored(lines, ends, last);
    hide Strip, LineFeeds, Mixed;
  }

  /** Every content can be written as lines that are its normal form. */
  lemma NormalWrites(s: string, blank: char -> bool) returns (lines: seq<string>, last: string)
    requires blank('\n') && blank('\r')
    ensures Writes(s, lines, last, blank) && PlainLines(lines, last)
    ensures NormalizeContent(s, blank) == Mixed(lines, Feeds(|lines|), last)
  {
    var before, after := StripParts(s, blank);
    NormalizeStripsFirst(s, blank);
    hide Strip, LineFeeds, Mixed;
    var ends: seq<string>;
    lines, ends, last := ReadLines(Strip(s, blank));
    LineEndsIgnored(lines, ends, last);
    assert WrittenWith(s, lines, last, blank, before, ends, after);
  }

  /** Two contents normalize alike exactly when they are the same lines, but for line ends and outer blanks. */
  lemma SameNormalIff(x: string, y: string, blank: char -> bool)
    requires blank('\n') && blank('\r')
    ensures NormalizeContent(x, blank) == NormalizeContent(y, blank) <==> exists lines, last :: Writes(x, lines, last, blank) && Writes(y, lines, last, blank)
  {
    hide NormalizeContent, Writes, Mixed;
    if lines, last :| Writes(x, lines, last, blank) && Writes(y, lines, last, blank) {
      WrittenNormal(x, lines, last, blank);
      WrittenNormal(y, lines, last, blank);
    }
    if NormalizeContent(x, blank) == NormalizeContent(y, blank) {
      var lines, last := NormalWrites(x, blank);
      var lines', last' := NormalWrites(y, blank);
      FeedsTell(lines, last, lines', last');
    }
  }

  // ---------- the payload ----------

  function ContentHash(content: Option<string>, blank: char -> bool, sha: string -> string): Option<string> {
    if content.Some? && content.value != "" && Strip(content.value, blank) != "" then Some(sha(NormalizeContent(content.value, blank))) else None
  }

  function PayloadOf(r: Request, blank: char -> bool, sha: string -> string): Payload {
    Payload(r.tenant, r.project, Or(r.requestedBy, r.user), r.inputType, ContentHash(r.content, blank, sha), Canonical(r.documents), r.options)
  }

  /** The same request sent again: other transport fields, documents in another order, other line ends and blanks around the content. */
  ghost predicate SameJob(r: Request, q: Request, blank: char -> bool) {
    && r.tenant == q.tenant && r.project == q.project && r.inputType == q.inputType && r.options == q.options
    && Or(r.requestedBy, r.user) == Or(q.requestedBy, q.user)
    && multiset(EntriesOf(r.documents)) == multiset(EntriesOf(q.documents))
    && SameContent(r.content.GetOr(""), q.content.GetOr(""), blank)
  }

  /** The same lines; missing content counts as empty. */
  ghost predicate SameContent(x: string, y: string, blank: char -> bool) {
    exists lines, last :: Writes(x, lines, last, blank) && Writes(y, lines, last, blank)
  }

  lemma BlankContent(s: string, blank: char -> bool)
    requires blank('\n') && blank('\r')
    ensures NormalizeContent(s, blank) == "" <==> Strip(s, blank) == ""
    ensures s == "" ==> Strip(s, blank) == ""
  {
    NormalizeStripsFirst(s, blank);
    JoinPairsKeeps(Strip(s, blank), blank);
    EmptyLineFeeds();
  }

  lemma ContentHashIs(content: Option<string>, blank: char -> bool, sha: string -> string)
    requires blank('\n') && blank('\r')
    ensures var normal := NormalizeContent(content.GetOr(""), blank);
      ContentHash(content, blank, sha) == if normal == "" then None else Some(sha(normal))
  {
    BlankContent(content.GetOr(""), blank);
    hide NormalizeContent, Strip;
  }

  /** Requests for the same job have the same payload, provided their documents sort apart. */
  lemma SameJobSamePayload(r: Request, q: Request, blank: char -> bool, sha: string -> string)
    requires blank('\n') && blank('\r') && SameJob(r, q, blank) && Separate(EntriesOf(r.documents))
    ensures PayloadOf(r, blank, sha) == PayloadOf(q, blank, sha)
  {
    SeparateOrderFree(r.documents, q.documents);
    SameNormalIff(r.content.GetOr(""), q.content.GetOr(""), blank);
    hide Canonical, NormalizeContent, Separate, ContentHash, Writes;
    ContentHashIs(r.content, blank, sha);
    ContentHashIs(q.content, blank, sha);
  }

  /** Requests that reorder documents are requests for the same job. */
  lemma ReorderedSameEntries(docs: seq<Document>, other: seq<Document>)
    requires multiset(docs) == multiset(other)
    ensures multiset(EntriesOf(docs)) == multiset(EntriesOf(other))
  {
    MappedPermute(docs, other, EntryOf);
  }

  /** With a digest free of collisions, equal payloads mean the same job. */
  lemma SamePayloadSameJob(r: Request, q: Request, blank: char -> bool, sha: string -> string)
    requires blank('\n') && blank('\r') && PayloadOf(r, blank, sha) == PayloadOf(q, blank, sha)
    requires forall x, y :: sha(x) == sha(y) ==> x == y
    ensures SameJob(r, q, blank)
  {
    CanonicalKeepsEntries(r.documents, q.documents);
    hide Canonical, NormalizeContent, ContentHash, Writes;
    ContentHashIs(r.content, blank, sha);
    ContentHashIs(q.content, blank, sha);
    SameNormalIff(r.content.GetOr(""), q.content.GetOr(""), blank);
  }

  /** Equal payloads mean the same owner, requester, options and documents, and content of equal digest. */
  lemma SamePayloadMeans(r: Request, q: Request, blank: char -> bool, sha: string -> string)
    requires PayloadOf(r, blank, sha) == PayloadOf(q, blank, sha)
    ensures r.tenant == q.tenant && r.project == q.project && r.inputType == q.inputType && r.options == q.options
    ensures Or(r.requestedBy, r.user) == Or(q.requestedBy, q.user)
    ensures multiset(EntriesOf(r.documents)) == multiset(EntriesOf(q.documents))
    ensures ContentHash(r.content, blank, sha) == ContentHash(q.content, blank, sha)
  {
    CanonicalKeepsEntries(r.documents, q.documents);
  }

  method NormalizeDocuments(docs: seq<Document>) returns (entries: seq<Entry>)
    ensures entries == Canonical(docs)
  {
    entries := [];
    for i := 0 to |docs|
      invariant entries == EntriesOf(docs[..i])
    {
      assert docs[..i + 1] == docs[..i] + [docs[i]];
      entries := entries + [EntryOf(docs[i])];
    }
    assert docs[..|docs|] == docs;
    entries := Sort(entries, EntryLe);
  }

  // ---------- which of two fields counts ----------

  predicate Given(s: Option<string>) {
    s.Some? && s.value != ""
  }

  /** A storage key hides the file address, and a hash the SHA-256 field; each counts only where the other is not given. */
  lemma EntryTells(d: Document)
    ensures EntryOf(d).storageKey == (if Given(d.storageKey) then d.storageKey else d.fileUrl)
    ensures EntryOf(d).hash == (if Given(d.hash) then d.hash else d.sha256)
    ensures EntryOf(d).documentId == d.documentId && EntryOf(d).mimeType == d.mimeType && EntryOf(d).fileType == d.fileType
  {
  }

  /** The user counts exactly when no requester is given. */
  lemma RequesterTells(r: Request, user: Option<string>, blank: char -> bool, sha: string -> string)
    requires user != r.user
    ensures PayloadOf(r.(user := user), blank, sha) == PayloadOf(r, blank, sha) <==> Given(r.requestedBy)
  {
    hide ContentHash, Canonical;
  }
}
