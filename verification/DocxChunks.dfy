/**
 Chunks of a document given as paragraphs: paragraphs are gathered, with a blank line between them,
 until a chunk is long enough. The document itself is all paragraphs joined with blank lines.
 */
module DocxChunks {
  import opened Wrappers

  const SIZE := 3000
  const GAP := "\n\n"

  datatype Paragraph = Paragraph(text: string, index: int)

  datatype Chunk = Chunk(text: string, start: nat, end: nat, paragraph: Option<int>)

  /** The chunks closed so far, the text of the open one, where that starts, and its first paragraph. */
  datatype State = State(chunks: seq<Chunk>, open: string, start: nat, paragraph: Option<int>)

  function Joined(doc: string, part: string): string {
    doc + GAP + part
  }

  function Join(parts: seq<string>): string {
    if parts == [] then ""
    else if |parts| == 1 then parts[0]
    else Joined(Join(parts[..|parts| - 1]), parts[|parts| - 1])
  }

  function TextsOf(paras: seq<Paragraph>): seq<string> {
    if paras == [] then [] else TextsOf(paras[..|paras| - 1]) + [paras[|paras| - 1].text]
  }

  function ChunkTexts(chunks: seq<Chunk>): seq<string> {
    if chunks == [] then [] else ChunkTexts(chunks[..|chunks| - 1]) + [chunks[|chunks| - 1].text]
  }

  /** The document. */
  function Document(paras: seq<Paragraph>): string {
    Join(TextsOf(paras))
  }

  function Closed(s: State): Chunk {
    Chunk(s.open, s.start, s.start + |s.open|, s.paragraph)
  }

  function Step(s: State, p: Paragraph): State {
    var open := if s.open != "" then Joined(s.open, p.text) else p.text;
    var first := if s.paragraph.None? then Some(p.index) else s.paragraph;
    var grown := State(s.chunks, open, s.start, first);
    if |open| >= SIZE then State(s.chunks + [Closed(grown)], "", s.start + |open| + 2, None) else grown
  }

  function Fold(paras: seq<Paragraph>): State {
    if paras == [] then State([], "", 0, None) else Step(Fold(paras[..|paras| - 1]), paras[|paras| - 1])
  }

  function Finished(s: State): seq<Chunk> {
    if s.open != "" then s.chunks + [Closed(s)] else s.chunks
  }

  function Chunks(paras: seq<Paragraph>): seq<Chunk> {
    Finished(Fold(paras))
  }

  /** How many blank paragraphs come while no chunk is open; nothing records them. */
  function Lost(paras: seq<Paragraph>): nat {
    if paras == [] then 0
    else Lost(paras[..|paras| - 1]) + if Fold(paras[..|paras| - 1]).open == "" && paras[|paras| - 1].text == "" then 1 else 0
  }

  /** The paragraphs that open a chunk: those with text that come while none is open. */
  function Openers(paras: seq<Paragraph>): seq<nat> {
    if paras == [] then []
    else
      var front, last := paras[..|paras| - 1], paras[|paras| - 1];
      if Fold(front).open == "" && last.text != "" then Openers(front) + [|front|] else Openers(front)
  }

  // ---------- where chunks stand ----------

  ghost predicate IsSlice(doc: string, c: Chunk) {
    c.start <= c.end <= |doc| && c.text == doc[c.start..c.end] && c.text != ""
  }

  /** Where paragraph `n` begins in the document. */
  function Place(paras: seq<Paragraph>, n: nat): nat
    requires n <= |paras|
  {
    if n == 0 then 0 else |Document(paras[..n])| + 2
  }

  /** The chunk opened by paragraph `n` stands where that paragraph begins, past its recorded start by a gap for each blank lost before. */
  ghost predicate Stands(paras: seq<Paragraph>, doc: string, c: Chunk, n: nat) {
    && n <= |paras| && c.text != "" && c.end == c.start + |c.text|
    && c.start + 2 * Lost(paras[..n]) == Place(paras, n)
    && Place(paras, n) + |c.text| <= |doc| && doc[Place(paras, n)..Place(paras, n) + |c.text|] == c.text
  }

  /** Each chunk stands where it was opened; the open one ends the document so far. */
  ghost predicate Aligned(paras: seq<Paragraph>, doc: string, s: State, openers: seq<nat>) {
    && |openers| == |Finished(s)|
    && (forall i :: 0 <= i < |openers| ==> Stands(paras, doc, Finished(s)[i], openers[i]))
    && (if s.open == "" then s.start + 2 * Lost(paras) == Place(paras, |paras|)
        else Lost(paras[..openers[|openers| - 1]]) == Lost(paras) && |doc| + 2 == s.start + |s.open| + 2 * Lost(paras) + 2)
  }

  lemma DocumentGrows(paras: seq<Paragraph>, p: Paragraph)
    ensures Document(paras + [p]) == if paras == [] then p.text else Joined(Document(paras), p.text)
  {
    assert (paras + [p])[..|paras|] == paras;
    var texts := TextsOf(paras);
    TextsLength(paras);
    assert (texts + [p.text])[..|texts|] == texts;
  }

  lemma {:induction false} TextsLength(paras: seq<Paragraph>)
    ensures |TextsOf(paras)| == |paras|
  {
    if paras != [] {
      TextsLength(paras[..|paras| - 1]);
    }
  }

  lemma PrefixSame(paras: seq<Paragraph>, p: Paragraph, n: nat)
    requires n <= |paras|
    ensures (paras + [p])[..n] == paras[..n] && Place(paras + [p], n) == Place(paras, n)
  {
  }

  lemma StandsStill(paras: seq<Paragraph>, p: Paragraph, doc: string, more: string, c: Chunk, n: nat)
    requires Stands(paras, doc, c, n)
    ensures Stands(paras + [p], doc + more, c, n)
  {
    PrefixSame(paras, p, n);
    var at := Place(paras, n);
    assert (doc + more)[at..at + |c.text|] == doc[at..at + |c.text|];
    hide Place, Lost;
  }

  /** A chunk that ends the document grows with it. */
  lemma StandsGrown(paras: seq<Paragraph>, p: Paragraph, doc: string, more: string, c: Chunk, n: nat)
    requires Stands(paras, doc, c, n) && Place(paras, n) + |c.text| == |doc|
    ensures Stands(paras + [p], doc + more, c.(text := c.text + more, end := c.end + |more|), n)
  {
    hide Place, Lost;
    PrefixSame(paras, p, n);
    SuffixGrown(doc, more, Place(paras, n));
  }

  lemma SuffixGrown(doc: string, more: string, at: nat)
    requires at <= |doc|
    ensures (doc + more)[at..|doc + more|] == doc[at..|doc|] + more
  {
  }

  /** The open chunk with a further paragraph in it. */
  function Grown(s: State, p: Paragraph): State {
    State(s.chunks, if s.open != "" then Joined(s.open, p.text) else p.text, s.start, if s.paragraph.None? then Some(p.index) else s.paragraph)
  }

  /** Closing the open chunk moves nothing. */
  lemma StepFinished(s: State, p: Paragraph)
    ensures Finished(Step(s, p)) == Finished(Grown(s, p))
    ensures Step(s, p).open == "" ==> Step(s, p).start == Grown(s, p).start + if Grown(s, p).open == "" then 0 else |Grown(s, p).open| + 2
    ensures Step(s, p).open != "" ==> Step(s, p) == Grown(s, p)
  {
  }

  lemma EmptyAligned()
    ensures Document([]) == "" && Fold([]).open == "" && Aligned([], Document([]), Fold([]), Openers([]))
  {
  }

  lemma FoldUnfolds(front: seq<Paragraph>, last: Paragraph)
    ensures Fold(front + [last]) == Step(Fold(front), last)
    ensures Lost(front + [last]) == Lost(front) + if Fold(front).open == "" && last.text == "" then 1 else 0
    ensures Openers(front + [last]) == Openers(front) + if Fold(front).open == "" && last.text != "" then [|front|] else []
  {
    hide Fold, Lost, Openers, Step;
    FoldNext(front, last);
    LostNext(front, last);
    OpenersNext(front, last);
  }

  lemma FoldNext(front: seq<Paragraph>, last: Paragraph)
    ensures Fold(front + [last]) == Step(Fold(front), last)
  {
    hide Step;
    assert (front + [last])[..|front|] == front;
  }

  lemma LostNext(front: seq<Paragraph>, last: Paragraph)
    ensures Lost(front + [last]) == Lost(front) + if Fold(front).open == "" && last.text == "" then 1 else 0
  {
    hide Fold;
    assert (front + [last])[..|front|] == front;
  }

  lemma OpenersNext(front: seq<Paragraph>, last: Paragraph)
    ensures Openers(front + [last]) == Openers(front) + if Fold(front).open == "" && last.text != "" then [|front|] else []
  {
    hide Fold;
    assert (front + [last])[..|front|] == front;
  }

  lemma PlaceAfter(front: seq<Paragraph>, last: Paragraph)
    ensures Place(front + [last], |front| + 1) == |Document(front + [last])| + 2
    ensures Place(front + [last], |front|) == Place(front, |front|) == if front == [] then 0 else |Document(front)| + 2
    ensures |Document(front + [last])| == Place(front, |front|) + |last.text|
    ensures front == [] ==> Document(front) == ""
  {
    assert (front + [last])[..|front| + 1] == front + [last];
    assert (front + [last])[..|front|] == front && front[..|front|] == front;
    DocumentGrows(front, last);
  }

  /** What a paragraph adds to the document. */
  function Added(front: seq<Paragraph>, p: Paragraph): string {
    if front == [] then p.text else GAP + p.text
  }

  lemma AddedIs(front: seq<Paragraph>, p: Paragraph)
    ensures Document(front + [p]) == Document(front) + Added(front, p)
  {
    DocumentGrows(front, p);
    assert front == [] ==> Document(front) == "";
    assert Document(front) + GAP + p.text == Document(front) + (GAP + p.text);
  }

  /** Chunks finished before the open one stay where they stand. */
  lemma OthersStand(front: seq<Paragraph>, last: Paragraph, i: nat)
    requires Aligned(front, Document(front), Fold(front), Openers(front))
    requires i < |Fold(front).chunks|
    ensures i < |Openers(front)| && Stands(front + [last], Document(front + [last]), Fold(front).chunks[i], Openers(front)[i])
  {
    AddedIs(front, last);
    assert Finished(Fold(front))[i] == Fold(front).chunks[i];
    hide Document, Fold, Openers, Stands, Added;
    StandsStill(front, last, Document(front), Added(front, last), Fold(front).chunks[i], Openers(front)[i]);
  }

  /** What a paragraph that joins or opens a chunk leaves behind. */
  ghost predicate LastStands(front: seq<Paragraph>, last: Paragraph) {
    var paras, s, openers := front + [last], Fold(front), Openers(front + [last]);
    && |openers| == |s.chunks| + 1
    && Stands(paras, Document(paras), Closed(Grown(s, last)), openers[|s.chunks|])
    && Lost(paras) == Lost(front)
    && Lost(paras[..openers[|s.chunks|]]) == Lost(front)
    && |Document(paras)| == s.start + |Grown(s, last).open| + 2 * Lost(front)
  }

  /** The chunk a paragraph joins stands where it stood. */
  lemma JoinedStands(front: seq<Paragraph>, last: Paragraph)
    requires Aligned(front, Document(front), Fold(front), Openers(front)) && Fold(front).open != ""
    ensures LastStands(front, last)
  {
    hide Fold, Openers, Lost, Place, Document, Step;
    var s, openers := Fold(front), Openers(front);
    var n := openers[|s.chunks|];
    assert Finished(s)[|s.chunks|] == Closed(s);
    EmptyAligned();
    assert front != [];
    FoldUnfolds(front, last);
    PlaceAfter(front, last);
    AddedIs(front, last);
    PrefixSame(front, last, n);
    assert Joined(s.open, last.text) == s.open + Added(front, last);
    StandsGrown(front, last, Document(front), Added(front, last), Closed(s), n);
    hide Added, Joined;
    var grown := Closed(s).(text := s.open + Added(front, last), end := Closed(s).end + |Added(front, last)|);
    Renamed(front + [last], Document(front + [last]), grown, Closed(Grown(s, last)), n);
  }

  /** The chunk a paragraph opens stands where the paragraph begins. */
  lemma OpenedStands(front: seq<Paragraph>, last: Paragraph)
    requires Aligned(front, Document(front), Fold(front), Openers(front)) && Fold(front).open == "" && last.text != ""
    ensures LastStands(front, last)
  {
    hide Fold, Openers, Lost, Place, Document, Step;
    var paras, at := front + [last], Place(front, |front|);
    FoldUnfolds(front, last);
    PlaceAfter(front, last);
    AddedIs(front, last);
    assert paras[..|front|] == front;
    assert |Document(paras)| == at + |last.text|;
    assert Document(paras)[at..at + |last.text|] == last.text;
  }

  lemma Renamed(paras: seq<Paragraph>, doc: string, c: Chunk, d: Chunk, n: nat)
    requires Stands(paras, doc, c, n) && d.text == c.text && d.start == c.start && d.end == c.end
    ensures Stands(paras, doc, d, n)
  {
  }

  lemma StepAligned(front: seq<Paragraph>, last: Paragraph)
    requires Aligned(front, Document(front), Fold(front), Openers(front))
    ensures Aligned(front + [last], Document(front + [last]), Fold(front + [last]), Openers(front + [last]))
  {
    var s := Fold(front);
    forall i | 0 <= i < |s.chunks| ensures i < |Openers(front)| && Stands(front + [last], Document(front + [last]), s.chunks[i], Openers(front)[i]) {
      OthersStand(front, last, i);
    }
    if s.open == "" && last.text == "" {
      LostAligned(front, last);
    } else {
      if s.open != "" {
        JoinedStands(front, last);
      } else {
        OpenedStands(front, last);
      }
      PutAligned(front, last);
    }
  }

  lemma LostAligned(front: seq<Paragraph>, last: Paragraph)
    requires Aligned(front, Document(front), Fold(front), Openers(front)) && Fold(front).open == "" && last.text == ""
    requires forall i :: 0 <= i < |Fold(front).chunks| ==>
      i < |Openers(front)| && Stands(front + [last], Document(front + [last]), Fold(front).chunks[i], Openers(front)[i])
    ensures Aligned(front + [last], Document(front + [last]), Fold(front + [last]), Openers(front + [last]))
  {
    hide Fold, Openers, Lost, Place, Document, Stands;
    FoldUnfolds(front, last);
    PlaceAfter(front, last);
  }

  lemma PutAligned(front: seq<Paragraph>, last: Paragraph)
    requires LastStands(front, last) && (Fold(front).open != "" || last.text != "")
    requires |Openers(front)| == |Finished(Fold(front))|
    requires forall i :: 0 <= i < |Fold(front).chunks| ==>
      i < |Openers(front)| && Stands(front + [last], Document(front + [last]), Fold(front).chunks[i], Openers(front)[i])
    ensures Aligned(front + [last], Document(front + [last]), Fold(front + [last]), Openers(front + [last]))
  {
    hide Fold, Openers, Lost, Place, Document, Stands, Step;
    var paras, s := front + [last], Fold(front);
    FoldUnfolds(front, last);
    StepFinished(s, last);
    PlaceAfter(front, last);
    PutStands(front, last);
    assert Finished(Fold(paras)) == s.chunks + [Closed(Grown(s, last))];
    assert |Openers(paras)| == |s.chunks| + 1;
  }

  /** The chunks before and the one put in. */
  lemma PutStands(front: seq<Paragraph>, last: Paragraph)
    requires LastStands(front, last) && (Fold(front).open != "" || last.text != "")
    requires |Openers(front)| == |Finished(Fold(front))|
    requires forall i :: 0 <= i < |Fold(front).chunks| ==>
      i < |Openers(front)| && Stands(front + [last], Document(front + [last]), Fold(front).chunks[i], Openers(front)[i])
    ensures var paras, chunks := front + [last], Fold(front).chunks + [Closed(Grown(Fold(front), last))];
      && Grown(Fold(front), last).open != "" && |Openers(paras)| == |chunks|
      && forall i :: 0 <= i < |chunks| ==> Stands(paras, Document(paras), chunks[i], Openers(paras)[i])
  {
    hide Fold, Openers, Lost, Place, Document, Stands, Step;
    FoldUnfolds(front, last);
    var s := Fold(front);
    assert forall i :: 0 <= i < |s.chunks| ==> Openers(front + [last])[i] == Openers(front)[i];
  }

  lemma {:induction false} FoldAligned(paras: seq<Paragraph>)
    ensures Aligned(paras, Document(paras), Fold(paras), Openers(paras))
  {
    EmptyAligned();
    hide Document, Aligned, Fold, Openers;
    if paras != [] {
      var front, last := paras[..|paras| - 1], paras[|paras| - 1];
      assert paras == front + [last];
      FoldAligned(front);
      StepAligned(front, last);
    }
  }

  /**
   Every chunk stands in the document where the paragraph that opened it begins. Its recorded start falls
   short of that by a gap for each blank paragraph lost before, so it is right exactly when there is none.
   */
  lemma ChunksStand(paras: seq<Paragraph>, i: nat)
    requires i < |Chunks(paras)|
    ensures |Openers(paras)| == |Chunks(paras)| && Openers(paras)[i] <= |paras|
    ensures Stands(paras, Document(paras), Chunks(paras)[i], Openers(paras)[i])
    ensures Chunks(paras)[i].start == Place(paras, Openers(paras)[i]) <==> Lost(paras[..Openers(paras)[i]]) == 0
  {
    FoldAligned(paras);
    hide Document, Fold, Openers, Place, Lost;
  }

  /** Where nothing is lost before it opens, a chunk is the slice of the document at its recorded offsets. */
  lemma ChunkIsSlice(paras: seq<Paragraph>, i: nat)
    requires i < |Chunks(paras)| == |Openers(paras)| && Openers(paras)[i] <= |paras| && Lost(paras[..Openers(paras)[i]]) == 0
    ensures IsSlice(Document(paras), Chunks(paras)[i])
  {
    ChunksStand(paras, i);
    hide Chunks, Openers, Place, Document;
  }

  lemma {:induction false} LostGrows(paras: seq<Paragraph>, n: nat)
    requires n <= |paras|
    ensures Lost(paras[..n]) <= Lost(paras)
  {
    if n == |paras| {
      assert paras[..n] == paras;
    } else {
      var front := paras[..|paras| - 1];
      LostGrows(front, n);
      assert front[..n] == paras[..n];
    }
  }

  /** Where nothing is lost at all, every chunk is. */
  lemma ChunksAreSlices(paras: seq<Paragraph>)
    requires Lost(paras) == 0
    ensures forall i :: 0 <= i < |Chunks(paras)| ==> IsSlice(Document(paras), Chunks(paras)[i])
  {
    forall i | 0 <= i < |Chunks(paras)| ensures IsSlice(Document(paras), Chunks(paras)[i]) {
      ChunksStand(paras, i);
      hide Chunks, Openers, Document, IsSlice, Lost;
      LostGrows(paras, Openers(paras)[i]);
      ChunkIsSlice(paras, i);
    }
  }

  lemma NothingFolded()
    ensures Fold([]) == State([], "", 0, None)
  {
  }

  lemma OneChunkJoined(c: Chunk)
    ensures Join(ChunkTexts([c])) == c.text
  {
    assert [c][..0] == [];
    assert ChunkTexts([c]) == [c.text];
  }

  lemma StepBlank(blank: Paragraph)
    requires blank.text == ""
    ensures Step(State([], "", 0, None), blank) == State([], "", 0, Some(blank.index))
  {
  }

  lemma StepText(p: Paragraph, index: int)
    requires 0 < |p.text| < SIZE
    ensures Step(State([], "", 0, Some(index)), p) == State([], p.text, 0, Some(index))
  {
  }

  lemma BlankThenText(blank: Paragraph, p: Paragraph)
    requires blank.text == "" && 0 < |p.text| < SIZE
    ensures Document([blank, p]) == GAP + p.text
    ensures Chunks([blank, p]) == [Chunk(p.text, 0, |p.text|, Some(blank.index))]
  {
    hide Document, Fold, Step;
    StepBlank(blank);
    StepText(p, blank.index);
    assert [blank] == [] + [blank] && [blank, p] == [blank] + [p];
    DocumentGrows([], blank);
    DocumentGrows([blank], p);
    FoldNext([], blank);
    FoldNext([blank], p);
    NothingFolded();
  }

  /** A blank paragraph in front: the text after it is recorded at the beginning, two characters too early. */
  lemma LeadingBlankMisplaces()
    ensures var paras := [Paragraph("", 0), Paragraph("x", 1)];
      && Chunks(paras) == [Chunk("x", 0, 1, Some(0))] && Document(paras) == GAP + "x"
      && !IsSlice(Document(paras), Chunks(paras)[0]) && Join(ChunkTexts(Chunks(paras))) == "x"
  {
    hide Document, Chunks, Join, ChunkTexts;
    BlankThenText(Paragraph("", 0), Paragraph("x", 1));
    OneChunkJoined(Chunk("x", 0, 1, Some(0)));
    assert (GAP + "x")[0..1][0] != "x"[0];
  }

  // ---------- joining the chunks again ----------

  lemma JoinAppend(parts: seq<string>, part: string)
    ensures Join(parts + [part]) == if parts == [] then part else Joined(Join(parts), part)
  {
    assert (parts + [part])[..|parts|] == parts;
  }

  lemma JoinExtendLast(parts: seq<string>, open: string, part: string)
    ensures Join(parts + [Joined(open, part)]) == Joined(Join(parts + [open]), part)
  {
    JoinAppend(parts, open);
    JoinAppend(parts, Joined(open, part));
  }

  function Pieces(s: State): seq<string> {
    ChunkTexts(Finished(s))
  }

  lemma PiecesAre(s: State)
    ensures Pieces(s) == if s.open != "" then ChunkTexts(s.chunks) + [s.open] else ChunkTexts(s.chunks)
  {
    assert (s.chunks + [Closed(s)])[..|s.chunks|] == s.chunks;
  }

  lemma StepPieces(s: State, p: Paragraph)
    ensures s.open != "" ==> Pieces(Step(s, p)) == ChunkTexts(s.chunks) + [Joined(s.open, p.text)]
    ensures s.open == "" && p.text != "" ==> Pieces(Step(s, p)) == ChunkTexts(s.chunks) + [p.text]
    ensures s.open == "" && p.text == "" ==> Pieces(Step(s, p)) == ChunkTexts(s.chunks)
  {
    PiecesAre(Step(s, p));
    var closed := Step(s, p).chunks;
    if closed != s.chunks {
      assert closed[..|closed| - 1] == s.chunks;
    }
  }

  ghost predicate JoinedShort(paras: seq<Paragraph>) {
    var pieces := Pieces(Fold(paras));
    && (pieces != [] ==> |Document(paras)| == |Join(pieces)| + 2 * Lost(paras))
    && (pieces == [] ==> Lost(paras) == |paras| && |Document(paras)| == if paras == [] then 0 else 2 * (|paras| - 1))
    && (Lost(paras) == 0 ==> Join(pieces) == Document(paras))
  }

  /** The joined chunks fall short of the document by a gap for each paragraph lost. */
  lemma {:induction false} JoinedLength(paras: seq<Paragraph>)
    ensures JoinedShort(paras)
  {
    hide JoinedShort;
    if paras == [] {
      NothingJoined();
    } else {
      var front, last := paras[..|paras| - 1], paras[|paras| - 1];
      JoinedLength(front);
      assert paras == front + [last];
      JoinedNext(front, last);
    }
  }

  lemma JoinedNext(front: seq<Paragraph>, last: Paragraph)
    requires JoinedShort(front)
    ensures JoinedShort(front + [last])
  {
    hide Document, Step, Pieces, ChunkTexts, Join, Fold, Lost;
    var s := Fold(front);
    NoPieces();
    FoldNext(front, last);
    LostNext(front, last);
    DocumentGrows(front, last);
    PiecesAre(s);
    StepPieces(s, last);
    JoinExtendLast(ChunkTexts(s.chunks), s.open, last.text);
    JoinAppend(ChunkTexts(s.chunks), last.text);
  }

  lemma NoPieces()
    ensures Pieces(Fold([])) == [] && Document([]) == "" && Lost([]) == 0
  {
  }

  lemma NothingJoined()
    ensures JoinedShort([])
  {
  }

  /** Joined with blank lines, the chunks are the document exactly when nothing is lost, or there is one blank paragraph only. */
  lemma RejoinIffNothingLost(paras: seq<Paragraph>)
    ensures Join(ChunkTexts(Chunks(paras))) == Document(paras) <==> Lost(paras) == 0 || (|paras| == 1 && paras[0].text == "")
  {
    JoinedLength(paras);
    hide Document, Fold, ChunkTexts;
    if |paras| == 1 && paras[0].text == "" {
      OneBlank(paras);
    }
    if Lost(paras) > 0 && Pieces(Fold(paras)) == [] && |paras| == 1 {
      OneLost(paras);
    }
  }

  lemma OneBlank(paras: seq<Paragraph>)
    requires |paras| == 1 && paras[0].text == ""
    ensures Join(ChunkTexts(Chunks(paras))) == Document(paras)
  {
    assert paras[..0] == [];
    assert Fold(paras) == State([], "", 0, Some(paras[0].index));
    assert TextsOf(paras) == [""];
  }

  lemma OneLost(paras: seq<Paragraph>)
    requires |paras| == 1 && Lost(paras) > 0
    ensures paras[0].text == ""
  {
    assert paras[..0] == [];
  }

  /** Paragraphs with text lose nothing. */
  lemma {:induction false} TextLosesNothing(paras: seq<Paragraph>)
    requires forall i :: 0 <= i < |paras| ==> paras[i].text != ""
    ensures Lost(paras) == 0
  {
    if paras != [] {
      TextLosesNothing(paras[..|paras| - 1]);
    }
  }

  // ---------- the computation ----------

  method ChunkParagraphs(paras: seq<Paragraph>) returns (chunks: seq<Chunk>)
    ensures chunks == Chunks(paras)
  {
    hide Fold;
    chunks := [];
    var open, start: nat, first: Option<int> := "", 0, None;
    assert paras[..0] == [];
    NothingFolded();
    for n := 0 to |paras|
      invariant State(chunks, open, start, first) == Fold(paras[..n])
    {
      var p := paras[n];
      assert paras[..n + 1] == paras[..n] + [p];
      FoldNext(paras[..n], p);
      if first.None? {
        first := Some(p.index);
      }
      if open != "" {
        open := open + "\n\n" + p.text;
      } else {
        open := p.text;
      }
      if |open| >= SIZE {
        chunks := chunks + [Chunk(open, start, start + |open|, first)];
        start := start + |open| + 2;
        open := "";
        first := None;
      }
    }
    assert paras[..|paras|] == paras;
    if open != "" {
      chunks := chunks + [Chunk(open, start, start + |open|, first)];
    }
  }

  // ---------- when chunks are closed ----------

  /** Long enough, and not so before its last paragraph. */
  ghost predicate ClosedInTime(text: string) {
    |text| >= 3000 && exists before, last :: Ends(text, before, last)
  }

  predicate Ends(text: string, before: string, last: string) {
    |before| < 3000 && text == if before == "" then last else before + "\n\n" + last
  }

  /** Every chunk closed so far was closed in time, and the open one is not long enough. */
  lemma {:induction false} FoldCloses(paras: seq<Paragraph>)
    ensures var s := Fold(paras); |s.open| < 3000 && forall i :: 0 <= i < |s.chunks| ==> ClosedInTime(s.chunks[i].text)
  {
    if paras != [] {
      var front, last := Fold(paras[..|paras| - 1]), paras[|paras| - 1];
      FoldCloses(paras[..|paras| - 1]);
      assert Ends(if front.open != "" then Joined(front.open, last.text) else last.text, front.open, last.text);
    }
  }

  /** All chunks but the last are closed by the paragraph that makes them long enough; the last is any rest shorter than that, or one of them. */
  lemma ChunksClosed(paras: seq<Paragraph>)
    ensures var cs := Chunks(paras);
      && (forall i :: 0 <= i < |cs| - 1 ==> ClosedInTime(cs[i].text))
      && (cs != [] ==> cs[|cs| - 1].text != "" && (|cs[|cs| - 1].text| < 3000 || ClosedInTime(cs[|cs| - 1].text)))
  {
    FoldCloses(paras);
    hide Fold;
  }
}
