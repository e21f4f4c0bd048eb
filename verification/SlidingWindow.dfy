/**
 Overlapping chunks of a text: windows of a fixed size, cut back to a late space where there is one,
 each starting a fixed overlap before the previous one ended.
 */
module SlidingWindow {

  const SIZE := 3000
  const OVERLAP := 500
  const LATE := 2400  // a space is used only when it is past four fifths of the window

  datatype Chunk = Chunk(text: string, index: nat, start: nat, end: nat)

  /** The last space of the text, or -1. */
  function LastSpace(s: string): (r: int)
    ensures -1 <= r < |s|
    ensures r >= 0 ==> s[r] == ' '
    ensures forall i :: r < i < |s| ==> s[i] != ' '
  {
    if s == "" then -1
    else if s[|s| - 1] == ' ' then |s| - 1
    else LastSpace(s[..|s| - 1])
  }

  /** Where the window that begins at `start` ends. */
  function WindowEnd(text: string, start: nat): (end: nat)
    requires start < |text|
    ensures start < end
  {
    var end := start + SIZE;
    if end < |text| && LastSpace(text[start..end]) > LATE then start + LastSpace(text[start..end]) else end
  }

  function Clip(text: string, end: nat): nat {
    if end < |text| then end else |text|
  }

  function Windows(text: string, start: nat, index: nat): seq<Chunk>
    requires start < |text|
    decreases |text| - start
  {
    var end := WindowEnd(text, start);
    var chunk := Chunk(text[start..Clip(text, end)], index, start, Clip(text, end));
    if end >= |text| then [chunk]
    else
      EndsLate(text, start);
      [chunk] + Windows(text, end - OVERLAP, index + 1)
  }

  function Chunks(text: string): seq<Chunk> {
    if text == "" then [] else Windows(text, 0, 0)
  }

  /** A window that stops short of the end of the text is longer than the cut-back limit. */
  lemma EndsLate(text: string, start: nat)
    requires start < |text|
    ensures WindowEnd(text, start) < |text| ==> start + LATE < WindowEnd(text, start) <= start + SIZE
    ensures WindowEnd(text, start) >= |text| ==> WindowEnd(text, start) == start + SIZE
  {
    if start + SIZE < |text| {
      assert LastSpace(text[start..start + SIZE]) < SIZE;
    }
  }

  /** The window that reaches the end takes the rest; any other ends at its last late space, or at full size without one. */
  lemma WindowEndIs(text: string, start: nat)
    requires start < |text|
    ensures start + 3000 >= |text| ==> WindowEnd(text, start) >= |text|
    ensures start + 3000 < |text| ==> var end := WindowEnd(text, start);
      && start + 2400 < end <= start + 3000
      && (forall i :: end < i < start + 3000 ==> text[i] != ' ')
      && (end < start + 3000 ==> text[end] == ' ')
      && (end == start + 3000 ==> forall i :: start + 2400 < i < start + 3000 ==> text[i] != ' ')
  {
    if start + 3000 < |text| {
      var window := text[start..start + 3000];
      forall i | start <= i < start + 3000 ensures text[i] == window[i - start] {
      }
    }
  }

  /** A cut is at a space, or at full size because no space comes late enough. */
  ghost predicate CutWell(text: string, c: Chunk) {
    || c.end == |text|
    || (c.end < |text| && c.end - c.start > LATE && text[c.end] == ' ')
    || (c.end < |text| && c.end - c.start == SIZE && forall i :: c.start + LATE < i < c.end ==> text[i] != ' ')
  }

  ghost predicate IsSlice(text: string, c: Chunk) {
    c.start < c.end <= |text| && c.text == text[c.start..c.end] && |c.text| <= SIZE
  }

  lemma WindowIsCutWell(text: string, start: nat)
    requires start < |text|
    ensures var end := Clip(text, WindowEnd(text, start));
      IsSlice(text, Chunk(text[start..end], 0, start, end)) && CutWell(text, Chunk(text[start..end], 0, start, end))
  {
    EndsLate(text, start);
    var window := start + SIZE;
    if window < |text| {
      var s := text[start..window];
      var last := LastSpace(s);
      assert forall i :: start <= i < window ==> text[i] == s[i - start];
    }
  }

  /**
   Every chunk is the slice of the text at its recorded offsets and well cut; each one starts the
   overlap before the end of the one before; the last one ends the text.
   */
  ghost predicate Covers(text: string, chunks: seq<Chunk>, start: nat, index: nat) {
    && chunks != [] && chunks[0].start == start && chunks[|chunks| - 1].end == |text|
    && (forall n :: 0 <= n < |chunks| ==> IsSlice(text, chunks[n]) && CutWell(text, chunks[n]) && chunks[n].index == index + n)
    && (forall n :: 0 <= n < |chunks| - 1 ==> chunks[n + 1].start == chunks[n].end - OVERLAP && chunks[n].end < |text|)
  }

  lemma ConsCovers(text: string, c: Chunk, rest: seq<Chunk>)
    requires IsSlice(text, c) && CutWell(text, c) && c.end < |text|
    requires c.end >= OVERLAP && Covers(text, rest, c.end - OVERLAP, c.index + 1)
    ensures Covers(text, [c] + rest, c.start, c.index)
  {
    hide IsSlice, CutWell;
    var all := [c] + rest;
    assert forall n :: 1 <= n < |all| ==> all[n] == rest[n - 1];
  }

  /** The chunk of the window that begins at `start`. */
  function Window(text: string, start: nat, index: nat): Chunk
    requires start < |text|
  {
    var end := Clip(text, WindowEnd(text, start));
    Chunk(text[start..end], index, start, end)
  }

  lemma WindowsUnfold(text: string, start: nat, index: nat)
    requires start < |text|
    ensures WindowEnd(text, start) >= |text| ==> Windows(text, start, index) == [Window(text, start, index)]
    ensures WindowEnd(text, start) < |text| ==> WindowEnd(text, start) - OVERLAP > start
    ensures WindowEnd(text, start) < |text| ==>
      Windows(text, start, index) == [Window(text, start, index)] + Windows(text, WindowEnd(text, start) - OVERLAP, index + 1)
  {
    EndsLate(text, start);
    hide WindowEnd, LastSpace;
  }

  lemma {:induction false} WindowsCover(text: string, start: nat, index: nat)
    requires start < |text|
    ensures Covers(text, Windows(text, start, index), start, index)
    decreases |text| - start
  {
    hide WindowEnd, Windows, LastSpace;
    WindowIsGood(text, start, index);
    WindowsUnfold(text, start, index);
    var c, end := Window(text, start, index), WindowEnd(text, start);
    hide IsSlice, CutWell, Covers;
    if end < |text| {
      WindowsCover(text, end - OVERLAP, index + 1);
      ConsCovers(text, c, Windows(text, end - OVERLAP, index + 1));
    } else {
      OneCovers(text, c);
    }
  }

  lemma WindowIsGood(text: string, start: nat, index: nat)
    requires start < |text|
    ensures IsSlice(text, Window(text, start, index)) && CutWell(text, Window(text, start, index))
  {
    WindowIsCutWell(text, start);
    hide WindowEnd, LastSpace;
  }

  lemma OneCovers(text: string, c: Chunk)
    requires IsSlice(text, c) && CutWell(text, c) && c.end == |text|
    ensures Covers(text, [c], c.start, c.index)
  {
    hide IsSlice, CutWell;
  }

  /** The first chunk, then every later chunk without the overlap. */
  function Rejoin(chunks: seq<Chunk>): string {
    if chunks == [] then ""
    else if |chunks| == 1 then chunks[0].text
    else
      var last := chunks[|chunks| - 1].text;
      Rejoin(chunks[..|chunks| - 1]) + if |last| < OVERLAP then "" else last[OVERLAP..]
  }

  lemma {:induction false} CoveredRejoins(text: string, chunks: seq<Chunk>, n: nat)
    requires Covers(text, chunks, 0, 0) && 0 < n <= |chunks|
    ensures Rejoin(chunks[..n]) == text[..chunks[n - 1].end]
  {
    if n == 1 {
      assert chunks[..1] == [chunks[0]];
    } else {
      CoveredRejoins(text, chunks, n - 1);
      assert chunks[..n][..n - 1] == chunks[..n - 1];
      var before, last := chunks[n - 2], chunks[n - 1];
      assert last.start == before.end - OVERLAP;
      hide Rejoin;
      assert before.end <= last.end;
      assert last.text[OVERLAP..] == text[before.end..last.end];
      assert text[..before.end] + text[before.end..last.end] == text[..last.end];
      RejoinLast(chunks[..n]);
    }
  }

  lemma RejoinLast(chunks: seq<Chunk>)
    requires |chunks| > 1 && |chunks[|chunks| - 1].text| >= OVERLAP
    ensures Rejoin(chunks) == Rejoin(chunks[..|chunks| - 1]) + chunks[|chunks| - 1].text[OVERLAP..]
  {
  }

  /** The chunks cover the text and put it together again. */
  lemma ChunksRejoin(text: string)
    ensures Rejoin(Chunks(text)) == text
    ensures text != "" ==> Covers(text, Chunks(text), 0, 0)
  {
    if text != "" {
      WindowsCover(text, 0, 0);
      var chunks := Chunks(text);
      CoveredRejoins(text, chunks, |chunks|);
      assert chunks[..|chunks|] == chunks && text[..|text|] == text;
    }
  }

  /** One window, and where it ends before clipping. */
  method TakeWindow(text: string, start: nat, index: nat) returns (chunk: Chunk, end: nat)
    requires start < |text|
    ensures chunk == Window(text, start, index) && end == WindowEnd(text, start)
  {
    end := start + SIZE;
    var slice := text[start..Clip(text, end)];
    if end < |text| {
      var last := LastSpace(slice);
      hide LastSpace;
      if last > LATE {
        end := start + last;
        slice := text[start..end];
      }
    }
    chunk := Chunk(slice, index, start, start + |slice|);
  }

  method ChunkText(text: string) returns (chunks: seq<Chunk>)
    ensures chunks == Chunks(text)
  {
    chunks := [];
    if text == "" {
      return;
    }
    var start: int, index: nat := 0, 0;
    while start < |text|
      invariant 0 <= start < |text|
      invariant chunks + Windows(text, start, index) == Chunks(text)
      decreases |text| - start
    {
      hide WindowEnd, LastSpace, Windows, Window, Chunks;
      WindowsUnfold(text, start, index);
      var chunk, end := TakeWindow(text, start, index);
      chunks := chunks + [chunk];
      index := index + 1;
      start := end - OVERLAP;
      if start >= |text| - OVERLAP {
        break;
      }
    }
  }
}
