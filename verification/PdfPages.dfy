/**
 Chunks of a paged text: one for each page with something on it, stripped of surrounding blanks, at
 the offset where its page begins.
 */
module PdfPages {
  import opened Stripping

  const FEED := '\U{000C}'

  datatype Chunk = Chunk(text: string, start: nat, end: nat, page: nat)

  /** The pages of a text, split at form feeds; never none. */
  function Split(s: string): (pages: seq<string>)
    ensures |pages| > 0
  {
    if s == "" then [""]
    else
      var front, last := Split(s[..|s| - 1]), s[|s| - 1];
      if last == FEED then front + [""] else front[|front| - 1 := front[|front| - 1] + [last]]
  }

  /** Where page `n` begins: after the pages before it and their form feeds. */
  function Offset(pages: seq<string>, n: nat): nat
    requires n <= |pages|
  {
    if n == 0 then 0 else Offset(pages, n - 1) + |pages[n - 1]| + 1
  }

  function Pages(pages: seq<string>, blank: char -> bool, n: nat): seq<Chunk>
    requires n <= |pages|
  {
    if n == 0 then []
    else
      var front, clean := Pages(pages, blank, n - 1), Strip(pages[n - 1], blank);
      if clean == "" then front
      else front + [Chunk(clean, Offset(pages, n - 1), Offset(pages, n - 1) + |clean|, n)]
  }

  function Chunks(text: string, blank: char -> bool): seq<Chunk> {
    Pages(Split(text), blank, |Split(text)|)
  }

  // ---------- offsets are true ----------

  /** The pages with form feeds between them. */
  function Join(pages: seq<string>): string {
    if pages == [] then ""
    else if |pages| == 1 then pages[0]
    else Join(pages[..|pages| - 1]) + [FEED] + pages[|pages| - 1]
  }

  lemma JoinAppend(pages: seq<string>, page: string)
    requires pages != []
    ensures Join(pages + [page]) == Join(pages) + [FEED] + page
  {
    assert (pages + [page])[..|pages|] == pages;
  }

  lemma JoinExtendLast(pages: seq<string>, c: char)
    requires pages != []
    ensures Join(pages[|pages| - 1 := pages[|pages| - 1] + [c]]) == Join(pages) + [c]
  {
    var m := |pages| - 1;
    assert pages[m := pages[m] + [c]][..m] == pages[..m];
  }

  /** Splitting undoes joining, and leaves no form feed in a page. */
  lemma {:induction false} SplitJoins(s: string)
    ensures Join(Split(s)) == s
    ensures forall n :: 0 <= n < |Split(s)| ==> FEED !in Split(s)[n]
  {
    if s != "" {
      var rest, last := s[..|s| - 1], s[|s| - 1];
      SplitJoins(rest);
      JoinAppend(Split(rest), "");
      JoinExtendLast(Split(rest), last);
      hide Join;
      assert s == rest + [last];
    }
  }

  ghost predicate PageAt(text: string, pages: seq<string>, n: nat) {
    n < |pages| && Offset(pages, n) + |pages[n]| <= |text| && text[Offset(pages, n)..Offset(pages, n) + |pages[n]|] == pages[n]
  }

  lemma {:induction false} OffsetPrefix(pages: seq<string>, page: string, n: nat)
    requires n <= |pages|
    ensures Offset(pages + [page], n) == Offset(pages, n)
  {
    if n > 0 {
      OffsetPrefix(pages, page, n - 1);
    }
  }

  /** The page after `m` pages begins past all of them and a form feed. */
  lemma {:induction false} OffsetLast(pages: seq<string>)
    requires pages != []
    ensures Offset(pages, |pages|) == |Join(pages)| + 1
  {
    if |pages| > 1 {
      var front, last := pages[..|pages| - 1], pages[|pages| - 1];
      OffsetLast(front);
      assert pages == front + [last];
      OffsetPrefix(front, last, |front|);
    }
  }

  /** Each page stands in the text at its offset. */
  lemma {:induction false} PagesStand(pages: seq<string>, n: nat)
    requires n < |pages|
    ensures PageAt(Join(pages), pages, n)
  {
    if |pages| > 1 {
      var front, last := pages[..|pages| - 1], pages[|pages| - 1];
      assert pages == front + [last];
      JoinAppend(front, last);
      OffsetPrefix(front, last, n);
      if n < |front| {
        PagesStand(front, n);
        hide Join, Offset;
        var from, to := Offset(pages, n), Offset(pages, n) + |pages[n]|;
        assert Join(pages)[from..to] == Join(front)[from..to];
      } else {
        OffsetLast(front);
        hide Join, Offset;
        assert Join(pages)[|Join(front)| + 1..] == last;
      }
    }
  }

  ghost predicate Indented(page: string, blank: char -> bool) {
    page != "" && blank(page[0])
  }

  ghost predicate IsSlice(text: string, c: Chunk) {
    c.start <= c.end <= |text| && c.text == text[c.start..c.end]
  }

  /** A chunk is the text at its recorded offsets exactly when its page does not begin with a blank. */
  lemma SliceIffUnindented(text: string, pages: seq<string>, n: nat, blank: char -> bool, c: Chunk)
    requires PageAt(text, pages, n) && IsPageChunk(pages, blank, n, c)
    ensures IsSlice(text, c) <==> !Indented(pages[n], blank)
  {
    var page, clean, start := pages[n], Strip(pages[n], blank), Offset(pages, n);
    StripIs(page, blank);
    hide Strip, Offset, StripLeft;
    assert text[start..start + |clean|] == page[..|clean|] by {
      assert text[start..start + |page|][..|clean|] == text[start..start + |clean|];
    }
    if blank(page[0]) {
      assert page[..|clean|][0] == page[0];
    }
  }

  /** The chunk of every page that has one. */
  lemma {:induction false} PagesExact(pages: seq<string>, blank: char -> bool, n: nat)
    requires n <= |pages|
    ensures forall c :: c in Pages(pages, blank, n) <==> exists m: nat :: m < n && IsPageChunk(pages, blank, m, c)
  {
    if n > 0 {
      PagesExact(pages, blank, n - 1);
      hide Strip, Offset;
      forall c ensures c in Pages(pages, blank, n) <==> exists m: nat :: m < n && IsPageChunk(pages, blank, m, c) {
        if c in Pages(pages, blank, n - 1) {
          var m: nat :| m < n - 1 && IsPageChunk(pages, blank, m, c);
        }
        assert IsPageChunk(pages, blank, n - 1, c) ==> c in Pages(pages, blank, n);
      }
    }
  }

  ghost predicate IsPageChunk(pages: seq<string>, blank: char -> bool, m: nat, c: Chunk) {
    && m < |pages| && Strip(pages[m], blank) != ""
    && c == Chunk(Strip(pages[m], blank), Offset(pages, m), Offset(pages, m) + |Strip(pages[m], blank)|, m + 1)
  }

  /** Over a whole text: a chunk for each page with something on it, an exact slice if and only if the page is not indented. */
  lemma ChunksOfPages(text: string, blank: char -> bool, c: Chunk) returns (m: nat)
    requires c in Chunks(text, blank)
    ensures IsPageChunk(Split(text), blank, m, c)
    ensures IsSlice(text, c) <==> !Indented(Split(text)[m], blank)
  {
    var pages := Split(text);
    PagesExact(pages, blank, |pages|);
    m :| m < |pages| && IsPageChunk(pages, blank, m, c);
    SplitJoins(text);
    PagesStand(pages, m);
    hide IsPageChunk, PageAt, IsSlice, Indented, Join, Pages;
    SliceIffUnindented(text, pages, m, blank, c);
  }

  lemma {:induction false} OnePage(s: string)
    requires FEED !in s
    ensures Split(s) == [s]
  {
    if s != "" {
      OnePage(s[..|s| - 1]);
      assert s == s[..|s| - 1] + [s[|s| - 1]];
    }
  }

  /** An indented page: its chunk is recorded where the page begins, one character too early. */
  lemma IndentedPageMisplaced()
    ensures var blank, text := (c: char) => c == ' ', " total";
      Chunks(text, blank) == [Chunk("total", 0, 5, 1)] && !IsSlice(text, Chunks(text, blank)[0])
  {
    var blank, text := (c: char) => c == ' ', " total";
    OnePage(text);
    StripOf(" ", "total", "", blank);
    assert text == " " + "total" + "";
    assert Pages([text], blank, 1) == [Chunk("total", 0, 5, 1)];
    assert text[0..5][0] != "total"[0];
  }

  method ChunkPages(text: string, blank: char -> bool) returns (chunks: seq<Chunk>)
    ensures chunks == Chunks(text, blank)
  {
    var pages := Split(text);
    chunks := [];
    var pos: nat := 0;
    for i := 0 to |pages|
      invariant pos == Offset(pages, i) && chunks == Pages(pages, blank, i)
    {
      var clean := Strip(pages[i], blank);
      if clean == "" {
        pos := pos + |pages[i]| + 1;
        continue;
      }
      chunks := chunks + [Chunk(clean, pos, pos + |clean|, i + 1)];
      pos := pos + |pages[i]| + 1;
    }
  }

  // ---------- the order of chunks ----------

  ghost predicate HasPage(cs: seq<Chunk>, page: nat) {
    exists i :: 0 <= i < |cs| && cs[i].page == page
  }

  /** The chunks of the first `n` pages: in order, each with the text of its page, none missing. */
  ghost predicate InOrder(cs: seq<Chunk>, pages: seq<string>, blank: char -> bool, n: nat)
    requires n <= |pages|
  {
    && (forall i :: 0 <= i < |cs| ==> OfPage(cs[i], pages, blank, n))
    && (forall i, j :: 0 <= i < j < |cs| ==> cs[i].page < cs[j].page)
    && (forall p: nat :: p < n && Strip(pages[p], blank) != "" ==> HasPage(cs, p + 1))
  }

  predicate OfPage(c: Chunk, pages: seq<string>, blank: char -> bool, n: nat) {
    1 <= c.page <= n <= |pages| && c.text == Strip(pages[c.page - 1], blank)
  }

  /** Chunks come in the order of their pages, one for each page with something on it, numbered from one. */
  lemma {:induction false} PagesInOrder(pages: seq<string>, blank: char -> bool, n: nat)
    requires n <= |pages|
    ensures InOrder(Pages(pages, blank, n), pages, blank, n)
  {
    hide Strip, InOrder;
    if n == 0 {
      NothingInOrder(pages, blank);
    } else {
      PagesInOrder(pages, blank, n - 1);
      var clean, at := Strip(pages[n - 1], blank), Offset(pages, n - 1);
      if clean == "" {
        BlankInOrder(Pages(pages, blank, n - 1), pages, blank, n);
      } else {
        OneMoreInOrder(Pages(pages, blank, n - 1), pages, blank, n, Chunk(clean, at, at + |clean|, n));
      }
    }
  }

  lemma NothingInOrder(pages: seq<string>, blank: char -> bool)
    ensures InOrder([], pages, blank, 0)
  {
  }

  lemma BlankInOrder(cs: seq<Chunk>, pages: seq<string>, blank: char -> bool, n: nat)
    requires 0 < n <= |pages| && InOrder(cs, pages, blank, n - 1) && Strip(pages[n - 1], blank) == ""
    ensures InOrder(cs, pages, blank, n)
  {
    hide Strip, HasPage;
  }

  lemma OneMoreInOrder(cs: seq<Chunk>, pages: seq<string>, blank: char -> bool, n: nat, c: Chunk)
    requires 0 < n <= |pages| && InOrder(cs, pages, blank, n - 1) && c.page == n && c.text == Strip(pages[n - 1], blank)
    ensures InOrder(cs + [c], pages, blank, n)
  {
    HasPageStill(cs, c);
    hide Strip, HasPage;
    var more := cs + [c];
    assert forall i :: 0 <= i < |cs| ==> more[i] == cs[i];
    forall p: nat | p < n && Strip(pages[p], blank) != "" ensures HasPage(more, p + 1) {
      assert p < n - 1 ==> HasPage(cs, p + 1);
    }
  }

  lemma HasPageStill(cs: seq<Chunk>, c: Chunk)
    ensures forall p: nat :: HasPage(cs, p) || p == c.page ==> HasPage(cs + [c], p)
  {
    var more := cs + [c];
    assert more[|cs|] == c && forall i :: 0 <= i < |cs| ==> more[i] == cs[i];
  }
}
