/**
  The booklet paginator of the setlist typesetter: the rendered songs' pages
  are appended one song after another to a growing booklet, and a one-page
  blank goes in before a song whenever the song has an even number of pages
  and the booklet so far has an even number of pages. The running count
  starts at 0, so a first song of even length is preceded by a blank too.
 */
module Paginator {

  /** A page of the booklet: the blank page, or page `page` (from 0) of song `song` (from 0). */
  datatype Page = Blank | SongPage(song: nat, page: nat)

  /** The pages of one rendered song, in order. */
  function SongPages(song: nat, count: nat): (pages: seq<Page>)
    ensures |pages| == count
    ensures forall k :: 0 <= k < count ==> pages[k] == SongPage(song, k)
  {
    seq(count, k requires 0 <= k < count => SongPage(song, k))
  }

  /** The blank-page rule, read before each song is appended. */
  predicate NeedsBlank(songPageCount: nat, bookletPageCount: nat)
  {
    songPageCount % 2 == 0 && bookletPageCount % 2 == 0
  }

  /** The blank inserted before a song, if any. */
  function BlankBefore(songPageCount: nat, bookletPageCount: nat): (pages: seq<Page>)
    ensures pages == [Blank] <==> NeedsBlank(songPageCount, bookletPageCount)
    ensures pages == [] <==> !NeedsBlank(songPageCount, bookletPageCount)
  {
    if NeedsBlank(songPageCount, bookletPageCount) then [Blank] else []
  }

  /** The booklet the loop builds from the songs' page counts, song by song. */
  function Booklet(counts: seq<nat>): seq<Page>
    decreases |counts|
  {
    if counts == [] then []
    else
      var s := |counts| - 1;
      var prev := Booklet(counts[..s]);
      prev + BlankBefore(counts[s], |prev|) + SongPages(s, counts[s])
  }

  /**
    The merge loop: for each song, read its page count and the booklet's, add
    the blank page when both are even, then append the song's pages.
   */
  method Paginate(counts: seq<nat>) returns (booklet: seq<Page>)
    ensures booklet == Booklet(counts)
  {
    booklet := [];
    for s := 0 to |counts|
      invariant booklet == Booklet(counts[..s])
    {
      var addingPageCount := counts[s];
      var resultPageCount := |booklet|;
      if addingPageCount % 2 == 0 {
        if resultPageCount % 2 == 0 {
          booklet := booklet + [Blank];
        }
      }
      booklet := booklet + SongPages(s, addingPageCount);
      assert counts[..s + 1][..s] == counts[..s];
    }
    assert counts[..|counts|] == counts;
  }

  // ---------------------------------------------------------------------------
  // Size
  // ---------------------------------------------------------------------------

  function Sum(counts: seq<nat>): nat
  {
    if counts == [] then 0 else Sum(counts[..|counts| - 1]) + counts[|counts| - 1]
  }

  function BlankCount(pages: seq<Page>): nat
  {
    if pages == [] then 0
    else BlankCount(pages[..|pages| - 1]) + (if pages[|pages| - 1] == Blank then 1 else 0)
  }

  lemma {:induction false} BlankCountAppend(a: seq<Page>, b: seq<Page>)
    ensures BlankCount(a + b) == BlankCount(a) + BlankCount(b)
  {
    if b != [] {
      assert (a + b)[..|a + b| - 1] == a + b[..|b| - 1];
      BlankCountAppend(a, b[..|b| - 1]);
    } else {
      assert a + b == a;
    }
  }

  lemma {:induction false} SongPagesHaveNoBlank(song: nat, count: nat)
    ensures BlankCount(SongPages(song, count)) == 0
  {
    if count > 0 {
      assert SongPages(song, count)[..count - 1] == SongPages(song, count - 1);
      SongPagesHaveNoBlank(song, count - 1);
    }
  }

  /**
    The booklet holds every song page and one page per blank, and there are
    at most as many blanks as songs.
   */
  lemma {:induction false} BookletSize(counts: seq<nat>)
    ensures |Booklet(counts)| == Sum(counts) + BlankCount(Booklet(counts))
    ensures BlankCount(Booklet(counts)) <= |counts|
  {
    if counts != [] {
      var s := |counts| - 1;
      var prev := Booklet(counts[..s]);
      BookletSize(counts[..s]);
      var blank := BlankBefore(counts[s], |prev|);
      BlankCountAppend(prev, blank);
      BlankCountAppend(prev + blank, SongPages(s, counts[s]));
      SongPagesHaveNoBlank(s, counts[s]);
      assert BlankCount(blank) <= 1 by {
        if blank != [] {
          assert blank[..0] == [];
        }
      }
    }
  }

  /** No songs, no pages. */
  lemma EmptyBooklet()
    ensures Booklet([]) == []
  {
  }

  // ---------------------------------------------------------------------------
  // Layout
  // ---------------------------------------------------------------------------

  /** The booklet's page count before song `s` is considered. */
  function Start(counts: seq<nat>, s: nat): nat
    requires s <= |counts|
  {
    |Booklet(counts[..s])|
  }

  /** The 0-based index of song `s`'s first page in the booklet. */
  function First(counts: seq<nat>, s: nat): nat
    requires s < |counts|
  {
    Start(counts, s) + |BlankBefore(counts[s], Start(counts, s))|
  }

  /** The booklet of a prefix of the songs is a prefix of the booklet. */
  lemma {:induction false} PrefixBooklet(counts: seq<nat>, s: nat)
    requires s <= |counts|
    ensures |Booklet(counts[..s])| <= |Booklet(counts)|
    ensures Booklet(counts)[..|Booklet(counts[..s])|] == Booklet(counts[..s])
  {
    if s < |counts| {
      var n := |counts| - 1;
      assert counts[..n][..s] == counts[..s];
      PrefixBooklet(counts[..n], s);
    } else {
      assert counts[..s] == counts;
    }
  }

  /**
    The stretch of the booklet between song `s`'s start and song `s + 1`'s is
    the blank (exactly when the rule asks for it) followed by the pages of
    song `s`, in order and contiguous.
   */
  lemma SongSlice(counts: seq<nat>, s: nat)
    requires s < |counts|
    ensures Start(counts, s) <= Start(counts, s + 1) <= |Booklet(counts)|
    ensures Booklet(counts)[Start(counts, s)..Start(counts, s + 1)] ==
      BlankBefore(counts[s], Start(counts, s)) + SongPages(s, counts[s])
  {
    var prefix := counts[..s + 1];
    assert prefix[..s] == counts[..s];
    var pre := Booklet(counts[..s]);
    var step := BlankBefore(counts[s], |pre|) + SongPages(s, counts[s]);
    var next := Booklet(prefix);
    assert next == pre + step;
    PrefixBooklet(counts, s + 1);
    SliceOfPrefix(Booklet(counts), pre, step);
  }

  /** A booklet that starts with `pre + step` holds `step` right after `pre`. */
  lemma SliceOfPrefix(b: seq<Page>, pre: seq<Page>, step: seq<Page>)
    requires |pre + step| <= |b| && b[..|pre + step|] == pre + step
    ensures b[|pre|..|pre| + |step|] == step
  {
    assert b[|pre|..|pre| + |step|] == (pre + step)[|pre|..];
  }

  /** Where song `s`'s pages sit in the final booklet. */
  lemma SongPagesAt(counts: seq<nat>, s: nat, k: nat)
    requires s < |counts| && k < counts[s]
    ensures First(counts, s) + k < |Booklet(counts)|
    ensures Booklet(counts)[First(counts, s) + k] == SongPage(s, k)
  {
    SongSlice(counts, s);
    var booklet := Booklet(counts);
    var start := Start(counts, s);
    var blank := BlankBefore(counts[s], start);
    var pages := SongPages(s, counts[s]);
    assert First(counts, s) == start + |blank|;
    assert booklet[start..Start(counts, s + 1)] == blank + pages;
    PageInSlice(booklet, start, blank, pages, k);
  }

  /** A page of the second part of a slice is the page of the whole at the shifted index. */
  lemma PageInSlice(b: seq<Page>, lo: nat, blank: seq<Page>, pages: seq<Page>, k: nat)
    requires lo + |blank| + |pages| <= |b| && b[lo..lo + |blank| + |pages|] == blank + pages
    requires k < |pages|
    ensures b[lo + |blank| + k] == pages[k]
  {
    assert b[lo..lo + |blank| + |pages|][|blank| + k] == b[lo + |blank| + k];
  }

  /**
    The duplex property: every song with an even page count starts at an odd
    0-based index, that is on an even-numbered (left-hand) page.
   */
  lemma EvenSongsStartOnEvenPages(counts: seq<nat>, s: nat)
    requires s < |counts| && counts[s] > 0 && counts[s] % 2 == 0
    ensures First(counts, s) % 2 == 1
    ensures First(counts, s) < |Booklet(counts)|
    ensures Booklet(counts)[First(counts, s)] == SongPage(s, 0)
  {
    FirstIsOdd(counts, s);
    SongPagesAt(counts, s, 0);
  }

  lemma FirstIsOdd(counts: seq<nat>, s: nat)
    requires s < |counts| && counts[s] % 2 == 0
    ensures First(counts, s) % 2 == 1
  {
    BlankMakesOdd(counts[s], Start(counts, s));
  }

  /** Before an even-length song the blank rule always leaves the song an odd start index. */
  lemma BlankMakesOdd(songPageCount: nat, bookletPageCount: nat)
    requires songPageCount % 2 == 0
    ensures (bookletPageCount + |BlankBefore(songPageCount, bookletPageCount)|) % 2 == 1
  {
  }

  /** Two two-page songs: a blank, then both songs; the first song is not exempt. */
  lemma TwoTwoPageSongs()
    ensures Booklet([2, 2]) ==
      [Blank, SongPage(0, 0), SongPage(0, 1), SongPage(1, 0), SongPage(1, 1)]
  {
  }

  /** Songs of 4, 3 and 2 pages: blanks before the first and the third, 11 pages in all. */
  lemma FourThreeTwo()
    ensures |Booklet([4, 3, 2])| == 11
    ensures Booklet([4, 3, 2])[0] == Blank && Booklet([4, 3, 2])[8] == Blank
  {
    assert [4, 3, 2][..2] == [4, 3];
    assert [4, 3][..1] == [4];
    assert [4][..0] == [];
  }
}
