/**
 Two pure rules of the scraper pitchfork.py: which review hrefs become the
 "Review Link" column, and how the genre names of a review are joined.
 The scraping itself (HTTP, HTML parsing, the regular expressions) is not
 part of this model; hrefs and genre lists are inputs.
 */
module Links {
  import opened Wrappers
  import opened Text

  const Site: string := "https://pitchfork.com"
  const AlbumsPath: string := "/reviews/albums/"
  const QueryPrefix: string := "/reviews/albums/?"
  const PopularPrefix: string := "/reviews/albums/popular"
  const IndexUrl: string := "https://pitchfork.com/reviews/albums/"

  /** `text_link`: the site followed by the href. */
  function TextLink(href: string): (r: string)
    ensures IsPrefix(Site, r) && r[|Site|..] == href
  {
    Site + href
  }

  /** Which branch of the if/elif chain an href takes, in the order the branches are tried. */
  datatype Branch = Query | Popular | Index | Review | Other

  /** The third test as written: the full link is the album index itself. */
  predicate IsIndexLink(href: string) {
    TextLink(href) == IndexUrl
  }

  /**
   The third test is stated on the href, which IndexUrlOnlyFromAlbumsPath
   shows to be the same condition as `IsIndexLink`.
   */
  function Classify(href: string): Branch {
    if Head(href, 17) == QueryPrefix then Query
    else if Head(href, 23) == PopularPrefix then Popular
    else if href == AlbumsPath then Index
    else if Head(href, 16) == AlbumsPath then Review
    else Other
  }

  /** `good_link` after one review: replaced on the accepting branch, kept otherwise. */
  function NextGoodLink(href: string, good: Option<string>): (r: Option<string>)
    ensures var accepted := IsPrefix(AlbumsPath, href) && !IsPrefix(QueryPrefix, href)
                            && !IsPrefix(PopularPrefix, href) && href != AlbumsPath;
      && (accepted ==> r == Some(Site + href))
      && (!accepted ==> r == good)
  {
    AcceptedIff(href);
    if Classify(href) == Review then Some(TextLink(href)) else good
  }

  /** The index page's URL is produced by exactly one href, so the third test can be read on the href. */
  lemma IndexUrlOnlyFromAlbumsPath(href: string)
    ensures IsIndexLink(href) <==> href == AlbumsPath
    ensures IsIndexLink(href) <==> Classify(href) == Index
  {
    assert IndexUrl == Site + AlbumsPath;
    if TextLink(href) == IndexUrl {
      assert href == TextLink(href)[|Site|..] == IndexUrl[|Site|..];
    }
  }

  /**
   An href is accepted exactly when it starts with the albums path, is not a
   query or the popular listing, and is not the albums path itself.
   */
  lemma AcceptedIff(href: string)
    ensures Classify(href) == Review <==>
      && IsPrefix(AlbumsPath, href)
      && !IsPrefix(QueryPrefix, href)
      && !IsPrefix(PopularPrefix, href)
      && href != AlbumsPath
  {
    HeadIsPrefixTest(href, QueryPrefix);
    HeadIsPrefixTest(href, PopularPrefix);
    HeadIsPrefixTest(href, AlbumsPath);
  }

  /** Query and popular-listing hrefs never replace the link. */
  lemma ListingsNeverAccepted(href: string, good: Option<string>)
    requires IsPrefix(QueryPrefix, href) || IsPrefix(PopularPrefix, href) || href == AlbumsPath
    ensures Classify(href) != Review && NextGoodLink(href, good) == good
  {
    AcceptedIff(href);
  }

  /** Prefixing the site keeps a prefix relation between hrefs. */
  lemma SitePrefix(p: string, href: string)
    requires IsPrefix(p, href)
    ensures IsPrefix(Site + p, TextLink(href))
  {
    assert (Site + href)[..|Site + p|] == Site + href[..|p|];
  }

  /** An href strictly below the albums path links strictly below the album index. */
  lemma BelowIndex(href: string)
    requires IsPrefix(AlbumsPath, href) && href != AlbumsPath
    ensures IsPrefix(IndexUrl, TextLink(href)) && |TextLink(href)| > |IndexUrl|
  {
    assert IndexUrl == Site + AlbumsPath;
    SitePrefix(AlbumsPath, href);
  }

  /** An accepted link is a page below the album index, strictly longer than the index URL. */
  lemma AcceptedLinkShape(href: string)
    requires Classify(href) == Review
    ensures IsPrefix(IndexUrl, TextLink(href)) && |TextLink(href)| > |IndexUrl|
  {
    HeadIsPrefixTest(href, AlbumsPath);
    BelowIndex(href);
  }

  // ---------------------------------------------------------------------------
  // The link column over the reviews of one results page

  /**
   What one page contributes: the link written for each review, the link
   carried to the next page, and whether the page was abandoned. A review
   reached while no link has ever been accepted fails with NameError; the
   page's `except` counts it and skips the rest of the page.
   */
  datatype PageResult = PageResult(links: seq<string>, good: Option<string>, failed: bool)

  function ProcessPage(hrefs: seq<string>, good: Option<string>): PageResult
    decreases |hrefs|
  {
    if hrefs == [] then PageResult([], good, false)
    else
      var g := NextGoodLink(hrefs[0], good);
      if g.None? then PageResult([], g, true)
      else
        var rest := ProcessPage(hrefs[1..], g);
        PageResult([g.value] + rest.links, rest.good, rest.failed)
  }

  /** The link current after a run of reviews: the last accepted one, else the one before them. */
  function LatestLink(hrefs: seq<string>, good: Option<string>): Option<string> {
    if hrefs == [] then good
    else if Classify(hrefs[|hrefs| - 1]) == Review then Some(TextLink(hrefs[|hrefs| - 1]))
    else LatestLink(hrefs[..|hrefs| - 1], good)
  }

  /** The current link is the incoming one or the link of some accepted href of the run. */
  lemma {:induction false} LatestLinkSource(hrefs: seq<string>, good: Option<string>)
    ensures var r := LatestLink(hrefs, good);
      r == good || exists k :: 0 <= k < |hrefs| && Classify(hrefs[k]) == Review && r == Some(TextLink(hrefs[k]))
    decreases |hrefs|
  {
    if hrefs != [] && Classify(hrefs[|hrefs| - 1]) != Review {
      var init := hrefs[..|hrefs| - 1];
      LatestLinkSource(init, good);
      if LatestLink(init, good) != good {
        var k :| 0 <= k < |init| && Classify(init[k]) == Review && LatestLink(init, good) == Some(TextLink(init[k]));
        assert hrefs[k] == init[k];
      }
    }
  }

  lemma {:induction false} LatestLinkSnoc(hrefs: seq<string>, h: string, good: Option<string>)
    ensures LatestLink(hrefs + [h], good) == NextGoodLink(h, LatestLink(hrefs, good))
  {
    assert (hrefs + [h])[..|hrefs|] == hrefs;
  }

  lemma {:induction false} LatestLinkCons(h: string, hrefs: seq<string>, good: Option<string>)
    ensures LatestLink([h] + hrefs, good) == LatestLink(hrefs, NextGoodLink(h, good))
    decreases |hrefs|
  {
    if hrefs == [] {
      assert [h] + hrefs == [] + [h];
      LatestLinkSnoc([], h, good);
    } else {
      var init := hrefs[..|hrefs| - 1];
      var last := hrefs[|hrefs| - 1];
      assert [h] + hrefs == ([h] + init) + [last];
      assert hrefs == init + [last];
      LatestLinkSnoc([h] + init, last, good);
      LatestLinkSnoc(init, last, NextGoodLink(h, good));
      LatestLinkCons(h, init, good);
    }
  }

  /**
   The page fails exactly when no link exists yet and its first href is not
   accepted, and then writes nothing; otherwise it writes one row per review
   and carries out the link current after the last one.
   */
  lemma {:induction false} PageShape(hrefs: seq<string>, good: Option<string>)
    ensures var p := ProcessPage(hrefs, good);
      && (p.failed <==> hrefs != [] && good.None? && Classify(hrefs[0]) != Review)
      && (p.failed ==> p.links == [])
      && (!p.failed ==> |p.links| == |hrefs| && p.good == LatestLink(hrefs, good))
    decreases |hrefs|
  {
    if hrefs != [] {
      var g := NextGoodLink(hrefs[0], good);
      if g.Some? {
        var tail := hrefs[1..];
        PageShape(tail, g);
        NeverFailsOnceLinked(tail, g);
        assert [hrefs[0]] + tail == hrefs;
        LatestLinkCons(hrefs[0], tail, good);
      }
    }
  }

  lemma LatestLinkShift(hrefs: seq<string>, good: Option<string>, k: nat)
    requires 0 < k < |hrefs|
    ensures LatestLink(hrefs[..k + 1], good) == LatestLink(hrefs[1..][..k], NextGoodLink(hrefs[0], good))
  {
    assert hrefs[..k + 1] == [hrefs[0]] + hrefs[1..][..k];
    LatestLinkCons(hrefs[0], hrefs[1..][..k], good);
  }

  /** A page that does not fail at its first review writes that review's link, then the rest of the page. */
  lemma PageUnfold(hrefs: seq<string>, good: Option<string>)
    requires hrefs != [] && NextGoodLink(hrefs[0], good).Some?
    ensures var g := NextGoodLink(hrefs[0], good);
      ProcessPage(hrefs, good).links == [g.value] + ProcessPage(hrefs[1..], g).links
  {
  }

  /**
   Each review row carries the link current after that review: a fresh one
   when its href was accepted, otherwise the stale link of an earlier review.
   */
  lemma {:induction false} PageLinkAt(hrefs: seq<string>, good: Option<string>, k: nat)
    requires k < |ProcessPage(hrefs, good).links|
    ensures k < |hrefs| && Some(ProcessPage(hrefs, good).links[k]) == LatestLink(hrefs[..k + 1], good)
    decreases k
  {
    var g := NextGoodLink(hrefs[0], good);
    PageUnfold(hrefs, good);
    if k == 0 {
      assert hrefs[..1] == [hrefs[0]] + [];
      LatestLinkCons(hrefs[0], [], good);
    } else {
      PageLinkAt(hrefs[1..], g, k - 1);
      LatestLinkShift(hrefs, good, k);
    }
  }

  /** Once some link has been accepted, no later review fails. */
  lemma {:induction false} NeverFailsOnceLinked(hrefs: seq<string>, good: Option<string>)
    requires good.Some?
    ensures !ProcessPage(hrefs, good).failed && ProcessPage(hrefs, good).good.Some?
    decreases |hrefs|
  {
    if hrefs != [] {
      NeverFailsOnceLinked(hrefs[1..], NextGoodLink(hrefs[0], good));
    }
  }

  /** A rejected href leaves the current link as it was. */
  lemma LatestLinkRejected(hrefs: seq<string>, k: nat, good: Option<string>)
    requires 0 < k < |hrefs| && Classify(hrefs[k]) != Review
    ensures LatestLink(hrefs[..k + 1], good) == LatestLink(hrefs[..k], good)
  {
    assert hrefs[..k + 1] == hrefs[..k] + [hrefs[k]];
    LatestLinkSnoc(hrefs[..k], hrefs[k], good);
  }

  /**
   On a page that does not fail at its first review, a rejected href repeats
   the previous review's link in its row.
   */
  lemma StaleLinkRepeated(hrefs: seq<string>, good: Option<string>, k: nat)
    requires 0 < k < |hrefs| && NextGoodLink(hrefs[0], good).Some?
    requires Classify(hrefs[k]) != Review
    ensures k < |ProcessPage(hrefs, good).links|
    ensures ProcessPage(hrefs, good).links[k] == ProcessPage(hrefs, good).links[k - 1]
  {
    PageShape(hrefs, good);
    PageLinkAt(hrefs, good, k);
    PageLinkAt(hrefs, good, k - 1);
    LatestLinkRejected(hrefs, k, good);
  }

  // ---------------------------------------------------------------------------
  // The run over all results pages

  /** All rows written, the pages abandoned, and the link carried out of the last page. */
  datatype RunResult = RunResult(links: seq<string>, errors: nat, good: Option<string>)

  /** The page loop: `good_link` lives across pages, and each abandoned page counts one error. */
  function ProcessPages(pages: seq<seq<string>>, good: Option<string>): RunResult
    decreases |pages|
  {
    if pages == [] then RunResult([], 0, good)
    else
      var p := ProcessPage(pages[0], good);
      var rest := ProcessPages(pages[1..], p.good);
      RunResult(p.links + rest.links, rest.errors + (if p.failed then 1 else 0), rest.good)
  }

  predicate OpensWithReview(page: seq<string>) {
    page != [] && Classify(page[0]) == Review
  }

  /** The index of the first page whose first review is accepted, or the number of pages. */
  function FirstLinkedPage(pages: seq<seq<string>>): (m: nat)
    ensures m <= |pages|
    ensures forall i :: 0 <= i < m ==> !OpensWithReview(pages[i])
    ensures m < |pages| ==> OpensWithReview(pages[m])
  {
    if pages == [] || OpensWithReview(pages[0]) then 0 else 1 + FirstLinkedPage(pages[1..])
  }

  function NonEmptyPages(pages: seq<seq<string>>): (n: nat)
    ensures n <= |pages|
  {
    if pages == [] then 0 else (if pages[0] == [] then 0 else 1) + NonEmptyPages(pages[1..])
  }

  /** Once a link has been accepted, no later page is abandoned. */
  lemma {:induction false} PagesNoErrorsOnceLinked(pages: seq<seq<string>>, good: Option<string>)
    requires good.Some?
    ensures ProcessPages(pages, good).errors == 0 && ProcessPages(pages, good).good.Some?
    decreases |pages|
  {
    if pages != [] {
      NeverFailsOnceLinked(pages[0], good);
      PagesNoErrorsOnceLinked(pages[1..], ProcessPage(pages[0], good).good);
    }
  }

  /** A page opening with an accepted review is never abandoned and leaves a link behind. */
  lemma OpeningReviewLinks(page: seq<string>, good: Option<string>)
    requires OpensWithReview(page)
    ensures !ProcessPage(page, good).failed && ProcessPage(page, good).good.Some?
  {
    NeverFailsOnceLinked(page[1..], NextGoodLink(page[0], good));
  }

  /**
   Starting with no link, the error count is exactly the number of non-empty
   pages before the first page whose first review is accepted: each of them
   fails at its first review, and none fails afterwards.
   */
  lemma {:induction false} ErrorsBeforeFirstLink(pages: seq<seq<string>>)
    ensures ProcessPages(pages, None).errors == NonEmptyPages(pages[..FirstLinkedPage(pages)])
    decreases |pages|
  {
    if pages != [] {
      var m := FirstLinkedPage(pages);
      var p := ProcessPage(pages[0], None);
      if OpensWithReview(pages[0]) {
        OpeningReviewLinks(pages[0], None);
        PagesNoErrorsOnceLinked(pages[1..], p.good);
        assert pages[..m] == [];
      } else {
        PageShape(pages[0], None);
        assert p.good == None;
        var before := NonEmptyPages(pages[1..][..m - 1]);
        ErrorsBeforeFirstLink(pages[1..]);
        assert ProcessPages(pages, None).errors == before + (if p.failed then 1 else 0);
        var prefix := pages[..m];
        assert prefix[0] == pages[0] && prefix[1..] == pages[1..][..m - 1];
        assert NonEmptyPages(prefix) == (if pages[0] == [] then 0 else 1) + before;
      }
    }
  }

  // ---------------------------------------------------------------------------
  // Genres

  /** The characters the genre pattern `[a-zA-z\/]` accepts: 'A' to 'z' (which includes '[' to '`') and '/'. */
  predicate GenreChar(c: char) {
    'A' <= c <= 'z' || c == '/'
  }

  predicate GenreName(g: string) {
    forall i :: 0 <= i < |g| ==> GenreChar(g[i])
  }

  /** `'~'.join(genres)`. */
  function Join(genres: seq<string>): (r: string)
    ensures genres == [] ==> r == []
    ensures |genres| == 1 ==> r == genres[0]
  {
    if genres == [] then []
    else if |genres| == 1 then genres[0]
    else genres[0] + "~" + Join(genres[1..])
  }

  /** `s.split('~')`: never empty, one more piece than there are separators. */
  function Split(s: string): (r: seq<string>)
    ensures |r| >= 1
    ensures forall i :: 0 <= i < |r| ==> '~' !in r[i]
    decreases |s|
  {
    var k := IndexOf(s, '~');
    if k == |s| then [s] else [s[..k]] + Split(s[k + 1..])
  }

  /** No genre name holds the separator, since '~' lies above 'z'. */
  lemma GenreNameNoTilde(g: string)
    requires GenreName(g)
    ensures '~' !in g
  {
  }

  /** A piece without the separator splits off whole. */
  lemma SplitCons(piece: string, rest: string)
    requires '~' !in piece
    ensures Split(piece) == [piece]
    ensures Split(piece + "~" + rest) == [piece] + Split(rest)
  {
    IndexOfAfter(piece, '~', rest);
    var s := piece + "~" + rest;
    assert s[..|piece|] == piece;
    assert s[|piece| + 1..] == rest;
  }

  /** Splitting the joined string gives the genre list back, as long as it is not empty. */
  lemma {:induction false} SplitJoin(genres: seq<string>)
    requires genres != []
    requires forall i :: 0 <= i < |genres| ==> GenreName(genres[i])
    ensures Split(Join(genres)) == genres
    decreases |genres|
  {
    GenreNameNoTilde(genres[0]);
    if |genres| == 1 {
      SplitCons(genres[0], "");
    } else {
      var rest := genres[1..];
      assert forall i :: 0 <= i < |rest| ==> GenreName(rest[i]) by {
        forall i | 0 <= i < |rest| ensures GenreName(rest[i]) { assert rest[i] == genres[i + 1]; }
      }
      SplitJoin(rest);
      assert Join(genres) == genres[0] + "~" + Join(rest);
      SplitCons(genres[0], Join(rest));
      HeadTail(genres);
    }
  }

  /**
   The pattern's `*` admits empty names, so no genres and one empty genre
   join to the same "", which splits to one empty name.
   */
  lemma EmptyJoinNotInvertible()
    ensures Join([]) == Join([""]) == "" && Split("") == [""]
  {
  }

  /** The joined string has one separator fewer than there are genres. */
  lemma {:induction false} JoinSeparators(genres: seq<string>)
    requires genres != []
    requires forall i :: 0 <= i < |genres| ==> GenreName(genres[i])
    ensures Occurrences(Join(genres), '~') == |genres| - 1
    decreases |genres|
  {
    GenreNameNoTilde(genres[0]);
    assert multiset(genres[0])['~'] == 0;
    if |genres| > 1 {
      JoinSeparators(genres[1..]);
      var rest := Join(genres[1..]);
      assert multiset(genres[0] + "~" + rest) == multiset(genres[0]) + multiset("~") + multiset(rest);
    }
  }
}
