/** `NKUST.get_target_news_url`: read the page count from page 1 of a listing, then walk
    pages 1..count and collect the title link of every news card, page by page. */
module Paginator {

  import opened Results
  import opened Text
  import opened Web

  /** The two paginated listings of `site_config`. */
  datatype Listing = HotNews | Honors

  /** The listing's URL template; the word "page" stands for the page number. */
  function Template(listing: Listing): string
  {
    Host + ListingCode(listing) + "page" + ".php?Lang=" + Lang
  }

  /** The part of the listing's path before the page number. */
  function ListingCode(listing: Listing): string
  {
    match listing
    case HotNews => "403-1000-1363-"
    case Honors => "403-1000-13-"
  }

  /** `template.replace('page', str(n))` */
  function PageUrl(template: string, n: nat): string
  {
    Replace(template, "page", DecimalString(n))
  }

  /** The conditional expression that fixes the last page: the span's text is read first
      (a missing span aborts), then either `max_page` or the first run of digits in it. */
  function PageCount(cc: Classes, first: Page, maxPage: int): Result<int, Error>
  {
    match first.pageIndicator
    case None => Err(NoPageIndicator)
    case Some(text) =>
      if maxPage != -1 then Ok(maxPage)
      else
        match FirstDigitRun(cc, text)
        case None => Err(NoPageNumber)
        case Some(ds) => Ok(DecimalValue(cc, ds))
  }

  /** `range(1, last + 1)` */
  function Pages(last: int): (r: seq<nat>)
    ensures |r| == if last <= 0 then 0 else last
    ensures forall i :: 0 <= i < |r| ==> r[i] == i + 1
  {
    if last <= 0 then [] else Pages(last - 1) + [last]
  }

  /** Reading one card: the href of its title link, or the exception of a missing link. */
  function CardStep(url: string): Option<string> -> Result<string, Error>
  {
    (card: Option<string>) => match card case Some(href) => Ok(href) case None => Err(NoCardLink(url))
  }

  /** The hrefs of one listing page, in card order. */
  function PageLinks(site: Site, url: string): Result<seq<string>, Error>
  {
    match Fetch(site, url)
    case Err(e) => Err(e)
    case Ok(page) => Traverse(CardStep(url), page.cards)
  }

  function PageStep(site: Site, template: string): nat -> Result<seq<string>, Error>
  {
    (n: nat) => PageLinks(site, PageUrl(template, n))
  }

  /** The walk over pages 1..last: every page's hrefs, flattened in page order. */
  function CollectUrls(site: Site, template: string, last: int): Result<seq<string>, Error>
  {
    match Traverse(PageStep(site, template), Pages(last))
    case Err(e) => Err(e)
    case Ok(perPage) => Ok(Flatten(perPage))
  }

  /** What `get_target_news_url(news_type, max_page)` returns or raises. */
  function TargetNewsUrls(cc: Classes, site: Site, listing: Listing, maxPage: int): Result<seq<string>, Error>
  {
    var template := Template(listing);
    match Fetch(site, Replace(template, "page", "1"))
    case Err(e) => Err(e)
    case Ok(first) =>
      match PageCount(cc, first, maxPage)
      case Err(e) => Err(e)
      case Ok(last) => CollectUrls(site, template, last)
  }

  /** The crawler's loops: pages in order, cards in order, every href appended. */
  method GetTargetNewsUrl(cc: Classes, site: Site, listing: Listing, maxPage: int)
    returns (r: Result<seq<string>, Error>)
    ensures r == TargetNewsUrls(cc, site, listing, maxPage)
  {
    var template := Template(listing);
    var firstUrl := Replace(template, "page", "1");
    if firstUrl !in site {
      return Err(FetchFailed(firstUrl));
    }
    var count := PageCount(cc, site[firstUrl], maxPage);
    if count.Err? {
      return Err(count.error);
    }
    r := WalkPages(site, template, count.value);
  }

  /** The loop over `range(1, last + 1)`: fetch each page and append its card links. */
  method WalkPages(site: Site, template: string, last: int) returns (r: Result<seq<string>, Error>)
    ensures r == CollectUrls(site, template, last)
  {
    var total: seq<string> := [];
    ghost var perPage: seq<seq<string>> := [];
    var n: nat := 1;
    while n <= last
      invariant 1 <= n <= if last < 1 then 1 else last + 1
      invariant Traverse(PageStep(site, template), Pages(n - 1)) == Ok(perPage)
      invariant total == Flatten(perPage)
    {
      var pageUrl := PageUrl(template, n);
      TraverseSnoc(PageStep(site, template), Pages(n - 1), n);
      if pageUrl !in site {
        WalkAborts(site, template, last, n);
        return Err(FetchFailed(pageUrl));
      }
      var appended := AppendCardLinks(total, site[pageUrl].cards, pageUrl);
      if appended.Err? {
        WalkAborts(site, template, last, n);
        return Err(appended.error);
      }
      ghost var links := Traverse(CardStep(pageUrl), site[pageUrl].cards).value;
      assert PageStep(site, template)(n) == Ok(links);
      assert Pages(n) == Pages(n - 1) + [n];
      assert Traverse(PageStep(site, template), Pages(n)) == Ok(perPage + [links]);
      assert (perPage + [links])[..|perPage|] == perPage;
      assert Flatten(perPage + [links]) == Flatten(perPage) + links;
      total := appended.value;
      perPage := perPage + [links];
      n := n + 1;
    }
    assert n - 1 == if last < 1 then 0 else last;
    assert Pages(n - 1) == Pages(last);
    return Ok(total);
  }

  /** The inner loop: append the href of every card in order; a card without a link raises. */
  method AppendCardLinks(total: seq<string>, cards: seq<Option<string>>, pageUrl: string)
    returns (r: Result<seq<string>, Error>)
    ensures r == match Traverse(CardStep(pageUrl), cards)
      case Err(e) => Err(e)
      case Ok(links) => Ok(total + links)
  {
    var acc := total;
    ghost var links: seq<string> := [];
    var i := 0;
    while i < |cards|
      invariant 0 <= i <= |cards|
      invariant Traverse(CardStep(pageUrl), cards[..i]) == Ok(links)
      invariant acc == total + links
    {
      TraverseSnoc(CardStep(pageUrl), cards[..i], cards[i]);
      assert cards[..i] + [cards[i]] == cards[..i + 1];
      if cards[i].None? {
        TraversePrefixError(CardStep(pageUrl), cards, i + 1);
        return Err(NoCardLink(pageUrl));
      }
      acc := acc + [cards[i].value];
      links := links + [cards[i].value];
      i := i + 1;
    }
    assert cards[..i] == cards;
    return Ok(acc);
  }

  /** A failing page `n` ends the walk with that page's error. */
  lemma WalkAborts(site: Site, template: string, last: int, n: nat)
    requires 1 <= n <= last
    requires Traverse(PageStep(site, template), Pages(n)).Err?
    ensures CollectUrls(site, template, last) == Err(Traverse(PageStep(site, template), Pages(n)).error)
  {
    PagesPrefix(last, n);
    TraversePrefixError(PageStep(site, template), Pages(last), n);
  }

  lemma PagesPrefix(last: int, n: nat)
    requires n <= last
    ensures Pages(last)[..n] == Pages(n)
  {
  }

  // ----- properties -----

  /** Page 1 is fetched whatever `max_page` is: if it does not answer, nothing is returned. */
  lemma FirstPageAlwaysFetched(cc: Classes, site: Site, listing: Listing, maxPage: int)
    requires Replace(Template(listing), "page", "1") !in site
    ensures TargetNewsUrls(cc, site, listing, maxPage) == Err(FetchFailed(Replace(Template(listing), "page", "1")))
  {
  }

  /** The page indicator is read whatever `max_page` is: without it the run aborts. */
  lemma IndicatorAlwaysRead(cc: Classes, site: Site, listing: Listing, maxPage: int)
    requires Replace(Template(listing), "page", "1") in site
    requires site[Replace(Template(listing), "page", "1")].pageIndicator.None?
    ensures TargetNewsUrls(cc, site, listing, maxPage) == Err(NoPageIndicator)
  {
  }

  /** The page count is `max_page` when one is given, and otherwise the value of the first
      run of digits of the indicator, which must hold one. */
  lemma PageCountCases(cc: Classes, first: Page, maxPage: int)
    requires first.pageIndicator.Some?
    ensures maxPage != -1 ==> PageCount(cc, first, maxPage) == Ok(maxPage)
    ensures maxPage == -1 ==>
      (PageCount(cc, first, maxPage) == Err(NoPageNumber) <==>
        forall i :: 0 <= i < |first.pageIndicator.value| ==> !cc.digit(first.pageIndicator.value[i]))
    ensures maxPage == -1 && PageCount(cc, first, maxPage).Ok? ==>
      exists ds :: FirstDigitRun(cc, first.pageIndicator.value) == Some(ds)
        && PageCount(cc, first, maxPage) == Ok(DecimalValue(cc, ds))
  {
  }

  /** The first number of the indicator is taken, whatever it means: "1/57" gives one page. */
  lemma FirstNumberOfIndicator(cc: Classes, first: Page)
    requires AsciiDigits(cc) && !cc.digit('/')
    requires first.pageIndicator == Some("1/57")
    ensures PageCount(cc, first, -1) == Ok(1)
  {
    assert DecimalString(1) == "1";
    assert "1/57" == "" + DecimalString(1) + "/57";
    AutoPageCount(cc, first, "", 1, "/57");
  }

  lemma {:induction false} AutoPageCount(cc: Classes, first: Page, a: string, n: nat, b: string)
    requires AsciiDigits(cc)
    requires first.pageIndicator == Some(a + DecimalString(n) + b)
    requires forall i :: 0 <= i < |a| ==> !cc.digit(a[i])
    requires b != [] ==> !cc.digit(b[0])
    ensures PageCount(cc, first, -1) == Ok(n)
  {
    FirstRunIs(cc, a, DecimalString(n), b);
    DecimalRoundTrip(cc, n);
  }

  lemma FirstRunIs(cc: Classes, a: string, ds: string, b: string)
    requires ds != [] && forall i :: 0 <= i < |ds| ==> cc.digit(ds[i])
    requires forall i :: 0 <= i < |a| ==> !cc.digit(a[i])
    requires b != [] ==> !cc.digit(b[0])
    ensures FirstDigitRun(cc, a + ds + b) == Some(ds)
  {
    var s := a + ds + b;
    assert FirstDigitIndex(cc, s) == |a| by {
      FirstDigitIndexAfter(cc, a, ds + b);
      assert s == a + (ds + b);
    }
    assert s[|a|..] == ds + b;
    RunLengthOfRun(cc.digit, ds, b);
    assert s[|a|..|a| + |ds|] == ds;
  }

  lemma {:induction false} FirstDigitIndexAfter(cc: Classes, a: string, t: string)
    requires forall i :: 0 <= i < |a| ==> !cc.digit(a[i])
    requires t != [] && cc.digit(t[0])
    ensures FirstDigitIndex(cc, a + t) == |a|
    decreases |a|
  {
    if a == [] {
      assert a + t == t;
    } else {
      assert (a + t)[1..] == a[1..] + t;
      FirstDigitIndexAfter(cc, a[1..], t);
    }
  }

  lemma {:induction false} RunLengthOfRun(p: char -> bool, ds: string, b: string)
    requires forall i :: 0 <= i < |ds| ==> p(ds[i])
    requires b != [] ==> !p(b[0])
    ensures RunLength(p, ds + b) == |ds|
    decreases |ds|
  {
    if ds == [] {
      assert ds + b == b;
    } else {
      assert (ds + b)[1..] == ds[1..] + b;
      RunLengthOfRun(p, ds[1..], b);
    }
  }

  /** Pages are visited as exactly 1..last; none when last <= 0. On success the result is
      every page's hrefs in page order, and its length is the sum of the card counts. */
  lemma CollectedUrls(site: Site, template: string, last: int)
    requires CollectUrls(site, template, last).Ok?
    ensures var perPage := Traverse(PageStep(site, template), Pages(last));
      perPage.Ok?
      && |perPage.value| == (if last <= 0 then 0 else last)
      && (forall i :: 0 <= i < |perPage.value| ==>
            PageLinks(site, PageUrl(template, i + 1)) == Ok(perPage.value[i]))
      && CollectUrls(site, template, last).value == Flatten(perPage.value)
      && |CollectUrls(site, template, last).value| == SumOfLengths(perPage.value)
  {
    var perPage := Traverse(PageStep(site, template), Pages(last));
    TraverseOk(PageStep(site, template), Pages(last));
    FlattenLength(perPage.value);
  }

  /** A failure on any page aborts the whole walk: no partial list is returned. */
  lemma CollectAbortsOnFirstFailure(site: Site, template: string, last: int)
    requires CollectUrls(site, template, last).Err?
    ensures exists n :: (1 <= n <= last
      && PageLinks(site, PageUrl(template, n)) == Err(CollectUrls(site, template, last).error)
      && forall m :: 1 <= m < n ==> PageLinks(site, PageUrl(template, m)).Ok?)
  {
    var f := PageStep(site, template);
    var ps := Pages(last);
    TraverseFirstError(f, ps);
    var k :| 0 <= k < |ps| && f(ps[k]) == Err(Traverse(f, ps).error)
      && forall i :: 0 <= i < k ==> f(ps[i]).Ok?;
    forall m | 1 <= m < k + 1 ensures PageLinks(site, PageUrl(template, m)).Ok? {
      assert f(ps[m - 1]).Ok?;
    }
    assert PageLinks(site, PageUrl(template, k + 1)) == Err(CollectUrls(site, template, last).error);
  }

  /** Two pages with three and two cards give five hrefs, page 1's first. */
  lemma TwoPagesFiveUrls(cc: Classes, site: Site, listing: Listing, a1: string, a2: string, a3: string, b1: string, b2: string)
    requires Replace(Template(listing), "page", "1") in site
    requires site[Replace(Template(listing), "page", "1")].pageIndicator.Some?
    requires PageUrl(Template(listing), 1) in site && PageUrl(Template(listing), 2) in site
    requires site[PageUrl(Template(listing), 1)].cards == [Some(a1), Some(a2), Some(a3)]
    requires site[PageUrl(Template(listing), 2)].cards == [Some(b1), Some(b2)]
    ensures TargetNewsUrls(cc, site, listing, 2) == Ok([a1, a2, a3, b1, b2])
  {
    var template := Template(listing);
    var url1, url2 := PageUrl(template, 1), PageUrl(template, 2);
    TraverseThree(CardStep(url1), Some(a1), Some(a2), Some(a3), a1, a2, a3);
    TraverseTwo(CardStep(url2), Some(b1), Some(b2), b1, b2);
    assert PageLinks(site, url1) == Ok([a1, a2, a3]);
    assert PageLinks(site, url2) == Ok([b1, b2]);
    assert Pages(2) == [1, 2];
    TraverseTwo(PageStep(site, template), 1, 2, [a1, a2, a3], [b1, b2]);
    assert CollectUrls(site, template, 2) == Ok(Flatten([[a1, a2, a3], [b1, b2]]));
    assert Flatten([[a1, a2, a3], [b1, b2]]) == [a1, a2, a3, b1, b2] by {
      assert [[a1, a2, a3], [b1, b2]][..1] == [[a1, a2, a3]];
      assert [[a1, a2, a3]][..0] == [];
      assert Flatten([[a1, a2, a3]]) == [a1, a2, a3];
    }
  }

  /** The page URL is the template with its one "page" replaced by the decimal number. */
  lemma PageUrlShape(listing: Listing, n: nat)
    ensures PageUrl(Template(listing), n) == Host + ListingCode(listing) + DecimalString(n) + ".php?Lang=" + Lang
  {
    var a := Host + ListingCode(listing);
    var b := ".php?Lang=" + Lang;
    var d := DecimalString(n);
    assert Template(listing) == a + "page" + b;
    NoPlaceholderBefore(listing);
    NoPlaceholderAfter();
    ReplaceOnce(a, b, d);
    assert a + d + b == Host + ListingCode(listing) + d + ".php?Lang=" + Lang;
  }

  /** No 'a' precedes the placeholder. */
  lemma NoPlaceholderBefore(listing: Listing)
    ensures 'a' !in Host + ListingCode(listing)
  {
    assert 'a' !in Host;
    assert 'a' !in ListingCode(listing);
  }

  /** No 'e' follows the placeholder. */
  lemma NoPlaceholderAfter()
    ensures 'e' !in ".php?Lang=" + Lang
  {
    assert 'e' !in Lang;
  }

  /** A template whose only "page" is the placeholder: an 'a' before it or an 'e' after it
      would be needed for another occurrence. */
  lemma ReplaceOnce(a: string, b: string, rep: string)
    requires 'a' !in a && 'e' !in b
    ensures Replace(a + "page" + b, "page", rep) == a + rep + b
  {
    var s := a + "page" + b;
    forall k | 0 <= k < |a| ensures !Occurs("page", s, k) {
      if k + 1 < |a| {
        assert s[k + 1] == a[k + 1] != 'a';
      } else {
        assert s[k + 1] == 'p';
      }
      assert s[k..k + 4][1] == s[k + 1];
    }
    ReplaceFirst(a, "page", rep, b);
    forall k ensures !Occurs("page", b, k) {
      if 0 <= k && k + 4 <= |b| {
        assert b[k..k + 4][3] == b[k + 3] != 'e';
      }
    }
    ReplaceAbsent(b, "page", rep);
  }
}
