/** `NKUST.get_target_news_content` and the two listing drivers `get_hot_news` and
    `get_honors`: one record per collected URL, in URL order. No entity stripping happens
    on this path. */
module News {

  import opened Results
  import opened Text
  import opened Web
  import opened Paginator

  /** The paragraph texts, each stripped, concatenated with no separator. */
  function JoinStripped(cc: Classes, ps: seq<string>): string
  {
    if ps == [] then "" else JoinStripped(cc, ps[..|ps| - 1]) + Strip(cc, ps[|ps| - 1])
  }

  /** The date: `''` without a date span, otherwise the stripped text of its inner span. */
  function ArticleDate(cc: Classes, m: Mcont): Result<string, Error>
  {
    match m.dateSpan
    case None => Ok("")
    case Some(None) => Err(NoDateText)
    case Some(Some(text)) => Ok(Strip(cc, text))
  }

  /** What `get_target_news_content(url)` returns or raises. */
  function NewsArticle(cc: Classes, site: Site, url: string): Result<Record, Error>
  {
    match Fetch(site, url)
    case Err(e) => Err(e)
    case Ok(page) =>
      match page.headline
      case None => Err(NoHeadline)
      case Some(headline) =>
        match page.mcont
        case None => Err(NoContent)
        case Some(m) =>
          match ArticleDate(cc, m)
          case Err(e) => Err(e)
          case Ok(date) => Ok(Record(Strip(cc, headline), url, Some(date), JoinStripped(cc, m.paragraphs)))
  }

  /** The lookups in their order and the `content +=` loop over the paragraphs. */
  method GetTargetNewsContent(cc: Classes, site: Site, url: string) returns (r: Result<Record, Error>)
    ensures r == NewsArticle(cc, site, url)
  {
    if url !in site {
      return Err(FetchFailed(url));
    }
    var page := site[url];
    if page.headline.None? {
      return Err(NoHeadline);
    }
    var title := Strip(cc, page.headline.value);
    if page.mcont.None? {
      return Err(NoContent);
    }
    var m := page.mcont.value;
    var date := "";
    if m.dateSpan.Some? {
      if m.dateSpan.value.None? {
        return Err(NoDateText);
      }
      date := Strip(cc, m.dateSpan.value.value);
    }
    var content := "";
    var i := 0;
    while i < |m.paragraphs|
      invariant 0 <= i <= |m.paragraphs|
      invariant content == JoinStripped(cc, m.paragraphs[..i])
    {
      assert m.paragraphs[..i + 1][..i] == m.paragraphs[..i];
      content := content + Strip(cc, m.paragraphs[i]);
      i := i + 1;
    }
    assert m.paragraphs[..i] == m.paragraphs;
    return Ok(Record(title, url, Some(date), content));
  }

  function ArticleStep(cc: Classes, site: Site): string -> Result<Record, Error>
  {
    (url: string) => NewsArticle(cc, site, url)
  }

  /** What `get_hot_news(max_page)` / `get_honors(max_page)` would write: the records of every
      collected URL, in order, or the first exception. */
  function ListingRecords(cc: Classes, site: Site, listing: Listing, maxPage: int): Result<seq<Record>, Error>
  {
    match TargetNewsUrls(cc, site, listing, maxPage)
    case Err(e) => Err(e)
    case Ok(urls) => Traverse(ArticleStep(cc, site), urls)
  }

  /** The driver loop: fetch every article in URL order and append its record. */
  method CrawlListing(cc: Classes, site: Site, listing: Listing, maxPage: int) returns (r: Result<seq<Record>, Error>)
    ensures r == ListingRecords(cc, site, listing, maxPage)
  {
    var urls := GetTargetNewsUrl(cc, site, listing, maxPage);
    if urls.Err? {
      return Err(urls.error);
    }
    r := FetchArticles(cc, site, urls.value);
  }

  /** The loop over the collected URLs: fetch each article and append its record. */
  method FetchArticles(cc: Classes, site: Site, urls: seq<string>) returns (r: Result<seq<Record>, Error>)
    ensures r == Traverse(ArticleStep(cc, site), urls)
  {
    var storage: seq<Record> := [];
    var i := 0;
    while i < |urls|
      invariant 0 <= i <= |urls|
      invariant Traverse(ArticleStep(cc, site), urls[..i]) == Ok(storage)
    {
      var result := GetTargetNewsContent(cc, site, urls[i]);
      TraverseSnoc(ArticleStep(cc, site), urls[..i], urls[i]);
      assert urls[..i] + [urls[i]] == urls[..i + 1];
      if result.Err? {
        TraversePrefixError(ArticleStep(cc, site), urls, i + 1);
        return Err(result.error);
      }
      storage := storage + [result.value];
      i := i + 1;
    }
    assert urls[..i] == urls;
    return Ok(storage);
  }

  // ----- properties -----

  /** Joining is concatenation: the stripped texts follow each other with nothing between. */
  lemma {:induction false} JoinStrippedAppend(cc: Classes, ps: seq<string>, qs: seq<string>)
    ensures JoinStripped(cc, ps + qs) == JoinStripped(cc, ps) + JoinStripped(cc, qs)
    decreases |qs|
  {
    if qs == [] {
      JoinEmptyRight(cc, ps);
    } else {
      var init, last := qs[..|qs| - 1], qs[|qs| - 1];
      JoinStrippedAppend(cc, ps, init);
      assert qs == init + [last];
      JoinAppendStep(cc, ps, init, last);
    }
  }

  lemma JoinEmptyRight(cc: Classes, ps: seq<string>)
    ensures JoinStripped(cc, ps + []) == JoinStripped(cc, ps) + JoinStripped(cc, [])
  {
    assert ps + [] == ps;
  }

  /** One more paragraph on the right keeps the concatenation law. */
  lemma JoinAppendStep(cc: Classes, ps: seq<string>, init: seq<string>, last: string)
    requires JoinStripped(cc, ps + init) == JoinStripped(cc, ps) + JoinStripped(cc, init)
    ensures JoinStripped(cc, ps + (init + [last])) == JoinStripped(cc, ps) + JoinStripped(cc, init + [last])
  {
    SnocAssoc(ps, init, last);
    JoinSnoc(cc, ps + init, last);
    JoinSnoc(cc, init, last);
    ConcatAssoc(JoinStripped(cc, ps), JoinStripped(cc, init), Strip(cc, last));
  }

  lemma SnocAssoc(ps: seq<string>, init: seq<string>, last: string)
    ensures ps + (init + [last]) == (ps + init) + [last]
  {
  }

  lemma ConcatAssoc(a: string, b: string, c: string)
    ensures (a + b) + c == a + (b + c)
  {
  }

  lemma JoinSnoc(cc: Classes, ps: seq<string>, p: string)
    ensures JoinStripped(cc, ps + [p]) == JoinStripped(cc, ps) + Strip(cc, p)
  {
    assert (ps + [p])[..|ps|] == ps;
  }

  /** Two paragraphs give their stripped texts back to back. */
  lemma JoinTwo(cc: Classes, p: string, q: string)
    ensures JoinStripped(cc, [p, q]) == Strip(cc, p) + Strip(cc, q)
  {
    assert [p, q][..1] == [p];
    assert [p][..0] == [];
    assert JoinStripped(cc, [p]) == Strip(cc, p);
  }

  /** The record keeps the requested URL, and its date is empty exactly when there is no
      date span or the inner span holds only whitespace. */
  lemma ArticleUrlAndDate(cc: Classes, site: Site, url: string)
    requires NewsArticle(cc, site, url).Ok?
    ensures var rec := NewsArticle(cc, site, url).value;
      rec.url == url && rec.date.Some?
      && var m := site[url].mcont.value;
      (rec.date == Some("") <==>
        m.dateSpan.None? || forall k :: 0 <= k < |m.dateSpan.value.value| ==> cc.space(m.dateSpan.value.value[k]))
  {
    var m := site[url].mcont.value;
    if m.dateSpan.Some? {
      var text := m.dateSpan.value.value;
      assert NewsArticle(cc, site, url).value.date == Some(Strip(cc, text));
      StripSpec(cc, text);
    }
  }

  /** Each required element, when missing, aborts with its own exception. */
  lemma ArticleErrors(cc: Classes, site: Site, url: string)
    ensures url !in site ==> NewsArticle(cc, site, url) == Err(FetchFailed(url))
    ensures url in site && site[url].headline.None? ==> NewsArticle(cc, site, url) == Err(NoHeadline)
    ensures url in site && site[url].headline.Some? && site[url].mcont.None? ==>
      NewsArticle(cc, site, url) == Err(NoContent)
    ensures (url in site && site[url].headline.Some? && site[url].mcont.Some?
      && site[url].mcont.value.dateSpan == Some(None)) ==> NewsArticle(cc, site, url) == Err(NoDateText)
  {
  }

  /** A heading, a container with no paragraph and no date span: the date and the content are
      both empty. */
  lemma BareArticle(cc: Classes, site: Site, url: string, h: string, text: string)
    requires url in site && site[url].headline == Some(h)
    requires site[url].mcont == Some(Mcont(text, None, []))
    ensures NewsArticle(cc, site, url) == Ok(Record(Strip(cc, h), url, Some(""), ""))
  {
  }

  /** References are not stripped on this path: a heading such as "&amp;" is kept as it is. */
  lemma NewsKeepsReferences(cc: Classes, site: Site, url: string, h: string)
    requires h != [] && !cc.space(h[0]) && !cc.space(h[|h| - 1])
    requires NewsArticle(cc, site, url).Ok? && site[url].headline == Some(h)
    ensures NewsArticle(cc, site, url).value.title == h
  {
    assert NewsArticle(cc, site, url).value.title == Strip(cc, h);
    StripNoOuterSpace(cc, h);
  }

  /** One record per collected URL, in URL order. */
  lemma RecordsFollowUrls(cc: Classes, site: Site, listing: Listing, maxPage: int)
    requires ListingRecords(cc, site, listing, maxPage).Ok?
    ensures TargetNewsUrls(cc, site, listing, maxPage).Ok?
    ensures var urls := TargetNewsUrls(cc, site, listing, maxPage).value;
      var recs := ListingRecords(cc, site, listing, maxPage).value;
      |recs| == |urls|
      && forall i :: 0 <= i < |urls| ==> NewsArticle(cc, site, urls[i]) == Ok(recs[i]) && recs[i].url == urls[i]
  {
    var urls := TargetNewsUrls(cc, site, listing, maxPage).value;
    TraverseOk(ArticleStep(cc, site), urls);
    forall i | 0 <= i < |urls| ensures NewsArticle(cc, site, urls[i]).Ok? ==> NewsArticle(cc, site, urls[i]).value.url == urls[i] {
      if NewsArticle(cc, site, urls[i]).Ok? {
        ArticleUrlAndDate(cc, site, urls[i]);
      }
    }
  }
}
