/** `NKUST.get_about`: the hrefs of the right-hand drop-down menu of the about directory page;
    every href under `/p/` is fetched and gives a record whose title is the cleaned breadcrumb
    trail, and every other href is skipped. */
module About {

  import opened Results
  import opened Text
  import opened Web
  import opened Entities

  const AboutUrl := "https://www.nkust.edu.tw/p/412-1000-617.php"

  /** The two crumbs of the site's own trail, "Home" and "About us". */
  const Home := "首頁"
  const AboutUs := "關於我們"

  /** The site's own leading trail once the newlines are gone: `首頁關於我們`. */
  const HomeAbout := Home + AboutUs

  function LinkStep(): Option<string> -> Result<string, Error>
  {
    (item: Option<string>) => if item.Some? then Ok(item.value) else Err(NoMenuLink)
  }

  /** `[li.find('a')['href'] for li in dropdown.find_all('li')]`, after the menu lookup. */
  function MenuHrefs(page: Page): Result<seq<string>, Error>
  {
    match page.dropMenu
    case None => Err(NoDropMenu)
    case Some(items) => Traverse(LinkStep(), items)
  }

  /** `href.startswith('/p/')`: the path prefix of the site's own content pages, written
      character by character. */
  predicate IsLocal(href: string)
  {
    |href| >= 3 && href[0] == '/' && href[1] == 'p' && href[2] == '/'
  }

  /** The hrefs that are visited, in menu order. */
  function LocalHrefs(hrefs: seq<string>): seq<string>
  {
    if hrefs == [] then []
    else
      var init, last := hrefs[..|hrefs| - 1], hrefs[|hrefs| - 1];
      LocalHrefs(init) + if IsLocal(last) then [last] else []
  }

  /** Exactly the local hrefs of the menu are visited. */
  lemma {:induction false} LocalHrefsMembers(hrefs: seq<string>, h: string)
    ensures h in LocalHrefs(hrefs) <==> h in hrefs && IsLocal(h)
  {
    if hrefs != [] {
      var init, last := hrefs[..|hrefs| - 1], hrefs[|hrefs| - 1];
      assert hrefs == init + [last];
      LocalSnoc(init, last);
      LocalHrefsMembers(init, h);
    }
  }

  /** The breadcrumb text: stripped, entity references removed, every newline removed, then
      every occurrence of the leading "Home" + "About us" trail removed. */
  function CleanBreadcrumb(cc: Classes, s: string): string
  {
    Replace(Replace(Sanitize(cc, Strip(cc, s)), "\n", ""), HomeAbout, "")
  }

  /** One about page: the stripped and sanitized text of `div.mcont` and the cleaned text of
      `ol.breadcrumb`. */
  function AboutRecord(cc: Classes, site: Site, href: string): Result<Record, Error>
  {
    var url := Root + href;
    match Fetch(site, url)
    case Err(e) => Err(e)
    case Ok(page) =>
      match page.mcont
      case None => Err(NoContent)
      case Some(m) =>
        match page.breadcrumb
        case None => Err(NoBreadcrumb)
        case Some(trail) => Ok(Record(CleanBreadcrumb(cc, trail), url, None, Sanitize(cc, Strip(cc, m.text))))
  }

  function AboutStep(cc: Classes, site: Site): string -> Result<Record, Error>
  {
    (href: string) => AboutRecord(cc, site, href)
  }

  /** What `get_about()` would write: a record per local href, in menu order, or the first
      exception. */
  function AboutRecords(cc: Classes, site: Site): Result<seq<Record>, Error>
  {
    match Fetch(site, AboutUrl)
    case Err(e) => Err(e)
    case Ok(page) =>
      match MenuHrefs(page)
      case Err(e) => Err(e)
      case Ok(hrefs) => Traverse(AboutStep(cc, site), LocalHrefs(hrefs))
  }

  /** The driver: the directory page, its menu hrefs, then the visit of each of them. */
  method GetAbout(cc: Classes, site: Site) returns (r: Result<seq<Record>, Error>)
    ensures r == AboutRecords(cc, site)
  {
    if AboutUrl !in site {
      return Err(FetchFailed(AboutUrl));
    }
    var page := site[AboutUrl];
    if page.dropMenu.None? {
      return Err(NoDropMenu);
    }
    var hrefs := CollectHrefs(page.dropMenu.value);
    if hrefs.Err? {
      return Err(hrefs.error);
    }
    r := VisitMenu(cc, site, hrefs.value);
  }

  /** The list comprehension over the menu entries. */
  method CollectHrefs(items: seq<Option<string>>) returns (r: Result<seq<string>, Error>)
    ensures r == Traverse(LinkStep(), items)
  {
    var hrefs: seq<string> := [];
    var i := 0;
    while i < |items|
      invariant 0 <= i <= |items|
      invariant Traverse(LinkStep(), items[..i]) == Ok(hrefs)
    {
      TraverseSnoc(LinkStep(), items[..i], items[i]);
      assert items[..i] + [items[i]] == items[..i + 1];
      if items[i].None? {
        TraversePrefixError(LinkStep(), items, i + 1);
        return Err(NoMenuLink);
      }
      hrefs := hrefs + [items[i].value];
      i := i + 1;
    }
    assert items[..i] == items;
    return Ok(hrefs);
  }

  /** The body of the loop for a local href: fetch the page, read its container and its
      breadcrumb, and clean both. */
  method GetAboutPage(cc: Classes, site: Site, href: string) returns (r: Result<Record, Error>)
    ensures r == AboutRecord(cc, site, href)
  {
    var url := Root + href;
    if url !in site {
      return Err(FetchFailed(url));
    }
    var page := site[url];
    if page.mcont.None? {
      return Err(NoContent);
    }
    var content := Sanitize(cc, Strip(cc, page.mcont.value.text));
    if page.breadcrumb.None? {
      return Err(NoBreadcrumb);
    }
    var trail := Strip(cc, page.breadcrumb.value);
    trail := Sanitize(cc, trail);
    trail := Replace(trail, "\n", "");
    trail := Replace(trail, HomeAbout, "");
    return Ok(Record(trail, url, None, content));
  }

  /** The loop over the hrefs: a local one is fetched and appended, any other is passed over. */
  method VisitMenu(cc: Classes, site: Site, hrefs: seq<string>) returns (r: Result<seq<Record>, Error>)
    ensures r == Traverse(AboutStep(cc, site), LocalHrefs(hrefs))
  {
    var storage: seq<Record> := [];
    var i := 0;
    while i < |hrefs|
      invariant 0 <= i <= |hrefs|
      invariant Traverse(AboutStep(cc, site), LocalHrefs(hrefs[..i])) == Ok(storage)
    {
      var href := hrefs[i];
      VisitNext(hrefs, i);
      if IsLocal(href) {
        var result := GetAboutPage(cc, site, href);
        TraverseSnoc(AboutStep(cc, site), LocalHrefs(hrefs[..i]), href);
        if result.Err? {
          VisitAborts(AboutStep(cc, site), hrefs, i);
          return Err(result.error);
        }
        storage := storage + [result.value];
      }
      i := i + 1;
    }
    assert hrefs[..i] == hrefs;
    return Ok(storage);
  }

  /** A local href whose step fails ends the whole visit with that failure. */
  lemma VisitAborts<R>(f: string -> Result<R, Error>, hrefs: seq<string>, i: nat)
    requires i < |hrefs| && IsLocal(hrefs[i]) && f(hrefs[i]).Err?
    requires Traverse(f, LocalHrefs(hrefs[..i])).Ok?
    ensures Traverse(f, LocalHrefs(hrefs)) == Err(f(hrefs[i]).error)
  {
    var done := LocalHrefs(hrefs[..i + 1]);
    VisitNext(hrefs, i);
    TraverseSnoc(f, LocalHrefs(hrefs[..i]), hrefs[i]);
    VisitedPrefix(hrefs, i + 1);
    TraverseAppendError(f, done, LocalHrefs(hrefs[i + 1..]));
  }

  /** The hrefs visited before index `k` come first among all those visited. */
  lemma VisitedPrefix(hrefs: seq<string>, k: nat)
    requires k <= |hrefs|
    ensures LocalHrefs(hrefs) == LocalHrefs(hrefs[..k]) + LocalHrefs(hrefs[k..])
  {
    assert hrefs == hrefs[..k] + hrefs[k..];
    LocalHrefsAppend(hrefs[..k], hrefs[k..]);
  }

  /** One more href: `hrefs[..i + 1]` is visited as `hrefs[..i]`, then `hrefs[i]` if local. */
  lemma VisitNext(hrefs: seq<string>, i: nat)
    requires i < |hrefs|
    ensures IsLocal(hrefs[i]) ==> LocalHrefs(hrefs[..i + 1]) == LocalHrefs(hrefs[..i]) + [hrefs[i]]
    ensures !IsLocal(hrefs[i]) ==> LocalHrefs(hrefs[..i + 1]) == LocalHrefs(hrefs[..i])
  {
    assert hrefs[..i + 1] == hrefs[..i] + [hrefs[i]];
    LocalSnoc(hrefs[..i], hrefs[i]);
    assert LocalHrefs(hrefs[..i]) + [] == LocalHrefs(hrefs[..i]);
  }

  // ----- the href filter -----

  /** A further href is visited after the others exactly when it is local. */
  lemma LocalSnoc(hrefs: seq<string>, h: string)
    ensures LocalHrefs(hrefs + [h]) == LocalHrefs(hrefs) + if IsLocal(h) then [h] else []
  {
    assert (hrefs + [h])[..|hrefs|] == hrefs;
  }

  /** Filtering distributes over concatenation: menu order is kept. */
  lemma {:induction false} LocalHrefsAppend(xs: seq<string>, ys: seq<string>)
    ensures LocalHrefs(xs + ys) == LocalHrefs(xs) + LocalHrefs(ys)
    decreases |ys|
  {
    if ys == [] {
      assert xs + ys == xs;
    } else {
      var init, last := ys[..|ys| - 1], ys[|ys| - 1];
      assert xs + ys == (xs + init) + [last];
      assert ys == init + [last];
      LocalSnoc(xs + init, last);
      LocalSnoc(init, last);
      LocalHrefsAppend(xs, init);
    }
  }

  /** A menu whose hrefs are all local is visited whole, in order. */
  lemma {:induction false} AllLocalVisited(hrefs: seq<string>)
    requires forall i :: 0 <= i < |hrefs| ==> IsLocal(hrefs[i])
    ensures LocalHrefs(hrefs) == hrefs
  {
    if hrefs != [] {
      var init, last := hrefs[..|hrefs| - 1], hrefs[|hrefs| - 1];
      AllLocalVisited(init);
      assert hrefs == init + [last];
      LocalSnoc(init, last);
    }
  }

  /** Of three hrefs with only the middle one non-local, the outer two are visited. */
  lemma ThreeHrefs(h1: string, h2: string, h3: string)
    requires IsLocal(h1) && !IsLocal(h2) && IsLocal(h3)
    ensures LocalHrefs([h1, h2, h3]) == [h1, h3]
  {
    LocalSnoc([], h1);
    assert [] + [h1] == [h1];
    LocalSnoc([h1], h2);
    assert [h1] + [h2] == [h1, h2];
    LocalSnoc([h1, h2], h3);
    assert [h1, h2] + [h3] == [h1, h2, h3];
  }

  // ----- the breadcrumb -----

  /** The title has no newline, and only loses characters of the stripped breadcrumb. */
  lemma BreadcrumbTitle(cc: Classes, s: string)
    ensures '\n' !in CleanBreadcrumb(cc, s)
    ensures IsSubsequence(CleanBreadcrumb(cc, s), Strip(cc, s))
  {
    var a := Sanitize(cc, Strip(cc, s));
    var b := Replace(a, "\n", "");
    RemoveCharIsFilter(a, '\n');
    RemoveIsSubsequence(a, "\n");
    RemoveIsSubsequence(b, HomeAbout);
    SubsequenceTransitive(CleanBreadcrumb(cc, s), b, a);
    SubsequenceTransitive(CleanBreadcrumb(cc, s), a, Strip(cc, s));
    if '\n' in CleanBreadcrumb(cc, s) {
      SubsequenceMembers(CleanBreadcrumb(cc, s), b, '\n');
      assert false;
    }
  }

  /** The trail as the page lays it out, one crumb per line. */
  const TrailLines := Home + "\n" + AboutUs + "\n"

  lemma TrailLinesFacts()
    ensures TrailLines[0] == '首' && '&' !in TrailLines
    ensures Without(TrailLines, '\n') == HomeAbout
  {
    var nl := "\n";
    assert Without(nl, '\n') == [];
    calc {
      Without(TrailLines, '\n');
      { WithoutAppend(Home + nl + AboutUs, nl, '\n'); }
      Without(Home + nl + AboutUs, '\n') + [];
      { WithoutAppend(Home + nl, AboutUs, '\n'); WithoutAbsent(AboutUs, '\n'); }
      Without(Home + nl, '\n') + AboutUs + [];
      { WithoutAppend(Home, nl, '\n'); WithoutAbsent(Home, '\n'); }
      Home + [] + AboutUs + [];
      { assert Home + [] == Home; assert AboutUs + [] == AboutUs; }
      HomeAbout;
    }
  }

  /** A breadcrumb "Home \n About us \n b" has the site's own trail removed and leaves `b`. */
  lemma TrailRemoved(cc: Classes, b: string)
    requires !cc.space('首') && b != [] && !cc.space(b[|b| - 1])
    requires '&' !in b && '\n' !in b && '首' !in b
    ensures CleanBreadcrumb(cc, TrailLines + b) == b
  {
    var s := TrailLines + b;
    TrailLinesFacts();
    assert s[0] == '首' && s[|s| - 1] == b[|b| - 1];
    StripNoOuterSpace(cc, s);
    assert '&' !in s;
    NoAmpersandUnchanged(cc, s);
    RemoveCharIsFilter(s, '\n');
    WithoutAppend(TrailLines, b, '\n');
    WithoutAbsent(b, '\n');
    TrailThenRest(b);
  }

  lemma TrailThenRest(b: string)
    requires '首' !in b
    ensures Replace(HomeAbout + b, HomeAbout, "") == b
  {
    ReplaceFirst([], HomeAbout, "", b);
    assert [] + HomeAbout + b == HomeAbout + b;
    assert HomeAbout[0] == '首';
    forall k ensures !Occurs(HomeAbout, b, k) {
      if 0 <= k && k + |HomeAbout| <= |b| {
        assert b[k..k + |HomeAbout|][0] == b[k] != HomeAbout[0];
      }
    }
    ReplaceAbsent(b, HomeAbout, "");
  }

  /** Removal is one left-to-right pass: the trail wrapped around itself joins up again and
      is left in the title. */
  lemma RemovalCanRejoin()
    ensures Replace(Home + HomeAbout + AboutUs, HomeAbout, "") == HomeAbout
  {
    var x, y := Home, AboutUs;
    var s := x + HomeAbout + y;
    forall k | 0 <= k < |x| ensures !Occurs(HomeAbout, s, k) {
      assert s[k + 2] == HomeAbout[k];
      assert s[k..k + |HomeAbout|][2] == s[k + 2];
    }
    ReplaceFirst(x, HomeAbout, "", y);
    ReplaceAbsent(y, HomeAbout, "");
    assert x + "" + y == HomeAbout;
  }

  // ----- records -----

  /** A visited href gives a record at the site root plus the href, with no date; its title
      has no newline and its fields only lose characters of the stripped texts. */
  lemma AboutFields(cc: Classes, site: Site, href: string)
    requires AboutRecord(cc, site, href).Ok?
    ensures var url := Root + href;
      var rec := AboutRecord(cc, site, href).value;
      url in site && rec.url == url && rec.date.None?
      && site[url].mcont.Some? && site[url].breadcrumb.Some?
      && '\n' !in rec.title
      && IsSubsequence(rec.title, Strip(cc, site[url].breadcrumb.value))
      && IsSubsequence(rec.content, Strip(cc, site[url].mcont.value.text))
  {
    BreadcrumbTitle(cc, site[Root + href].breadcrumb.value);
  }

  /** Each missing element of a visited page aborts with its own exception. */
  lemma AboutErrors(cc: Classes, site: Site, href: string)
    ensures Root + href !in site ==> AboutRecord(cc, site, href) == Err(FetchFailed(Root + href))
    ensures Root + href in site && site[Root + href].mcont.None? ==> AboutRecord(cc, site, href) == Err(NoContent)
    ensures (Root + href in site && site[Root + href].mcont.Some? && site[Root + href].breadcrumb.None?) ==>
      AboutRecord(cc, site, href) == Err(NoBreadcrumb)
  {
  }

  /** One record per local href, in menu order, and nothing for the others. */
  lemma RecordsFollowMenu(cc: Classes, site: Site)
    requires AboutRecords(cc, site).Ok?
    ensures AboutUrl in site && MenuHrefs(site[AboutUrl]).Ok?
    ensures var visited := LocalHrefs(MenuHrefs(site[AboutUrl]).value);
      var recs := AboutRecords(cc, site).value;
      |recs| == |visited|
      && forall i :: 0 <= i < |visited| ==> recs[i].url == Root + visited[i] && IsLocal(visited[i])
  {
    var visited := LocalHrefs(MenuHrefs(site[AboutUrl]).value);
    TraverseOk(AboutStep(cc, site), visited);
    forall i | 0 <= i < |visited| ensures AboutRecord(cc, site, visited[i]).Ok? ==>
      AboutRecord(cc, site, visited[i]).value.url == Root + visited[i]
    {
      if AboutRecord(cc, site, visited[i]).Ok? {
        AboutFields(cc, site, visited[i]);
      }
    }
    forall i | 0 <= i < |visited| ensures IsLocal(visited[i]) {
      LocalHrefsMembers(MenuHrefs(site[AboutUrl]).value, visited[i]);
    }
  }

  /** A menu of three links whose middle one is not local gives exactly the two records of
      the others; the middle link is never fetched, so its page plays no part. */
  lemma ThreeLinksTwoRecords(cc: Classes, site: Site, h1: string, h2: string, h3: string)
    requires AboutUrl in site && site[AboutUrl].dropMenu == Some([Some(h1), Some(h2), Some(h3)])
    requires IsLocal(h1) && !IsLocal(h2) && IsLocal(h3)
    requires AboutRecord(cc, site, h1).Ok? && AboutRecord(cc, site, h3).Ok?
    ensures AboutRecords(cc, site) == Ok([AboutRecord(cc, site, h1).value, AboutRecord(cc, site, h3).value])
  {
    TraverseThree(LinkStep(), Some(h1), Some(h2), Some(h3), h1, h2, h3);
    assert MenuHrefs(site[AboutUrl]) == Ok([h1, h2, h3]);
    ThreeHrefs(h1, h2, h3);
    TraverseTwo(AboutStep(cc, site), h1, h3, AboutRecord(cc, site, h1).value, AboutRecord(cc, site, h3).value);
  }
}
