/** The site as the crawler sees it. Fetching is `requests.get(url).text`; a page is
    then searched with BeautifulSoup. Neither is modelled: a page is given together with
    the result of every lookup the crawler makes on it. */
module Web {

  import opened Results

  /** The `div.mcont` content container of an article or about page. */
  datatype Mcont = Mcont(
    text: string,                        // `.text` of the container
    dateSpan: Option<Option<string>>,    // `span.ptinfoproperty_date`, then the text of its first inner `span`
    paragraphs: seq<string>)             // `.text` of each `p` inside, in document order

  /** A fetched page: its markup and what each lookup of the crawler finds in it. */
  datatype Page = Page(
    raw: string,                         // the response text, searched with regular expressions
    pageIndicator: Option<string>,       // text of `span.pg-txt`
    cards: seq<Option<string>>,          // each `div.listBS`: the href of the link in its `div.mtitle`, if any
    headline: Option<string>,            // text of `h2.hdline`
    mcont: Option<Mcont>,                // `div.mcont`
    blogMain: Option<string>,            // text of `div.blog-main`
    dropMenu: Option<seq<Option<string>>>, // `ul.dropmenu-right`: the href of the link in each `li`, if any
    breadcrumb: Option<string>)          // text of `ol.breadcrumb`

  /** Every URL that answers, with the page it returns. A URL outside the map is one whose
      request raises. */
  type Site = map<string, Page>

  /** The exceptions that abort a run: a request that raises, or a lookup that finds nothing
      and is then dereferenced or indexed. */
  datatype Error =
    | FetchFailed(url: string)
    | NoPageIndicator       // `soup.find('span', class_='pg-txt')` is None
    | NoPageNumber          // no digit in the page indicator: `re.findall(...)[0]` fails
    | NoCardLink(page: string)  // a card without a title link
    | NoHeadline            // no `h2.hdline`
    | NoContent             // no `div.mcont` or `div.blog-main`
    | NoDateText            // a date span without an inner span
    | NoTitle(event: string)    // no `<h2>...</h2>` in an activity page
    | NoDropMenu            // no `ul.dropmenu-right`
    | NoMenuLink            // a menu entry without a link
    | NoBreadcrumb          // no `ol.breadcrumb`

  /** One saved item. Activity and about records have no date. */
  datatype Record = Record(title: string, url: string, date: Option<string>, content: string)

  function Fetch(site: Site, url: string): (r: Result<Page, Error>)
    ensures r.Ok? <==> url in site
    ensures r.Ok? ==> r.value == site[url]
    ensures r.Err? ==> r.error == FetchFailed(url)
  {
    if url in site then Ok(site[url]) else Err(FetchFailed(url))
  }

  const Host := "https://www.nkust.edu.tw/p/"
  const Lang := "zh-tw"
  const Root := "https://www.nkust.edu.tw"
}
