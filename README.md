# NKUST news crawler — a Dafny model

The crawler (`main.py`, class `NKUST`) reads four kinds of pages of the National Kaohsiung
University of Science and Technology site and turns each into records of the form
`{title, url, date?, content}`:

- **hot news** and **honors** (`get_hot_news`, `get_honors`): a paginated listing. The
  crawler reads the page count from the page-1 indicator, or takes `max_page`. It then walks
  pages `1..last` and collects every card's title href, and fetches each article in URL order
  (`get_target_news_url`, `get_target_news_content`).
- **activity** (`get_activity`): event identifiers (`Sno`) come from the index markup with
  the regular expression `Sno=(.*)"`. They are then deduplicated (`max_item == -1`) or cut
  to `Snos[:max_item]`. Each event's title is the first `<h2>(.*)</h2>` capture.
- **about** (`get_about`): the hrefs of the right-hand drop-down menu. Only those starting
  with `/p/` are fetched. Each record's title is the breadcrumb with its newlines and the
  site's own `首頁關於我們` trail removed.

Activity and about texts go through an entity stripper, the two `re.sub` calls that delete
`&#\d+;` and then `&\w+;`. News texts do not.

How the model is built:

- Nothing is fetched. A `Site` (`web.dfy`) maps every URL that answers to a `Page`. The
  `Page` holds the raw markup and the result of each BeautifulSoup lookup the crawler makes.
- A URL outside the map is a request that raises.
- Each lookup that finds nothing and is then dereferenced or indexed becomes a named `Error`.
- A run ends at the first exception. `Results.Traverse` captures this: a loop over inputs
  either yields every value in order or the first failure.
- The crawler's loops are methods with invariants. Each is proved equal to a function, and
  the properties are proved about those functions.

Modules:

| file | module | what it holds |
|---|---|---|
| `results.dfy` | `Results` | `Option`/`Result`, `Traverse` (abort on first error), `Flatten` |
| `text.dfy` | `Text` | abstract `\d`/`\w`/whitespace classes, `str.strip`, `str.replace`, `str(n)`, `int(ds)`, first digit run |
| `web.dfy` | `Web` | pages, the site map, the exceptions, the record shape |
| `entities.dfy` | `Entities` | the `&#\d+;` / `&\w+;` stripper |
| `line_regex.dfy` | `LineRegex` | `re.findall(open + '(.*)' + close, s)` as a scanner, and its per-line reading |
| `paginator.dfy` | `Paginator` | page count, page URLs, the page walk |
| `news.dfy` | `News` | article records and the hot-news/honors drivers |
| `activity.dfy` | `Activity` | Sno extraction, dedup or cap, event records |
| `about.dfy` | `About` | href filter, breadcrumb cleanup, about records |

## Model

| member | source | states |
|---|---|---|
| Results.TraverseOk | main.py:77-80 | a loop over inputs succeeds exactly when every step succeeds, and then holds each step's value at that step's position |
| Results.TraverseFirstError | main.py:77-80 | a failing loop fails with the error of its first failing step, after all earlier steps succeeded |
| Results.TraversePrefixError | main.py:77-80 | once a prefix of the inputs fails, nothing after it changes the outcome |
| Results.FlattenAppend | main.py:43-46 | appending page by page then card by card is concatenation in order |
| Results.FlattenLength | main.py:43-47 | the collected list's length is the sum of the per-page lengths: nothing added or dropped |
| Text.StripSpec | main.py:56 | `strip()` yields a contiguous slice with only whitespace cut on either side; it is empty exactly when the text is all whitespace, and otherwise starts and ends with non-whitespace |
| Text.StripIdempotent | main.py:56 | stripping twice equals stripping once |
| Text.StripNoOuterSpace | main.py:56 | a text with no outer whitespace is its own strip |
| Text.ReplaceAbsent | main.py:38 | `replace` on a text without the pattern changes nothing |
| Text.ReplaceFirst | main.py:38 | `replace` rewrites the leftmost occurrence and goes on after it |
| Text.RemoveIsSubsequence | main.py:159 | `replace(pat, '')` only deletes characters |
| Text.Without | main.py:158 | removing a character keeps exactly the other characters |
| Text.WithoutAppend | main.py:158 | removing a character from a concatenation removes it from each part |
| Text.RemoveCharIsFilter | main.py:158 | `replace('\n', '')` is exactly the character filter `Without` |
| Text.DecimalString | main.py:38 | `str(n)` is a non-empty run of ASCII digits with no leading zero |
| Text.DecimalRoundTrip | main.py:31 | `int(str(n)) == n` when the ASCII digits have their usual values |
| Text.FirstDigitIndex | main.py:31 | the index of the first `\d` character, with none before it |
| Text.FirstDigitRun | main.py:31 | `re.findall(r'\d+', s)[0]`: none exactly when there is no digit; otherwise a non-empty digit run occurring in `s`, with no digit before it and none right after it |
| Entities.MatchAt | main.py:116 | a match at the start is the lead, at least one class character, and a closing `;` |
| Entities.DeleteMatches | main.py:116 | one `re.sub` pass only deletes characters |
| Entities.Sanitize | main.py:116-117 | the stripper's output is a subsequence of its input, never longer |
| Entities.DeleteUnchangedIff | main.py:116 | a pass changes nothing exactly when the pattern matches at no position |
| Entities.MatchShortens | main.py:116 | a pass over a text with a match shortens it |
| Entities.PrefixWithoutAmpersand | main.py:116-117 | text before the first `&` is kept as it is, and the scan resumes after it |
| Entities.NoAmpersandUnchanged | main.py:116-117 | a text with no `&` is unchanged |
| Entities.NumericReferenceRemoved | main.py:116 | `&#` digits `;` is deleted whole, whatever follows |
| Entities.NamedReferenceRemoved | main.py:117 | `&` word characters `;` is deleted whole, whatever follows |
| Entities.NumericPassKeepsNamed | main.py:116 | the numeric pass leaves a named reference to the named pass |
| Entities.NoHashNumericUnchanged | main.py:116 | without a `#` the numeric pass changes nothing |
| Entities.HexReferenceSurvives | main.py:116-117 | the hexadecimal form `&#x1F50A;` is not recognised and survives both passes |
| Entities.NotIdempotent | main.py:116-117 | `"&a&b;;"` becomes `"&a;"`, which a second application turns into `""` |
| Entities.NamedPassJoins | main.py:117 | in `"&a&b;;"` only `&b;` matches, and the named pass leaves `"&a;"` |
| Entities.UnterminatedBeforeReference | main.py:117 | an `&` and a word character directly before a reference are kept, and the reference is deleted |
| Paginator.Pages | main.py:37 | `range(1, last + 1)` is exactly `1..last` in increasing order, and empty when `last <= 0` |
| Paginator.PageUrlShape | main.py:38 | a page URL is the host, the listing code, the decimal page number and the language query |
| Paginator.PageCountCases | main.py:31 | the page count is `max_page` when one is given; otherwise the value of the indicator's first digit run, which fails exactly when the indicator has no digit |
| Paginator.AutoPageCount | main.py:31 | with `max_page == -1`, an indicator `a n b` with no digit in `a` and none right after `n` gives `n` pages |
| Paginator.FirstNumberOfIndicator | main.py:31 | with `max_page == -1`, an indicator `"1/57"` gives one page: the first number is taken, whatever it means |
| Paginator.FirstRunIs | main.py:31 | the first digit run of `a ds b` is `ds` when `a` has no digit and `b` does not start with one |
| Paginator.FirstPageAlwaysFetched | main.py:27 | page 1 is requested whatever `max_page` is; if it fails, the run fails |
| Paginator.IndicatorAlwaysRead | main.py:30 | the page indicator is read whatever `max_page` is; without it the run fails |
| Paginator.GetTargetNewsUrl | main.py:25-48 | the crawler's loops compute the page-walk function: pages in order, cards in order |
| Paginator.WalkPages | main.py:37-46 | the page loop's result is every page's hrefs flattened in page order, or the first failure |
| Paginator.AppendCardLinks | main.py:43-46 | the card loop appends every card's href in order, or fails on the first card without a link |
| Paginator.WalkAborts | main.py:37-46 | a failure on page `n` ends the whole walk with that failure |
| Paginator.CollectedUrls | main.py:33-48 | the result is page 1's hrefs, then page 2's, and so on, each page's list being its cards' hrefs; its length is the sum of the per-page counts, with no dedup |
| Paginator.CollectAbortsOnFirstFailure | main.py:37-46 | a failed walk failed on some page `n` in `1..last`, with that page's error, after every earlier page succeeded |
| Paginator.TwoPagesFiveUrls | main.py:37-48 | two pages with three and two cards give those five hrefs, page 1's first |
| News.GetTargetNewsContent | main.py:50-69 | the lookups and the `content +=` loop compute the article-record function |
| News.FetchArticles | main.py:77-80 | the driver loop gives one record per URL in order, or the first exception |
| News.CrawlListing | main.py:76-80 | `get_hot_news`/`get_honors` give the records of every collected URL, or the first exception |
| News.JoinStrippedAppend | main.py:61-63 | the content of consecutive paragraph groups is their contents concatenated, with no separator |
| News.JoinTwo | main.py:61-63 | two paragraphs give their stripped texts back to back |
| News.ArticleUrlAndDate | main.py:58-68 | the record keeps the requested URL; its date is `''` exactly when there is no date span or the inner span is all whitespace |
| News.ArticleErrors | main.py:56-60 | a missing page, headline, container or inner date span each aborts with its own exception |
| News.BareArticle | main.py:56-69 | no paragraph and no date span give an empty date and empty content |
| News.NewsKeepsReferences | main.py:56 | entity references are not stripped on the news path |
| News.RecordsFollowUrls | main.py:76-80 | one record per collected URL, in URL order, each carrying its own URL |
| LineRegex.FirstOccurrenceSpec | main.py:106 | the leftmost occurrence: none exactly when the pattern does not occur, and nothing earlier |
| LineRegex.LastOccurrenceSpec | main.py:106 | the rightmost occurrence: none exactly when the pattern does not occur, and nothing later |
| LineRegex.MatchHere | main.py:106 | a match starting at index 0 consumes at least one character and stays within the text |
| LineRegex.FindAllByLine | main.py:106 | the left-to-right scanner of `open(.*)close` equals the per-line reading: each line in order, each giving at most one capture |
| LineRegex.FindAllTwoLines | main.py:106 | the captures of two lines are each line's captures, in order |
| LineRegex.ScanLine | main.py:106 | the scanner finds in one line exactly that line's capture and then goes on with the next line |
| LineRegex.LineCaptureFirstToLast | main.py:106 | a line captures the text from the end of its first `open` to the start of its last `close`, if that `close` comes after the `open` |
| LineRegex.FirstToLastOfLink | main.py:106 | a line `a open v close b` with no `open` start in `a` and no `close` in `b` captures `v` |
| Activity.SnosByLine | main.py:106 | `Sno=(.*)"` gives, for each line in order, at most one Sno |
| Activity.SnoOfOneLine | main.py:106 | a line gives at most one Sno: the text from its first `Sno=` to its last `"` |
| Activity.SnoOfLink | main.py:105-106 | a line `a Sno= v " b` with no `S` in `a` and no `"` in `b` gives exactly `v` |
| Activity.SnosOfTwoLines | main.py:106 | the Snos of two lines are those of each line, in order |
| Activity.EventLinkSno | main.py:105-106 | an index link of the documented form yields its Sno |
| Activity.SameLineJoinsLinks | main.py:106 | two links on one line yield a single identifier spanning both |
| Activity.SameLinkTwice | main.py:106-108 | the same link on two lines is extracted twice and processed once without a cap |
| Activity.Deduplicate | main.py:108 | `list(set(xs))` is duplicate-free and has exactly the elements of `xs` |
| Activity.SelectSnos | main.py:108 | with `-1` the chosen list is a duplicate-free listing of the distinct Snos; otherwise it is `Snos[:max_item]` |
| Activity.OnlyOneValue | main.py:108 | Snos that are all the same `v` are processed as `[v]` |
| Activity.CapIsPrefix | main.py:108 | under a cap `n >= 0` the chosen Snos are the first `min(n, len)` extracted ones, in order, duplicates included |
| Activity.CapKeepsDuplicates | main.py:108 | a cap of two on `["A", "A", "B"]` processes `"A"` twice |
| Activity.NegativeCapDropsFromEnd | main.py:108 | a cap below `-1` drops that many Snos from the end |
| Activity.CrawlActivity | main.py:104-131 | the driver reads the index, chooses Snos as above and gives one record per chosen Sno, or the first exception; a failing index fetch aborts |
| Activity.FetchEvents | main.py:109-131 | the event loop gives one record per Sno in order, or the first exception |
| Activity.EventFields | main.py:111-129 | an event record's url is the event URL of its Sno; its title only loses characters of the first `<h2>` capture, and its content of the stripped blog text |
| Activity.EventTitleOfPage | main.py:114-117 | wherever the heading sits in the page, the title is the first capture of the per-line `<h2>(.*)</h2>` reading, with references removed |
| Activity.EventTitle | main.py:114-117 | a page whose first line holds `<h2>…</h2>` is titled by that line's first-to-last capture; a page with no capture aborts |
| Activity.EventsFollowSnos | main.py:109-131 | one record per chosen Sno in order; with deduplicated Snos no two records share a url |
| About.LocalHrefsMembers | main.py:149 | an href is visited exactly when it is in the menu and starts with `/p/` |
| About.LocalHrefsAppend | main.py:148-170 | the filter keeps menu order: filtering a concatenation concatenates the filtered parts |
| About.AllLocalVisited | main.py:148-149 | a menu of local hrefs only is visited whole, in order |
| About.ThreeHrefs | main.py:148-170 | of three hrefs with a non-local middle one, the outer two are visited |
| About.VisitAborts | main.py:148-165 | a local href whose visit fails ends the whole run with that failure |
| About.CollectHrefs | main.py:144 | the list comprehension gives each menu entry's href in order, or fails on an entry without a link |
| About.GetAboutPage | main.py:150-165 | the loop body computes the about-record function: fetch, container, breadcrumb, cleanup |
| About.VisitMenu | main.py:146-170 | the loop visits exactly the local hrefs in menu order and passes over the others |
| About.GetAbout | main.py:135-172 | the driver computes the records of every local menu href, or the first exception |
| About.BreadcrumbTitle | main.py:155-159 | the title has no newline and only loses characters of the stripped breadcrumb |
| About.TrailRemoved | main.py:155-159 | a breadcrumb laid out as `首頁`, newline, `關於我們`, newline, `b` gives the title `b` |
| About.TrailThenRest | main.py:159 | the trail followed by text without `首` leaves that text |
| About.RemovalCanRejoin | main.py:159 | the removal is a single pass: the trail wrapped around itself joins up again and stays in the title |
| About.AboutFields | main.py:150-165 | a record's url is the site root plus the href; its title has no newline, and title and content only lose characters of the stripped texts |
| About.AboutErrors | main.py:150-155 | a missing page, container or breadcrumb each aborts with its own exception |
| About.RecordsFollowMenu | main.py:146-170 | one record per local menu href, in menu order, with url root plus href |
| About.ThreeLinksTwoRecords | main.py:143-170 | a menu of three links with a non-local middle one gives exactly the records of the outer two; the middle one is never fetched |

### Behaviour of the code worth knowing

- Page 1 is fetched, and its indicator read, even when `max_page` is given
  (main.py:27-30; `FirstPageAlwaysFetched`, `IndicatorAlwaysRead`).
- The entity stripper is not idempotent. One application can join two halves into a new
  reference and leave it in place (`NotIdempotent`).
- News and honors text is only stripped of whitespace; references are not removed on that
  path (`NewsKeepsReferences`).
- `max_item` chooses between deduplication and a cap, never both. Under a cap, duplicate
  identifiers are processed again (`CapKeepsDuplicates`).
- Two event links on one line give one identifier spanning both, because `.*` is greedy
  (`SameLineJoinsLinks`).

## Left out

- HTTP requests: every fetch is a lookup in the `Site` map. There are no timeouts, retries
  or status codes; a URL outside the map is a request that raises.
- BeautifulSoup: each `find`, `find_all`, `.text` or attribute lookup the crawler makes is
  a field of `Page`, taken as given. How markup parses into those values is not modelled.
  That includes the tree-parsed content of `div.blog-main`, `div.mcont` and `ol.breadcrumb`.
- Writing the JSON files, the `time.strftime` file names, the `tqdm` progress bars and
  `tqdm.write` lines, and the `__main__` block: file, clock and console output.
- Python's Unicode tables for `\d`, `\w`, `str.strip()` whitespace and `int()` digit
  values. They are an abstract `Classes` value, constrained only as Python does: `;` is
  neither a digit nor a word character, and `&` and `#` are not word characters.
- The iteration order of Python's `set`. `Activity.Deduplicate` picks any order, and the
  model states only a duplicate-free listing of the distinct Snos.
- `re` in general. Only the shapes the crawler uses are modelled: the `lead class+ ;`
  deletions and `open(.*)close` with literal, single-line delimiters.
- Activity.EventFields: states that the title and content only lose characters (a
  subsequence), not their exact text; `Activity.EventTitleOfPage` gives the exact title of
  any page with a heading.
- Activity.EventTitle: its exact-title clause covers only a page whose first line holds
  the heading; `Activity.EventTitleOfPage` states it for any page.
- About.AboutFields: states that the title and content only lose characters (a
  subsequence), not their exact text; `About.TrailRemoved` gives the exact title for the
  site's usual trail.
- The `else` branch of `get_about` that passes over non-local hrefs is marked as future
  work in the source. It is modelled as passing over and nothing more.
