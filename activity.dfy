/** `NKUST.get_activity`: the event identifiers (Sno) are read off the index page with a
    regular expression, then either deduplicated (`max_item == -1`) or cut to a prefix, and
    every chosen event gives a record whose title and content go through the entity stripper. */
module Activity {

  import opened Results
  import opened Text
  import opened Web
  import opened Entities
  import opened LineRegex

  const ActivityUrl := "https://ws1.nkust.edu.tw/Activity/#"
  const EventPrefix := "https://ws1.nkust.edu.tw/Activity/Home/Event?Sno="

  /** `re.findall(r'Sno=(.*)"', text)` */
  function IndexSnos(raw: string): seq<string>
  {
    FindAll("Sno=", "\"", raw)
  }

  /** Python's `xs[:n]`: a negative `n` counts from the end. */
  function Slice<T>(xs: seq<T>, n: int): seq<T>
  {
    if n >= 0 then xs[..if n <= |xs| then n else |xs|]
    else xs[..if -n <= |xs| then |xs| + n else 0]
  }

  predicate NoDuplicates<T(==)>(xs: seq<T>)
  {
    forall i, j :: 0 <= i < j < |xs| ==> xs[i] != xs[j]
  }

  /** What `list(set(Snos)) if max_item == -1 else Snos[:max_item]` may give: with -1 every
      distinct Sno once, in an order the set decides; otherwise the prefix, duplicates and all. */
  ghost predicate Selected(snos: seq<string>, maxItem: int, chosen: seq<string>)
  {
    if maxItem == -1 then NoDuplicates(chosen) && forall x :: x in chosen <==> x in snos
    else chosen == Slice(snos, maxItem)
  }

  /** `list(set(xs))`: each distinct element once, taken in no particular order. */
  method Deduplicate(xs: seq<string>) returns (ys: seq<string>)
    ensures NoDuplicates(ys)
    ensures forall x :: x in ys <==> x in xs
  {
    var rest := set x | x in xs;
    ys := [];
    while rest != {}
      invariant NoDuplicates(ys)
      invariant forall x :: x in ys ==> x !in rest
      invariant forall x :: x in xs <==> x in ys || x in rest
      decreases |rest|
    {
      var x :| x in rest;
      ys := ys + [x];
      rest := rest - {x};
    }
  }

  method SelectSnos(snos: seq<string>, maxItem: int) returns (chosen: seq<string>)
    ensures Selected(snos, maxItem, chosen)
  {
    if maxItem == -1 {
      chosen := Deduplicate(snos);
    } else {
      chosen := Slice(snos, maxItem);
    }
  }

  /** One event page: the first `<h2>(.*)</h2>` capture of its markup and the stripped text
      of `div.blog-main`, both passed through the entity stripper. */
  function EventRecord(cc: Classes, site: Site, sno: string): Result<Record, Error>
  {
    var url := EventPrefix + sno;
    match Fetch(site, url)
    case Err(e) => Err(e)
    case Ok(page) =>
      var titles := FindAll("<h2>", "</h2>", page.raw);
      if titles == [] then Err(NoTitle(url))
      else
        match page.blogMain
        case None => Err(NoContent)
        case Some(text) => Ok(Record(Sanitize(cc, titles[0]), url, None, Sanitize(cc, Strip(cc, text))))
  }

  function EventStep(cc: Classes, site: Site): string -> Result<Record, Error>
  {
    (sno: string) => EventRecord(cc, site, sno)
  }

  /** The driver: read the index, choose the Snos, then fetch every chosen event in order. */
  method CrawlActivity(cc: Classes, site: Site, maxItem: int) returns (chosen: seq<string>, r: Result<seq<Record>, Error>)
    ensures ActivityUrl !in site ==> r == Err(FetchFailed(ActivityUrl))
    ensures ActivityUrl in site ==>
      Selected(IndexSnos(site[ActivityUrl].raw), maxItem, chosen) && r == Traverse(EventStep(cc, site), chosen)
  {
    if ActivityUrl !in site {
      return [], Err(FetchFailed(ActivityUrl));
    }
    var snos := IndexSnos(site[ActivityUrl].raw);
    chosen := SelectSnos(snos, maxItem);
    r := FetchEvents(cc, site, chosen);
  }

  /** The loop over the chosen Snos, appending one record each. */
  method FetchEvents(cc: Classes, site: Site, snos: seq<string>) returns (r: Result<seq<Record>, Error>)
    ensures r == Traverse(EventStep(cc, site), snos)
  {
    var storage: seq<Record> := [];
    var i := 0;
    while i < |snos|
      invariant 0 <= i <= |snos|
      invariant Traverse(EventStep(cc, site), snos[..i]) == Ok(storage)
    {
      var result := EventRecord(cc, site, snos[i]);
      TraverseSnoc(EventStep(cc, site), snos[..i], snos[i]);
      assert snos[..i] + [snos[i]] == snos[..i + 1];
      if result.Err? {
        TraversePrefixError(EventStep(cc, site), snos, i + 1);
        return Err(result.error);
      }
      storage := storage + [result.value];
      i := i + 1;
    }
    assert snos[..i] == snos;
    return Ok(storage);
  }

  // ----- Sno extraction -----

  /** The scan reads the index line by line, each line giving at most one Sno: the text
      from its first `Sno=` to its last `"`. */
  lemma SnosByLine(raw: string)
    ensures IndexSnos(raw) == CapturesByLine("Sno=", "\"", raw)
  {
    FindAllByLine("Sno=", "\"", raw);
  }

  /** A single line holds at most one Sno, the first-`Sno=`-to-last-`"` text. */
  lemma SnoOfOneLine(line: string)
    requires SingleLine(line)
    ensures IndexSnos(line) == FirstToLast("Sno=", "\"", line)
    ensures |IndexSnos(line)| <= 1
  {
    ScanLine("Sno=", "\"", line, []);
    assert line + [] == line;
    LineCaptureFirstToLast("Sno=", "\"", line);
  }

  /** A line `a Sno= v " b` with no 'S' before and no '"' after gives exactly `v`. */
  lemma SnoOfLink(a: string, v: string, b: string)
    requires SingleLine(a + "Sno=" + v + "\"" + b)
    requires 'S' !in a && '"' !in b
    ensures IndexSnos(a + "Sno=" + v + "\"" + b) == [v]
  {
    SnoOfOneLine(a + "Sno=" + v + "\"" + b);
    FirstToLastOfLink("Sno=", "\"", a, v, b);
  }

  /** Lines are independent: the Snos of two lines are those of each, in order. */
  lemma SnosOfTwoLines(l1: string, l2: string)
    requires SingleLine(l1)
    ensures IndexSnos(l1 + "\n" + l2) == IndexSnos(l1) + IndexSnos(l2)
  {
    FindAllTwoLines("Sno=", "\"", l1, l2);
  }

  /** The start of an event link on the index page, up to its `Sno=`, in four pieces. */
  const Head1 := "<a class=\"justify"
  const Head2 := "-content-center\" "
  const Head3 := "href=\"/Activity/"
  const Head4 := "Home/Event?"
  const LinkHead := Head1 + Head2 + Head3 + Head4

  lemma LinkHeadFacts()
    ensures 'S' !in LinkHead && SingleLine(LinkHead + "Sno=") && SingleLine("\">")
  {
    Head12Facts();
    Head34Facts();
    assert '\n' !in LinkHead + "Sno=";
    NoNewlineSingleLine(LinkHead + "Sno=");
    NoNewlineSingleLine("\">");
  }

  lemma Head12Facts()
    ensures 'S' !in Head1 && '\n' !in Head1 && 'S' !in Head2 && '\n' !in Head2
  {
  }

  lemma Head34Facts()
    ensures 'S' !in Head3 && '\n' !in Head3 && 'S' !in Head4 && '\n' !in Head4
  {
  }

  /** An event link of the index page, for the Sno `v`. */
  function EventLink(v: string): string
  {
    LinkHead + "Sno=" + v + "\">"
  }

  lemma EventLinkSno(v: string)
    requires SingleLine(v)
    ensures SingleLine(EventLink(v))
    ensures IndexSnos(EventLink(v)) == [v]
  {
    LinkHeadFacts();
    SingleLineJoin(LinkHead + "Sno=", v, "\">");
    assert EventLink(v) == LinkHead + "Sno=" + v + "\"" + ">";
    SnoOfLink(LinkHead, v, ">");
  }

  lemma SingleLineJoin(x: string, y: string, z: string)
    requires SingleLine(x) && SingleLine(y) && SingleLine(z)
    ensures SingleLine(x + y + z)
  {
    assert forall i :: 0 <= i < |x + y + z| ==>
      (x + y + z)[i] == if i < |x| then x[i] else if i < |x| + |y| then y[i - |x|] else z[i - |x| - |y|];
  }

  /** The same link on two lines gives the Sno twice, and deduplication keeps it once. */
  lemma SameLinkTwice(chosen: seq<string>)
    requires Selected(IndexSnos(EventLink("ABC123") + "\n" + EventLink("ABC123")), -1, chosen)
    ensures IndexSnos(EventLink("ABC123") + "\n" + EventLink("ABC123")) == ["ABC123", "ABC123"]
    ensures chosen == ["ABC123"]
  {
    var link := EventLink("ABC123");
    assert SingleLine("ABC123");
    EventLinkSno("ABC123");
    SnosOfTwoLines(link, link);
    OnlyOneValue(["ABC123", "ABC123"], chosen, "ABC123");
  }

  /** Two links on ONE line: the greedy group runs from the first `Sno=` to the last `"`,
      so the line yields a single identifier spanning both links. */
  lemma SameLineJoinsLinks(v: string, w: string)
    requires SingleLine(v) && SingleLine(w)
    ensures IndexSnos(EventLink(v) + EventLink(w)) == [v + "\">" + LinkHead + "Sno=" + w]
  {
    var x := v + "\">" + LinkHead + "Sno=" + w;
    LinkHeadFacts();
    SingleLineJoin(v + "\">", LinkHead + "Sno=", w);
    assert v + "\">" + (LinkHead + "Sno=") + w == x;
    assert SingleLine(v + "\">") by { SingleLineJoin(v, "\">", []); assert v + "\">" + [] == v + "\">"; }
    SingleLineJoin(LinkHead + "Sno=", x, "\">");
    assert EventLink(v) + EventLink(w) == LinkHead + "Sno=" + x + "\"" + ">";
    SnoOfLink(LinkHead, x, ">");
  }

  // ----- dedup or cap -----

  /** When every extracted Sno is the same `v`, deduplication leaves `[v]`. */
  lemma OnlyOneValue(snos: seq<string>, chosen: seq<string>, v: string)
    requires snos != [] && forall i :: 0 <= i < |snos| ==> snos[i] == v
    requires Selected(snos, -1, chosen)
    ensures chosen == [v]
  {
    assert snos[0] in snos;
    assert v in chosen;
    forall i | 0 <= i < |chosen| ensures chosen[i] == v {
      assert chosen[i] in snos;
    }
    if |chosen| > 1 {
      FirstTwoEqual(chosen, v);
      assert false;
    }
  }

  lemma FirstTwoEqual(xs: seq<string>, v: string)
    ensures (|xs| > 1 && forall i :: 0 <= i < |xs| ==> xs[i] == v) ==> xs[0] == xs[1]
  {
  }

  /** Under a cap the Snos are a prefix of the extracted ones in their order: nothing is
      deduplicated, and `min(max_item, |Snos|)` of them are kept. */
  lemma CapIsPrefix(snos: seq<string>, maxItem: int, chosen: seq<string>)
    requires maxItem >= 0 && Selected(snos, maxItem, chosen)
    ensures chosen <= snos
    ensures |chosen| == if maxItem <= |snos| then maxItem else |snos|
    ensures forall i :: 0 <= i < |chosen| ==> chosen[i] == snos[i]
  {
  }

  /** A cap of two on ["A", "A", "B"] processes "A" twice. */
  lemma CapKeepsDuplicates(chosen: seq<string>)
    requires Selected(["A", "A", "B"], 2, chosen)
    ensures chosen == ["A", "A"]
  {
    assert ["A", "A", "B"][..2] == ["A", "A"];
  }

  /** A negative cap other than -1 drops that many Snos from the end. */
  lemma NegativeCapDropsFromEnd(snos: seq<string>, maxItem: int, chosen: seq<string>)
    requires maxItem < -1 && Selected(snos, maxItem, chosen)
    ensures chosen <= snos
    ensures |chosen| == if -maxItem <= |snos| then |snos| + maxItem else 0
  {
  }

  // ----- records -----

  /** The record's url is the event URL of its Sno; its title and content only lose characters
      (the stripper deletes, never inserts). */
  lemma EventFields(cc: Classes, site: Site, sno: string)
    requires EventRecord(cc, site, sno).Ok?
    ensures var url := EventPrefix + sno;
      var rec := EventRecord(cc, site, sno).value;
      url in site && rec.url == url && rec.date.None?
      && FindAll("<h2>", "</h2>", site[url].raw) != []
      && IsSubsequence(rec.title, FindAll("<h2>", "</h2>", site[url].raw)[0])
      && site[url].blogMain.Some?
      && IsSubsequence(rec.content, Strip(cc, site[url].blogMain.value))
  {
  }

  /** The title comes from the first line with an `<h2>...</h2>`; a page without one aborts. */
  lemma EventTitle(cc: Classes, site: Site, sno: string, line: string, rest: string)
    requires EventPrefix + sno in site
    requires site[EventPrefix + sno].raw == line + rest
    requires SingleLine(line) && (rest == [] || rest[0] == '\n')
    ensures FirstToLast("<h2>", "</h2>", line) != [] && site[EventPrefix + sno].blogMain.Some? ==>
      EventRecord(cc, site, sno).Ok?
      && EventRecord(cc, site, sno).value.title == Sanitize(cc, FirstToLast("<h2>", "</h2>", line)[0])
    ensures FindAll("<h2>", "</h2>", line + rest) == [] ==>
      EventRecord(cc, site, sno) == Err(NoTitle(EventPrefix + sno))
  {
    ScanLine("<h2>", "</h2>", line, rest);
    LineCaptureFirstToLast("<h2>", "</h2>", line);
  }

  /** Wherever the heading sits in the page, the title is the stripped-of-references text of
      the first line holding an `<h2>...</h2>`: the first capture of the per-line reading. */
  lemma EventTitleOfPage(cc: Classes, site: Site, sno: string)
    requires EventPrefix + sno in site && site[EventPrefix + sno].blogMain.Some?
    requires CapturesByLine("<h2>", "</h2>", site[EventPrefix + sno].raw) != []
    ensures EventRecord(cc, site, sno).Ok?
    ensures EventRecord(cc, site, sno).value.title
         == Sanitize(cc, CapturesByLine("<h2>", "</h2>", site[EventPrefix + sno].raw)[0])
  {
    var raw := site[EventPrefix + sno].raw;
    HeadingTagFacts();
    FindAllByLine("<h2>", "</h2>", raw);
    TitleOfFirstCapture(cc, site, sno);
  }

  lemma HeadingTagFacts()
    ensures "<h2>" != [] && "</h2>" != [] && SingleLine("<h2>") && SingleLine("</h2>")
  {
    NoNewlineSingleLine("<h2>");
    NoNewlineSingleLine("</h2>");
  }

  lemma TitleOfFirstCapture(cc: Classes, site: Site, sno: string)
    requires EventPrefix + sno in site && site[EventPrefix + sno].blogMain.Some?
    requires FindAll("<h2>", "</h2>", site[EventPrefix + sno].raw) != []
    ensures EventRecord(cc, site, sno).Ok?
    ensures EventRecord(cc, site, sno).value.title
         == Sanitize(cc, FindAll("<h2>", "</h2>", site[EventPrefix + sno].raw)[0])
  {
  }

  /** One record per chosen Sno, in the chosen order; with `max_item == -1` no event is
      fetched twice, so no two records share a url. */
  lemma EventsFollowSnos(cc: Classes, site: Site, chosen: seq<string>)
    requires Traverse(EventStep(cc, site), chosen).Ok?
    ensures var recs := Traverse(EventStep(cc, site), chosen).value;
      |recs| == |chosen|
      && (forall i :: 0 <= i < |chosen| ==> recs[i].url == EventPrefix + chosen[i])
      && (NoDuplicates(chosen) ==> forall i, j :: 0 <= i < j < |recs| ==> recs[i].url != recs[j].url)
  {
    var recs := Traverse(EventStep(cc, site), chosen).value;
    TraverseOk(EventStep(cc, site), chosen);
    forall i | 0 <= i < |chosen| ensures recs[i].url == EventPrefix + chosen[i] {
      EventFields(cc, site, chosen[i]);
    }
    if NoDuplicates(chosen) {
      forall i, j | 0 <= i < j < |recs| ensures recs[i].url != recs[j].url {
        assert (EventPrefix + chosen[i])[|EventPrefix|..] == chosen[i];
        assert (EventPrefix + chosen[j])[|EventPrefix|..] == chosen[j];
      }
    }
  }
}
