/** `Line.fetchUrl` and `Line.fetchSchedule` (Line.js:20-143) without the
    browser: the listing section a line identifier belongs to, the lookup of
    the line's page among the listing's anchors, and the schedule read from
    that page. Loading a page is a parameter, `Site`, which either yields the
    parts of the page the scripts look at or throws. */
module Line {
  import opened Types
  import opened Text
  import opened Schedule

  const BaseUrl: string := "https://ctpcj.ro/index.php/ro/orare-linii/"

  /** The path segment of each listing section. */
  function Suffix(t: LineType): string {
    match t
    case Metropolitan => "linii-metropolitane/"
    case Night => "transport-noapte/"
    case Express => "linie-expres/"
    case Supermarket => "linii-supermarket/"
    case Urban => "linii-urbane/"
  }

  /** `id[0] === c`; for the empty identifier `id[0]` is undefined. */
  predicate FirstIs(id: LineId, c: char) {
    |id| > 0 && id[0] == c
  }

  /** `id.at(-1) === c`; for the empty identifier `at(-1)` is undefined. */
  predicate LastIs(id: LineId, c: char) {
    |id| > 0 && id[|id| - 1] == c
  }

  /** Whether the rule of a section fires on an identifier, on its own. */
  predicate Matches(t: LineType, id: LineId) {
    match t
    case Metropolitan => FirstIs(id, 'M')
    case Night => LastIs(id, 'N')
    case Express => LastIs(id, 'E')
    case Supermarket => StartsWith(id, "99")
    case Urban => true
  }

  /** The order in which the switch of Line.js:22-38 tries the rules. */
  const RuleOrder: seq<LineType> := [Metropolitan, Night, Express, Supermarket, Urban]

  /** The place of a section's rule in `RuleOrder`. */
  function Rank(t: LineType): (i: nat)
    ensures i < |RuleOrder| && RuleOrder[i] == t
  {
    match t
    case Metropolitan => 0
    case Night => 1
    case Express => 2
    case Supermarket => 3
    case Urban => 4
  }

  /** The first rule of `rules` that fires, if any: the generic reading of an
      ordered `switch (true)`. */
  function FirstMatch(rules: seq<LineType>, id: LineId): Option<LineType>
    decreases |rules|
  {
    if |rules| == 0 then None
    else if Matches(rules[0], id) then Some(rules[0])
    else FirstMatch(rules[1..], id)
  }

  /** The section of Line.js:22-38. Every identifier, the empty one
      included, gets exactly one section: the one whose rule fires first. */
  function Classify(id: LineId): (t: LineType)
    ensures Matches(t, id)
    ensures forall k :: 0 <= k < Rank(t) ==> !Matches(RuleOrder[k], id)
    ensures t == Metropolitan <==> FirstIs(id, 'M')
    ensures t == Night <==> !FirstIs(id, 'M') && LastIs(id, 'N')
    ensures t == Express <==> !FirstIs(id, 'M') && LastIs(id, 'E')
    ensures t == Supermarket <==> StartsWith(id, "99") && !LastIs(id, 'N') && !LastIs(id, 'E')
    ensures t == Urban <==>
      !FirstIs(id, 'M') && !LastIs(id, 'N') && !LastIs(id, 'E') && !StartsWith(id, "99")
  {
    if FirstIs(id, 'M') then Metropolitan
    else if LastIs(id, 'N') then Night
    else if LastIs(id, 'E') then Express
    else if StartsWith(id, "99") then Supermarket
    else Urban
  }

  lemma {:induction false} FirstMatchIsFirst(rules: seq<LineType>, id: LineId, i: nat)
    requires i < |rules| && Matches(rules[i], id)
    requires forall k :: 0 <= k < i ==> !Matches(rules[k], id)
    ensures FirstMatch(rules, id) == Some(rules[i])
    decreases i
  {
    if i > 0 {
      FirstMatchIsFirst(rules[1..], id, i - 1);
    }
  }

  /** The switch is the first-match reading of the rule table. */
  lemma ClassifyIsFirstMatch(id: LineId)
    ensures FirstMatch(RuleOrder, id) == Some(Classify(id))
  {
    FirstMatchIsFirst(RuleOrder, id, Rank(Classify(id)));
  }

  /** The listing page searched for an identifier. */
  function ListingUrl(id: LineId): (url: string)
    ensures StartsWith(url, BaseUrl)
  {
    BaseUrl + Suffix(Classify(id))
  }

  /** The section a listing URL belongs to, read back from its suffix. */
  function SectionOf(url: string): Option<LineType> {
    if !StartsWith(url, BaseUrl) then None
    else
      var rest := url[|BaseUrl|..];
      if rest == Suffix(Metropolitan) then Some(Metropolitan)
      else if rest == Suffix(Night) then Some(Night)
      else if rest == Suffix(Express) then Some(Express)
      else if rest == Suffix(Supermarket) then Some(Supermarket)
      else if rest == Suffix(Urban) then Some(Urban)
      else None
  }

  /** The URL names the section: the section can be read back from it, so
      different sections never share a listing page. */
  lemma ListingUrlNamesSection(id: LineId)
    ensures SectionOf(ListingUrl(id)) == Some(Classify(id))
  {
    var url := ListingUrl(id);
    assert url[..|BaseUrl|] == BaseUrl;
    assert url[|BaseUrl|..] == Suffix(Classify(id));
  }

  lemma SameListingSameSection(a: LineId, b: LineId)
    ensures ListingUrl(a) == ListingUrl(b) <==> Classify(a) == Classify(b)
  {
    ListingUrlNamesSection(a);
    ListingUrlNamesSection(b);
  }

  /** The examples of the rule priorities: a leading "M" wins over a
      trailing "E", a trailing "N" or "E" wins over a leading "99", and only
      what no rule claims is urban. */
  lemma ClassifyExamples()
    ensures Classify("M3E") == Metropolitan
    ensures Classify("M24N") == Metropolitan
    ensures Classify("99N") == Night
    ensures Classify("99E") == Express
    ensures Classify("99B") == Supermarket
    ensures Classify("7") == Urban
    ensures Classify("9") == Urban
    ensures Classify("") == Urban
  {
    assert !StartsWith("9", "99");
    assert !StartsWith("", "99");
    assert StartsWith("99B", "99") by {
      assert "99B"[..2] == "99";
    }
  }

  /** One `div.tzPortfolio a`: its text content and its resolved `href`. */
  datatype Anchor = Anchor(text: string, href: string)

  /** The anchor's text contains a space followed by the identifier. */
  predicate Mentions(a: Anchor, id: LineId) {
    Includes(a.text, " " + id)
  }

  function NotFound(id: LineId): HttpError {
    HttpError(404, "Line " + id + " not found")
  }

  /** The evaluator of Line.js:56-68: the `href` of the first anchor, in
      document order, whose text mentions the identifier; the 404 record when
      none does. */
  function FindLine(anchors: seq<Anchor>, id: LineId): (r: Result<string>)
    ensures r.Ok? <==> exists i :: 0 <= i < |anchors| && Mentions(anchors[i], id)
    ensures r.Ok? ==> exists i :: (0 <= i < |anchors| && Mentions(anchors[i], id)
                                   && r.value == anchors[i].href
                                   && forall k :: 0 <= k < i ==> !Mentions(anchors[k], id))
    ensures r.Err? ==> r.error == NotFound(id)
    decreases |anchors|
  {
    if |anchors| == 0 then Err(NotFound(id))
    else if Mentions(anchors[0], id) then Ok(anchors[0].href)
    else
      var r := FindLine(anchors[1..], id);
      assert forall i :: 1 <= i < |anchors| ==> anchors[i] == anchors[1..][i - 1];
      r
  }

  /** The `for ... of` loop itself, which returns from inside. */
  method ScanAnchors(anchors: seq<Anchor>, id: LineId) returns (r: Result<string>)
    ensures r == FindLine(anchors, id)
  {
    var i := 0;
    while i < |anchors|
      invariant 0 <= i <= |anchors|
      invariant FindLine(anchors, id) == FindLine(anchors[i..], id)
    {
      if Mentions(anchors[i], id) {
        return Ok(anchors[i].href);
      }
      assert anchors[i..][1..] == anchors[i + 1..];
      i := i + 1;
    }
    return Err(NotFound(id));
  }

  /** Matching is by substring, not by whole number: "3" is found inside
      "Linia 35", so the page of line 35 is returned when it comes first. */
  lemma PrefixOfLongerNumberMatches()
    ensures FindLine([Anchor("Linia 35", "/35"), Anchor("Linia 3", "/3")], "3") == Ok("/35")
  {
    var a := Anchor("Linia 35", "/35");
    assert OccursAt(a.text, " 3", 5) by {
      assert a.text[5..7] == " 3";
    }
    IncludesIffOccurs(a.text, " 3");
    assert " " + "3" == " 3";
  }

  /** The parts of a loaded page the scripts read: the anchors inside the
      `div.tzPortfolio` elements, `None` when there is no such element, and
      the `table.tztable` elements in document order. */
  datatype Page = Page(portfolio: Option<seq<Anchor>>, tables: seq<Table>)

  /** `page.goto(url)`: the loaded page, or the exception navigation threw. */
  type Site = string -> Outcome<Page>

  /** What `waitForSelector` throws when the element never appears. */
  function Timeout(selector: string): string {
    "Waiting for selector `" + selector + "` failed"
  }

  /** The TypeError of `currentTable.querySelector` when the day's table
      does not exist. */
  const NoSuchTable: string := "Cannot read properties of undefined (reading 'querySelector')"

  /** `Line.fetchUrl` (Line.js:20-72): open the listing of the identifier's
      section, wait for the portfolio and look the line up there. */
  function FetchUrl(site: Site, id: LineId): (r: Outcome<Result<string>>)
    ensures site(ListingUrl(id)).Threw? ==> r == Threw(site(ListingUrl(id)).message)
    ensures site(ListingUrl(id)).Returned? ==>
      var page := site(ListingUrl(id)).result;
      && (page.portfolio.None? ==> r == Threw(Timeout("div.tzPortfolio")))
      && (page.portfolio.Some? ==>
            && r.Returned?
            && (r.result.Ok? <==> exists i :: 0 <= i < |page.portfolio.value| && Mentions(page.portfolio.value[i], id))
            && (r.result.Ok? ==> exists i :: (0 <= i < |page.portfolio.value| && Mentions(page.portfolio.value[i], id)
                  && r.result.value == page.portfolio.value[i].href
                  && forall k :: 0 <= k < i ==> !Mentions(page.portfolio.value[k], id)))
            && (r.result.Err? ==> r.result.error == NotFound(id)))
  {
    match site(ListingUrl(id))
    case Threw(m) => Threw(m)
    case Returned(page) =>
      if page.portfolio.None? then Threw(Timeout("div.tzPortfolio"))
      else Returned(FindLine(page.portfolio.value, id))
  }

  /** The schedule script of Line.js:99-139 on a loaded page, for the day
      the extraction runs on. */
  function ReadSchedule(page: Page, day: Weekday): (r: Outcome<Timetable>)
    ensures |page.tables| > TableIndex(day) ==> r == Transposed(page.tables[TableIndex(day)])
    ensures |page.tables| <= TableIndex(day) ==> r.Threw?
  {
    if |page.tables| == 0 then Threw(Timeout("table.tztable"))
    else if TableIndex(day) >= |page.tables| then Threw(NoSuchTable)
    else Transposed(page.tables[TableIndex(day)])
  }

  /** `Line.fetchSchedule` (Line.js:78-143). The only error record it
      returns is the lookup's 404; every other failure is an exception. */
  function FetchSchedule(site: Site, day: Weekday, id: LineId): (r: Outcome<Result<Timetable>>)
    ensures FetchUrl(site, id).Threw? ==> r == Threw(FetchUrl(site, id).message)
    ensures FetchUrl(site, id).Returned? && FetchUrl(site, id).result.Err? ==>
      r == Returned(Err(FetchUrl(site, id).result.error))
    ensures r.Returned? && r.result.Err? ==> r.result.error == NotFound(id)
    ensures r.Returned? && r.result.Ok? ==>
      && FetchUrl(site, id).Returned? && FetchUrl(site, id).result.Ok?
      && site(FetchUrl(site, id).result.value).Returned?
      && ReadSchedule(site(FetchUrl(site, id).result.value).result, day) == Returned(r.result.value)
    ensures FetchUrl(site, id).Returned? && FetchUrl(site, id).result.Ok? ==>
      var found := site(FetchUrl(site, id).result.value);
      && (found.Threw? ==> r == Threw(found.message))
      && (found.Returned? && ReadSchedule(found.result, day).Threw? ==> r.Threw?)
      && (found.Returned? && ReadSchedule(found.result, day).Returned? ==>
            r == Returned(Ok(ReadSchedule(found.result, day).result)))
  {
    match FetchUrl(site, id)
    case Threw(m) => Threw(m)
    case Returned(Err(e)) => Returned(Err(e))
    case Returned(Ok(url)) =>
      match site(url)
      case Threw(m) => Threw(m)
      case Returned(page) =>
        match ReadSchedule(page, day)
        case Threw(m) => Threw(m)
        case Returned(s) => Returned(Ok(s))
  }

  /** When the lookup fails, no schedule page is loaded: two sites that
      agree on the listing page give the same answer, whatever their other
      pages hold. */
  lemma LookupErrorLoadsNothingElse(site1: Site, site2: Site, day: Weekday, id: LineId)
    requires site1(ListingUrl(id)) == site2(ListingUrl(id))
    requires FetchUrl(site1, id).Threw? || FetchUrl(site1, id).result.Err?
    ensures FetchSchedule(site1, day, id) == FetchSchedule(site2, day, id)
  {
  }

  /** A found line whose page carries the day's table yields that table,
      read cell by cell. */
  lemma ScheduleOfDay(site: Site, day: Weekday, id: LineId)
    requires FetchUrl(site, id).Returned? && FetchUrl(site, id).result.Ok?
    requires site(FetchUrl(site, id).result.value).Returned?
    requires TableIndex(day) < |site(FetchUrl(site, id).result.value).result.tables|
    ensures var tables := site(FetchUrl(site, id).result.value).result.tables;
      && (Transposed(tables[TableIndex(day)]).Returned? ==>
           FetchSchedule(site, day, id) == Returned(Ok(Transposed(tables[TableIndex(day)]).result)))
      && (Transposed(tables[TableIndex(day)]).Threw? ==> FetchSchedule(site, day, id).Threw?)
  {
  }
}
