/** The content extractor: from the candidate strings a fetched page offers,
    choose the article body and the metadata, clean them, and report the
    failures of a fetch with a message that names the url. The HTML parsing
    itself is not part of this model; a page is given as the strings the
    selectors would have produced. */
module ContentExtractor {

  import opened Results
  import opened Text

  /** An element the selectors found: the texts of its `p` descendants and
      its whole text. */
  datatype Element = Element(paragraphs: seq<string>, text: string)

  /** What the selectors return on a fetched page, after scripts, navigation
      and the other unwanted elements have been removed. Strings come from
      `.text()` (empty when nothing matched); `Option`s come from
      `.attr(...)` (absent when nothing matched). */
  datatype Page = Page(
    h1Text: string,
    titleText: string,
    ogTitle: Option<string>,
    container: Option<Element>,
    blocks: seq<Element>,
    paragraphs: seq<string>,
    metaAuthor: Option<string>,
    relAuthorText: string,
    authorClassText: string,
    metaPublished: Option<string>,
    timeDatetime: Option<string>,
    timeText: string,
    dateClassText: string,
    metaDescription: Option<string>,
    ogDescription: Option<string>,
    ogImage: Option<string>,
    articleImageSrc: Option<string>,
    imageSrc: Option<string>)

  /** What fetching a url came to: a page, or a failure with its error code
      (empty when there is none), the HTTP status of the response (when there
      was one) and the error message. */
  datatype FetchOutcome = Fetched(page: Page) | FetchFailed(code: string, status: Option<nat>, message: string)

  datatype ScrapedPage = ScrapedPage(
    url: string,
    title: string,
    content: string,
    author: string,
    publishDate: string,
    description: string,
    image: string,
    wordCount: nat,
    scrapedAt: nat)

  datatype ScrapeError = ScrapeError(url: string, error: string)

  datatype ScrapeBatch = ScrapeBatch(success: seq<ScrapedPage>, errors: seq<ScrapeError>)

  /** Below this many characters a candidate body is not good enough. */
  const MinBody: nat := 200
  const MaxContent: nat := 50000
  const MaxText: nat := 500
  const ParagraphSep := "\n\n"

  // ---------------------------------------------------------------------------
  // Cleaning
  // ---------------------------------------------------------------------------

  /** `cleanContent`: collapse whitespace runs to one space, trim, and cut to
      50 000 characters. The rule that folds three line breaks into two
      comes after the collapse, which leaves no line break behind, so it
      never applies and is not modelled. */
  function CleanContent(t: string): (r: string)
    ensures t == "" ==> r == ""
    ensures |r| <= MaxContent
    ensures |r| > 0 ==> !IsWs(r[0])
    ensures SingleSpaced(r)
    ensures forall i :: 0 <= i < |r| ==> r[i] != '\n'
    ensures r == "" <==> AllWs(t)
  {
    if t == "" then ""
    else
      var c := CollapseWs(t);
      var m := Trim(c);
      SingleSpacedSlice(c, TrimOffset(c), TrimOffset(c) + |m|);
      SingleSpacedSlice(m, 0, |Take(m, MaxContent)|);
      CollapseAllWs(t);
      Take(m, MaxContent)
  }

  /** Collapsing keeps a string all-whitespace exactly when it was. */
  lemma {:induction false} CollapseAllWs(t: string)
    ensures AllWs(CollapseWs(t)) <==> AllWs(t)
    decreases |t|
  {
    if |t| == 0 {
    } else if IsWs(t[0]) {
      var u := TrimStart(t);
      CollapseAllWs(u);
      var c := CollapseWs(u);
      assert CollapseWs(t) == " " + c;
      assert AllWs(" " + c) <==> AllWs(c) by {
        assert forall i :: 0 <= i < |c| ==> (" " + c)[i + 1] == c[i];
      }
      assert AllWs(t) <==> AllWs(u) by {
        assert forall i :: 0 <= i < |u| ==> t[|t| - |u| + i] == u[i];
      }
    } else {
      assert !AllWs(t);
      assert CollapseWs(t)[0] == t[0];
    }
  }

  /** `cleanText`: trim, collapse whitespace runs to one space, and cut to
      500 characters. */
  function CleanText(t: string): (r: string)
    ensures |r| <= MaxText
    ensures |r| > 0 ==> !IsWs(r[0])
    ensures SingleSpaced(r)
    ensures r == "" <==> AllWs(t)
    ensures |CollapseWs(Trim(t))| <= MaxText ==> Tight(r) || r == ""
  {
    if t == "" then ""
    else
      var m := Trim(t);
      var c := CollapseWs(m);
      CollapseKeepsEnds(m);
      SingleSpacedSlice(c, 0, |Take(c, MaxText)|);
      Take(c, MaxText)
  }

  /** Collapsing a string with no whitespace at either end leaves none there. */
  lemma {:induction false} CollapseKeepsEnds(m: string)
    requires |m| == 0 || (!IsWs(m[0]) && !IsWs(m[|m| - 1]))
    ensures var c := CollapseWs(m); |c| == 0 || (!IsWs(c[0]) && !IsWs(c[|c| - 1]))
    decreases |m|
  {
    if |m| > 1 {
      var rest := m[1..];
      if IsWs(rest[0]) {
        var u := TrimStart(rest);
        assert |u| > 0 && u[|u| - 1] == m[|m| - 1];
        CollapseKeepsEnds(u);
      } else {
        CollapseKeepsEnds(rest);
      }
    }
  }

  /** `cleanContent` is the scan's replacement, trimmed and cut to 50,000
      characters: it keeps the page's visible characters in order, all of
      them when the cut does not bite and a leading part of them when it
      does. */
  lemma CleanContentSpec(t: string)
    ensures CleanContent(t) == Take(Trim(Squeeze(t, false)), MaxContent)
    ensures Visible(CleanContent(t)) <= Visible(t)
    ensures |Trim(Squeeze(t, false))| <= MaxContent ==> Visible(CleanContent(t)) == Visible(t)
  {
    CollapseIsSqueeze(t);
    var m := Trim(CollapseWs(t));
    CollapseKeepsVisible(t);
    TrimKeepsVisible(CollapseWs(t));
    VisiblePrefix(m, |Take(m, MaxContent)|);
  }

  /** `cleanText` trims first, then replaces whitespace runs and cuts to 500
      characters, keeping the visible characters in order. */
  lemma CleanTextSpec(t: string)
    ensures CleanText(t) == Take(Squeeze(Trim(t), false), MaxText)
    ensures Visible(CleanText(t)) <= Visible(t)
    ensures |Squeeze(Trim(t), false)| <= MaxText ==> Visible(CleanText(t)) == Visible(t)
  {
    CollapseIsSqueeze(Trim(t));
    var c := CollapseWs(Trim(t));
    CollapseKeepsVisible(Trim(t));
    TrimKeepsVisible(t);
    VisiblePrefix(c, |Take(c, MaxText)|);
  }

  // ---------------------------------------------------------------------------
  // Choosing the body
  // ---------------------------------------------------------------------------

  function TrimAll(ps: seq<string>): (r: seq<string>)
    ensures |r| == |ps| && forall i :: 0 <= i < |ps| ==> r[i] == Trim(ps[i])
  {
    if |ps| == 0 then [] else [Trim(ps[0])] + TrimAll(ps[1..])
  }

  /** `extractTextContent`: the trimmed paragraph texts separated by blank
      lines, or the element's trimmed text when it has no paragraph. The
      heading texts it also computes are never used and are not modelled. */
  function ExtractText(e: Element): (r: string)
    ensures |e.paragraphs| > 0 ==> r == Join(TrimAll(e.paragraphs), ParagraphSep)
    ensures |e.paragraphs| == 0 ==> r == Trim(e.text)
  {
    if |e.paragraphs| > 0 then Join(TrimAll(e.paragraphs), ParagraphSep) else Trim(e.text)
  }

  /** The visible characters of every paragraph, paragraph after paragraph. */
  function VisibleOfAll(ps: seq<string>): (r: string)
  {
    if |ps| == 0 then "" else Visible(ps[0]) + VisibleOfAll(ps[1..])
  }

  /** Trimming the paragraphs and joining them with blank lines removes and
      adds whitespace only. */
  lemma {:induction false} JoinTrimmedVisible(ps: seq<string>)
    ensures Visible(Join(TrimAll(ps), ParagraphSep)) == VisibleOfAll(ps)
    decreases |ps|
  {
    if |ps| == 1 {
      TrimKeepsVisible(ps[0]);
      assert VisibleOfAll(ps) == Visible(ps[0]) + VisibleOfAll(ps[1..]);
    } else if |ps| > 1 {
      var t := TrimAll(ps);
      assert t[1..] == TrimAll(ps[1..]);
      JoinTrimmedVisible(ps[1..]);
      TrimKeepsVisible(ps[0]);
      VisibleAppend(t[0] + ParagraphSep, Join(t[1..], ParagraphSep));
      VisibleAppend(t[0], ParagraphSep);
      VisibleAllWs(ParagraphSep);
    }
  }

  /** An element's text keeps exactly the visible characters of its
      paragraphs, in order, or of its whole text when it has none; in that
      case the text is empty or starts and ends with non-whitespace. */
  lemma ExtractTextSpec(e: Element)
    ensures |e.paragraphs| > 0 ==> Visible(ExtractText(e)) == VisibleOfAll(e.paragraphs)
    ensures |e.paragraphs| == 0 ==> Visible(ExtractText(e)) == Visible(e.text)
    ensures |e.paragraphs| == 0 ==> ExtractText(e) == "" || Tight(ExtractText(e))
  {
    JoinTrimmedVisible(e.paragraphs);
    TrimKeepsVisible(e.text);
  }

  function BlockTexts(blocks: seq<Element>): (r: seq<string>)
    ensures |r| == |blocks| && forall i :: 0 <= i < |blocks| ==> r[i] == ExtractText(blocks[i])
  {
    if |blocks| == 0 then [] else [ExtractText(blocks[0])] + BlockTexts(blocks[1..])
  }

  /** The scan over `div, section` texts: a text replaces the current best only
      when it is strictly longer, so the first of the longest texts wins. */
  function Longest(texts: seq<string>, best: string): (r: string)
    ensures |r| >= |best|
    ensures forall i :: 0 <= i < |texts| ==> |texts[i]| <= |r|
    ensures (forall i :: 0 <= i < |texts| ==> |texts[i]| <= |best|) ==> r == best
    ensures (exists i :: 0 <= i < |texts| && |texts[i]| > |best|) ==>
      exists k :: 0 <= k < |texts| && texts[k] == r && forall j :: 0 <= j < k ==> |texts[j]| < |r|
  {
    if |texts| == 0 then best
    else if |texts[0]| > |best| then
      var r := Longest(texts[1..], texts[0]);
      assert forall i :: 1 <= i < |texts| ==> texts[i] == texts[1..][i - 1];
      if exists i :: 0 <= i < |texts[1..]| && |texts[1..][i]| > |texts[0]| then
        var k :| 0 <= k < |texts[1..]| && texts[1..][k] == r && forall j :: 0 <= j < k ==> |texts[1..][j]| < |r|;
        assert texts[k + 1] == r;
        r
      else
        assert texts[0] == r;
        r
    else
      var r := Longest(texts[1..], best);
      assert forall i :: 1 <= i < |texts| ==> texts[i] == texts[1..][i - 1];
      if exists i :: 0 <= i < |texts| && |texts[i]| > |best| then
        assert exists i :: 0 <= i < |texts[1..]| && |texts[1..][i]| > |best|;
        var k :| 0 <= k < |texts[1..]| && texts[1..][k] == r && forall j :: 0 <= j < k ==> |texts[1..][j]| < |r|;
        assert texts[k + 1] == r;
        r
      else
        r
  }

  /** The three strategies for the body, each tried only while the text so far
      is shorter than 200 characters: the first article-like container, then
      the longest `div`/`section` text (when some is non-empty), then every
      paragraph of the page. */
  function SelectBody(page: Page): (r: string)
    ensures var first := if page.container.Some? then ExtractText(page.container.value) else "";
      |first| >= MinBody ==> r == first
    ensures |r| >= MinBody || r == Join(TrimAll(page.paragraphs), ParagraphSep)
    ensures var first := if page.container.Some? then ExtractText(page.container.value) else "";
      var texts := BlockTexts(page.blocks);
      |first| < MinBody && (exists i :: 0 <= i < |texts| && |texts[i]| >= MinBody) ==>
        exists k :: 0 <= k < |texts| && texts[k] == r
          && (forall i :: 0 <= i < |texts| ==> |texts[i]| <= |r|)
          && (forall j :: 0 <= j < k ==> |texts[j]| < |r|)
  {
    var first := if page.container.Some? then ExtractText(page.container.value) else "";
    var second :=
      if |first| < MinBody then
        var best := Longest(BlockTexts(page.blocks), "");
        if best == "" then first else best
      else first;
    if |second| < MinBody then Join(TrimAll(page.paragraphs), ParagraphSep) else second
  }

  // ---------------------------------------------------------------------------
  // Scraping one url and many
  // ---------------------------------------------------------------------------

  function Title(page: Page): string {
    FirstNonEmpty([Trim(page.h1Text), Trim(page.titleText), OrEmpty(page.ogTitle)])
  }

  function Author(page: Page): string {
    FirstNonEmpty([OrEmpty(page.metaAuthor), Trim(page.relAuthorText), Trim(page.authorClassText)])
  }

  function PublishDate(page: Page): string {
    FirstNonEmpty([OrEmpty(page.metaPublished), OrEmpty(page.timeDatetime), Trim(page.timeText), Trim(page.dateClassText)])
  }

  function Description(page: Page): string {
    FirstNonEmpty([OrEmpty(page.metaDescription), OrEmpty(page.ogDescription)])
  }

  function Image(page: Page): string {
    FirstNonEmpty([OrEmpty(page.ogImage), OrEmpty(page.articleImageSrc), OrEmpty(page.imageSrc)])
  }

  /** The message a failed fetch is rethrown with: an unresolvable host first,
      then a refusal, then a missing page, then anything else. */
  function FailureMessage(url: string, code: string, status: Option<nat>, message: string): (r: string)
    ensures Contains(r, url)
    ensures code == "ENOTFOUND" ==> r == "Failed to reach " + url + ". URL may be invalid or unreachable."
    ensures code != "ENOTFOUND" && (status == Some(403) || status == Some(401)) ==>
      r == "Access denied to " + url + ". The website may be blocking scrapers."
    ensures code != "ENOTFOUND" && status == Some(404) ==> r == "URL not found: " + url
    ensures code != "ENOTFOUND" && status != Some(403) && status != Some(401) && status != Some(404) ==>
      r == "Failed to scrape content from " + url + ": " + message
  {
    if code == "ENOTFOUND" then
      ContainsMiddle("Failed to reach ", url, ". URL may be invalid or unreachable.");
      "Failed to reach " + url + ". URL may be invalid or unreachable."
    else if status == Some(403) || status == Some(401) then
      ContainsMiddle("Access denied to ", url, ". The website may be blocking scrapers.");
      "Access denied to " + url + ". The website may be blocking scrapers."
    else if status == Some(404) then
      ContainsMiddle("URL not found: ", url, "");
      assert "URL not found: " + url + "" == "URL not found: " + url;
      "URL not found: " + url
    else
      ContainsMiddle("Failed to scrape content from ", url, ": " + message);
      assert "Failed to scrape content from " + url + (": " + message) == "Failed to scrape content from " + url + ": " + message;
      "Failed to scrape content from " + url + ": " + message
  }

  /** `scrapeContent` for one url, given what fetching it came to. */
  function Scrape(url: string, outcome: FetchOutcome, now: nat): (r: Result<ScrapedPage>)
    ensures outcome.Fetched? <==> r.Ok?
    ensures r.Ok? ==> r.value.url == url && r.value.scrapedAt == now
    ensures r.Ok? ==> r.value.content == CleanContent(SelectBody(outcome.page))
    ensures r.Ok? ==> r.value.wordCount == SplitCount(r.value.content)
    ensures r.Ok? ==> |r.value.title| <= MaxText && |r.value.content| <= MaxContent
    ensures r.Err? ==> Contains(r.message, url)
  {
    match outcome
    case FetchFailed(code, status, message) => Err(FailureMessage(url, code, status, message))
    case Fetched(page) =>
      var content := CleanContent(SelectBody(page));
      Ok(ScrapedPage(
        url,
        CleanText(Title(page)),
        content,
        CleanText(Author(page)),
        CleanText(PublishDate(page)),
        CleanText(Description(page)),
        Image(page),
        SplitCount(content),
        now))
  }

  /** Every url scraped on its own; `Promise.allSettled` keeps input order. */
  function Outcomes(urls: seq<string>, fetch: string -> FetchOutcome, now: nat): (r: seq<Result<ScrapedPage>>)
    ensures |r| == |urls| && forall i :: 0 <= i < |urls| ==> r[i] == Scrape(urls[i], fetch(urls[i]), now)
  {
    seq(|urls|, i requires 0 <= i < |urls| => Scrape(urls[i], fetch(urls[i]), now))
  }

  /** The settled outcomes sorted into successes and failures, each failure
      paired with the url at the same position. */
  function Partition(urls: seq<string>, results: seq<Result<ScrapedPage>>): (r: ScrapeBatch)
    requires |results| == |urls|
    ensures |r.success| + |r.errors| == |urls|
  {
    if |urls| == 0 then ScrapeBatch([], [])
    else
      var rest := Partition(urls[1..], results[1..]);
      match results[0]
      case Ok(p) => ScrapeBatch([p] + rest.success, rest.errors)
      case Err(m) => ScrapeBatch(rest.success, [ScrapeError(urls[0], m)] + rest.errors)
  }

  /** Nothing is lost or invented: every success and every failure comes from
      one position, and a failure carries the url of its position. */
  lemma {:induction false} PartitionMembers(urls: seq<string>, results: seq<Result<ScrapedPage>>)
    requires |results| == |urls|
    ensures var r := Partition(urls, results);
      && (forall i :: 0 <= i < |urls| && results[i].Ok? ==> results[i].value in r.success)
      && (forall i :: 0 <= i < |urls| && results[i].Err? ==> ScrapeError(urls[i], results[i].message) in r.errors)
      && (forall p :: p in r.success ==> exists i :: 0 <= i < |urls| && results[i] == Ok(p))
      && (forall e :: e in r.errors ==> exists i :: 0 <= i < |urls| && urls[i] == e.url && results[i] == Err(e.error))
      && (|r.success| == 0 <==> forall i :: 0 <= i < |urls| ==> results[i].Err?)
    decreases |urls|
  {
    if |urls| > 0 {
      PartitionMembers(urls[1..], results[1..]);
      assert forall i :: 1 <= i < |urls| ==> urls[i] == urls[1..][i - 1] && results[i] == results[1..][i - 1];
    }
  }

  /** Input order is kept: partitioning a concatenation lists the first part's
      successes and failures before the second's. */
  lemma {:induction false} PartitionAppend(u1: seq<string>, r1: seq<Result<ScrapedPage>>, u2: seq<string>, r2: seq<Result<ScrapedPage>>)
    requires |u1| == |r1| && |u2| == |r2|
    ensures var p1 := Partition(u1, r1);
      var p2 := Partition(u2, r2);
      Partition(u1 + u2, r1 + r2) == ScrapeBatch(p1.success + p2.success, p1.errors + p2.errors)
    decreases |u1|
  {
    if |u1| == 0 {
      assert u1 + u2 == u2 && r1 + r2 == r2;
    } else {
      assert (u1 + u2)[1..] == u1[1..] + u2;
      assert (r1 + r2)[1..] == r1[1..] + r2;
      assert (u1 + u2)[0] == u1[0] && (r1 + r2)[0] == r1[0];
      PartitionAppend(u1[1..], r1[1..], u2, r2);
    }
  }

  /** `scrapeMultipleUrls`: every url is scraped, and every url ends up either
      among the successes or among the failures, the failures carrying their
      url and a message that names it. */
  function ScrapeMany(urls: seq<string>, fetch: string -> FetchOutcome, now: nat): (r: ScrapeBatch)
    ensures |r.success| + |r.errors| == |urls|
    ensures forall p :: p in r.success ==> p.url in urls
    ensures forall e :: e in r.errors ==> e.url in urls && Contains(e.error, e.url)
    ensures |r.success| == 0 <==> forall i :: 0 <= i < |urls| ==> fetch(urls[i]).FetchFailed?
  {
    var results := Outcomes(urls, fetch, now);
    PartitionMembers(urls, results);
    Partition(urls, results)
  }
}
