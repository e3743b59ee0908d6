/** The enhancement workflow for one stored article: fetch it, search for
    similar pages, scrape them, rewrite the article against them, and save
    the rewrite as a new article. Each step that completes is recorded; the
    first failure ends the run with that failure's message. */
module EnhancementWorkflow {

  import opened Results
  import opened Text
  import opened ArticleModel
  import RF = ReferenceFinder
  import CE = ContentExtractor
  import RE = RewriteEngine

  /** The outside world as the workflow sees it: whether each provider key is
      configured, what the search provider answers for a query, what fetching
      a url comes to, what the language model answers for a prompt, and how a
      url parses. */
  datatype Services = Services(
    searchKeySet: bool,
    search: string -> RF.ProviderReply,
    fetch: string -> CE.FetchOutcome,
    aiKeySet: bool,
    ai: string -> RE.AiReply,
    hostOf: HostOf)

  /** What a completed step records. */
  datatype StepData =
    | FoundOriginal(title: string)
    | Searched(query: string, resultsFound: nat, results: seq<(string, string)>)
    | ScrapedPages(attempted: nat, successful: nat, failed: nat, references: seq<(string, string, nat)>)
    | Rewritten(originalWordCount: nat, enhancedWordCount: nat, readingTime: string)
    | Saved(articleId: Id, title: string)

  /** A completed step; every recorded step has status "completed". */
  datatype Step = Step(number: nat, name: string, data: StepData)

  /** The summary a completed run returns. */
  datatype Summary = Summary(
    originalId: Id,
    originalTitle: string,
    originalWordCount: nat,
    enhancedId: Id,
    enhancedTitle: string,
    enhancedUrl: string,
    wordCount: nat,
    readingTime: string,
    references: seq<RE.Cited>,
    searchResults: nat,
    scrapedArticles: nat)

  /** A run: completed with five steps, a summary and the collection after the
      save, or failed with the steps done so far, the message of the failure,
      and the collection as it stands afterwards. */
  datatype Run =
    | Completed(steps: seq<Step>, result: Summary, store: Store)
    | Failed(steps: seq<Step>, error: string, store: Store)

  const StepNames: seq<string> := [
    "Fetch Original Article", "Google Search", "Scrape Content", "AI Enhancement", "Save to Database"]

  const NoResults := "No search results found on Google"
  /** In two pieces only so that the verifier can read every character. */
  const NothingScraped := "Failed to scrape content " + "from any of the search results"
  const EnhancedMarker := "-enhanced-"

  function NotFound(id: Id): string {
    "Article with ID " + NatToString(id) + " not found"
  }

  function StepAt(number: nat, data: StepData): Step
    requires 1 <= number <= 5
  {
    Step(number, StepNames[number - 1], data)
  }

  /** The url the rewrite is saved under: the original url, the marker, and
      the current time in milliseconds. */
  function EnhancedUrl(url: string, now: Timestamp): string {
    url + EnhancedMarker + NatToString(now)
  }

  /** The links of the search results, in order: the urls to scrape. */
  function Links(results: seq<RF.SearchResult>): (r: seq<string>)
    ensures |r| == |results| && forall i :: 0 <= i < |results| ==> r[i] == results[i].link
  {
    if |results| == 0 then [] else [results[0].link] + Links(results[1..])
  }

  function TitleLinks(results: seq<RF.SearchResult>): (r: seq<(string, string)>)
    ensures |r| == |results|
  {
    if |results| == 0 then [] else [(results[0].title, results[0].link)] + TitleLinks(results[1..])
  }

  /** `results.find(r => r.link === url)`: the position of the first result
      with that link. */
  function FirstWithLink(results: seq<RF.SearchResult>, url: string): (r: Option<nat>)
    ensures r.Some? ==> r.value < |results| && results[r.value].link == url
    ensures r.Some? ==> forall j :: 0 <= j < r.value ==> results[j].link != url
    ensures r.None? <==> forall j :: 0 <= j < |results| ==> results[j].link != url
  {
    if |results| == 0 then None
    else if results[0].link == url then Some(0)
    else
      var r := FirstWithLink(results[1..], url);
      if r.Some? then Some(r.value + 1) else None
  }

  /** A scraped page as a reference: its own title, url, content and word
      count, and the displayed link and snippet of the first search result
      with its url (empty when there is none). */
  function ToReference(page: CE.ScrapedPage, results: seq<RF.SearchResult>): RE.Reference {
    var k := FirstWithLink(results, page.url);
    RE.Reference(
      page.title, page.url, page.content,
      if k.Some? then results[k.value].displayLink else "",
      if k.Some? then results[k.value].snippet else "",
      page.wordCount)
  }

  function References(pages: seq<CE.ScrapedPage>, results: seq<RF.SearchResult>): (r: seq<RE.Reference>)
    ensures |r| == |pages| && forall i :: 0 <= i < |pages| ==> r[i] == ToReference(pages[i], results)
  {
    if |pages| == 0 then [] else [ToReference(pages[0], results)] + References(pages[1..], results)
  }

  function ReferenceSummaries(refs: seq<RE.Reference>): (r: seq<(string, string, nat)>)
    ensures |r| == |refs|
  {
    if |refs| == 0 then [] else [(refs[0].title, refs[0].url, refs[0].wordCount)] + ReferenceSummaries(refs[1..])
  }

  /** The fields the rewrite is created with: its title and content, the
      derived url, the original's image, and the current time as both dates. */
  function EnhancedDraft(original: Article, e: RE.Enhanced, now: Timestamp): Draft {
    Draft(Some(e.title), Some(EnhancedUrl(original.url, now)), Some(original.image), Some(e.content), Some(now), Some(now))
  }

  /** `enhanceSingleArticle`; `now` stands for every reading of the clock
      during the run. Each step below receives the steps completed before it
      and what its own outside call came to. */
  function Enhance(s: Store, id: Id, env: Services, now: Timestamp): (r: Run)
  {
    match FindById(s, id)
    case None => Failed([], NotFound(id), s)
    case Some(original) =>
      SearchStep(s, id, original, env, now, [StepAt(1, FoundOriginal(original.title))],
        RF.SearchArticles(env.searchKeySet, env.search(original.title), env.hostOf))
  }

  /** Step 2: the search for the original's title; no results is a failure. */
  function SearchStep(s: Store, id: Id, original: Article, env: Services, now: Timestamp, done: seq<Step>,
                      found: Result<seq<RF.SearchResult>>): (r: Run)
  {
    match found
    case Err(m) => Failed(done, m, s)
    case Ok(results) =>
      if |results| == 0 then Failed(done, NoResults, s)
      else ScrapeStep(s, id, original, results, env, now,
        done + [StepAt(2, Searched(original.title, |results|, TitleLinks(results)))],
        CE.ScrapeMany(Links(results), env.fetch, now))
  }

  /** Step 3: every search result scraped; the successes become references. */
  function ScrapeStep(s: Store, id: Id, original: Article, results: seq<RF.SearchResult>, env: Services, now: Timestamp,
                      done: seq<Step>, batch: CE.ScrapeBatch): (r: Run)
  {
    if |batch.success| == 0 then Failed(done, NothingScraped, s)
    else
      var refs := References(batch.success, results);
      RewriteStep(s, id, original, now,
        done + [StepAt(3, ScrapedPages(|results|, |batch.success|, |batch.errors|, ReferenceSummaries(refs)))],
        RE.EnhanceArticle(env.aiKeySet, env.ai, RE.Original(original.title, original.content, original.url), refs, env.hostOf),
        |results|, |batch.success|)
  }

  /** Step 4: the rewrite against the references. */
  function RewriteStep(s: Store, id: Id, original: Article, now: Timestamp, done: seq<Step>,
                       rewritten: Result<RE.Enhanced>, found: nat, scraped: nat): (r: Run)
  {
    match rewritten
    case Err(m) => Failed(done, m, s)
    case Ok(e) =>
      SaveStep(s, id, original, e, now,
        done + [StepAt(4, Rewritten(SplitCount(original.content), e.wordCount, e.readingTime))],
        found, scraped, Create(s, EnhancedDraft(original, e, now), now))
  }

  /** Step 5: the rewrite created as a new article. */
  function SaveStep(s: Store, id: Id, original: Article, e: RE.Enhanced, now: Timestamp, done: seq<Step>,
                    found: nat, scraped: nat, written: WriteOutcome): (r: Run)
  {
    match written
    case Refused(err) => Failed(done, WriteMessage(err), s)
    case Written(s', doc) =>
      Completed(done + [StepAt(5, Saved(doc.id, doc.article.title))], Summary(
        id, original.title, SplitCount(original.content),
        doc.id, doc.article.title, doc.article.url, e.wordCount, e.readingTime,
        e.references, found, scraped), s')
  }

  // ---------------------------------------------------------------------------
  // Properties
  // ---------------------------------------------------------------------------

  /** The steps of a run are numbered 1, 2, ... in order and carry the names
      of their positions. */
  predicate InOrder(steps: seq<Step>) {
    |steps| <= 5 && forall i :: 0 <= i < |steps| ==> steps[i].number == i + 1 && steps[i].name == StepNames[i]
  }

  /** What every step promises about the run it continues: the steps stay in
      order after those already done; a failure stops before the fifth step
      and leaves the collection as it was; completion means all five steps. */
  predicate Continues(r: Run, s: Store, done: seq<Step>) {
    && InOrder(r.steps)
    && |done| <= |r.steps|
    && r.steps[..|done|] == done
    && (r.Failed? ==> |r.steps| < 5 && r.store == s)
    && (r.Completed? ==> |r.steps| == 5)
  }

  /** A completed save adds exactly one valid document after the existing
      ones, with the next id and the derived url, and keeps the collection
      invariant. */
  predicate SavedOne(r: Run, s: Store, original: Article, now: Timestamp) {
    r.Completed? ==>
      && |r.store.docs| == |s.docs| + 1
      && r.store.docs[..|s.docs|] == s.docs
      && r.store.docs[|s.docs|].id == s.nextId == r.result.enhancedId
      && r.store.docs[|s.docs|].article.url == EnhancedUrl(original.url, now) == r.result.enhancedUrl
      && Good(r.store)
      && r.result.originalTitle == original.title
  }

  lemma InOrderAppend(done: seq<Step>, data: StepData)
    requires InOrder(done) && |done| < 5
    ensures InOrder(done + [StepAt(|done| + 1, data)])
  {
  }

  /** A write that, when it succeeds, appended one document with the next id
      and the url `url` and kept the invariant. */
  predicate AppendedOne(s: Store, w: WriteOutcome, url: string) {
    w.Written? ==>
      && |w.store.docs| == |s.docs| + 1
      && w.store.docs[..|s.docs|] == s.docs
      && w.store.docs[|s.docs|] == w.doc
      && w.doc.id == s.nextId
      && w.doc.article.url == url
      && Good(w.store)
  }

  lemma SaveStepSpec(s: Store, id: Id, original: Article, e: RE.Enhanced, now: Timestamp, done: seq<Step>, found: nat, scraped: nat, w: WriteOutcome)
    requires Good(s) && InOrder(done) && |done| == 4
    requires AppendedOne(s, w, EnhancedUrl(original.url, now))
    ensures Continues(SaveStep(s, id, original, e, now, done, found, scraped, w), s, done)
    ensures SavedOne(SaveStep(s, id, original, e, now, done, found, scraped, w), s, original, now)
  {
    InOrderAppend(done, Saved(0, ""));
    if w.Written? {
      var steps := done + [StepAt(5, Saved(w.doc.id, w.doc.article.title))];
      assert steps[..|done|] == done;
      assert InOrder(steps);
    }
  }

  /** Saving the rewrite appends one document with the next id and the
      derived url, keeping the invariant. */
  lemma CreateWritten(s: Store, original: Article, e: RE.Enhanced, now: Timestamp)
    requires Good(s) && Valid(original)
    ensures AppendedOne(s, Create(s, EnhancedDraft(original, e, now), now), EnhancedUrl(original.url, now))
  {
    var d := EnhancedDraft(original, e, now);
    CreateSpec(s, d, now);
    TrimEnhancedUrl(original.url, now);
    var w := Create(s, d, now);
    if w.Written? {
      assert w.store.docs[..|s.docs|] == s.docs;
    }
  }

  lemma RewriteStepSpec(s: Store, id: Id, original: Article, now: Timestamp, done: seq<Step>, rewritten: Result<RE.Enhanced>, found: nat, scraped: nat)
    requires Good(s) && Valid(original) && InOrder(done) && |done| == 3
    ensures Continues(RewriteStep(s, id, original, now, done, rewritten, found, scraped), s, done)
    ensures SavedOne(RewriteStep(s, id, original, now, done, rewritten, found, scraped), s, original, now)
  {
    if rewritten.Ok? {
      var e := rewritten.value;
      var step := StepAt(4, Rewritten(SplitCount(original.content), e.wordCount, e.readingTime));
      var w := Create(s, EnhancedDraft(original, e, now), now);
      InOrderAppend(done, step.data);
      CreateWritten(s, original, e, now);
      SaveStepSpec(s, id, original, e, now, done + [step], found, scraped, w);
      PrefixOfPrefix(SaveStep(s, id, original, e, now, done + [step], found, scraped, w).steps, done, step);
    }
  }

  lemma PrefixOfPrefix(steps: seq<Step>, done: seq<Step>, step: Step)
    requires |done| + 1 <= |steps| && steps[..|done| + 1] == done + [step]
    ensures steps[..|done|] == done
  {
    assert steps[..|done|] == steps[..|done| + 1][..|done|];
  }

  lemma ScrapeStepSpec(s: Store, id: Id, original: Article, results: seq<RF.SearchResult>, env: Services, now: Timestamp, done: seq<Step>, batch: CE.ScrapeBatch)
    requires Good(s) && Valid(original) && InOrder(done) && |done| == 2
    ensures Continues(ScrapeStep(s, id, original, results, env, now, done, batch), s, done)
    ensures SavedOne(ScrapeStep(s, id, original, results, env, now, done, batch), s, original, now)
  {
    if |batch.success| > 0 {
      var refs := References(batch.success, results);
      var step := StepAt(3, ScrapedPages(|results|, |batch.success|, |batch.errors|, ReferenceSummaries(refs)));
      var rewritten := RE.EnhanceArticle(env.aiKeySet, env.ai, RE.Original(original.title, original.content, original.url), refs, env.hostOf);
      InOrderAppend(done, step.data);
      RewriteStepSpec(s, id, original, now, done + [step], rewritten, |results|, |batch.success|);
      PrefixOfPrefix(RewriteStep(s, id, original, now, done + [step], rewritten, |results|, |batch.success|).steps, done, step);
    }
  }

  lemma SearchStepSpec(s: Store, id: Id, original: Article, env: Services, now: Timestamp, done: seq<Step>, found: Result<seq<RF.SearchResult>>)
    requires Good(s) && Valid(original) && InOrder(done) && |done| == 1
    ensures Continues(SearchStep(s, id, original, env, now, done, found), s, done)
    ensures SavedOne(SearchStep(s, id, original, env, now, done, found), s, original, now)
  {
    if found.Ok? && |found.value| > 0 {
      var results := found.value;
      var step := StepAt(2, Searched(original.title, |results|, TitleLinks(results)));
      var batch := CE.ScrapeMany(Links(results), env.fetch, now);
      InOrderAppend(done, step.data);
      ScrapeStepSpec(s, id, original, results, env, now, done + [step], batch);
      PrefixOfPrefix(ScrapeStep(s, id, original, results, env, now, done + [step], batch).steps, done, step);
    }
  }

  /** A run records its steps in order; a failed run stops before the fifth
      step and leaves the collection exactly as it was; a completed run
      records all five for an existing article and adds exactly one valid
      document, with the next id and the derived url, keeping the collection
      invariant. */
  lemma RunSpec(s: Store, id: Id, env: Services, now: Timestamp)
    requires Good(s)
    ensures var r := Enhance(s, id, env, now);
      && InOrder(r.steps)
      && (r.Failed? ==> |r.steps| < 5 && r.store == s)
      && (r.Completed? ==>
        && |r.steps| == 5
        && FindById(s, id).Some?
        && SavedOne(r, s, FindById(s, id).value, now))
  {
    match FindById(s, id)
    case None =>
    case Some(original) =>
      assert Valid(original) by {
        var i :| 0 <= i < |s.docs| && s.docs[i] == Doc(id, original);
      }
      var found := RF.SearchArticles(env.searchKeySet, env.search(original.title), env.hostOf);
      var done := [StepAt(1, FoundOriginal(original.title))];
      InOrderAppend([], FoundOriginal(original.title));
      SearchStepSpec(s, id, original, env, now, done, found);
  }

  /** The derived url has no surrounding whitespace when the original has
      none, so the schema's trimming setter keeps it as it is. */
  lemma TrimEnhancedUrl(url: string, now: Timestamp)
    requires Trimmed(url) && url != ""
    ensures Trim(EnhancedUrl(url, now)) == EnhancedUrl(url, now)
  {
    var u := EnhancedUrl(url, now);
    var d := NatToString(now);
    assert u[|u| - 1] == d[|d| - 1];
    assert u[0] == url[0];
    assert Tight(u);
    TrimTight(u);
  }

  /** A missing article fails before any step, with the id in the message. */
  lemma MissingArticleFails(s: Store, id: Id, env: Services, now: Timestamp)
    requires forall i :: 0 <= i < |s.docs| ==> s.docs[i].id != id
    ensures Enhance(s, id, env, now) == Failed([], NotFound(id), s)
  {
  }

  /** A search that fails, or finds nothing, ends the run after the first
      step; a search failure surfaces with its own message. */
  lemma SearchAbort(s: Store, id: Id, env: Services, now: Timestamp)
    requires FindById(s, id).Some?
    ensures var original := FindById(s, id).value;
      var found := RF.SearchArticles(env.searchKeySet, env.search(original.title), env.hostOf);
      var r := Enhance(s, id, env, now);
      && (found.Err? ==> r.Failed? && |r.steps| == 1 && r.error == found.message)
      && (found == Ok([]) ==> r.Failed? && |r.steps| == 1 && r.error == NoResults)
  {
  }

  /** When every search result fails to fetch, nothing is scraped and every
      result is reported as a failure. */
  lemma NothingFetched(results: seq<RF.SearchResult>, fetch: string -> CE.FetchOutcome, now: Timestamp)
    requires forall i :: 0 <= i < |results| ==> fetch(results[i].link).FetchFailed?
    ensures var batch := CE.ScrapeMany(Links(results), fetch, now);
      |batch.success| == 0 && |batch.errors| == |results|
  {
    var urls := Links(results);
    assert forall i :: 0 <= i < |urls| ==> fetch(urls[i]).FetchFailed?;
  }

  /** With nothing scraped the run fails after the second step, before any
      rewrite is attempted. */
  lemma EmptyScrapeFails(s: Store, id: Id, original: Article, results: seq<RF.SearchResult>, env: Services, now: Timestamp, done: seq<Step>, batch: CE.ScrapeBatch)
    requires |batch.success| == 0
    ensures ScrapeStep(s, id, original, results, env, now, done, batch) == Failed(done, NothingScraped, s)
  {
  }

  /** A missing language-model key ends the run at the rewrite with the
      invalid-key message. */
  lemma MissingAiKeyAbort(s: Store, id: Id, original: Article, results: seq<RF.SearchResult>, env: Services, now: Timestamp, done: seq<Step>, batch: CE.ScrapeBatch)
    requires !env.aiKeySet && |batch.success| > 0
    ensures ScrapeStep(s, id, original, results, env, now, done, batch).Failed?
    ensures ScrapeStep(s, id, original, results, env, now, done, batch).error == RE.InvalidKey
  {
    var refs := References(batch.success, results);
    RE.MissingKeyReportedInvalid(env.ai, RE.Original(original.title, original.content, original.url), refs, env.hostOf);
  }

  /** The third step's counts add up: every search result was attempted and
      is counted once, as a success or as a failure, and at least one
      succeeded. */
  lemma ScrapeCountsAddUp(s: Store, id: Id, original: Article, results: seq<RF.SearchResult>, env: Services, now: Timestamp, done: seq<Step>)
    requires Good(s) && Valid(original) && InOrder(done) && |done| == 2
    ensures var r := ScrapeStep(s, id, original, results, env, now, done, CE.ScrapeMany(Links(results), env.fetch, now));
      (r.Failed? && r.steps == done) || (
        && |r.steps| > |done|
        && r.steps[|done|].data.ScrapedPages?
        && r.steps[|done|].data.attempted == |results| == r.steps[|done|].data.successful + r.steps[|done|].data.failed
        && 0 < r.steps[|done|].data.successful)
  {
    var batch := CE.ScrapeMany(Links(results), env.fetch, now);
    StepThreeRecorded(s, id, original, results, env, now, done, batch);
  }

  lemma StepThreeRecorded(s: Store, id: Id, original: Article, results: seq<RF.SearchResult>, env: Services, now: Timestamp, done: seq<Step>, batch: CE.ScrapeBatch)
    requires Good(s) && Valid(original) && InOrder(done) && |done| == 2
    ensures var r := ScrapeStep(s, id, original, results, env, now, done, batch);
      (r.Failed? && r.steps == done && |batch.success| == 0) || (
        && |r.steps| > |done|
        && r.steps[|done|].data == ScrapedPages(|results|, |batch.success|, |batch.errors|, ReferenceSummaries(References(batch.success, results)))
        && 0 < |batch.success|)
  {
    if |batch.success| > 0 {
      var refs := References(batch.success, results);
      var step := StepAt(3, ScrapedPages(|results|, |batch.success|, |batch.errors|, ReferenceSummaries(refs)));
      var rewritten := RE.EnhanceArticle(env.aiKeySet, env.ai, RE.Original(original.title, original.content, original.url), refs, env.hostOf);
      InOrderAppend(done, step.data);
      RewriteStepSpec(s, id, original, now, done + [step], rewritten, |results|, |batch.success|);
      var r := RewriteStep(s, id, original, now, done + [step], rewritten, |results|, |batch.success|);
      assert r.steps[|done|] == (done + [step])[|done|];
    }
  }

  /** Every reference handed to the rewrite carries the displayed link and
      snippet of the first search result with its url, since every scraped
      page is one of the search results' links (the scraper's contract). */
  lemma ReferencesMatchSearch(results: seq<RF.SearchResult>, pages: seq<CE.ScrapedPage>)
    requires forall p :: p in pages ==> p.url in Links(results)
    ensures var refs := References(pages, results);
      forall i :: 0 <= i < |refs| ==>
        var k := FirstWithLink(results, refs[i].url);
        && k.Some?
        && refs[i].displayLink == results[k.value].displayLink
        && refs[i].snippet == results[k.value].snippet
  {
    var urls := Links(results);
    forall i | 0 <= i < |pages|
      ensures FirstWithLink(results, pages[i].url).Some?
    {
      assert pages[i] in pages;
      var j :| 0 <= j < |urls| && urls[j] == pages[i].url;
      assert results[j].link == pages[i].url;
    }
  }

  /** The derived url starts with the original url and the marker, is longer
      than the original, and differs for different clock readings. */
  lemma EnhancedUrlShape(url: string, now: Timestamp, later: Timestamp)
    ensures StartsWith(EnhancedUrl(url, now), url + EnhancedMarker)
    ensures |EnhancedUrl(url, now)| > |url + EnhancedMarker|
    ensures now != later ==> EnhancedUrl(url, now) != EnhancedUrl(url, later)
  {
    var u := EnhancedUrl(url, now);
    assert u[..|url + EnhancedMarker|] == url + EnhancedMarker;
    if EnhancedUrl(url, now) == EnhancedUrl(url, later) {
      var p := url + EnhancedMarker;
      assert NatToString(now) == EnhancedUrl(url, now)[|p|..];
      assert NatToString(later) == EnhancedUrl(url, later)[|p|..];
      NatToStringInjective(now, later);
    }
  }
}
