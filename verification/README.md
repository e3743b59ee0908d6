# BeyondChats article enhancement, modelled in Dafny

BeyondChats scrapes the oldest posts of a company blog and stores them as
articles. It can then "enhance" an article. Enhancing means:

- searching the web for the article's title;
- scraping the two best matching pages;
- asking a language model to rewrite the article against them;
- saving the rewrite, with a references section, as a new article.

A React client lists the originals and the enhanced articles side by side.
From it a user selects articles to enhance, compares an enhanced article
with its original, and reads word counts and reading times.

This project models the logic of that system as pure Dafny functions over
immutable datatypes, and proves what the code promises about it.

Every outside effect is a parameter:

- whether a provider key is configured (`bool`);
- what the search provider answers;
- what fetching a url comes to;
- what the language model answers for a prompt;
- how a url parses into a host name (`HostOf`);
- the current time (a `nat` of milliseconds).

The database is a sequence of documents in insertion order. It carries an
invariant: ids ascend, every article is valid, and urls are unique.

| file | module | models |
|---|---|---|
| results.dfy | `Results` | `Option`, and `Result` with an error message |
| text.dfy | `Text` | whitespace, trimming, `split(/\s+/)`, word counts, substring search, decimal digits, reading time |
| article_model.dfy | `ArticleModel` | the article schema, its validators, and the collection with its unique url index |
| search.dfy | `ReferenceFinder` | the web search: denylist, top two, field mapping, error messages |
| scraper.dfy | `ContentExtractor` | page scraping: text cleaning, body selection, metadata, error messages, batch partition |
| rewrite.dfy | `RewriteEngine` | the rewrite prompt, heading extraction, references section, error rewriting |
| workflow.dfy | `EnhancementWorkflow` | the five-step enhancement of one article |
| batch.dfy | `BatchCoordinator` | enhancing many articles, in sequence or in parallel, and enhancing all of them |
| articles_api.dfy | `ArticleController` | the article endpoints: scrape-and-store, list, get, create, update, delete |
| enhance_api.dfy | `EnhanceController` | the enhancement endpoints: one article, a batch, all articles, the available list |
| listing.dfy | `ListingScraper` | the blog-listing scraper: cards, fallback links, oldest five, full-content merge |
| client.dfy | `ClientApp` | the client: original/enhanced partition, selection, compare, enhance-selected, word counts, preview |

## Model

| member | source | states |
|---|---|---|
| Text.Trim | Server/src/models/article.model.js:8 | the trimmed string is the input with only whitespace cut from both ends; it starts and ends with non-whitespace; it is empty exactly when the input is all whitespace |
| Text.CollapseWs | Server/src/services/contentScraper.service.js:150 | collapsing whitespace runs never lengthens the text and leaves no two adjacent whitespace characters; it is empty only for empty input and keeps whether the text starts with whitespace |
| Text.CollapseIsSqueeze | Server/src/services/contentScraper.service.js:150 | the run-by-run replacement equals an independent left-to-right scan that writes one space for the first whitespace character of each run and copies every other character |
| Text.CollapseKeepsVisible | Server/src/services/contentScraper.service.js:150 | the replacement keeps every non-whitespace character of the text, in order |
| Text.TrimKeepsVisible | Server/src/services/contentScraper.service.js:154 | trimming removes whitespace only: every non-whitespace character survives, in order |
| Text.HostName | Server/src/services/groq.service.js:168 | the host of the empty url is a parse failure; any other url gets what the URL parser reports |
| Text.WordsTrim | Client/src/components/ArticleReader.jsx:9 | trimming never changes the number of words |
| Text.SplitWsNonEmpty | Client/src/components/ArticleCard.jsx:8-9 | the non-empty pieces of a whitespace split are exactly the words (the maximal non-whitespace runs) |
| Text.WordsZeroIffAllWs | Client/src/components/ArticleCard.jsx:8-9 | a text has no words exactly when it is all whitespace |
| Text.SplitCount | Server/src/services/contentScraper.service.js:100 | `split(/\s+/).length` is at least one, is one for empty text, is never below the word count, and equals it for non-empty text without leading or trailing whitespace |
| Text.IndexOf | Client/src/App.jsx:361 | the first occurrence of a pattern: none exactly when the pattern does not occur, and no occurrence before the one found |
| Text.LastIndexOf | Client/src/App.jsx:361 | the last occurrence of a pattern: none exactly when it does not occur, and no occurrence after the one found |
| Text.NatToStringRoundTrip | Server/src/services/articleEnhancer.service.js:147 | the decimal digits of a timestamp read back as that timestamp |
| Text.NatToStringInjective | Server/src/services/articleEnhancer.service.js:147 | distinct numbers have distinct decimal renderings |
| Text.ReadingMinutes | Server/src/services/groq.service.js:164 | the minutes are the least whole number with minutes × 200 ≥ words (a ceiling division) |
| Text.ReadingMinutesMonotone | Client/src/components/ArticleReader.jsx:12-16 | more words never need fewer minutes |
| Text.ReadingTimeSameIff | Client/src/components/ArticleReader.jsx:12-16 | two word counts get the same label exactly when they need the same minutes |
| Text.ReadingTimeZero | Client/src/components/ArticleReader.jsx:12-16 | no words reads as "0 min read" |
| ArticleModel.NormalizeNormalForm | Server/src/models/article.model.js:5-34 | after the schema's `trim` setters, every string field present is trimmed |
| ArticleModel.ValidateIffValid | Server/src/models/article.model.js:5-34 | on trimmed fields, validation reports no error exactly when title, url and content are present, the title is 3 to 300 characters, the url starts with `http://` or `https://` followed by a character `.` matches (anything but a line feed, carriage return, line separator or paragraph separator), and the content is at least 10 characters |
| ArticleModel.SeparatorAfterSchemeInvalid | Server/src/models/article.model.js:19 | `http://` followed by a line separator is refused by the url rule, while `http://x` passes |
| ArticleModel.FindById | Server/src/controllers/article.controller.js:124-131 | an article is found exactly when a document has that id, and the one found is that document's |
| ArticleModel.CreateSpec | Server/src/controllers/article.controller.js:179-186 | a created document is appended with the next id, a valid article and the trimmed url, and the collection keeps its invariant; an invalid draft is refused with exactly its validation errors; a duplicate url is refused only if the url is held |
| ArticleModel.OverwriteSpec | Server/src/controllers/article.controller.js:25-33 | writing a valid article keyed by url keeps the invariant; it adds at most one document, adds none exactly when the url was already held, and afterwards the url is held |
| ArticleModel.UpsertSpec | Server/src/controllers/article.controller.js:25-33 | a successful upsert of scraped fields keeps the invariant; it adds a document exactly when the trimmed url was not held, never duplicates it, and holds it afterwards |
| ReferenceFinder.Keep | Server/src/services/googleSearch.service.js:37-48 | the kept results are among the input and none is on the denylist; every result not on the denylist is kept |
| ReferenceFinder.KeepAppend | Server/src/services/googleSearch.service.js:37-48 | filtering keeps the provider's order: it distributes over concatenation |
| ReferenceFinder.TakeKeepIsFirstSurvivors | Server/src/services/googleSearch.service.js:51 | the first two kept results are the first two results that survive the filter, in provider order |
| ReferenceFinder.ToResult | Server/src/services/googleSearch.service.js:52-56 | missing fields become empty; the display link is the provider's when present, otherwise the link's host; a missing, empty or unparsable link is then an invalid-url error |
| ReferenceFinder.FailureMessage | Server/src/services/googleSearch.service.js:69-77 | status 429 gives the rate-limit message, 401 the authentication message, anything else the prefixed provider message |
| ReferenceFinder.SearchWithProvider | Server/src/services/googleSearch.service.js:9-77 | a missing key fails before any request; a failed request gets its classified message; no organic results gives an empty list; success gives at most two results |
| ReferenceFinder.ResultsAreFirstSurvivors | Server/src/services/googleSearch.service.js:37-56 | a successful search answers exactly the mapped first two surviving results, in order |
| ReferenceFinder.SearchArticlesErrors | Server/src/services/googleSearch.service.js:81-95 | an error mentioning "not configured" becomes the setup instructions; any other error passes through unchanged |
| ReferenceFinder.MissingKeyGivesSetup | Server/src/services/googleSearch.service.js:9-13 | a missing search key always surfaces as the setup instructions |
| ContentExtractor.CleanContent | Server/src/services/contentScraper.service.js:145-157 | the result is empty for empty input, at most 50,000 characters, has no leading whitespace, no two adjacent whitespace characters and no newline, and is empty exactly when the input is all whitespace |
| ContentExtractor.CleanText | Server/src/services/contentScraper.service.js:159-162 | the result is at most 500 characters, starts with non-whitespace, is single-spaced, is empty exactly when the input is all whitespace, and is fully trimmed whenever no cut is needed |
| ContentExtractor.CleanContentSpec | Server/src/services/contentScraper.service.js:145-157 | the cleaned content is the independent scan's replacement, trimmed and cut to 50,000 characters; its non-whitespace characters are a leading part of the page's, all of them when no cut is needed |
| ContentExtractor.CleanTextSpec | Server/src/services/contentScraper.service.js:159-162 | the cleaned text is the scan's replacement of the trimmed input cut to 500 characters; its non-whitespace characters are a leading part of the input's, all of them when no cut is needed |
| ContentExtractor.ExtractTextSpec | Server/src/services/contentScraper.service.js:124-143 | an element's text keeps exactly the non-whitespace characters of its paragraphs, paragraph after paragraph, or of its whole text when it has no paragraph; in that case it is empty or starts and ends with non-whitespace |
| ContentExtractor.Longest | Server/src/services/contentScraper.service.js:44-53 | the scan answers a text at least as long as every block and as the starting text; it keeps the starting text when nothing is strictly longer, and otherwise answers the first of the longest blocks |
| ContentExtractor.SelectBody | Server/src/services/contentScraper.service.js:36-59 | a container of at least 200 characters wins; otherwise the first strictly longest block text is used when it reaches 200; otherwise the body is at least 200 characters or all paragraphs joined |
| ContentExtractor.FailureMessage | Server/src/services/contentScraper.service.js:107-119 | an unknown host gives the unreachable message, 403 or 401 the access-denied message, 404 the not-found message, anything else the generic one; every message names the url |
| ContentExtractor.Scrape | Server/src/services/contentScraper.service.js:92-120 | a scrape succeeds exactly when the fetch does; the page carries the url, the time, the cleaned selected body and its split count as word count, within the length caps; a failure names the url |
| ContentExtractor.PartitionMembers | Server/src/services/contentScraper.service.js:164-195 | every success and every error lands on its own side, errors carrying the url at the same position; nothing else appears; no successes exactly when every scrape failed |
| ContentExtractor.PartitionAppend | Server/src/services/contentScraper.service.js:164-195 | the partition keeps input order: it distributes over concatenation |
| ContentExtractor.ScrapeMany | Server/src/services/contentScraper.service.js:164-195 | successes plus errors number the urls; every page and error belongs to an input url; there are no successes exactly when every fetch failed |
| RewriteEngine.PromptUsesFirstTwo | Server/src/services/groq.service.js:86-87 | two reference lists that agree on their first two entries give the same prompt |
| RewriteEngine.PromptPreviewBound | Server/src/services/groq.service.js:96-103 | changing a reference's content past its first 2,000 characters leaves the prompt unchanged |
| RewriteEngine.Heading | Server/src/services/groq.service.js:140-148 | the match of `^#\s+(.+?)[\n\r]` found is a real match, with a capture free of all four line terminators closed by a line feed or carriage return, and it is the one the regular expression picks; there is none exactly when no match exists |
| RewriteEngine.SeparatorBlocksHeading | Server/src/services/groq.service.js:144 | a line separator inside the would-be title leaves the reply without a heading, as `.` does not cross it and `[\n\r]` does not contain it |
| RewriteEngine.HeadingRoundTrip | Server/src/services/groq.service.js:140-148 | a reply written as "# title", a newline and a body splits back into that title and body, for a title free of line feeds, carriage returns, line and paragraph separators |
| RewriteEngine.SplitHeadingNoMatch | Server/src/services/groq.service.js:146-148 | without a heading the original title is kept and the body is the trimmed reply |
| RewriteEngine.SectionSource | Server/src/services/groq.service.js:192 | an entry's source is the display link when non-empty, else the url's host, else "Unknown" when there is no url; an unparsable url is an invalid-url error |
| RewriteEngine.EntriesAppend | Server/src/services/groq.service.js:191-198 | entries are numbered consecutively in input order: the entries of a concatenation are the two parts' entries, the second numbered on |
| RewriteEngine.ReferencesSection | Server/src/services/groq.service.js:183-201 | no references gives the empty section; otherwise the section is the header, the introductory line and the entries numbered from 1, and it succeeds exactly when every source does |
| RewriteEngine.EntryShape | Server/src/services/groq.service.js:193-197 | an entry starts with its numbered heading line (bold title linked to the url, then the source) and has an indented snippet line exactly when the snippet is non-empty, then a blank line |
| RewriteEngine.EntryAt | Server/src/services/groq.service.js:191-198 | the entry of the reference at position i is numbered first + i, shows that reference's own source, and sits after the entries of the references before it |
| RewriteEngine.SectionListsEvery | Server/src/services/groq.service.js:183-201 | every reference appears in a successful section as its own entry, numbered by its position from 1 |
| RewriteEngine.CiteAll | Server/src/services/groq.service.js:165-169 | the cited list has one entry per reference, in order, with its title and url; the source is the display link, or else the url's host; it succeeds exactly when every source resolves, so a reference with neither a display link nor a url fails the rewrite |
| RewriteEngine.ParseEnhanced | Server/src/services/groq.service.js:137-176 | a parse keeps the split title, puts the references section after the body and a blank line, counts the words of the final content, derives the reading time from that count, and lists the references exactly as the citation list gives them: one per input reference, in input order, with its title, url and source; a failure carries the parse prefix |
| RewriteEngine.ContentEndsWithReferences | Server/src/services/groq.service.js:151-152 | the enhanced content always ends with the references section |
| RewriteEngine.RewriteError | Server/src/services/groq.service.js:68-80 | "API_KEY" or "401" gives the invalid-key message, else "quota" or "429" the quota message, else "safety" the safety message, else the prefixed original message |
| RewriteEngine.MissingKeyReportedInvalid | Server/src/services/groq.service.js:9-11 | a missing model key surfaces as the invalid-key message |
| RewriteEngine.UnparsableReferenceMessage | Server/src/services/groq.service.js:172-175 | a reference with neither display link nor parsable url makes the rewrite fail with the rewritten parse error |
| EnhancementWorkflow.RunSpec | Server/src/services/articleEnhancer.service.js:7-211 | every run records steps 1, 2, … in order under their names; a failed run stops before step 5 and leaves the collection as it was; a completed run has all five steps and adds exactly one valid document with the next id and the enhanced url |
| EnhancementWorkflow.MissingArticleFails | Server/src/services/articleEnhancer.service.js:23-25 | an unknown id fails with no steps and the not-found message |
| EnhancementWorkflow.SearchAbort | Server/src/services/articleEnhancer.service.js:40-44 | a failed search or an empty result list fails after step 1 with the search's message or the no-results message |
| EnhancementWorkflow.EmptyScrapeFails | Server/src/services/articleEnhancer.service.js:69-71 | no scraped page fails with the nothing-scraped message and the collection unchanged |
| EnhancementWorkflow.NothingFetched | Server/src/services/articleEnhancer.service.js:66-71 | when every fetch fails, no page is scraped and every result is an error |
| EnhancementWorkflow.MissingAiKeyAbort | Server/src/services/groq.service.js:9-11 | with pages scraped but no model key the run fails with the invalid-key message |
| EnhancementWorkflow.ScrapeCountsAddUp | Server/src/services/articleEnhancer.service.js:86-95 | step 3 records attempted = successful + failed = the number of search results, with at least one success |
| EnhancementWorkflow.StepThreeRecorded | Server/src/services/articleEnhancer.service.js:73-96 | step 3 records the batch's counts and one reference per scraped page, in scrape order |
| EnhancementWorkflow.ReferencesMatchSearch | Server/src/services/articleEnhancer.service.js:73-80 | each reference's display link and snippet come from the first search result with its url |
| EnhancementWorkflow.EnhancedUrlShape | Server/src/services/articleEnhancer.service.js:147 | the enhanced url strictly extends the original url plus "-enhanced-", and distinct times give distinct urls |
| BatchCoordinator.OutcomeOf | Server/src/services/articleEnhancer.service.js:203-211 | a run counts as a success exactly when it completed, with its summary; a failure carries the run's error |
| BatchCoordinator.Classified | Server/src/services/articleEnhancer.service.js:264-282 | every id lands in exactly one of the successful and failed lists, according to its outcome |
| BatchCoordinator.ClassifiedSound | Server/src/services/articleEnhancer.service.js:264-282 | every listed success or failure is an input id with that outcome |
| BatchCoordinator.Sequential | Server/src/services/articleEnhancer.service.js:264-282 | the loop computes the sequential result: ids in order, stopping after the first failure when asked |
| BatchCoordinator.SequentialCounts | Server/src/services/articleEnhancer.service.js:228-233 | the total is the input length; without stop-on-error every id is counted; with it at most one failure is recorded, and it is the first failing id after exactly the successes before it |
| BatchCoordinator.ParallelIsSequential | Server/src/services/articleEnhancer.service.js:236-261 | parallel mode gives the sequential result without stop-on-error, and no failure has an unknown id |
| BatchCoordinator.All | Server/src/services/articleEnhancer.service.js:306-336 | an empty collection gives total 0, empty lists and the no-articles message; otherwise every stored id is enhanced, total being the collection size |
| BatchCoordinator.MissingIdReported | Server/src/services/articleEnhancer.service.js:23-25 | in a parallel batch, an id with no article is reported as failed with the not-found message |
| ArticleController.StoreEachSpec | Server/src/controllers/article.controller.js:23-41 | storing scraped articles one by one keeps the invariant, never drops or renumbers a stored url, reports saved plus errors as the scraped count, grows by at most that count, and holds every saved url afterwards |
| ArticleController.ScrapeAndStore | Server/src/controllers/article.controller.js:5-63 | a failed scrape gives 500 and an empty one 404, both leaving the collection unchanged; otherwise 201 with saved plus errors equal to the scraped count and the collection extended |
| ArticleController.UpsertExtends | Server/src/controllers/article.controller.js:25-33 | an upsert keeps every existing document's id and url in place |
| ArticleController.PageContents | Server/src/controllers/article.controller.js:84 | a page holds at most `limit` documents, the ones from `(page-1)*limit` on, in order; it is empty exactly past the end and full while enough remain |
| ArticleController.NextPageIffBeforeLast | Server/src/controllers/article.controller.js:99-106 | there is a next page exactly when the page is before the last, `⌈total/limit⌉`, and a previous page exactly when the page is after the first |
| ArticleController.EveryDocumentOnOnePage | Server/src/controllers/article.controller.js:84 | the k-th document appears on page `k/limit + 1` at position `k mod limit` |
| ArticleController.GetAll | Server/src/controllers/article.controller.js:66-118 | a listing never changes the collection; valid paging gives 200 and the page of the matching documents |
| ArticleController.GetById | Server/src/controllers/article.controller.js:120-155 | a malformed id gives 400 with the invalid-id message; otherwise 200 exactly when the id is held, with that article, and 404 when not |
| ArticleController.CreateArticleSpec | Server/src/controllers/article.controller.js:158-213 | a missing title, url or content gives 400; a held url gives 409; past those checks, failed validation gives 400 "Validation failed" listing every validator message in field order, and passing validation gives 201; only 201 changes the collection, appending one document with the trimmed url and the given date or now |
| ArticleController.UpdateBlankTitleRequired | Server/src/controllers/article.controller.js:241-252 | an update whose title is whitespace only sets the title, trims it to nothing and is refused with "Article title is required", changing nothing |
| ArticleController.UpdateArticleSpec | Server/src/controllers/article.controller.js:216-287 | a malformed id gives 400 and an unknown one 404; a new url held by another document gives 409; otherwise failed validation of the given fields gives 400 "Validation failed" listing every validator message, and passing validation gives 200; only 200 changes the collection, replacing exactly that document with the merge; the invariant holds throughout |
| ArticleController.MergeFields | Server/src/controllers/article.controller.js:241-249 | title, url and content are overwritten only by non-empty values; the image is overwritten whenever given, so an empty one clears it; the scrape time never changes |
| ArticleController.DeleteArticleSpec | Server/src/controllers/article.controller.js:289-324 | a malformed id gives 400; 404 exactly when the id is unknown; only 200 changes the collection, removing that document and keeping every other |
| ArticleController.DeleteAll | Server/src/controllers/article.controller.js:327-347 | everything is removed and the prior count is reported |
| EnhanceController.WorkflowFailure | Server/src/controllers/enhance.controller.js:81-93 | a failure mentioning "API" or "quota" gives 503, any other 500, with the message as detail |
| EnhanceController.EnhanceByIdSpec | Server/src/controllers/enhance.controller.js:8-95 | a missing or malformed id gives 400 and an unknown one 404; 200 exactly when the workflow completes, adding the enhanced document; a failed workflow gives 503 exactly for provider failures, never changing the collection |
| EnhanceController.InvalidKeyUnavailable | Server/src/controllers/enhance.controller.js:81-87 | an invalid model key is reported as 503 |
| EnhanceController.SetupInstructionsUnavailable | Server/src/controllers/enhance.controller.js:81-87 | a missing search key is reported as 503 |
| EnhanceController.EmptyResultsServerError | Server/src/controllers/enhance.controller.js:89-93 | no search results and nothing scraped are reported as 500 |
| EnhanceController.ParseIds | Server/src/controllers/enhance.controller.js:124 | a list of ids casts exactly when every entry is well formed, keeping every id in order |
| EnhanceController.BatchCheckIff | Server/src/controllers/enhance.controller.js:125-134 | the matched count equals the list length exactly when the ids are distinct and all stored |
| EnhanceController.EnhanceBatchSpec | Server/src/controllers/enhance.controller.js:97-173 | no list, an empty one or one over 10 gives 400; 200 exactly for 1 to 10 well-formed, distinct, stored ids, answering the batch over them with total equal to the list length |
| EnhanceController.RepeatedIdRefused | Server/src/controllers/enhance.controller.js:125-134 | a batch repeating an id is refused with 404 |
| EnhanceController.EnhanceAllSpec | Server/src/controllers/enhance.controller.js:175-242 | 200 exactly for 1 to 20 stored articles, enhancing every stored id; none gives 404; over 20 gives 400 whatever the parallel option |
| EnhanceController.AvailableSpec | Server/src/controllers/enhance.controller.js:245-289 | the available list answers the id, title, url and date of the documents counted back from the newest, from `(page-1)*limit` on: `limit` of them while enough remain, none exactly when the skip passes the last; the page count is the total over the limit rounded up, with the page, limit and total echoed |
| ListingScraper.AbsolutizeSpec | Server/src/services/scraper.service.js:32-35 | a non-empty target becomes a url starting with `http` and ending in the target; one already starting with `http` is unchanged; any other is put under the site with one slash between |
| ListingScraper.FixImageSpec | Server/src/services/scraper.service.js:56 | a protocol-relative image gets the https scheme; the source stays the tail, nothing protocol-relative is left, and the fix is idempotent |
| ListingScraper.OrAbout | Server/src/services/scraper.service.js:58 | listing content is never empty, and non-empty content is kept |
| ListingScraper.FromCardComplete | Server/src/services/scraper.service.js:26-61 | a card yields a record exactly when it has a title and a link, and the record has a title, a url and content |
| ListingScraper.FromLinkComplete | Server/src/services/scraper.service.js:70-92 | a blog link yields a record exactly when it has a title and a link, with the absolutised url, and the record is complete |
| ListingScraper.PrimarySpec | Server/src/services/scraper.service.js:23-62 | the card pass is empty exactly when no card qualifies, and every record it makes is complete |
| ListingScraper.NewUrlsSpec | Server/src/services/scraper.service.js:83 | the link pass collects each url once, collects every usable link's url, and keeps only records of the page |
| ListingScraper.FallbackSpec | Server/src/services/scraper.service.js:67-94 | the link pass collects no url twice, makes only complete records, and collects every usable link's url |
| ListingScraper.CollectSpec | Server/src/services/scraper.service.js:23-94 | the link pass runs exactly when no card qualified; either way every record is complete |
| ListingScraper.SortByDateSpec | Server/src/services/scraper.service.js:97-98 | the sort orders by date, oldest first, and is a permutation of its input |
| ListingScraper.OldestSpec | Server/src/services/scraper.service.js:97-99 | the selection keeps five records (all of them when fewer), in date order; no record left out is older than one kept; kept and left out together are exactly the input |
| ListingScraper.MergeSpec | Server/src/services/scraper.service.js:104-126 | the merge changes only content and image, keeps the listing record on a failed fetch, never loses content; a fetched page's non-empty content and non-empty image replace the record's, and an empty one keeps the record's |
| ListingScraper.ScrapeArticlesSpec | Server/src/services/scraper.service.js:97-135 | a failed listing fetch gives the prefixed error; otherwise at most five complete records, one per selected listing record, in order, with its url and date |
| ClientApp.PartitionSpec | Client/src/App.jsx:66-71 | the original and enhanced lists together are the articles as a multiset, each classified correctly |
| ClientApp.FiltersKeepOrder | Client/src/App.jsx:148-153 | both filters keep relative order: they distribute over concatenation |
| ClientApp.ServerEnhancedIsEnhanced | Client/src/App.jsx:354 | every article the server enhances is classified as enhanced |
| ClientApp.ToggleSpec | Client/src/App.jsx:259-265 | toggling flips the id's membership and no other id's; an absent id is appended, and toggling it again restores the list |
| ClientApp.RecoverFirstRoundTrip | Client/src/App.jsx:361 | splitting an enhanced url at its first marker gives back the original url whenever that url does not contain "-enhanced" |
| ClientApp.FirstSplitAtSuffix | Client/src/App.jsx:361 | an original url p + "-enhanced" is read back as p, when p itself holds no "-enhanced" |
| ClientApp.FirstSplitLosesSuffix | Client/src/App.jsx:361 | splitting at the first marker never recovers an original url ending in "-enhanced" |
| ClientApp.FirstSplitCounterexample | Client/src/App.jsx:361 | the enhanced url of "a-enhanced" is read back as "a" |
| ClientApp.OriginalUrlsPlain | Client/src/App.jsx:66-68 | no url in the originals list contains "enhanced", so none contains "-enhanced" |
| ClientApp.CompareTarget | Client/src/App.jsx:360-368 | the compare lookup answers an original whose url is the part of the enhanced url before its first marker; for an article without a url it answers exactly when some original has none |
| ClientApp.CompareFindsOriginal | Client/src/App.jsx:360-368 | comparing an enhanced article whose original url holds no "-enhanced" finds the first original with that url whenever one is there |
| ClientApp.CompareFindsListedOriginal | Client/src/App.jsx:360-368 | against the client's originals list, comparing an enhanced article always finds the first listed original it was derived from |
| ClientApp.CompareOpensOther | Client/src/App.jsx:360-368 | an article enhanced from p + "-enhanced" opens the different original p when p is listed, where the last-marker lookup finds nothing |
| ClientApp.RecoverLastRoundTrip | Server/src/services/articleEnhancer.service.js:147 | splitting an enhanced url at the last marker gives back the original url, for every original url |
| ClientApp.CompareLastFindsOriginal | Client/src/App.jsx:360-368 | the last-marker lookup finds an original exactly when one with the article's original url is there, and then opens the first such one |
| ClientApp.EnhanceSelected | Client/src/App.jsx:213-249 | no selection starts nothing; otherwise exactly the listed selected ids are requested, successes plus failures number them, the error flag is set exactly when one failed, and the selection is cleared exactly when one succeeded |
| ClientApp.EnhanceAllClick | Client/src/App.jsx:185-188 | enhancing all is refused exactly when there are no originals, and otherwise asks for that many |
| ClientApp.AllListedAllRequested | Client/src/App.jsx:227-229 | when every selected id is listed, every one is requested |
| ClientApp.WordCountsAgree | Client/src/components/ArticleCard.jsx:5-10 | the card's and the reader's word counts both equal the number of words, zero exactly for all-whitespace text |
| ClientApp.ServerCountsAtLeastClient | Client/src/components/ArticleReader.jsx:7-10 | the server's split count is never below the client's count, and equals it for non-empty text without leading or trailing whitespace |
| ClientApp.PreviewSpec | Client/src/components/ArticleCard.jsx:73 | the preview is a prefix of the content of at most 150 characters, all of it when shorter |

## Left out

- Network, browser and database access. Fetches, the search provider, the language model, `new URL(...).hostname` and `Date.now()` are parameters. MongoDB is a sequence of documents. For the article listing, the `$regex` search and the `sort` query parameter (by default `-date`, newest date first) become the `matching` list handed to the listing, already filtered and ordered. The available listing's `createdAt` sort, newest first, is reverse insertion order.
- DOM parsing with cheerio. Pages, cards and links are records of the strings the selectors would read. The candidate lists for title, author, date, description and image are given in the source's order.
- Date strings. Listing dates are timestamps; an unparsable date string (`Invalid Date`) is not modelled.
- Concurrency. `Promise.allSettled` in parallel mode and in `scrapeMultipleUrls` is an order-preserving map. A batch's runs each start from the same collection and clock reading, rather than seeing one another's inserts.
- Floating-point display: success rates, `toFixed` time estimates and durations. Logging, toasts, modals and all rendering are also left out.
- The statistics endpoints (`getArticleStats`, `getEnhancementStats`) and the test endpoints of the enhancement controller.
- `generateSummary`, the SEO metadata helpers and `assessContentQuality`, which parse model output.
- Fields the schema does not store. The listing scraper attaches `images`, `author` and `description`; the write drops them.
- Unicode whitespace. `\s` is a fixed set of ASCII characters: space, tab, newline, carriage return, form feed and vertical tab.
- ContentExtractor.CleanContent: the triple-newline replacement is not modelled as a step. The proof shows no newline survives the collapse, so it never applies.
- ArticleController.GetAll: a page or limit below 1, or a non-numeric one, is modelled as a 500 reply. The source's outcome there depends on the database driver: a zero limit means no limit.
- ListingScraper.SortByDateSpec: sortedness and permutation are proved. Stability is not, since a stable order is not needed for the selection's promises.
- ClientApp.EnhanceSelected: a listed article whose title is not a string is requested like any other. In the client, `article.title.substring` at Client/src/App.jsx:231 throws before its id is requested, which ends the whole loop: no completion flag is set and the selection is not cleared.
- ArticleModel.WriteMessage: the duplicate-key message names the collection `articles` alone. The database driver names it `<database>.articles`, the database coming from the connection string, which is not part of this model; the wording otherwise follows the driver's and is not guaranteed.
- EnhanceController.EnhanceBatch: a malformed id is answered 500 with a fixed detail. The source's detail is the database driver's cast-error message, whose wording is not part of this model.
- EnhanceController.AvailableSpec: the rows carry id, title, url and date but not the `createdAt` field the source also returns. The model keeps no creation time; insertion order stands in for it.
- EnhanceController.Available: the reply's pagination record also carries the next- and previous-page flags of the article listing, always false here; the source's reply has no such fields. A page or limit below 1 is answered 500. In the source a limit of 0 means no limit: the reply is 200 with every row from the skip on, and a page count of `Infinity`, or `NaN` for an empty collection, both sent as `null`.
- Text.ToLower: only ASCII letters are lowered. JavaScript's `toLowerCase` lowers all of Unicode, for example the Kelvin sign U+212A to "k", so `ReferenceFinder.Excluded` can drop a link the model keeps.
- Lengths count characters. JavaScript counts UTF-16 code units, so text outside the Basic Multilingual Plane counts twice toward the title bounds of 3 and 300 and the 50,000, 2,000, 500 and 150 character cuts, and a cut can split such a character in two.
- EnhancementWorkflow.Enhance: the run record's start and end times and its duration are not modelled. A thrown error is the `Failed` variant, carrying the steps done and the message.

## Findings

| source | as written | input that shows it | evidently intended | confidence | as-written member | corrected member |
|---|---|---|---|---|---|---|
| Client/src/App.jsx:361 | the compare view recovers the original url by splitting the enhanced url at the first "-enhanced-" | a stored article with url "a-enhanced" (listed by the client as enhanced, never as an original) is enhanced into "a-enhanced-enhanced-" plus the time; comparing it splits back to "a" and opens the unrelated original "a" when one is listed | split at the last "-enhanced-", which gives back every original url, so the compare view reports that the original is not listed rather than opening another article | not executed | ClientApp.CompareOpensOther | ClientApp.CompareLastFindsOriginal |
