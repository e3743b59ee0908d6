/** The enhancement endpoints: one article by id, a batch of ids, every
    stored article, and the listing of articles available for enhancement.
    Each validates its request before any workflow runs and maps a thrown
    error to a status code. */
module EnhanceController {

  import opened Results
  import opened Text
  import opened ArticleModel
  import AC = ArticleController
  import EW = EnhancementWorkflow
  import BC = BatchCoordinator
  import RF = ReferenceFinder
  import RE = RewriteEngine

  const IdRequired := "Article ID is required"
  const Enhanced := "Article enhanced successfully"
  const Unavailable := "External API service unavailable"
  const EnhanceFailed := "Failed to enhance article"
  const IdsRequired := "articleIds array is required and must not be empty"
  const TooManyIds := "Maximum 10 articles can be enhanced in a single batch"
  const IdsMissing := "Some article IDs not found in database"
  const BatchFailed := "Failed to enhance batch of articles"
  const MaxBatch: nat := 10
  const MaxAll: nat := 20

  // ---------------------------------------------------------------------------
  // One article
  // ---------------------------------------------------------------------------

  /** Whether a thrown message names an external service: it mentions
      `API` or `quota`, case-sensitively. */
  predicate ExternalFailure(message: string) {
    Contains(message, "API") || Contains(message, "quota")
  }

  /** The reply for a workflow that threw `message`. */
  function WorkflowFailure<T>(message: string): (r: AC.Reply<T>)
    ensures r.status == 503 <==> ExternalFailure(message)
    ensures r.status == 500 <==> !ExternalFailure(message)
    ensures r.details == [message] && r.data.None?
  {
    if ExternalFailure(message) then AC.Fail(503, Unavailable, [message])
    else AC.Fail(500, EnhanceFailed, [message])
  }

  /** `enhanceArticleById`: `id` is `None` when the path carries none. The
      article is looked up before the workflow runs; the reply carries the
      whole run. */
  function EnhanceById(s: Store, id: Option<AC.IdParam>, env: EW.Services, now: Timestamp): (h: AC.Handled<EW.Run>)
  {
    match id
    case None => AC.Handled(AC.Fail(400, IdRequired, []), s)
    case Some(Malformed(_)) => AC.Handled(AC.Fail(400, AC.InvalidId, []), s)
    case Some(IdOk(i)) =>
      if FindById(s, i).None? then AC.Handled(AC.Fail(404, EW.NotFound(i), []), s)
      else
        var run := EW.Enhance(s, i, env, now);
        match run
        case Completed(_, _, s') => AC.Handled(AC.Done(200, Enhanced, run), s')
        case Failed(_, err, s') => AC.Handled(WorkflowFailure(err), s')
  }

  /** Only a completed run answers 200, and only it changes the collection,
      by appending the one enhanced article; a missing id or an unknown
      article is answered before any workflow runs; a failed run answers 503
      or 500 according to its message. */
  lemma EnhanceByIdSpec(s: Store, id: Option<AC.IdParam>, env: EW.Services, now: Timestamp)
    requires Good(s)
    ensures var h := EnhanceById(s, id, env, now);
      && Good(h.store)
      && (h.reply.status != 200 ==> h.store == s)
      && (id.None? || id.value.Malformed? ==> h.reply.status == 400)
      && (id.Some? && id.value.IdOk? && FindById(s, id.value.id).None? ==> h.reply.status == 404)
      && (h.reply.status == 200 <==>
            id.Some? && id.value.IdOk? && FindById(s, id.value.id).Some? && EW.Enhance(s, id.value.id, env, now).Completed?)
      && (h.reply.status == 200 ==>
            && |h.store.docs| == |s.docs| + 1
            && h.store.docs[..|s.docs|] == s.docs
            && h.store.docs[|s.docs|].article.url == EW.EnhancedUrl(FindById(s, id.value.id).value.url, now))
      && (id.Some? && id.value.IdOk? && FindById(s, id.value.id).Some? && EW.Enhance(s, id.value.id, env, now).Failed? ==>
            (h.reply.status == 503 <==> ExternalFailure(EW.Enhance(s, id.value.id, env, now).error)))
  {
    if id.Some? && id.value.IdOk? && FindById(s, id.value.id).Some? {
      EW.RunSpec(s, id.value.id, env, now);
    }
  }

  /** A string in which the pattern's first character never occurs does not
      contain the pattern; the string is given in two parts. */
  lemma MissingFirstChar(a: string, b: string, pat: string)
    requires |pat| > 0
    requires forall k :: 0 <= k < |a| ==> a[k] != pat[0]
    requires forall k :: 0 <= k < |b| ==> b[k] != pat[0]
    ensures !Contains(a + b, pat)
  {
    var s := a + b;
    forall i | 0 <= i <= |s| && i + |pat| <= |s|
      ensures !OccursAt(s, pat, i)
    {
      assert s[i] == if i < |a| then a[i] else b[i - |a|];
      assert s[i..i + |pat|][0] == s[i] != pat[0];
    }
  }

  /** The workflow's own messages land on both sides of the 503 rule: a
      missing or rejected language-model key names an API, so it is answered
      as an unavailable service. */
  lemma InvalidKeyUnavailable()
    ensures ExternalFailure(RE.InvalidKey)
  {
    ContainsMiddle("Invalid Groq ", "API", " key. Please check your GROQ_API_KEY in .env");
  }

  /** A missing search key surfaces as the setup instructions, which name
      `SERPAPI_KEY` and so are answered as an unavailable service too. */
  lemma SetupInstructionsUnavailable()
    ensures ExternalFailure(RF.SetupInstructions)
  {
    ContainsMiddle("SerpApi is not configured. Please add SERP", "API", "_KEY to your .env file. Get your key at: https://serpapi.com/");
  }

  /** An empty search and an empty scrape name no service and are answered
      500. */
  lemma EmptyResultsServerError()
    ensures !ExternalFailure(EW.NoResults)
    ensures !ExternalFailure(EW.NothingScraped)
  {
    assert EW.NoResults == EW.NoResults + [];
    MissingFirstChar(EW.NoResults, [], "API");
    MissingFirstChar(EW.NoResults, [], "quota");
    MissingFirstChar("Failed to scrape content ", "from any of the search results", "API");
    MissingFirstChar("Failed to scrape content ", "from any of the search results", "quota");
  }

  // ---------------------------------------------------------------------------
  // A batch of ids
  // ---------------------------------------------------------------------------

  /** The ids of a request, or `None` when one of them is malformed (the
      lookup then throws a `CastError`). */
  function ParseIds(ps: seq<AC.IdParam>): (r: Option<seq<Id>>)
    ensures r.Some? <==> forall k :: 0 <= k < |ps| ==> ps[k].IdOk?
    ensures r.Some? ==> |r.value| == |ps| && forall k :: 0 <= k < |ps| ==> r.value[k] == ps[k].id
  {
    if |ps| == 0 then Some([])
    else
      match ParseIds(ps[..|ps| - 1])
      case None => None
      case Some(init) =>
        match ps[|ps| - 1]
        case Malformed(_) => None
        case IdOk(i) => Some(init + [i])
  }

  /** How many stored documents `find({_id: {$in: ids}})` returns: each
      document once, however often its id is listed. */
  function MatchCount(docs: seq<Doc>, ids: seq<Id>): nat {
    if |docs| == 0 then 0
    else (if docs[0].id in ids then 1 else 0) + MatchCount(docs[1..], ids)
  }

  /** The ids the collection holds. */
  function IdSet(docs: seq<Doc>): set<Id> {
    set k | 0 <= k < |docs| :: docs[k].id
  }

  /** The ids a request lists, each once. */
  function Listed(ids: seq<Id>): set<Id> {
    set x | x in ids
  }

  predicate Distinct(ids: seq<Id>) {
    forall i, j :: 0 <= i < j < |ids| ==> ids[i] != ids[j]
  }

  /** `enhanceBatchArticles`; `articleIds` is `None` when the body has no
      array. Every id must be stored, once, before the batch runs. */
  function EnhanceBatch(s: Store, articleIds: Option<seq<AC.IdParam>>, options: BC.Options, outcome: Id -> BC.Outcome): (r: AC.Reply<BC.BatchResult>)
  {
    if articleIds.None? || |articleIds.value| == 0 then AC.Fail(400, IdsRequired, [])
    else if |articleIds.value| > MaxBatch then AC.Fail(400, TooManyIds, [])
    else
      match ParseIds(articleIds.value)
      case None => AC.Fail(500, BatchFailed, [AC.InvalidId])
      case Some(ids) =>
        if MatchCount(s.docs, ids) != |ids| then AC.Fail(404, IdsMissing, [])
        else
          var result := BC.Multiple(ids, outcome, options);
          AC.Done(200, "Batch enhancement completed: " + NatToString(|result.successful|) + "/" + NatToString(result.total) + " successful", result)
  }

  /** The ids of a non-empty collection: the first one, not repeated, and
      those of the rest. */
  lemma IdSetFirst(docs: seq<Doc>)
    requires |docs| > 0 && IdsAscending(docs)
    ensures IdSet(docs) == {docs[0].id} + IdSet(docs[1..])
    ensures docs[0].id !in IdSet(docs[1..])
  {
    var rest := docs[1..];
    forall x | x in IdSet(docs) ensures x in {docs[0].id} + IdSet(rest) {
      var k :| 0 <= k < |docs| && docs[k].id == x;
      if k > 0 { assert rest[k - 1].id == x; }
    }
    forall x | x in IdSet(rest) ensures x in IdSet(docs) {
      var k :| 0 <= k < |rest| && rest[k].id == x;
      assert docs[k + 1].id == x;
    }
  }

  /** The documents whose id is listed are counted once each, since the
      collection's ids are distinct. */
  lemma {:induction false} MatchCountIsOverlap(docs: seq<Doc>, ids: seq<Id>)
    requires IdsAscending(docs)
    ensures MatchCount(docs, ids) == |IdSet(docs) * Listed(ids)|
    decreases |docs|
  {
    var listed := Listed(ids);
    if |docs| > 0 {
      var rest := docs[1..];
      MatchCountIsOverlap(rest, ids);
      IdSetFirst(docs);
      if docs[0].id in ids {
        assert IdSet(docs) * listed == {docs[0].id} + IdSet(rest) * listed;
      } else {
        assert IdSet(docs) * listed == IdSet(rest) * listed;
      }
    } else {
      assert IdSet(docs) == {};
    }
  }

  /** A list has as many distinct elements as entries exactly when no entry
      repeats, and never more. */
  lemma {:induction false} DistinctCount(ids: seq<Id>)
    ensures |Listed(ids)| <= |ids|
    ensures |Listed(ids)| == |ids| <==> Distinct(ids)
    decreases |ids|
  {
    if |ids| > 0 {
      var init := ids[..|ids| - 1];
      var last := ids[|ids| - 1];
      DistinctCount(init);
      assert Listed(ids) == Listed(init) + {last} by {
        assert ids == init + [last];
      }
      if last in init {
        var k :| 0 <= k < |init| && init[k] == last;
        assert ids[k] == ids[|ids| - 1];
        assert Listed(ids) == Listed(init);
      } else {
        assert last !in Listed(init);
        assert |Listed(ids)| == |Listed(init)| + 1;
        assert Distinct(ids) ==> Distinct(init) by {
          assert forall i :: 0 <= i < |init| ==> init[i] == ids[i];
        }
        if Distinct(init) {
          forall i, j | 0 <= i < j < |ids| ensures ids[i] != ids[j] {
            if j < |init| { assert ids[i] == init[i] && ids[j] == init[j]; }
            else { assert ids[i] == init[i]; }
          }
        }
      }
    }
  }

  /** A subset as large as its superset is the whole of it. */
  lemma SubsetCard<T>(a: set<T>, b: set<T>)
    requires a <= b
    ensures |a| <= |b|
    ensures |a| == |b| ==> a == b
  {
    assert b == a + (b - a);
    assert a * (b - a) == {};
  }

  /** The existence check passes exactly when the listed ids are distinct
      and every one of them is stored: a repeated id fails it even when the
      article exists. */
  lemma BatchCheckIff(docs: seq<Doc>, ids: seq<Id>)
    requires IdsAscending(docs)
    ensures MatchCount(docs, ids) == |ids| <==>
      Distinct(ids) && forall k :: 0 <= k < |ids| ==> ids[k] in IdSet(docs)
  {
    var listed := Listed(ids);
    MatchCountIsOverlap(docs, ids);
    DistinctCount(ids);
    SubsetCard(IdSet(docs) * listed, listed);
    if Distinct(ids) && forall k :: 0 <= k < |ids| ==> ids[k] in IdSet(docs) {
      assert IdSet(docs) * listed == listed;
    }
    if MatchCount(docs, ids) == |ids| {
      assert |IdSet(docs) * listed| == |listed|;
      assert IdSet(docs) * listed == listed;
      forall k | 0 <= k < |ids| ensures ids[k] in IdSet(docs) {
        assert ids[k] in listed;
      }
    }
  }

  /** A batch runs exactly when the request lists one to ten well-formed,
      distinct, stored ids, and then reports every listed id; otherwise it
      is refused with 400, 500 or 404 before any workflow runs. */
  lemma EnhanceBatchSpec(s: Store, articleIds: Option<seq<AC.IdParam>>, options: BC.Options, outcome: Id -> BC.Outcome)
    requires Good(s)
    ensures var r := EnhanceBatch(s, articleIds, options, outcome);
      && (articleIds.None? || |articleIds.value| == 0 || |articleIds.value| > MaxBatch ==> r.status == 400)
      && (r.status == 200 <==>
            && articleIds.Some? && 1 <= |articleIds.value| <= MaxBatch
            && ParseIds(articleIds.value).Some?
            && Distinct(ParseIds(articleIds.value).value)
            && forall k :: 0 <= k < |articleIds.value| ==> articleIds.value[k].id in IdSet(s.docs))
      && (r.status == 200 ==>
            r.data == Some(BC.Multiple(ParseIds(articleIds.value).value, outcome, options))
            && r.data.value.total == |articleIds.value|)
  {
    if articleIds.Some? && 1 <= |articleIds.value| <= MaxBatch && ParseIds(articleIds.value).Some? {
      var ids := ParseIds(articleIds.value).value;
      BatchCheckIff(s.docs, ids);
      BC.SequentialCounts(ids, outcome, options.stopOnError);
    }
  }

  /** A repeated id is refused even when the article exists. */
  lemma RepeatedIdRefused(s: Store, id: Id, options: BC.Options, outcome: Id -> BC.Outcome)
    requires Good(s)
    ensures EnhanceBatch(s, Some([AC.IdOk(id), AC.IdOk(id)]), options, outcome).status == 404
  {
    var ids := [id, id];
    var parsed := ParseIds([AC.IdOk(id), AC.IdOk(id)]);
    assert parsed.Some?;
    assert parsed.value == ids;
    BatchCheckIff(s.docs, ids);
    assert ids[0] == ids[1];
  }

  // ---------------------------------------------------------------------------
  // Every article
  // ---------------------------------------------------------------------------

  function TooMany(count: nat): string {
    "Too many articles (" + NatToString(count) + "). Please use batch enhancement for large datasets or set parallel:true in options."
  }

  /** `enhanceAllArticlesInDb`: the collection is counted first; none is not
      found and more than twenty is refused, whatever the options say. */
  function EnhanceAllInDb(s: Store, options: BC.Options, outcome: Id -> BC.Outcome): (r: AC.Reply<BC.BatchResult>)
  {
    var n := |s.docs|;
    if n == 0 then AC.Fail(404, BC.NoArticles, [])
    else if n > MaxAll then AC.Fail(400, TooMany(n), [])
    else
      var result := BC.All(s, outcome, options);
      AC.Done(200, "Enhanced " + NatToString(|result.successful|) + "/" + NatToString(result.total) + " articles", result)
  }

  /** The endpoint runs exactly for one to twenty stored articles, in every
      mode; the run then covers every stored id, and the batch's own
      empty-collection report is never what the endpoint answers with. */
  lemma EnhanceAllSpec(s: Store, options: BC.Options, outcome: Id -> BC.Outcome)
    ensures var r := EnhanceAllInDb(s, options, outcome);
      && (r.status == 200 <==> 1 <= |s.docs| <= MaxAll)
      && (|s.docs| == 0 ==> r.status == 404)
      && (|s.docs| > MaxAll ==> r.status == 400 && r == EnhanceAllInDb(s, BC.Options(!options.parallel, options.stopOnError), outcome))
      && (r.status == 200 ==>
            && r.data == Some(BC.Multiple(Ids(s.docs), outcome, options))
            && r.data.value.total == |s.docs|
            && r.data.value.message.None?)
  {
    if 1 <= |s.docs| <= MaxAll {
      BC.SequentialCounts(Ids(s.docs), outcome, options.stopOnError);
    }
  }

  // ---------------------------------------------------------------------------
  // Available articles
  // ---------------------------------------------------------------------------

  /** The projected row the listing shows for one document. */
  datatype Row = Row(id: Id, title: string, url: string, date: Timestamp)

  function Rows(docs: seq<Doc>): (r: seq<Row>)
    ensures |r| == |docs|
    ensures forall k :: 0 <= k < |docs| ==> r[k] == Row(docs[k].id, docs[k].article.title, docs[k].article.url, docs[k].article.date)
  {
    if |docs| == 0 then [] else Rows(docs[..|docs| - 1]) + [Row(docs[|docs| - 1].id, docs[|docs| - 1].article.title, docs[|docs| - 1].article.url, docs[|docs| - 1].article.date)]
  }

  /** Newest first: the reverse of insertion order. */
  function NewestFirst(docs: seq<Doc>): (r: seq<Doc>)
    ensures |r| == |docs| && forall k :: 0 <= k < |docs| ==> r[k] == docs[|docs| - 1 - k]
  {
    if |docs| == 0 then [] else [docs[|docs| - 1]] + NewestFirst(docs[..|docs| - 1])
  }

  /** `getAvailableArticles`: the same page arithmetic as the article
      listing over every document, newest first, without the next and
      previous flags. */
  function Available(s: Store, page: int, limit: int): (r: AC.Reply<AC.Listing<Row>>)
  {
    if page >= 1 && limit >= 1 then
      var l := AC.Paginate(Rows(NewestFirst(s.docs)), page, limit);
      AC.Done(200, "", AC.Listing(l.articles, l.pagination.(hasNextPage := false, hasPrevPage := false)))
    else AC.Fail(500, "Failed to fetch available articles", [])
  }

  /** The available reply is page `page` of the rows newest first, with the
      page flags cleared. */
  lemma AvailableIsPage(s: Store, page: nat, limit: nat)
    requires page >= 1 && limit >= 1
    ensures var l := AC.Paginate(Rows(NewestFirst(s.docs)), page, limit);
      Available(s, page, limit) == AC.Done(200, "", AC.Listing(l.articles, l.pagination.(hasNextPage := false, hasPrevPage := false)))
  {
  }

  /** Position `i` of the newest-first rows is the row of the document
      counted `i` back from the newest. */
  lemma NewestRowAt(docs: seq<Doc>, i: nat)
    requires i < |docs|
    ensures var d := docs[|docs| - 1 - i];
      Rows(NewestFirst(docs))[i] == Row(d.id, d.article.title, d.article.url, d.article.date)
  {
  }

  /** Page `page` of the available listing holds the rows of the documents
      counted back from the newest, from position `(page - 1) * limit` on:
      a full page while enough documents remain, none once the skip passes
      the last one. The page count is the total over the limit, rounded
      up. */
  lemma AvailableSpec(s: Store, page: nat, limit: nat)
    requires page >= 1 && limit >= 1
    ensures var r := Available(s, page, limit);
      var skip := (page - 1) * limit;
      && r.status == 200 && r.data.Some?
      && |r.data.value.articles| <= limit
      && (|r.data.value.articles| == 0 <==> skip >= |s.docs|)
      && (skip + limit <= |s.docs| ==> |r.data.value.articles| == limit)
      && r.data.value.pagination.currentPage == page
      && r.data.value.pagination.articlesPerPage == limit
      && r.data.value.pagination.totalArticles == |s.docs|
      && r.data.value.pagination.totalPages == CeilDiv(|s.docs|, limit)
      && r.data.value.pagination.totalPages * limit >= |s.docs|
      && forall k :: 0 <= k < |r.data.value.articles| ==>
           && skip + k < |s.docs|
           && var d := s.docs[|s.docs| - 1 - (skip + k)];
              r.data.value.articles[k] == Row(d.id, d.article.title, d.article.url, d.article.date)
  {
    var rows := Rows(NewestFirst(s.docs));
    var l := AC.Paginate(rows, page, limit);
    AvailableIsPage(s, page, limit);
    AC.PageContents(rows, page, limit);
    var skip := (page - 1) * limit;
    forall k | 0 <= k < |l.articles|
      ensures skip + k < |s.docs|
      ensures var d := s.docs[|s.docs| - 1 - (skip + k)];
        l.articles[k] == Row(d.id, d.article.title, d.article.url, d.article.date)
    {
      NewestRowAt(s.docs, skip + k);
    }
  }
}
