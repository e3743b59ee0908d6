/** The article endpoints: storing a scraped listing by url, the paginated
    listing, reading, creating, updating and deleting single articles, and
    clearing the collection. Each handler returns its reply and the
    collection as it stands afterwards. */
module ArticleController {

  import opened Results
  import opened Text
  import opened ArticleModel

  /** A path id: one that parses as a document id, or one that does not (the
      store rejects it with a `CastError`). */
  datatype IdParam = IdOk(id: Id) | Malformed(text: string)

  /** A reply: its status code, its message, the error messages it lists, and
      its data. */
  datatype Reply<T> = Reply(status: nat, message: string, details: seq<string>, data: Option<T>)

  datatype Handled<T> = Handled(reply: Reply<T>, store: Store)

  const InvalidId := "Invalid article ID format"
  const NotFound := "Article not found"
  const UrlTaken := "An article with this URL already exists"
  const FieldsRequired := "Title, URL, and content are required"
  const ValidationFailedMessage := "Validation failed"

  function Fail<T>(status: nat, message: string, details: seq<string>): Reply<T> {
    Reply(status, message, details, None)
  }

  function Done<T>(status: nat, message: string, data: T): Reply<T> {
    Reply(status, message, [], Some(data))
  }

  // ---------------------------------------------------------------------------
  // Scrape and store
  // ---------------------------------------------------------------------------

  /** A listing entry the store refused, with the refusal's message. */
  datatype ItemError = ItemError(title: string, error: string)

  /** The collection after storing the first entries one by one, the
      positions of the entries that were stored, and the refusals. */
  datatype StoreRun = StoreRun(store: Store, saved: seq<nat>, errors: seq<ItemError>)

  /** Every entry upserted by its url, in order. */
  function StoreEach(s: Store, items: seq<Article>): StoreRun {
    if |items| == 0 then StoreRun(s, [], [])
    else
      var before := StoreEach(s, items[..|items| - 1]);
      var last := items[|items| - 1];
      match Upsert(before.store, last)
      case Ok(s') => StoreRun(s', before.saved + [|items| - 1], before.errors)
      case Err(m) => StoreRun(before.store, before.saved, before.errors + [ItemError(last.title, m)])
  }

  /** `t` is `s` with documents possibly rewritten in place or appended:
      every position of `s` keeps its id and its url. */
  predicate Extends(s: Store, t: Store) {
    && |s.docs| <= |t.docs|
    && forall j :: 0 <= j < |s.docs| ==> t.docs[j].id == s.docs[j].id && t.docs[j].article.url == s.docs[j].article.url
  }

  lemma ExtendsTrans(s: Store, t: Store, u: Store)
    requires Extends(s, t) && Extends(t, u)
    ensures Extends(s, u)
  {
  }

  /** A url held before an extension is still held after it. */
  lemma ExtendsHolds(s: Store, t: Store, url: string)
    requires Extends(s, t) && IndexOfUrl(s.docs, url).Some?
    ensures IndexOfUrl(t.docs, url).Some?
  {
    var k := IndexOfUrl(s.docs, url).value;
    assert t.docs[k].article.url == url;
  }

  /** An upsert only ever overwrites the document holding the url or
      appends one, so it extends the collection. */
  lemma UpsertExtends(s: Store, fields: Article)
    requires Upsert(s, fields).Ok?
    ensures Extends(s, Upsert(s, fields).value)
  {
    var a := Materialize(Prepared(fields), 0);
    assert Upsert(s, fields).value == Overwrite(s, a);
    OverwriteExtends(s, a);
  }

  lemma OverwriteExtends(s: Store, a: Article)
    ensures Extends(s, Overwrite(s, a))
  {
    if IndexOfUrl(s.docs, a.url).None? {
      var t := s.docs + [Doc(s.nextId, a)];
      assert forall j :: 0 <= j < |s.docs| ==> t[j] == s.docs[j];
    }
  }

  /** One more entry: the run so far, then an upsert of the entry. */
  lemma StoreEachLast(s: Store, items: seq<Article>, i: nat)
    requires i < |items|
    ensures var before := StoreEach(s, items[..i]);
      StoreEach(s, items[..i + 1]) ==
        match Upsert(before.store, items[i])
        case Ok(t) => StoreRun(t, before.saved + [i], before.errors)
        case Err(m) => StoreRun(before.store, before.saved, before.errors + [ItemError(items[i].title, m)])
  {
    assert items[..i + 1][..i] == items[..i];
  }

  /** Every stored position is an entry whose trimmed url the collection
      holds. */
  predicate SavedHeld(r: StoreRun, items: seq<Article>) {
    forall k :: 0 <= k < |r.saved| ==> r.saved[k] < |items| && IndexOfUrl(r.store.docs, Trim(items[r.saved[k]].url)).Some?
  }

  lemma SavedHeldStep(before: StoreRun, t: Store, items: seq<Article>, i: nat)
    requires i == |items| - 1 && SavedHeld(before, items[..i])
    requires Extends(before.store, t) && IndexOfUrl(t.docs, Trim(items[i].url)).Some?
    ensures SavedHeld(StoreRun(t, before.saved + [i], before.errors), items)
  {
    forall k | 0 <= k < |before.saved|
      ensures IndexOfUrl(t.docs, Trim(items[before.saved[k]].url)).Some?
    {
      assert items[..i][before.saved[k]] == items[before.saved[k]];
      ExtendsHolds(before.store, t, Trim(items[before.saved[k]].url));
    }
  }

  /** What storing the entries `items` from `s` is known to give `r`. */
  predicate StoredFrom(s: Store, items: seq<Article>, r: StoreRun) {
    && Good(r.store)
    && |r.saved| + |r.errors| == |items|
    && Extends(s, r.store)
    && |r.store.docs| <= |s.docs| + |items|
    && SavedHeld(r, items)
  }

  lemma StoredOk(s: Store, items: seq<Article>, i: nat, before: StoreRun, t: Store)
    requires i < |items| && StoredFrom(s, items[..i], before)
    requires Upsert(before.store, items[i]) == Ok(t)
    ensures StoredFrom(s, items[..i + 1], StoreRun(t, before.saved + [i], before.errors))
  {
    var next := items[..i + 1];
    assert next[..i] == items[..i] && next[i] == items[i];
    UpsertSpec(before.store, items[i]);
    assert Good(t) && |t.docs| <= |before.store.docs| + 1;
    UpsertExtends(before.store, items[i]);
    ExtendsTrans(s, before.store, t);
    SavedHeldStep(before, t, next, i);
  }

  lemma StoredErr(s: Store, items: seq<Article>, i: nat, before: StoreRun, e: ItemError)
    requires i < |items| && StoredFrom(s, items[..i], before)
    ensures StoredFrom(s, items[..i + 1], StoreRun(before.store, before.saved, before.errors + [e]))
  {
    assert forall k :: 0 <= k < |before.saved| ==> items[..i + 1][before.saved[k]] == items[..i][before.saved[k]];
  }

  lemma StoreEachStep(s: Store, items: seq<Article>, i: nat)
    requires i < |items| && StoredFrom(s, items[..i], StoreEach(s, items[..i]))
    ensures StoredFrom(s, items[..i + 1], StoreEach(s, items[..i + 1]))
  {
    StoreEachLast(s, items, i);
    var before := StoreEach(s, items[..i]);
    match Upsert(before.store, items[i]) {
      case Ok(t) => StoredOk(s, items, i, before, t);
      case Err(m) => StoredErr(s, items, i, before, ItemError(items[i].title, m));
    }
  }

  /** Storing a listing keeps the collection invariant, accounts for every
      entry once, extends the collection by at most one document per entry,
      and leaves every stored entry's url in the collection. */
  lemma {:induction false} StoreEachSpec(s: Store, items: seq<Article>)
    requires Good(s)
    ensures StoredFrom(s, items, StoreEach(s, items))
    decreases |items|
  {
    if |items| > 0 {
      var i := |items| - 1;
      assert items[..i][..i] == items[..i];
      StoreEachSpec(s, items[..i]);
      StoreEachStep(s, items, i);
      assert items[..i + 1] == items;
    }
  }

  /** What the scrape-and-store reply reports. */
  datatype StoreReport = StoreReport(count: nat, errors: seq<ItemError>)

  /** `scrapeAndStoreArticles`: `scraped` is what the listing scraper came to.
      Each entry is upserted on its own; a refused entry is reported and the
      loop goes on. */
  method ScrapeAndStore(s: Store, scraped: Result<seq<Article>>) returns (h: Handled<StoreReport>)
    requires Good(s)
    ensures Good(h.store)
    ensures scraped.Err? ==> h.reply.status == 500 && h.store == s
    ensures scraped == Ok([]) ==> h.reply.status == 404 && h.store == s
    ensures scraped.Ok? && |scraped.value| > 0 ==>
      && h.reply.status == 201
      && h.reply.data.Some?
      && h.reply.data.value.count + |h.reply.data.value.errors| == |scraped.value|
      && h.store == StoreEach(s, scraped.value).store
      && Extends(s, h.store)
      && |h.store.docs| <= |s.docs| + |scraped.value|
  {
    if scraped.Err? {
      return Handled(Fail(500, "Failed to scrape articles", [scraped.message]), s);
    }
    var items := scraped.value;
    if |items| == 0 {
      return Handled(Fail(404, "No articles found to scrape", []), s);
    }
    var store := s;
    var count := 0;
    var errors: seq<ItemError> := [];
    var i := 0;
    while i < |items|
      invariant 0 <= i <= |items|
      invariant var r := StoreEach(s, items[..i]);
        store == r.store && count == |r.saved| && errors == r.errors
    {
      StoreEachLast(s, items, i);
      match Upsert(store, items[i]) {
        case Ok(t) =>
          store := t;
          count := count + 1;
        case Err(m) =>
          errors := errors + [ItemError(items[i].title, m)];
      }
      i := i + 1;
    }
    assert items[..i] == items;
    StoreEachSpec(s, items);
    h := Handled(Done(201, "Successfully scraped and stored " + NatToString(count) + " articles", StoreReport(count, errors)), store);
  }

  // ---------------------------------------------------------------------------
  // Listing
  // ---------------------------------------------------------------------------

  datatype Pagination = Pagination(
    currentPage: nat,
    totalPages: nat,
    totalArticles: nat,
    articlesPerPage: nat,
    hasNextPage: bool,
    hasPrevPage: bool)

  datatype Listing<T> = Listing(articles: seq<T>, pagination: Pagination)

  function Min(a: nat, b: nat): nat {
    if a <= b then a else b
  }

  /** One page of `matching`, the documents the query selects in the order
      it sorts them: skip `(page - 1) * limit`, then take up to `limit`. */
  function Paginate<T>(matching: seq<T>, page: nat, limit: nat): (r: Listing<T>)
    requires page >= 1 && limit >= 1
  {
    var total := |matching|;
    var skip := (page - 1) * limit;
    var from := Min(skip, total);
    var items := matching[from..Min(from + limit, total)];
    Listing(items, Pagination(page, CeilDiv(total, limit), total, limit, skip + |items| < total, page > 1))
  }

  /** A page holds at most `limit` documents, the ones at positions `skip`
      onwards, and is empty exactly when it starts past the last document. */
  lemma PageContents<T>(matching: seq<T>, page: nat, limit: nat)
    requires page >= 1 && limit >= 1
    ensures var r := Paginate(matching, page, limit);
      var skip := (page - 1) * limit;
      && |r.articles| <= limit
      && (forall k :: 0 <= k < |r.articles| ==> skip + k < |matching| && r.articles[k] == matching[skip + k])
      && (|r.articles| == 0 <==> skip >= |matching|)
      && (skip + limit <= |matching| ==> |r.articles| == limit)
  {
  }

  lemma MulMono(a: nat, b: nat, c: nat)
    requires a <= b
    ensures a * c <= b * c
  {
  }

  /** Page `page` ends where page `page + 1` starts. */
  lemma NextPageArithmetic(page: nat, limit: nat)
    requires page >= 1 && limit >= 1
    ensures (page - 1) * limit + limit == page * limit
  {
  }

  /** There is a next page exactly when this page comes before the last one,
      as the page count reckons it, and a previous one exactly after the
      first. */
  lemma {:induction false} NextPageIffBeforeLast<T>(matching: seq<T>, page: nat, limit: nat)
    requires page >= 1 && limit >= 1
    ensures var p := Paginate(matching, page, limit).pagination;
      && (p.hasNextPage <==> page < p.totalPages)
      && (p.hasPrevPage <==> page > 1)
  {
    var total := |matching|;
    var pages := CeilDiv(total, limit);
    var skip := (page - 1) * limit;
    var n := |Paginate(matching, page, limit).articles|;
    NextPageArithmetic(page, limit);
    assert n == Min(Min(skip, total) + limit, total) - Min(skip, total);
    if skip + n < total {
      assert page * limit < total;
      if page >= pages {
        MulMono(pages, page, limit);
        assert false;
      }
    } else {
      assert total <= page * limit;
      if page < pages {
        MulMono(page, pages - 1, limit);
        assert false;
      }
    }
  }

  /** Every document is on exactly one page: the one numbered by its
      position divided by the page size, at the remainder. */
  lemma EveryDocumentOnOnePage<T>(matching: seq<T>, limit: nat, k: nat)
    requires limit >= 1 && k < |matching|
    ensures var page := k / limit + 1;
      var r := Paginate(matching, page, limit);
      k % limit < |r.articles| && r.articles[k % limit] == matching[k]
  {
    var page := k / limit + 1;
    assert (page - 1) * limit + k % limit == k;
  }

  /** `getAllArticles`; `matching` stands for the search and sort the query
      performs. A page number or page size below 1 is reported as a failed
      fetch. */
  function GetAll(s: Store, matching: seq<Article>, page: int, limit: int): (h: Handled<Listing<Article>>)
    ensures h.store == s
    ensures page >= 1 && limit >= 1 ==> h.reply.status == 200 && h.reply.data == Some(Paginate(matching, page, limit))
    ensures !(page >= 1 && limit >= 1) ==> h.reply.status == 500 && h.reply.data.None?
  {
    if page >= 1 && limit >= 1 then Handled(Done(200, "", Paginate(matching, page, limit)), s)
    else Handled(Fail(500, "Failed to fetch articles", []), s)
  }

  // ---------------------------------------------------------------------------
  // Single articles
  // ---------------------------------------------------------------------------

  /** `getArticleById`. */
  function GetById(s: Store, id: IdParam): (h: Handled<Article>)
    ensures h.store == s
    ensures id.Malformed? ==> h.reply.status == 400 && h.reply.message == InvalidId
    ensures id.IdOk? ==> (h.reply.status == 200 <==> FindById(s, id.id).Some?)
    ensures h.reply.status == 200 ==> h.reply.data == FindById(s, id.id)
    ensures id.IdOk? && FindById(s, id.id).None? ==> h.reply.status == 404
  {
    match id
    case Malformed(_) => Handled(Fail(400, InvalidId, []), s)
    case IdOk(i) =>
      match FindById(s, i)
      case None => Handled(Fail(404, NotFound, []), s)
      case Some(a) => Handled(Done(200, "", a), s)
  }

  /** A request body field; `None` is a field left out. */
  datatype Body = Body(
    title: Option<string>,
    url: Option<string>,
    image: Option<string>,
    content: Option<string>,
    date: Option<Timestamp>)

  /** JavaScript truthiness of an optional string field. */
  predicate Truthy(v: Option<string>) {
    v.Some? && v.value != ""
  }

  /** The reply for a refused write. */
  function WriteFailure<T>(e: WriteError, fallback: string): Reply<T> {
    match e
    case ValidationFailed(errs) => Fail(400, ValidationFailedMessage, FieldTexts(errs))
    case DuplicateUrl(_) => Fail(500, fallback, [WriteMessage(e)])
  }

  /** The messages of the failed validators, as the reply lists them. */
  function FieldTexts(errs: seq<FieldError>): (r: seq<string>)
    ensures |r| == |errs| && forall i :: 0 <= i < |errs| ==> r[i] == errs[i].message
  {
    if |errs| == 0 then [] else [errs[0].message] + FieldTexts(errs[1..])
  }

  /** The draft a create writes: the body's fields, the date defaulting to
      the current time when absent or zero, and the scrape time now. */
  function CreateDraft(body: Body, now: Timestamp): (d: Draft)
    ensures d.title == body.title && d.url == body.url && d.content == body.content && d.image == body.image
    ensures d.date.Some? && (body.date.Some? && body.date.value != 0 ==> d.date.value == body.date.value)
    ensures (body.date.None? || body.date.value == 0) ==> d.date == Some(now)
  {
    Draft(body.title, body.url, body.image, body.content,
      Some(if body.date.Some? && body.date.value != 0 then body.date.value else now), Some(now))
  }

  /** `createArticle`: the three required fields must be non-empty, the url
      must be free, and the date defaults to the current time. The url is
      looked up as the schema stores it, trimmed. */
  function CreateArticle(s: Store, body: Body, now: Timestamp): (h: Handled<Article>)
  {
    if !Truthy(body.title) || !Truthy(body.url) || !Truthy(body.content) then
      Handled(Fail(400, FieldsRequired, []), s)
    else if IndexOfUrl(s.docs, Trim(body.url.value)).Some? then
      Handled(Fail(409, UrlTaken, []), s)
    else
      match Create(s, CreateDraft(body, now), now)
      case Refused(e) => Handled(WriteFailure(e, "Failed to create article"), s)
      case Written(s', doc) => Handled(Done(201, "Article created successfully", doc.article), s')
  }

  /** A create that is refused leaves the collection unchanged; one that
      succeeds appends exactly one valid document holding the trimmed url and
      the given date (or the current time), and keeps the invariant. */
  lemma CreateArticleSpec(s: Store, body: Body, now: Timestamp)
    requires Good(s)
    ensures var h := CreateArticle(s, body, now);
      && (h.reply.status != 201 ==> h.store == s)
      && (!Truthy(body.title) || !Truthy(body.url) || !Truthy(body.content) ==> h.reply.status == 400)
      && ((Truthy(body.title) && Truthy(body.url) && Truthy(body.content) && IndexOfUrl(s.docs, Trim(body.url.value)).Some?)
            ==> h.reply.status == 409)
      && ((Truthy(body.title) && Truthy(body.url) && Truthy(body.content) && IndexOfUrl(s.docs, Trim(body.url.value)).None?)
            ==> var errs := Errors(Normalize(CreateDraft(body, now)), true);
                && (errs != [] ==>
                      && h.reply.status == 400
                      && h.reply.message == ValidationFailedMessage
                      && h.reply.details == FieldTexts(errs))
                && (errs == [] ==> h.reply.status == 201))
      && (h.reply.status == 201 ==>
            && h.store.docs == s.docs + [h.store.docs[|s.docs|]]
            && h.reply.data == Some(h.store.docs[|s.docs|].article)
            && h.store.docs[|s.docs|].article.url == Trim(body.url.value)
            && h.store.docs[|s.docs|].article.date == (if body.date.Some? && body.date.value != 0 then body.date.value else now)
            && Good(h.store))
  {
    if Truthy(body.title) && Truthy(body.url) && Truthy(body.content) && IndexOfUrl(s.docs, Trim(body.url.value)).None? {
      CreateSpec(s, CreateDraft(body, now), now);
    }
  }

  /** The fields an update sets: title, url, content and date only when
      given and truthy; image whenever it is given, so an empty image clears
      it. */
  function Changes(body: Body): Draft {
    Draft(
      if Truthy(body.title) then body.title else None,
      if Truthy(body.url) then body.url else None,
      body.image,
      if Truthy(body.content) then body.content else None,
      if body.date.Some? && body.date.value != 0 then body.date else None,
      None)
  }

  /** The document with the normalized changes written over it. */
  function Merge(a: Article, c: Draft): (r: Article)
    ensures r.scrapedAt == a.scrapedAt
  {
    Article(
      if c.title.Some? then c.title.value else a.title,
      if c.url.Some? then c.url.value else a.url,
      if c.image.Some? then c.image.value else a.image,
      if c.content.Some? then c.content.value else a.content,
      if c.date.Some? then c.date.value else a.date,
      a.scrapedAt)
  }

  /** Whether a document other than the one at position `k` holds `url`. */
  predicate TakenByOther(docs: seq<Doc>, k: nat, url: string) {
    exists j :: 0 <= j < |docs| && j != k && docs[j].article.url == url
  }

  /** `updateArticle`: an unknown id is not found; a new url held by another
      document conflicts; the changed fields are validated (the update
      validators check only the fields being set) and written over the
      document. */
  function UpdateArticle(s: Store, id: IdParam, body: Body): (h: Handled<Article>)
    requires Good(s)
  {
    match id
    case Malformed(_) => Handled(Fail(400, InvalidId, []), s)
    case IdOk(i) =>
      match IndexOfId(s.docs, i)
      case None => Handled(Fail(404, NotFound, []), s)
      case Some(k) =>
        var existing := s.docs[k].article;
        if Truthy(body.url) && body.url.value != existing.url && TakenByOther(s.docs, k, Trim(body.url.value)) then
          Handled(Fail(409, UrlTaken, []), s)
        else
          var c := Normalize(Changes(body));
          var errs := Errors(c, false);
          if errs != [] then Handled(Fail(400, ValidationFailedMessage, FieldTexts(errs)), s)
          else if c.url.Some? && TakenByOther(s.docs, k, c.url.value) then
            Handled(WriteFailure(DuplicateUrl(c.url.value), "Failed to update article"), s)
          else
            var a := Merge(existing, c);
            Handled(Done(200, "Article updated successfully", a), Store(s.docs[k := Doc(i, a)], s.nextId))
  }

  /** Whether the body asks to move the stored document `i` to a different
      url that another document already holds. */
  predicate UrlClash(s: Store, i: Id, body: Body)
    requires FindById(s, i).Some?
  {
    && Truthy(body.url)
    && body.url.value != FindById(s, i).value.url
    && exists j :: 0 <= j < |s.docs| && s.docs[j].id != i && s.docs[j].article.url == Trim(body.url.value)
  }

  /** An update changes at most the one document it names, keeps its id and
      position, keeps the collection invariant, and writes exactly the merged
      fields; every refusal leaves the collection as it was. */
  lemma UpdateArticleSpec(s: Store, id: IdParam, body: Body)
    requires Good(s)
    ensures var h := UpdateArticle(s, id, body);
      && Good(h.store)
      && (h.reply.status != 200 ==> h.store == s)
      && (id.Malformed? ==> h.reply.status == 400)
      && (id.IdOk? && FindById(s, id.id).None? ==> h.reply.status == 404)
      && (id.IdOk? && FindById(s, id.id).Some? && UrlClash(s, id.id, body) ==> h.reply.status == 409)
      && (id.IdOk? && FindById(s, id.id).Some? && !UrlClash(s, id.id, body) ==>
            var errs := Errors(Normalize(Changes(body)), false);
            && (errs != [] ==>
                  && h.reply.status == 400
                  && h.reply.message == ValidationFailedMessage
                  && h.reply.details == FieldTexts(errs))
            && (errs == [] ==> h.reply.status == 200))
      && (h.reply.status == 200 ==>
            && id.IdOk?
            && |h.store.docs| == |s.docs|
            && exists k :: 0 <= k < |s.docs| && s.docs[k].id == id.id
                 && h.store.docs == s.docs[k := Doc(id.id, Merge(s.docs[k].article, Normalize(Changes(body))))])
  {
    if id.IdOk? && IndexOfId(s.docs, id.id).Some? {
      var k := IndexOfId(s.docs, id.id).value;
      var c := Normalize(Changes(body));
      ClashIsTakenByOther(s, k, body);
      if Errors(c, false) == [] && !(c.url.Some? && TakenByOther(s.docs, k, c.url.value)) {
        UpdateWritten(s, k, body);
        assert s.docs[k].id == id.id;
      }
    }
  }

  /** Under the invariant, the update's url conflict is another position
      holding the trimmed new url; once it is ruled out, the write's own
      uniqueness check cannot fail either, since an unchanged url is the
      document's own. */
  lemma ClashIsTakenByOther(s: Store, k: nat, body: Body)
    requires Good(s) && k < |s.docs|
    ensures FindById(s, s.docs[k].id) == Some(s.docs[k].article)
    ensures UrlClash(s, s.docs[k].id, body) <==>
      (Truthy(body.url) && body.url.value != s.docs[k].article.url && TakenByOther(s.docs, k, Trim(body.url.value)))
    ensures !UrlClash(s, s.docs[k].id, body) ==>
      var c := Normalize(Changes(body));
      !(c.url.Some? && TakenByOther(s.docs, k, c.url.value))
  {
    var i := s.docs[k].id;
    forall j | 0 <= j < |s.docs| && j != k
      ensures s.docs[j].id != i && s.docs[j].article.url != s.docs[k].article.url
    {
      if j < k { assert s.docs[j].id < s.docs[k].id; }
      else { assert s.docs[k].id < s.docs[j].id; }
    }
    TrimTight(s.docs[k].article.url);
  }

  /** A title of whitespace only is a given, truthy title that trims to
      nothing, so the update validators reject it as missing rather than as
      too short, and nothing is written. */
  lemma UpdateBlankTitleRequired(s: Store, i: Id, body: Body)
    requires Good(s) && FindById(s, i).Some?
    requires body.title.Some? && body.title.value != "" && AllWs(body.title.value)
    requires !Truthy(body.url)
    ensures var h := UpdateArticle(s, IdOk(i), body);
      && h.reply.status == 400 && h.reply.message == ValidationFailedMessage
      && |h.reply.details| > 0 && h.reply.details[0] == "Article title is required"
      && h.store == s
  {
  }

  /** Writing accepted changes over the document at position `k` keeps the
      collection invariant. */
  lemma UpdateWritten(s: Store, k: nat, body: Body)
    requires Good(s) && k < |s.docs|
    requires Errors(Normalize(Changes(body)), false) == []
    requires var c := Normalize(Changes(body)); !(c.url.Some? && TakenByOther(s.docs, k, c.url.value))
    ensures Good(Store(s.docs[k := Doc(s.docs[k].id, Merge(s.docs[k].article, Normalize(Changes(body))))], s.nextId))
  {
    var c := Normalize(Changes(body));
    NormalizeNormalForm(Changes(body));
    MergeValid(s.docs[k].article, c);
    ReplaceKeepsGood(s, k, Merge(s.docs[k].article, c));
  }

  /** Writing validated, normalized changes over a valid document gives a
      valid document. */
  lemma MergeValid(a: Article, c: Draft)
    requires Valid(a) && NormalForm(c) && Errors(c, false) == []
    ensures Valid(Merge(a, c))
  {
    assert TitleError(c.title, false).None? && UrlError(c.url, false).None? && ContentError(c.content, false).None?;
  }

  /** The merge overwrites exactly the fields the body sets: an absent or
      empty title, url or content, or an absent date, keeps the stored value,
      while any given image, empty included, replaces it. */
  lemma MergeFields(a: Article, body: Body)
    ensures var m := Merge(a, Normalize(Changes(body)));
      && (Truthy(body.title) ==> m.title == Trim(body.title.value))
      && (!Truthy(body.title) ==> m.title == a.title)
      && (Truthy(body.url) ==> m.url == Trim(body.url.value))
      && (!Truthy(body.url) ==> m.url == a.url)
      && (body.image.Some? ==> m.image == Trim(body.image.value))
      && (body.image.None? ==> m.image == a.image)
      && (Truthy(body.content) ==> m.content == Trim(body.content.value))
      && (!Truthy(body.content) ==> m.content == a.content)
      && m.scrapedAt == a.scrapedAt
  {
  }

  /** `deleteArticle`. */
  function DeleteArticle(s: Store, id: IdParam): (h: Handled<Article>)
  {
    match id
    case Malformed(_) => Handled(Fail(400, InvalidId, []), s)
    case IdOk(i) =>
      match IndexOfId(s.docs, i)
      case None => Handled(Fail(404, NotFound, []), s)
      case Some(k) => Handled(Done(200, "Article deleted successfully", s.docs[k].article), Store(s.docs[..k] + s.docs[k + 1..], s.nextId))
  }

  /** Removing position `k` leaves every other document in place, in order,
      and no document with the removed id. */
  lemma RemoveAt(s: Store, k: nat)
    requires Good(s) && k < |s.docs|
    ensures var t := s.docs[..k] + s.docs[k + 1..];
      && |t| == |s.docs| - 1
      && (forall j :: 0 <= j < |t| ==> t[j].id != s.docs[k].id)
      && (forall d :: d in s.docs && d.id != s.docs[k].id ==> d in t)
  {
    var t := s.docs[..k] + s.docs[k + 1..];
    assert forall j :: 0 <= j < |t| ==> t[j] == (if j < k then s.docs[j] else s.docs[j + 1]);
    forall d | d in s.docs && d.id != s.docs[k].id
      ensures d in t
    {
      var j :| 0 <= j < |s.docs| && s.docs[j] == d;
      if j < k { assert t[j] == d; } else { assert t[j - 1] == d; }
    }
  }

  /** A delete removes exactly the named document and nothing else, keeping
      the invariant; otherwise nothing changes. */
  lemma DeleteArticleSpec(s: Store, id: IdParam)
    requires Good(s)
    ensures var h := DeleteArticle(s, id);
      && Good(h.store)
      && (h.reply.status != 200 ==> h.store == s)
      && (id.Malformed? ==> h.reply.status == 400)
      && (id.IdOk? ==> (h.reply.status == 404 <==> FindById(s, id.id).None?))
      && (h.reply.status == 200 ==>
            && |h.store.docs| == |s.docs| - 1
            && FindById(h.store, id.id).None?
            && forall d :: d in s.docs && d.id != id.id ==> d in h.store.docs)
  {
    if id.IdOk? && IndexOfId(s.docs, id.id).Some? {
      var k := IndexOfId(s.docs, id.id).value;
      RemoveKeepsGood(s, k);
      RemoveAt(s, k);
    }
  }

  /** `deleteAllArticles`: the collection is emptied and the reply counts
      the documents it held. */
  function DeleteAll(s: Store): (h: Handled<nat>)
    ensures h.store.docs == [] && h.store.nextId == s.nextId
    ensures h.reply.status == 200 && h.reply.data == Some(|s.docs|)
  {
    Handled(Done(200, "Successfully deleted " + NatToString(|s.docs|) + " articles", |s.docs|), Store([], s.nextId))
  }
}
