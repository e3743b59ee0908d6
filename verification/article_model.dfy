/** The article schema (its trimming setters, defaults and validators) and the
    article collection the controllers and the enhancement workflow write to.
    The collection is kept in insertion order, which is the order an
    unsorted query returns it in. */
module ArticleModel {

  import opened Results
  import opened Text

  type Id = nat

  /** Milliseconds since the epoch, as `Date.now()` reports them. */
  type Timestamp = nat

  /** A stored article document. */
  datatype Article = Article(
    title: string,
    url: string,
    image: string,
    content: string,
    date: Timestamp,
    scrapedAt: Timestamp)

  /** The field values handed to the model; `None` is a field left undefined. */
  datatype Draft = Draft(
    title: Option<string>,
    url: Option<string>,
    image: Option<string>,
    content: Option<string>,
    date: Option<Timestamp>,
    scrapedAt: Option<Timestamp>)

  datatype FieldError = FieldError(path: string, message: string)

  /** Why a write was refused: a validator failed (a `ValidationError`), or the
      unique index on `url` already holds the value (a duplicate-key error). */
  datatype WriteError = ValidationFailed(errors: seq<FieldError>) | DuplicateUrl(url: string)

  // ---------------------------------------------------------------------------
  // Schema
  // ---------------------------------------------------------------------------

  const TitleMin := 3
  const TitleMax := 300
  const ContentMin := 10

  /** The `url` validator `/^https?:\/\/.+/`: a scheme prefix and at least one
      character after it that is not a line terminator. */
  predicate ValidUrl(u: string) {
    || (StartsWith(u, "http://") && |u| > 7 && !IsLineTerm(u[7]))
    || (StartsWith(u, "https://") && |u| > 8 && !IsLineTerm(u[8]))
  }

  /** No whitespace at either end: what a `trim: true` setter leaves. */
  predicate Trimmed(s: string) {
    |s| == 0 || (!IsWs(s[0]) && !IsWs(s[|s| - 1]))
  }

  /** A line separator right after the scheme is not a character `.` can
      match, so the url is refused. */
  lemma SeparatorAfterSchemeInvalid()
    ensures !ValidUrl("http://\U{2028}x")
    ensures ValidUrl("http://x")
  {
  }

  /** What a stored document satisfies once setters and validators have run. */
  predicate Valid(a: Article) {
    && Trimmed(a.title) && TitleMin <= |a.title| <= TitleMax
    && Trimmed(a.url) && ValidUrl(a.url)
    && Trimmed(a.content) && |a.content| >= ContentMin
    && Trimmed(a.image)
  }

  function TrimOpt(v: Option<string>): Option<string> {
    match v
    case None => None
    case Some(s) => Some(Trim(s))
  }

  /** The `trim: true` setters applied to every string field. */
  function Normalize(d: Draft): Draft {
    d.(title := TrimOpt(d.title), url := TrimOpt(d.url), image := TrimOpt(d.image), content := TrimOpt(d.content))
  }

  /** The first failing validator of `title`, if any. A missing field fails
      `required` only when the whole document is validated (on create); an
      update validates just the fields it sets, and a set field that is empty
      after trimming fails `required` in both cases. */
  function TitleError(v: Option<string>, checkRequired: bool): Option<FieldError> {
    match v
    case None => if checkRequired then Some(FieldError("title", "Article title is required")) else None
    case Some(t) =>
      if t == "" then Some(FieldError("title", "Article title is required"))
      else if |t| < TitleMin then Some(FieldError("title", "Title must be at least 3 characters long"))
      else if |t| > TitleMax then Some(FieldError("title", "Title cannot exceed 300 characters"))
      else None
  }

  function UrlError(v: Option<string>, checkRequired: bool): Option<FieldError> {
    match v
    case None => if checkRequired then Some(FieldError("url", "Article URL is required")) else None
    case Some(u) =>
      if u == "" then Some(FieldError("url", "Article URL is required"))
      else if !ValidUrl(u) then Some(FieldError("url", "Please provide a valid URL"))
      else None
  }

  function ContentError(v: Option<string>, checkRequired: bool): Option<FieldError> {
    match v
    case None => if checkRequired then Some(FieldError("content", "Article content is required")) else None
    case Some(c) =>
      if c == "" then Some(FieldError("content", "Article content is required"))
      else if |c| < ContentMin then Some(FieldError("content", "Content must be at least 10 characters long"))
      else None
  }

  function OptList(e: Option<FieldError>): seq<FieldError> {
    match e
    case None => []
    case Some(x) => [x]
  }

  /** All validator failures of an already normalized draft, in schema order. */
  function Errors(d: Draft, checkRequired: bool): seq<FieldError> {
    OptList(TitleError(d.title, checkRequired))
      + OptList(UrlError(d.url, checkRequired))
      + OptList(ContentError(d.content, checkRequired))
  }

  /** The document a normalized, valid draft becomes: `image` defaults to the
      empty string, `date` and `scrapedAt` to the current time. */
  function Materialize(d: Draft, now: Timestamp): Article
    requires d.title.Some? && d.url.Some? && d.content.Some?
  {
    Article(
      d.title.value,
      d.url.value,
      if d.image.Some? then d.image.value else "",
      d.content.value,
      if d.date.Some? then d.date.value else now,
      if d.scrapedAt.Some? then d.scrapedAt.value else now)
  }

  predicate TrimmedOpt(v: Option<string>) {
    v.Some? ==> Trimmed(v.value)
  }

  /** Every string field present in `d` has been through its setter. */
  predicate NormalForm(d: Draft) {
    TrimmedOpt(d.title) && TrimmedOpt(d.url) && TrimmedOpt(d.image) && TrimmedOpt(d.content)
  }

  lemma NormalizeNormalForm(d: Draft)
    ensures NormalForm(Normalize(d))
  {
    TrimOptTrimmed(d.title);
    TrimOptTrimmed(d.url);
    TrimOptTrimmed(d.image);
    TrimOptTrimmed(d.content);
  }

  lemma TrimOptTrimmed(v: Option<string>)
    ensures TrimmedOpt(TrimOpt(v))
  {
  }

  /** A full validation of a normalized draft passes exactly when the
      materialized document is valid. */
  lemma ValidateIffValid(n: Draft, now: Timestamp)
    requires NormalForm(n)
    ensures Errors(n, true) == [] <==>
      (n.title.Some? && n.url.Some? && n.content.Some? && Valid(Materialize(n, now)))
  {
    assert TitleError(n.title, true).None? <==> n.title.Some? && TitleMin <= |n.title.value| <= TitleMax;
    assert UrlError(n.url, true).None? <==> n.url.Some? && ValidUrl(n.url.value);
    assert ContentError(n.content, true).None? <==> n.content.Some? && |n.content.value| >= ContentMin;
    assert Errors(n, true) == [] <==>
      TitleError(n.title, true).None? && UrlError(n.url, true).None? && ContentError(n.content, true).None?;
  }

  /** The message mongoose puts on a `ValidationError`: a prefix, then
      `path: message` for every failing path. */
  function ValidationMessage(prefix: string, errors: seq<FieldError>): string {
    prefix + ": " + Join(FieldMessages(errors), ", ")
  }

  function FieldMessages(errors: seq<FieldError>): (r: seq<string>)
    ensures |r| == |errors|
  {
    if |errors| == 0 then [] else [errors[0].path + ": " + errors[0].message] + FieldMessages(errors[1..])
  }

  /** The message of a refused write, as the thrown error carries it. */
  function WriteMessage(e: WriteError): string {
    match e
    case ValidationFailed(errs) => ValidationMessage("Article validation failed", errs)
    case DuplicateUrl(u) => "E11000 duplicate key error collection: articles index: url_1 dup key: { url: \"" + u + "\" }"
  }

  // ---------------------------------------------------------------------------
  // The collection
  // ---------------------------------------------------------------------------

  datatype Doc = Doc(id: Id, article: Article)

  /** The collection in insertion order, and the id the next insert receives. */
  datatype Store = Store(docs: seq<Doc>, nextId: Id)

  predicate UrlsUnique(docs: seq<Doc>) {
    forall i, j :: 0 <= i < j < |docs| ==> docs[i].article.url != docs[j].article.url
  }

  predicate IdsAscending(docs: seq<Doc>) {
    forall i, j :: 0 <= i < j < |docs| ==> docs[i].id < docs[j].id
  }

  /** The collection invariant: ids strictly increase in insertion order and
      stay below `nextId`, the unique index on `url` holds, and every document
      passed its validators. */
  predicate Good(s: Store) {
    && IdsAscending(s.docs)
    && (forall i :: 0 <= i < |s.docs| ==> s.docs[i].id < s.nextId)
    && UrlsUnique(s.docs)
    && (forall i :: 0 <= i < |s.docs| ==> Valid(s.docs[i].article))
  }

  function Empty(): (s: Store)
    ensures Good(s) && |s.docs| == 0
  {
    Store([], 0)
  }

  /** Position of the document with id `id`. */
  function IndexOfId(docs: seq<Doc>, id: Id): (r: Option<nat>)
    ensures r.Some? ==> r.value < |docs| && docs[r.value].id == id
    ensures r.None? <==> forall i :: 0 <= i < |docs| ==> docs[i].id != id
  {
    if |docs| == 0 then None
    else if docs[0].id == id then Some(0)
    else
      var r := IndexOfId(docs[1..], id);
      if r.Some? then Some(r.value + 1) else None
  }

  /** Position of the document whose url is `url`. */
  function IndexOfUrl(docs: seq<Doc>, url: string): (r: Option<nat>)
    ensures r.Some? ==> r.value < |docs| && docs[r.value].article.url == url
    ensures r.None? <==> forall i :: 0 <= i < |docs| ==> docs[i].article.url != url
  {
    if |docs| == 0 then None
    else if docs[0].article.url == url then Some(0)
    else
      var r := IndexOfUrl(docs[1..], url);
      if r.Some? then Some(r.value + 1) else None
  }

  /** `Article.findById`. */
  function FindById(s: Store, id: Id): (r: Option<Article>)
    ensures r.Some? <==> exists i :: 0 <= i < |s.docs| && s.docs[i].id == id
    ensures r.Some? ==> exists i :: 0 <= i < |s.docs| && s.docs[i] == Doc(id, r.value)
  {
    var k := IndexOfId(s.docs, id);
    if k.Some? then Some(s.docs[k.value].article) else None
  }

  /** The ids of the collection in query order. */
  function Ids(docs: seq<Doc>): (r: seq<Id>)
    ensures |r| == |docs| && forall i :: 0 <= i < |docs| ==> r[i] == docs[i].id
  {
    if |docs| == 0 then [] else [docs[0].id] + Ids(docs[1..])
  }

  /** What a single-document write came to. */
  datatype WriteOutcome = Written(store: Store, doc: Doc) | Refused(error: WriteError)

  /** `Article.create`: setters, full validation, then the unique index. */
  function Create(s: Store, d: Draft, now: Timestamp): (r: WriteOutcome)
  {
    var n := Normalize(d);
    var errs := Errors(n, true);
    if errs != [] then Refused(ValidationFailed(errs))
    else
      var a := Materialize(n, now);
      if IndexOfUrl(s.docs, a.url).Some? then Refused(DuplicateUrl(a.url))
      else
        var doc := Doc(s.nextId, a);
        Written(Store(s.docs + [doc], s.nextId + 1), doc)
  }

  /** Appending a valid document with the next id and an unused url keeps
      the invariant. */
  lemma AppendKeepsGood(s: Store, doc: Doc)
    requires Good(s) && doc.id == s.nextId && Valid(doc.article)
    requires IndexOfUrl(s.docs, doc.article.url).None?
    ensures Good(Store(s.docs + [doc], s.nextId + 1))
  {
    var t := s.docs + [doc];
    assert forall i :: 0 <= i < |t| ==> t[i] == (if i < |s.docs| then s.docs[i] else doc);
  }

  /** A create either appends exactly one valid document with a fresh id and
      an unused url, keeping the invariant, or changes nothing and says why. */
  lemma CreateSpec(s: Store, d: Draft, now: Timestamp)
    requires Good(s)
    ensures match Create(s, d, now)
      case Written(s', doc) =>
        && s'.docs == s.docs + [doc]
        && doc.id == s.nextId
        && Valid(doc.article)
        && d.url.Some? && doc.article.url == Trim(d.url.value)
        && IndexOfUrl(s.docs, doc.article.url).None?
        && Good(s')
      case Refused(ValidationFailed(errs)) => errs == Errors(Normalize(d), true) && errs != []
      case Refused(DuplicateUrl(u)) => IndexOfUrl(s.docs, u).Some?
  {
    var n := Normalize(d);
    if Errors(n, true) == [] {
      NormalizeNormalForm(d);
      ValidateIffValid(n, now);
      var a := Materialize(n, now);
      if IndexOfUrl(s.docs, a.url).None? {
        AppendKeepsGood(s, Doc(s.nextId, a));
      }
    }
  }

  /** Whether a write of `doc` at position `k` keeps the url index unique. */
  lemma ReplaceKeepsGood(s: Store, k: nat, a: Article)
    requires Good(s) && k < |s.docs| && Valid(a)
    requires forall i :: 0 <= i < |s.docs| && i != k ==> s.docs[i].article.url != a.url
    ensures Good(Store(s.docs[k := Doc(s.docs[k].id, a)], s.nextId))
  {
  }

  /** Removing documents keeps the invariant. */
  lemma RemoveKeepsGood(s: Store, k: nat)
    requires Good(s) && k < |s.docs|
    ensures Good(Store(s.docs[..k] + s.docs[k + 1..], s.nextId))
  {
    var d := s.docs[..k] + s.docs[k + 1..];
    assert forall i :: 0 <= i < |d| ==> d[i] == (if i < k then s.docs[i] else s.docs[i + 1]);
  }

  /** The normalized fields an upsert validates and writes. */
  function Prepared(fields: Article): Draft {
    Normalize(Draft(Some(fields.title), Some(fields.url), Some(fields.image), Some(fields.content), Some(fields.date), Some(fields.scrapedAt)))
  }

  /** The write half of an upsert: overwrite the document holding the url of
      `a`, keeping its id, or append `a` under a fresh id. */
  function Overwrite(s: Store, a: Article): Store {
    match IndexOfUrl(s.docs, a.url)
    case Some(k) => Store(s.docs[k := Doc(s.docs[k].id, a)], s.nextId)
    case None => Store(s.docs + [Doc(s.nextId, a)], s.nextId + 1)
  }

  /** `findOneAndUpdate({url}, fields, {upsert: true, runValidators: true})`:
      validate the fields, then overwrite the document holding that url or
      insert a new one. */
  function Upsert(s: Store, fields: Article): (r: Result<Store>)
  {
    var n := Prepared(fields);
    var errs := Errors(n, true);
    if errs != [] then Err(ValidationMessage("Validation failed", errs))
    else Ok(Overwrite(s, Materialize(n, 0)))
  }

  /** Writing a valid article keeps the invariant, grows the collection
      exactly when its url was not held, and leaves the url held. */
  lemma OverwriteSpec(s: Store, a: Article)
    requires Good(s) && Valid(a)
    ensures var t := Overwrite(s, a);
      && Good(t)
      && |s.docs| <= |t.docs| <= |s.docs| + 1
      && (|t.docs| == |s.docs| <==> IndexOfUrl(s.docs, a.url).Some?)
      && IndexOfUrl(t.docs, a.url).Some?
  {
    var k := IndexOfUrl(s.docs, a.url);
    if k.Some? {
      ReplaceKeepsGood(s, k.value, a);
      var t := s.docs[k.value := Doc(s.docs[k.value].id, a)];
      assert t[k.value].article.url == a.url;
    } else {
      AppendKeepsGood(s, Doc(s.nextId, a));
      var t := s.docs + [Doc(s.nextId, a)];
      assert t[|s.docs|].article.url == a.url;
    }
  }

  /** An upsert never duplicates a url: after it, exactly one document holds
      the (trimmed) url, the collection grows by at most one, and the
      invariant holds; a refused upsert changes nothing. */
  lemma UpsertSpec(s: Store, fields: Article)
    requires Good(s)
    ensures var r := Upsert(s, fields);
      r.Ok? ==>
        && Good(r.value)
        && |s.docs| <= |r.value.docs| <= |s.docs| + 1
        && (|r.value.docs| == |s.docs| <==> IndexOfUrl(s.docs, Trim(fields.url)).Some?)
        && IndexOfUrl(r.value.docs, Trim(fields.url)).Some?
  {
    var d := Draft(Some(fields.title), Some(fields.url), Some(fields.image), Some(fields.content), Some(fields.date), Some(fields.scrapedAt));
    var n := Prepared(fields);
    if Errors(n, true) == [] {
      NormalizeNormalForm(d);
      ValidateIffValid(n, 0);
      var a := Materialize(n, 0);
      assert a.url == Trim(fields.url);
      OverwriteSpec(s, a);
    }
  }
}
