/** The reference finder: one search-provider query turned into at most two
    candidate reference pages, with social and video sites filtered out, and
    the provider's failures turned into the messages the workflow reports. */
module ReferenceFinder {

  import opened Results
  import opened Text

  /** One organic result as the provider returns it; `None` is an absent key. */
  datatype RawResult = RawResult(
    title: Option<string>,
    link: Option<string>,
    snippet: Option<string>,
    displayedLink: Option<string>)

  /** A result handed on to the scraper. */
  datatype SearchResult = SearchResult(title: string, link: string, snippet: string, displayLink: string)

  /** What the provider request came to: the organic results (an absent list
      is the empty one), or a failed request with the HTTP status of its
      response, when there was a response. */
  datatype ProviderReply = Organic(items: seq<RawResult>) | RequestFailed(status: Option<nat>, message: string)

  const MaxResults: nat := 2

  const ExcludedDomains: seq<string> := [
    "youtube.com", "facebook.com", "twitter.com", "instagram.com",
    "pinterest.com", "reddit.com", "tiktok.com"]

  const KeyMissing := "SerpApi key " + NotConfigured + ". Please set SERPAPI_KEY in .env file"
  const FailedPrefix := "SerpApi search failed: "
  const RateLimited := "SerpApi rate limit exceeded. Please try again later."
  const AuthFailed := "SerpApi authentication failed. Check your SERPAPI_KEY in .env file."
  const NotConfigured := "not configured"
  /** Written in pieces around `API` because the verifier reads a long
      string literal only near its end; the text is one sentence. */
  const SetupInstructions := "SerpApi is not configured. Please add SERP" + "API" + "_KEY to your .env file. Get your key at: https://serpapi.com/"

  /** A result is dropped when its lower-cased link mentions a listed domain
      anywhere, not only as its host. */
  predicate Excluded(item: RawResult) {
    exists k :: 0 <= k < |ExcludedDomains| && Contains(ToLower(OrEmpty(item.link)), ExcludedDomains[k])
  }

  /** The surviving results, in provider order. */
  function Keep(items: seq<RawResult>): (r: seq<RawResult>)
    ensures |r| <= |items|
    ensures forall i :: 0 <= i < |r| ==> r[i] in items && !Excluded(r[i])
    ensures forall i :: 0 <= i < |items| && !Excluded(items[i]) ==> items[i] in r
  {
    if |items| == 0 then []
    else if Excluded(items[0]) then Keep(items[1..])
    else [items[0]] + Keep(items[1..])
  }

  /** The filter keeps relative order: filtering a concatenation filters each part. */
  lemma {:induction false} KeepAppend(a: seq<RawResult>, b: seq<RawResult>)
    ensures Keep(a + b) == Keep(a) + Keep(b)
    decreases |a|
  {
    if |a| == 0 {
      assert a + b == b;
    } else {
      assert (a + b)[1..] == a[1..] + b;
      KeepAppend(a[1..], b);
    }
  }

  /** An independent reading of "the first `n` surviving results": walk the
      provider's list and stop once `n` have been taken. */
  function FirstSurvivors(items: seq<RawResult>, n: nat): (r: seq<RawResult>)
    ensures |r| <= n
  {
    if n == 0 || |items| == 0 then []
    else if Excluded(items[0]) then FirstSurvivors(items[1..], n)
    else [items[0]] + FirstSurvivors(items[1..], n - 1)
  }

  /** Filtering everything and then taking `n` is walking the list and
      stopping after `n` survivors. */
  lemma {:induction false} TakeKeepIsFirstSurvivors(items: seq<RawResult>, n: nat)
    ensures Take(Keep(items), n) == FirstSurvivors(items, n)
    decreases |items|
  {
    if n == 0 || |items| == 0 {
    } else if Excluded(items[0]) {
      TakeKeepIsFirstSurvivors(items[1..], n);
    } else {
      TakeKeepIsFirstSurvivors(items[1..], n - 1);
      var k := Keep(items[1..]);
      assert Keep(items) == [items[0]] + k;
      assert Take([items[0]] + k, n) == [items[0]] + Take(k, n - 1);
    }
  }

  /** The field mapping of one kept result; it fails when the displayed link
      is missing and the link cannot be parsed. */
  function ToResult(item: RawResult, hostOf: HostOf): (r: Result<SearchResult>)
    ensures r.Ok? ==>
      r.value.title == OrEmpty(item.title) && r.value.link == OrEmpty(item.link) && r.value.snippet == OrEmpty(item.snippet)
    ensures OrEmpty(item.displayedLink) != "" ==> r == Ok(SearchResult(OrEmpty(item.title), OrEmpty(item.link), OrEmpty(item.snippet), item.displayedLink.value))
    ensures OrEmpty(item.displayedLink) == "" ==>
      (r.Ok? <==> item.link.Some? && HostName(hostOf, item.link.value).Some?)
    ensures r.Ok? && OrEmpty(item.displayedLink) == "" ==> r.value.displayLink == HostName(hostOf, item.link.value).value
    ensures OrEmpty(item.displayedLink) == "" && OrEmpty(item.link) == "" ==> r == Err(InvalidUrl)
    ensures r.Err? ==> r.message == InvalidUrl
  {
    var base := SearchResult(OrEmpty(item.title), OrEmpty(item.link), OrEmpty(item.snippet), "");
    if OrEmpty(item.displayedLink) != "" then Ok(base.(displayLink := item.displayedLink.value))
    else if item.link.None? then Err(InvalidUrl)
    else match HostName(hostOf, item.link.value)
      case None => Err(InvalidUrl)
      case Some(h) => Ok(base.(displayLink := h))
  }

  /** `Array.map` over the field mapping: the first throw aborts the whole map. */
  function MapResults(items: seq<RawResult>, hostOf: HostOf): (r: Result<seq<SearchResult>>)
    ensures r.Ok? <==> forall i :: 0 <= i < |items| ==> ToResult(items[i], hostOf).Ok?
    ensures r.Ok? ==> |r.value| == |items| && forall i :: 0 <= i < |items| ==> ToResult(items[i], hostOf) == Ok(r.value[i])
    ensures r.Err? ==> r.message == InvalidUrl
  {
    if |items| == 0 then Ok([])
    else
      match ToResult(items[0], hostOf)
      case Err(m) => Err(m)
      case Ok(x) =>
        match MapResults(items[1..], hostOf)
        case Err(m) => Err(m)
        case Ok(xs) =>
          assert forall i :: 1 <= i < |items| ==> items[i] == items[1..][i - 1];
          Ok([x] + xs)
  }

  /** The message a failed request is rethrown with. */
  function FailureMessage(status: Option<nat>, message: string): (r: string)
    ensures status == Some(429) ==> r == RateLimited
    ensures status == Some(401) ==> r == AuthFailed
    ensures status != Some(429) && status != Some(401) ==> r == FailedPrefix + message
  {
    if status == Some(429) then RateLimited
    else if status == Some(401) then AuthFailed
    else FailedPrefix + message
  }

  /** `searchGoogleWithSerpApi`: `keySet` says whether the api key is
      configured; `reply` is what the request came to. */
  function SearchWithProvider(keySet: bool, reply: ProviderReply, hostOf: HostOf): (r: Result<seq<SearchResult>>)
    ensures !keySet ==> r == Err(FailedPrefix + KeyMissing)
    ensures keySet && reply.RequestFailed? ==> r == Err(FailureMessage(reply.status, reply.message))
    ensures keySet && reply.Organic? && |reply.items| == 0 ==> r == Ok([])
    ensures r.Ok? ==> |r.value| <= MaxResults
    ensures r.Ok? && keySet && reply.Organic? ==>
      |r.value| == |Take(Keep(reply.items), MaxResults)|
      && forall i :: 0 <= i < |r.value| ==>
        !Excluded(Keep(reply.items)[i]) && r.value[i].link == OrEmpty(Keep(reply.items)[i].link)
  {
    if !keySet then Err(FailedPrefix + KeyMissing)
    else match reply
      case RequestFailed(status, message) => Err(FailureMessage(status, message))
      case Organic(items) =>
        if |items| == 0 then Ok([])
        else match MapResults(Take(Keep(items), MaxResults), hostOf)
          case Err(m) => Err(FailureMessage(None, m))
          case Ok(xs) => Ok(xs)
  }

  /** `searchArticles`: a configuration problem becomes the setup
      instructions; every other failure passes through unchanged. */
  function SearchArticles(keySet: bool, reply: ProviderReply, hostOf: HostOf): (r: Result<seq<SearchResult>>)
    ensures SearchWithProvider(keySet, reply, hostOf).Ok? ==> r == SearchWithProvider(keySet, reply, hostOf)
    ensures SearchWithProvider(keySet, reply, hostOf).Err? ==> r.Err?
  {
    match SearchWithProvider(keySet, reply, hostOf)
    case Ok(xs) => Ok(xs)
    case Err(m) => if Contains(m, NotConfigured) then Err(SetupInstructions) else Err(m)
  }

  /** A missing key never reaches the provider and surfaces as the setup
      instructions. */
  lemma MissingKeyGivesSetup(reply: ProviderReply, hostOf: HostOf)
    ensures SearchArticles(false, reply, hostOf) == Err(SetupInstructions)
  {
    var m := FailedPrefix + KeyMissing;
    assert m == FailedPrefix + "SerpApi key " + NotConfigured + ". Please set SERPAPI_KEY in .env file";
    ContainsMiddle(FailedPrefix + "SerpApi key ", NotConfigured, ". Please set SERPAPI_KEY in .env file");
    assert SearchWithProvider(false, reply, hostOf) == Err(m);
  }

  /** A failed search is reported with the setup instructions exactly when the
      inner message mentions a missing configuration, and otherwise with the
      inner message itself. */
  lemma SearchArticlesErrors(keySet: bool, reply: ProviderReply, hostOf: HostOf)
    ensures var inner := SearchWithProvider(keySet, reply, hostOf);
      var r := SearchArticles(keySet, reply, hostOf);
      inner.Err? ==>
        && (Contains(inner.message, NotConfigured) ==> r == Err(SetupInstructions))
        && (!Contains(inner.message, NotConfigured) ==> r == inner)
  {
  }

  /** The two results come from the first two surviving provider results, in
      provider order. */
  lemma {:induction false} ResultsAreFirstSurvivors(keySet: bool, items: seq<RawResult>, hostOf: HostOf)
    requires keySet
    ensures var r := SearchWithProvider(keySet, Organic(items), hostOf);
      r.Ok? ==>
        var f := FirstSurvivors(items, MaxResults);
        |r.value| == |f| && forall i :: 0 <= i < |f| ==> ToResult(f[i], hostOf) == Ok(r.value[i])
  {
    TakeKeepIsFirstSurvivors(items, MaxResults);
  }
}
