/** The blog-listing scraper: article cards (or, failing those, blog links)
    read off the listing page become article records with absolute urls,
    the five earliest are kept, and each is completed with the content
    scraped from its own page.

    What the page's markup yields is given: one `Card` per matched card
    element and one `Link` per matched blog link, with the texts and
    attributes the selectors pick. */
module ListingScraper {

  import opened Results
  import opened Text
  import opened ArticleModel
  import CE = ContentExtractor

  const Site := "https://beyondchats.com"
  const ListingMax: nat := 5
  const AboutPrefix := "Article about "
  const FailedPrefix := "Failed to scrape articles: "

  // ---------------------------------------------------------------------------
  // Normalisation
  // ---------------------------------------------------------------------------

  /** A link target made absolute against the site: targets already starting
      with `http` and empty ones stay as they are. */
  function Absolutize(href: string): (r: string)
  {
    if href == "" || StartsWith(href, "http") then href
    else if StartsWith(href, "/") then Site + href
    else Site + "/" + href
  }

  lemma SiteIsHttp(rest: string)
    ensures StartsWith(Site + rest, "http")
  {
    assert (Site + rest)[..4] == Site[..4];
  }

  /** Absolutising keeps the target as the url's tail, gives a url starting
      with `http` for every non-empty target, puts a relative target under
      the site with exactly one slash between, and changes nothing a second
      time. */
  lemma AbsolutizeSpec(href: string)
    ensures var r := Absolutize(href);
      && (r == "" <==> href == "")
      && (href != "" ==> StartsWith(r, "http"))
      && |href| <= |r| && r[|r| - |href|..] == href
      && (StartsWith(href, "http") ==> r == href)
      && (href != "" && !StartsWith(href, "http") ==> StartsWith(r, Site + "/"))
      && Absolutize(r) == r
  {
    var r := Absolutize(href);
    if href != "" && !StartsWith(href, "http") {
      if StartsWith(href, "/") {
        assert r == Site + href;
        assert (Site + href)[..|Site| + 1] == Site + "/";
        SiteIsHttp(href);
      } else {
        assert r == Site + ("/" + href);
        assert (Site + ("/" + href))[..|Site| + 1] == Site + "/";
        SiteIsHttp("/" + href);
      }
    }
  }

  /** A protocol-relative image source gets the `https:` scheme. */
  function FixImage(src: string): (r: string)
  {
    if StartsWith(src, "//") then "https:" + src else src
  }

  /** The fix keeps the source as the tail, never leaves a protocol-relative
      source, and is idempotent. */
  lemma FixImageSpec(src: string)
    ensures var r := FixImage(src);
      && |src| <= |r| && r[|r| - |src|..] == src
      && !StartsWith(r, "//")
      && FixImage(r) == r
      && (!StartsWith(src, "//") ==> r == src)
  {
    var r := FixImage(src);
    if StartsWith(src, "//") {
      assert r[0] == 'h';
    }
  }

  /** An empty description is replaced by one naming the title. */
  function OrAbout(content: string, title: string): (r: string)
    ensures r != ""
    ensures content != "" ==> r == content
  {
    if content != "" then content else AboutPrefix + title
  }

  // ---------------------------------------------------------------------------
  // The two passes
  // ---------------------------------------------------------------------------

  /** What the selectors yield for one card: its heading text, the first
      link's title attribute and target, the first image's `src` and
      `data-src`, the parsed date if any, and the excerpt and body texts. */
  datatype Card = Card(
    heading: string,
    linkTitle: string,
    href: string,
    src: string,
    dataSrc: string,
    date: Option<Timestamp>,
    excerpt: string,
    body: string)

  /** What the selectors yield for one blog link: its text, title attribute
      and target, and the first image source and paragraph text two levels
      up. */
  datatype Link = Link(text: string, titleAttr: string, href: string, parentImage: string, parentPara: string)

  /** A card as an article record, if it has both a title and a url. */
  function FromCard(c: Card, now: Timestamp): (r: Option<Article>)
  {
    var title := FirstNonEmpty([Trim(c.heading), c.linkTitle]);
    var url := Absolutize(c.href);
    if title == "" || url == "" then None
    else
      var content := FirstNonEmpty([Trim(c.excerpt), Trim(c.body)]);
      var date := if c.date.Some? then c.date.value else now;
      Some(Article(title, url, FixImage(FirstNonEmpty([c.src, c.dataSrc])), OrAbout(content, title), date, now))
  }

  /** A blog link as an article record, if it has both a title and a url; it
      is dated now. */
  function FromLink(l: Link, now: Timestamp): (r: Option<Article>)
  {
    var title := FirstNonEmpty([Trim(l.text), l.titleAttr]);
    var url := Absolutize(l.href);
    if title == "" || url == "" then None
    else Some(Article(title, url, FixImage(l.parentImage), OrAbout(Trim(l.parentPara), title), now, now))
  }

  /** The shape every listing record has: a title, a url, and content. */
  predicate Complete(a: Article) {
    a.title != "" && a.url != "" && a.content != ""
  }

  lemma FromCardComplete(c: Card, now: Timestamp)
    ensures FromCard(c, now).Some? ==> Complete(FromCard(c, now).value)
    ensures FromCard(c, now).Some? <==> FirstNonEmpty([Trim(c.heading), c.linkTitle]) != "" && c.href != ""
  {
    AbsolutizeSpec(c.href);
  }

  lemma FromLinkComplete(l: Link, now: Timestamp)
    ensures FromLink(l, now).Some? ==> Complete(FromLink(l, now).value) && FromLink(l, now).value.url == Absolutize(l.href)
    ensures FromLink(l, now).Some? <==> FirstNonEmpty([Trim(l.text), l.titleAttr]) != "" && l.href != ""
  {
    AbsolutizeSpec(l.href);
  }

  /** The present values of `xs`, in order. */
  function Present<T>(xs: seq<Option<T>>): (r: seq<T>)
    ensures |r| <= |xs|
  {
    if |xs| == 0 then []
    else
      var rest := Present(xs[..|xs| - 1]);
      if xs[|xs| - 1].Some? then rest + [xs[|xs| - 1].value] else rest
  }

  /** Every kept value comes from a present entry, and nothing is kept only
      when nothing is present. */
  lemma {:induction false} PresentSpec<T>(xs: seq<Option<T>>)
    ensures forall y :: y in Present(xs) ==> exists k :: 0 <= k < |xs| && xs[k] == Some(y)
    ensures |Present(xs)| == 0 <==> forall k :: 0 <= k < |xs| ==> xs[k].None?
    decreases |xs|
  {
    if |xs| > 0 {
      var init := xs[..|xs| - 1];
      PresentSpec(init);
      assert forall k :: 0 <= k < |init| ==> init[k] == xs[k];
    }
  }

  function CardRecords(cards: seq<Card>, now: Timestamp): (r: seq<Option<Article>>)
    ensures |r| == |cards| && forall k :: 0 <= k < |cards| ==> r[k] == FromCard(cards[k], now)
  {
    if |cards| == 0 then [] else CardRecords(cards[..|cards| - 1], now) + [FromCard(cards[|cards| - 1], now)]
  }

  function LinkRecords(links: seq<Link>, now: Timestamp): (r: seq<Option<Article>>)
    ensures |r| == |links| && forall k :: 0 <= k < |links| ==> r[k] == FromLink(links[k], now)
  {
    if |links| == 0 then [] else LinkRecords(links[..|links| - 1], now) + [FromLink(links[|links| - 1], now)]
  }

  /** The primary pass: every card with a title and a url, in page order. */
  function Primary(cards: seq<Card>, now: Timestamp): (r: seq<Article>)
  {
    Present(CardRecords(cards, now))
  }

  /** The primary pass keeps exactly the cards that have a title and a url:
      it is empty only when none does, and every record it makes is
      complete. */
  lemma PrimarySpec(cards: seq<Card>, now: Timestamp)
    ensures var r := Primary(cards, now);
      && (forall k :: 0 <= k < |r| ==> Complete(r[k]))
      && (|r| == 0 <==> forall k :: 0 <= k < |cards| ==> FromCard(cards[k], now).None?)
  {
    var xs := CardRecords(cards, now);
    var r := Primary(cards, now);
    PresentSpec(xs);
    forall k | 0 <= k < |r| ensures Complete(r[k]) {
      assert r[k] in Present(xs);
      var j :| 0 <= j < |xs| && xs[j] == Some(r[k]);
      FromCardComplete(cards[j], now);
    }
  }

  /** Whether a record in `xs` already has `url`. */
  predicate HasUrl(xs: seq<Article>, url: string) {
    exists k :: 0 <= k < |xs| && xs[k].url == url
  }

  /** The present records whose url was not collected yet, in order. */
  function NewUrls(xs: seq<Option<Article>>): (r: seq<Article>)
    ensures |r| <= |xs|
  {
    if |xs| == 0 then []
    else
      var rest := NewUrls(xs[..|xs| - 1]);
      match xs[|xs| - 1]
      case None => rest
      case Some(a) => if HasUrl(rest, a.url) then rest else rest + [a]
  }

  predicate DistinctUrls(xs: seq<Article>) {
    forall i, j :: 0 <= i < j < |xs| ==> xs[i].url != xs[j].url
  }

  /** No url is collected twice, every present record's url is collected,
      and every collected record is one of the present ones. */
  lemma {:induction false} NewUrlsSpec(xs: seq<Option<Article>>)
    ensures var r := NewUrls(xs);
      && DistinctUrls(r)
      && (forall k :: 0 <= k < |xs| && xs[k].Some? ==> HasUrl(r, xs[k].value.url))
      && (forall y :: y in r ==> exists k :: 0 <= k < |xs| && xs[k] == Some(y))
    decreases |xs|
  {
    if |xs| > 0 {
      var init := xs[..|xs| - 1];
      NewUrlsSpec(init);
      var rest := NewUrls(init);
      var r := NewUrls(xs);
      assert forall k :: 0 <= k < |init| ==> init[k] == xs[k];
      assert forall k :: 0 <= k < |rest| ==> r[k] == rest[k];
      forall k | 0 <= k < |xs| && xs[k].Some?
        ensures HasUrl(r, xs[k].value.url)
      {
        if k < |init| {
          var j :| 0 <= j < |rest| && rest[j].url == init[k].value.url;
          assert r[j].url == rest[j].url;
        } else if !HasUrl(rest, xs[k].value.url) {
          assert r[|rest|] == xs[k].value;
        }
      }
    }
  }

  /** The fallback pass: every blog link with a title and a url whose url was
      not collected yet, in page order. */
  function Fallback(links: seq<Link>, now: Timestamp): (r: seq<Article>)
  {
    NewUrls(LinkRecords(links, now))
  }

  /** The fallback never collects a url twice, every record it makes is
      complete, and every usable link's url is collected. */
  lemma FallbackSpec(links: seq<Link>, now: Timestamp)
    ensures var r := Fallback(links, now);
      && DistinctUrls(r)
      && (forall k :: 0 <= k < |r| ==> Complete(r[k]))
      && (forall k :: 0 <= k < |links| && FromLink(links[k], now).Some? ==> HasUrl(r, Absolutize(links[k].href)))
  {
    var xs := LinkRecords(links, now);
    var r := Fallback(links, now);
    NewUrlsSpec(xs);
    forall k | 0 <= k < |links| && FromLink(links[k], now).Some?
      ensures HasUrl(r, Absolutize(links[k].href))
    {
      FromLinkComplete(links[k], now);
      assert xs[k].Some?;
    }
    forall k | 0 <= k < |r| ensures Complete(r[k]) {
      assert r[k] in r;
      var j :| 0 <= j < |xs| && xs[j] == Some(r[k]);
      FromLinkComplete(links[j], now);
    }
  }

  /** The records the listing page yields: the card pass, or the link pass
      when no card qualified. */
  function Collect(cards: seq<Card>, links: seq<Link>, now: Timestamp): (r: seq<Article>)
  {
    var p := Primary(cards, now);
    if |p| > 0 then p else Fallback(links, now)
  }

  /** The link pass runs exactly when no card qualified; either way every
      record is complete. */
  lemma CollectSpec(cards: seq<Card>, links: seq<Link>, now: Timestamp)
    ensures var r := Collect(cards, links, now);
      && (forall k :: 0 <= k < |r| ==> Complete(r[k]))
      && ((forall k :: 0 <= k < |cards| ==> FromCard(cards[k], now).None?) ==> r == Fallback(links, now))
      && ((exists k :: 0 <= k < |cards| && FromCard(cards[k], now).Some?) ==> r == Primary(cards, now))
  {
    PrimarySpec(cards, now);
    FallbackSpec(links, now);
  }

  // ---------------------------------------------------------------------------
  // The five earliest
  // ---------------------------------------------------------------------------

  predicate SortedByDate(xs: seq<Article>) {
    forall i, j :: 0 <= i < j < |xs| ==> xs[i].date <= xs[j].date
  }

  /** `x` placed after every record dated no later than it, so that records
      of equal date keep their order. */
  function Insert(sorted: seq<Article>, x: Article): (r: seq<Article>)
  {
    if |sorted| == 0 then [x]
    else if x.date < sorted[0].date then [x] + sorted
    else [sorted[0]] + Insert(sorted[1..], x)
  }

  /** Insertion adds exactly `x`. */
  lemma {:induction false} InsertPerm(sorted: seq<Article>, x: Article)
    ensures multiset(Insert(sorted, x)) == multiset(sorted) + multiset{x}
    ensures |Insert(sorted, x)| == |sorted| + 1
    decreases |sorted|
  {
    if |sorted| > 0 && x.date >= sorted[0].date {
      InsertPerm(sorted[1..], x);
      assert sorted == [sorted[0]] + sorted[1..];
    }
  }

  /** Insertion into a date-ordered list keeps it ordered. */
  lemma {:induction false} InsertSorted(sorted: seq<Article>, x: Article)
    requires SortedByDate(sorted)
    ensures SortedByDate(Insert(sorted, x))
    decreases |sorted|
  {
    if |sorted| > 0 && x.date >= sorted[0].date {
      var rest := sorted[1..];
      InsertSorted(rest, x);
      InsertPerm(rest, x);
      var tail := Insert(rest, x);
      forall j | 0 <= j < |tail| ensures sorted[0].date <= tail[j].date {
        assert tail[j] in multiset(tail);
        if tail[j] != x {
          assert tail[j] in multiset(rest);
          var m :| 0 <= m < |rest| && rest[m] == tail[j];
          assert sorted[m + 1] == tail[j];
        }
      }
    }
  }

  /** `Array.prototype.sort` by date, oldest first; the sort is stable. */
  function SortByDate(xs: seq<Article>): (r: seq<Article>)
  {
    if |xs| == 0 then [] else Insert(SortByDate(xs[..|xs| - 1]), xs[|xs| - 1])
  }

  /** The sort orders by date and is a permutation. */
  lemma {:induction false} SortByDateSpec(xs: seq<Article>)
    ensures SortedByDate(SortByDate(xs))
    ensures multiset(SortByDate(xs)) == multiset(xs)
    ensures |SortByDate(xs)| == |xs|
    decreases |xs|
  {
    if |xs| > 0 {
      var init := xs[..|xs| - 1];
      SortByDateSpec(init);
      InsertSorted(SortByDate(init), xs[|xs| - 1]);
      InsertPerm(SortByDate(init), xs[|xs| - 1]);
      assert xs == init + [xs[|xs| - 1]];
    }
  }

  /** The five earliest records, oldest first. */
  function Oldest(xs: seq<Article>): (r: seq<Article>)
  {
    Take(SortByDate(xs), ListingMax)
  }

  /** What the selection leaves out. */
  function Leftover(xs: seq<Article>): (r: seq<Article>)
  {
    SortByDate(xs)[|Oldest(xs)|..]
  }

  /** The selection keeps five records (all of them when there are fewer),
      in date order, and no record left out is dated earlier than one kept:
      together the kept and the left out are exactly the input. */
  lemma OldestSpec(xs: seq<Article>)
    ensures var r := Oldest(xs);
      var rest := Leftover(xs);
      && |r| == (if |xs| < ListingMax then |xs| else ListingMax)
      && SortedByDate(r)
      && multiset(r) + multiset(rest) == multiset(xs)
      && (forall i, j :: 0 <= i < |r| && 0 <= j < |rest| ==> r[i].date <= rest[j].date)
  {
    var s := SortByDate(xs);
    SortByDateSpec(xs);
    var n := |Oldest(xs)|;
    assert Oldest(xs) == s[..n];
    SplitSorted(s, n);
  }

  /** A date-ordered list cut in two: both parts ordered, nothing in the
      second dated before anything in the first, and nothing lost. */
  lemma SplitSorted(s: seq<Article>, n: nat)
    requires SortedByDate(s) && n <= |s|
    ensures SortedByDate(s[..n])
    ensures multiset(s[..n]) + multiset(s[n..]) == multiset(s)
    ensures forall i, j :: 0 <= i < n && 0 <= j < |s| - n ==> s[..n][i].date <= s[n..][j].date
  {
    assert s == s[..n] + s[n..];
    forall i, j | 0 <= i < n && 0 <= j < |s| - n
      ensures s[..n][i].date <= s[n..][j].date
    {
      assert s[..n][i] == s[i] && s[n..][j] == s[n + j];
    }
  }

  // ---------------------------------------------------------------------------
  // Full content and the whole scrape
  // ---------------------------------------------------------------------------

  /** A listing record completed with its own page's scrape: non-empty
      scraped content and image win; a failed scrape keeps the record as
      it is. */
  function Merge(a: Article, full: Result<CE.ScrapedPage>): (r: Article)
  {
    match full
    case Err(_) => a
    case Ok(p) => a.(content := if p.content != "" then p.content else a.content,
                     image := if p.image != "" then p.image else a.image)
  }

  /** The merge changes only content and image, each taken from the fetched
      page when the page has one and kept otherwise, never loses content,
      and leaves the record alone when its page could not be fetched. */
  lemma MergeSpec(a: Article, url: string, outcome: CE.FetchOutcome, now: Timestamp)
    ensures var r := Merge(a, CE.Scrape(url, outcome, now));
      && r.title == a.title && r.url == a.url && r.date == a.date && r.scrapedAt == a.scrapedAt
      && (outcome.FetchFailed? ==> r == a)
      && (a.content != "" ==> r.content != "")
      && (outcome.Fetched? && CE.CleanContent(CE.SelectBody(outcome.page)) != "" ==>
            r.content == CE.CleanContent(CE.SelectBody(outcome.page)))
      && (outcome.Fetched? && CE.CleanContent(CE.SelectBody(outcome.page)) == "" ==> r.content == a.content)
      && (outcome.Fetched? && CE.Image(outcome.page) != "" ==> r.image == CE.Image(outcome.page))
      && (outcome.Fetched? && CE.Image(outcome.page) == "" ==> r.image == a.image)
  {
  }

  /** A merge keeps the url and title and never empties the content, so a
      complete record stays complete whatever the scrape came to. */
  lemma MergeKeepsComplete(a: Article, full: Result<CE.ScrapedPage>)
    requires Complete(a)
    ensures Complete(Merge(a, full)) && Merge(a, full).url == a.url && Merge(a, full).date == a.date
  {
  }

  /** Every selected record merged with its own page's scrape. */
  function Enrich(xs: seq<Article>, full: seq<Result<CE.ScrapedPage>>): (r: seq<Article>)
    requires |full| == |xs|
    ensures |r| == |xs| && forall k :: 0 <= k < |xs| ==> r[k] == Merge(xs[k], full[k])
  {
    if |xs| == 0 then [] else Enrich(xs[..|xs| - 1], full[..|xs| - 1]) + [Merge(xs[|xs| - 1], full[|xs| - 1])]
  }

  function Urls(xs: seq<Article>): (r: seq<string>)
    ensures |r| == |xs| && forall k :: 0 <= k < |xs| ==> r[k] == xs[k].url
  {
    if |xs| == 0 then [] else Urls(xs[..|xs| - 1]) + [xs[|xs| - 1].url]
  }

  /** `scrapeArticles`: `listing` is the listing page as the selectors read
      it, or the message of the failed request. */
  function ScrapeArticles(listing: Result<(seq<Card>, seq<Link>)>, fetch: string -> CE.FetchOutcome, now: Timestamp): (r: Result<seq<Article>>)
  {
    match listing
    case Err(m) => Err(FailedPrefix + m)
    case Ok((cards, links)) =>
      var selected := Oldest(Collect(cards, links, now));
      Ok(Enrich(selected, CE.Outcomes(Urls(selected), fetch, now)))
  }

  /** The selected records are complete, being records of the page. */
  lemma SelectedComplete(cards: seq<Card>, links: seq<Link>, now: Timestamp)
    ensures var sel := Oldest(Collect(cards, links, now));
      |sel| <= ListingMax && forall k :: 0 <= k < |sel| ==> Complete(sel[k])
  {
    var all := Collect(cards, links, now);
    CollectSpec(cards, links, now);
    OldestSpec(all);
    var sel := Oldest(all);
    forall k | 0 <= k < |sel| ensures Complete(sel[k]) {
      assert sel[k] in multiset(sel);
      assert sel[k] in multiset(all);
      var j :| 0 <= j < |all| && all[j] == sel[k];
    }
  }

  /** A scrape yields at most five complete records, one per selected
      listing record, in date order of the listing and with the listing's
      urls. */
  lemma ScrapeArticlesSpec(listing: Result<(seq<Card>, seq<Link>)>, fetch: string -> CE.FetchOutcome, now: Timestamp)
    ensures var r := ScrapeArticles(listing, fetch, now);
      && (listing.Err? ==> r == Err(FailedPrefix + listing.message))
      && (listing.Ok? ==>
            var sel := Oldest(Collect(listing.value.0, listing.value.1, now));
            && r.Ok? && |r.value| == |sel| <= ListingMax
            && (forall k :: 0 <= k < |sel| ==> r.value[k].url == sel[k].url && r.value[k].date == sel[k].date)
            && (forall k :: 0 <= k < |r.value| ==> Complete(r.value[k])))
  {
    if listing.Ok? {
      var (cards, links) := listing.value;
      var sel := Oldest(Collect(cards, links, now));
      SelectedComplete(cards, links, now);
      var full := CE.Outcomes(Urls(sel), fetch, now);
      forall k | 0 <= k < |sel|
        ensures Complete(Merge(sel[k], full[k]))
      {
        MergeKeepsComplete(sel[k], full[k]);
      }
    }
  }
}
