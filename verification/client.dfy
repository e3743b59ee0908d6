/** The client's pure logic: telling enhanced articles from originals,
    selecting articles, finding the original of an enhanced article for the
    comparison view, enhancing a selection one article at a time, and the
    word counts and previews the cards and the reader show. */
module ClientApp {

  import opened Results
  import opened Text
  import opened ArticleModel
  import EW = EnhancementWorkflow

  /** An article as the client receives it; `None` is a missing field. */
  datatype Item = Item(id: Id, title: Option<string>, url: Option<string>, content: Option<string>)

  const EnhancedWord := "enhanced"
  const EnhancedTitleWord := "Enhanced"
  const PreviewMax: nat := 150

  // ---------------------------------------------------------------------------
  // Originals and enhanced articles
  // ---------------------------------------------------------------------------

  /** An article counts as enhanced when its url mentions `enhanced` or its
      title mentions `Enhanced`. */
  predicate IsEnhanced(a: Item) {
    (a.url.Some? && Contains(a.url.value, EnhancedWord)) || (a.title.Some? && Contains(a.title.value, EnhancedTitleWord))
  }

  /** The originals list. */
  function Originals(all: seq<Item>): (r: seq<Item>)
    ensures |r| <= |all|
  {
    if |all| == 0 then []
    else
      var rest := Originals(all[..|all| - 1]);
      if IsEnhanced(all[|all| - 1]) then rest else rest + [all[|all| - 1]]
  }

  /** The enhanced list. */
  function EnhancedOnes(all: seq<Item>): (r: seq<Item>)
    ensures |r| <= |all|
  {
    if |all| == 0 then []
    else
      var rest := EnhancedOnes(all[..|all| - 1]);
      if IsEnhanced(all[|all| - 1]) then rest + [all[|all| - 1]] else rest
  }

  /** Both filters distribute over concatenation, so each keeps the order in
      which the articles arrived. */
  lemma {:induction false} FiltersKeepOrder(a: seq<Item>, b: seq<Item>)
    ensures Originals(a + b) == Originals(a) + Originals(b)
    ensures EnhancedOnes(a + b) == EnhancedOnes(a) + EnhancedOnes(b)
    decreases |b|
  {
    if |b| == 0 {
      assert a + b == a;
    } else {
      var init := b[..|b| - 1];
      FiltersKeepOrder(a, init);
      assert (a + b)[..|a + b| - 1] == a + init;
      assert (a + b)[|a + b| - 1] == b[|b| - 1];
    }
  }

  /** Every article lands in exactly one of the two lists: the lists hold
      exactly the articles, each on the side its classification says. */
  lemma {:induction false} PartitionSpec(all: seq<Item>)
    ensures multiset(Originals(all)) + multiset(EnhancedOnes(all)) == multiset(all)
    ensures forall k :: 0 <= k < |Originals(all)| ==> !IsEnhanced(Originals(all)[k])
    ensures forall k :: 0 <= k < |EnhancedOnes(all)| ==> IsEnhanced(EnhancedOnes(all)[k])
    decreases |all|
  {
    if |all| > 0 {
      var init := all[..|all| - 1];
      PartitionSpec(init);
      assert all == init + [all[|all| - 1]];
    }
  }

  /** Every article the server creates by enhancing is listed as enhanced,
      since its url carries the enhanced marker. */
  lemma ServerEnhancedIsEnhanced(id: Id, title: Option<string>, url: string, now: Timestamp, content: Option<string>)
    ensures IsEnhanced(Item(id, title, Some(EW.EnhancedUrl(url, now)), content))
  {
    var d := NatToString(now);
    assert EW.EnhancedMarker == "-" + EnhancedWord + "-";
    assert EW.EnhancedUrl(url, now) == (url + "-") + EnhancedWord + ("-" + d);
    ContainsMiddle(url + "-", EnhancedWord, "-" + d);
  }

  // ---------------------------------------------------------------------------
  // Selection
  // ---------------------------------------------------------------------------

  /** `xs` without `id`. */
  function Without(xs: seq<Id>, id: Id): (r: seq<Id>)
    ensures |r| <= |xs|
  {
    if |xs| == 0 then []
    else
      var rest := Without(xs[..|xs| - 1], id);
      if xs[|xs| - 1] == id then rest else rest + [xs[|xs| - 1]]
  }

  lemma {:induction false} WithoutSpec(xs: seq<Id>, id: Id)
    ensures forall x :: x in Without(xs, id) <==> x in xs && x != id
    ensures id !in xs ==> Without(xs, id) == xs
    decreases |xs|
  {
    if |xs| > 0 {
      var init := xs[..|xs| - 1];
      WithoutSpec(init, id);
      assert xs == init + [xs[|xs| - 1]];
    }
  }

  /** `handleToggleSelect`: a selected id is dropped (every copy of it), an
      unselected one is appended. */
  function Toggle(selected: seq<Id>, id: Id): (r: seq<Id>)
  {
    if id in selected then Without(selected, id) else selected + [id]
  }

  /** Toggling flips exactly the membership of `id` and keeps every other
      id's membership; toggling an unselected id twice restores the
      selection. */
  lemma ToggleSpec(selected: seq<Id>, id: Id)
    ensures var r := Toggle(selected, id);
      && (id in r <==> id !in selected)
      && (forall x :: x != id ==> (x in r <==> x in selected))
      && (id !in selected ==> r == selected + [id] && Toggle(r, id) == selected)
  {
    WithoutSpec(selected, id);
    if id !in selected {
      var r := selected + [id];
      WithoutSpec(r, id);
      assert r[..|r| - 1] == selected;
    }
  }

  // ---------------------------------------------------------------------------
  // Comparison: the original of an enhanced article
  // ---------------------------------------------------------------------------

  /** `url.split('-enhanced-')[0]`: everything before the first marker. */
  function RecoverFirst(url: string): (r: string)
  {
    match IndexOf(url, EW.EnhancedMarker)
    case None => url
    case Some(i) => url[..i]
  }

  /** Everything before the last marker. */
  function RecoverLast(url: string): (r: string)
  {
    match LastIndexOf(url, EW.EnhancedMarker)
    case None => url
    case Some(i) => url[..i]
  }

  /** The digits of a timestamp hold no `-`. */
  lemma NoDashInDigits(n: nat)
    ensures forall k :: 0 <= k < |NatToString(n)| ==> NatToString(n)[k] != '-'
  {
  }

  /** The marker's only `-` after its first character is its last one. */
  lemma MarkerDashes()
    ensures |EW.EnhancedMarker| == 10
    ensures forall k :: 1 <= k < 9 ==> EW.EnhancedMarker[k] != '-'
    ensures EW.EnhancedMarker[0] == '-' && EW.EnhancedMarker[9] == '-' && EW.EnhancedMarker[1] == 'e'
  {
  }

  /** In a derived url the marker occurs at the end of the original url and
      nowhere after it. */
  lemma MarkerOnlyAtJoin(url: string, now: Timestamp)
    ensures OccursAt(EW.EnhancedUrl(url, now), EW.EnhancedMarker, |url|)
    ensures forall j: nat :: |url| < j ==> !OccursAt(EW.EnhancedUrl(url, now), EW.EnhancedMarker, j)
  {
    var m := EW.EnhancedMarker;
    var d := NatToString(now);
    var s := EW.EnhancedUrl(url, now);
    ContainsMiddle(url, m, d);
    MarkerDashes();
    NoDashInDigits(now);
    forall j: nat | |url| < j
      ensures !OccursAt(s, m, j)
    {
    }
  }

  /** Splitting at the last marker recovers the original url from every
      derived url, whatever the original url contains. */
  lemma RecoverLastRoundTrip(url: string, now: Timestamp)
    ensures RecoverLast(EW.EnhancedUrl(url, now)) == url
  {
    MarkerOnlyAtJoin(url, now);
    var s := EW.EnhancedUrl(url, now);
    var i := LastIndexOf(s, EW.EnhancedMarker);
    assert i == Some(|url|);
    assert s[..|url|] == url;
  }

  /** Splitting at the first marker loses an original url that ends in
      `-enhanced`: its own ending and the marker's leading `-` form a marker
      that comes first. */
  lemma FirstSplitLosesSuffix(p: string, now: Timestamp)
    ensures var url := p + "-enhanced";
      RecoverFirst(EW.EnhancedUrl(url, now)) != url
  {
    var url := p + "-enhanced";
    var s := EW.EnhancedUrl(url, now);
    var m := EW.EnhancedMarker;
    assert s == p + m + ("enhanced-" + NatToString(now));
    ContainsMiddle(p, m, "enhanced-" + NatToString(now));
    var i := IndexOf(s, m);
    assert i.Some? && i.value <= |p|;
    assert |RecoverFirst(s)| <= |p| < |url|;
  }

  /** A concrete case: the url `a-enhanced`, enhanced at any time, is
      compared against `a`. */
  lemma FirstSplitCounterexample(now: Timestamp)
    ensures RecoverFirst(EW.EnhancedUrl("a-enhanced", now)) == "a"
  {
    var s := EW.EnhancedUrl("a-enhanced", now);
    var m := EW.EnhancedMarker;
    assert s == "a" + m + ("enhanced-" + NatToString(now));
    ContainsMiddle("a", m, "enhanced-" + NatToString(now));
    assert !OccursAt(s, m, 0) by {
      assert s[0] == 'a';
    }
    assert IndexOf(s, m) == Some(1);
  }

  /** A url without `-enhanced` in it holds no marker that starts inside it,
      whatever beginning with `-` is appended to it. */
  lemma NoMarkerBefore(p: string, rest: string)
    requires !Contains(p, "-enhanced")
    requires |rest| > 0 && rest[0] == '-'
    ensures forall j: nat :: j < |p| ==> !OccursAt(p + rest, EW.EnhancedMarker, j)
  {
    var m := EW.EnhancedMarker;
    var s := p + rest;
    MarkerDashes();
    assert m[..9] == "-enhanced";
    forall j: nat | j < |p|
      ensures !OccursAt(s, m, j)
    {
      if j + 9 <= |p| {
        assert !OccursAt(p, "-enhanced", j);
        assert s[j..j + 9] == p[j..j + 9] != m[..9];
        assert j + |m| <= |s| ==> s[j..j + |m|][..9] == s[j..j + 9];
      } else {
        var k := |p| - j;
        assert s[j + k] == '-' && m[k] != '-';
        assert j + |m| <= |s| ==> s[j..j + |m|][k] == '-';
      }
    }
  }

  /** Splitting at the first marker recovers every original url that does
      not contain `-enhanced`. */
  lemma RecoverFirstRoundTrip(url: string, now: Timestamp)
    requires !Contains(url, "-enhanced")
    ensures RecoverFirst(EW.EnhancedUrl(url, now)) == url
  {
    var m := EW.EnhancedMarker;
    var s := EW.EnhancedUrl(url, now);
    MarkerOnlyAtJoin(url, now);
    MarkerDashes();
    assert s == url + (m + NatToString(now));
    NoMarkerBefore(url, m + NatToString(now));
    assert IndexOf(s, m) == Some(|url|);
    assert s[..|url|] == url;
  }

  /** An original url `p + "-enhanced"` is cut back to exactly `p` when `p`
      itself holds no `-enhanced`. */
  lemma FirstSplitAtSuffix(p: string, now: Timestamp)
    requires !Contains(p, "-enhanced")
    ensures RecoverFirst(EW.EnhancedUrl(p + "-enhanced", now)) == p
  {
    var m := EW.EnhancedMarker;
    var tail := "enhanced-" + NatToString(now);
    var s := EW.EnhancedUrl(p + "-enhanced", now);
    assert s == p + m + tail;
    ContainsMiddle(p, m, tail);
    MarkerDashes();
    assert s == p + (m + tail);
    NoMarkerBefore(p, m + tail);
    assert IndexOf(s, m) == Some(|p|);
    assert s[..|p|] == p;
  }

  /** Whatever mentions `-enhanced` mentions `enhanced`. */
  lemma DashEnhancedMentionsEnhanced(s: string)
    ensures Contains(s, "-enhanced") ==> Contains(s, EnhancedWord)
  {
    if Contains(s, "-enhanced") {
      var i :| 0 <= i <= |s| && OccursAt(s, "-enhanced", i);
      assert s[i + 1..i + 9] == s[i..i + 9][1..];
      assert OccursAt(s, EnhancedWord, i + 1);
    }
  }

  /** No listed original has a url that mentions `-enhanced`. */
  lemma OriginalUrlsPlain(all: seq<Item>, k: nat)
    requires k < |Originals(all)| && Originals(all)[k].url.Some?
    ensures !Contains(Originals(all)[k].url.value, EnhancedWord)
    ensures !Contains(Originals(all)[k].url.value, "-enhanced")
  {
    PartitionSpec(all);
    DashEnhancedMentionsEnhanced(Originals(all)[k].url.value);
  }

  /** `handleCompareArticle`: the first original whose url is the part of the
      enhanced article's url before its first marker (an enhanced article
      without a url looks for an original without one). */
  function CompareTarget(enhanced: Item, originals: seq<Item>): (r: Option<nat>)
    ensures r.Some? ==> r.value < |originals|
    ensures enhanced.url.Some? && r.Some? ==> originals[r.value].url == Some(RecoverFirst(enhanced.url.value))
    ensures enhanced.url.None? ==> (r.Some? <==> exists j :: 0 <= j < |originals| && originals[j].url.None?)
  {
    var wanted := if enhanced.url.Some? then Some(RecoverFirst(enhanced.url.value)) else None;
    FirstWithUrl(originals, wanted, 0)
  }

  /** The lookup with the url cut at its last marker instead, which recovers
      the original url of every server-enhanced article. */
  function CompareTargetLast(enhanced: Item, originals: seq<Item>): (r: Option<nat>)
    ensures r.Some? ==> r.value < |originals|
    ensures enhanced.url.Some? && r.Some? ==> originals[r.value].url == Some(RecoverLast(enhanced.url.value))
  {
    var wanted := if enhanced.url.Some? then Some(RecoverLast(enhanced.url.value)) else None;
    FirstWithUrl(originals, wanted, 0)
  }

  function FirstWithUrl(items: seq<Item>, url: Option<string>, from: nat): (r: Option<nat>)
    ensures r.Some? ==> from <= r.value < |items| && items[r.value].url == url
    ensures r.Some? ==> forall j :: from <= j < r.value ==> items[j].url != url
    ensures r.None? ==> forall j :: from <= j < |items| ==> items[j].url != url
    decreases |items| - from
  {
    if from >= |items| then None
    else if items[from].url == url then Some(from)
    else FirstWithUrl(items, url, from + 1)
  }

  /** The comparison of a server-enhanced article whose original url holds
      no `-enhanced` finds that original whenever it is listed, the first
      one with that url. */
  lemma CompareFindsOriginal(e: Item, originals: seq<Item>, url: string, now: Timestamp, k: nat)
    requires e.url == Some(EW.EnhancedUrl(url, now)) && !Contains(url, "-enhanced")
    requires k < |originals| && originals[k].url == Some(url)
    ensures CompareTarget(e, originals).Some?
    ensures CompareTarget(e, originals).value <= k
    ensures originals[CompareTarget(e, originals).value].url == Some(url)
  {
    RecoverFirstRoundTrip(url, now);
  }

  /** Against the client's own originals list the condition always holds: an
      enhanced article derived from a listed original opens that original. */
  lemma CompareFindsListedOriginal(e: Item, all: seq<Item>, url: string, now: Timestamp, k: nat)
    requires e.url == Some(EW.EnhancedUrl(url, now))
    requires k < |Originals(all)| && Originals(all)[k].url == Some(url)
    ensures CompareTarget(e, Originals(all)).Some?
    ensures CompareTarget(e, Originals(all)).value <= k
    ensures Originals(all)[CompareTarget(e, Originals(all)).value].url == Some(url)
  {
    OriginalUrlsPlain(all, k);
    RecoverFirstRoundTrip(url, now);
  }

  /** An article enhanced from `p + "-enhanced"` (which the client itself
      lists as enhanced, never as an original) is compared against the
      different original `p` when `p` is listed, where the last-marker lookup
      reports that no original is found. */
  lemma CompareOpensOther(e: Item, all: seq<Item>, p: string, now: Timestamp, k: nat)
    requires e.url == Some(EW.EnhancedUrl(p + "-enhanced", now))
    requires k < |Originals(all)| && Originals(all)[k].url == Some(p)
    ensures CompareTarget(e, Originals(all)).Some?
    ensures Originals(all)[CompareTarget(e, Originals(all)).value].url == Some(p) != Some(p + "-enhanced")
    ensures CompareTargetLast(e, Originals(all)).None?
  {
    OriginalUrlsPlain(all, k);
    FirstSplitAtSuffix(p, now);
    RecoverLastRoundTrip(p + "-enhanced", now);
    ContainsMiddle(p + "-", EnhancedWord, "");
    assert p + "-" + EnhancedWord + "" == p + "-enhanced";
    PartitionSpec(all);
  }

  /** The last-marker lookup opens, for every server-enhanced article, an
      original with exactly its original url, the first one listed, and
      finds one whenever one is listed. */
  lemma CompareLastFindsOriginal(e: Item, originals: seq<Item>, url: string, now: Timestamp)
    requires e.url == Some(EW.EnhancedUrl(url, now))
    ensures var t := CompareTargetLast(e, originals);
      && (t.Some? <==> exists j :: 0 <= j < |originals| && originals[j].url == Some(url))
      && (t.Some? ==> originals[t.value].url == Some(url))
      && (t.Some? ==> forall j :: 0 <= j < t.value ==> originals[j].url != Some(url))
  {
    RecoverLastRoundTrip(url, now);
  }

  // ---------------------------------------------------------------------------
  // Enhancing a selection
  // ---------------------------------------------------------------------------

  const NoneSelected := "No articles selected"

  /** What enhancing a selection came to: nothing, when no article is
      selected; otherwise the ids requested in order, the successes and
      failures, whether the run is flagged as failed, and whether the
      selection is cleared. */
  datatype Tally =
    | NotStarted(message: string)
    | Tally(requested: seq<Id>, successes: nat, failures: nat, error: bool, cleared: bool)

  predicate Listed(articles: seq<Item>, id: Id) {
    exists k :: 0 <= k < |articles| && articles[k].id == id
  }

  /** The selected ids that are still listed, in selection order. */
  function ListedIds(selected: seq<Id>, articles: seq<Item>): (r: seq<Id>)
    ensures |r| <= |selected|
    ensures forall x :: x in r <==> x in selected && Listed(articles, x)
  {
    if |selected| == 0 then []
    else
      var rest := ListedIds(selected[..|selected| - 1], articles);
      assert selected == selected[..|selected| - 1] + [selected[|selected| - 1]];
      if Listed(articles, selected[|selected| - 1]) then rest + [selected[|selected| - 1]] else rest
  }

  function Successes(ids: seq<Id>, enhance: Id -> bool): (n: nat)
    ensures n <= |ids|
  {
    if |ids| == 0 then 0 else Successes(ids[..|ids| - 1], enhance) + (if enhance(ids[|ids| - 1]) then 1 else 0)
  }

  lemma ListedIdsStep(selected: seq<Id>, i: nat, articles: seq<Item>)
    requires i < |selected|
    ensures ListedIds(selected[..i + 1], articles)
      == ListedIds(selected[..i], articles) + (if Listed(articles, selected[i]) then [selected[i]] else [])
  {
    assert selected[..i + 1][..i] == selected[..i];
  }

  lemma SuccessesStep(ids: seq<Id>, id: Id, enhance: Id -> bool)
    ensures Successes(ids + [id], enhance) == Successes(ids, enhance) + (if enhance(id) then 1 else 0)
  {
    assert (ids + [id])[..|ids|] == ids;
  }

  /** `handleEnhanceSelected`, confirmed; `enhance` says whether the server
      enhanced an id. Ids no longer listed are skipped, so every listed
      selected id is requested once per selection entry and nothing else. */
  method EnhanceSelected(selected: seq<Id>, articles: seq<Item>, enhance: Id -> bool) returns (t: Tally)
    ensures |selected| == 0 <==> t == NotStarted(NoneSelected)
    ensures t.Tally? ==>
      && t.requested == ListedIds(selected, articles)
      && t.successes == Successes(t.requested, enhance)
      && t.successes + t.failures == |t.requested| <= |selected|
      && (t.error <==> t.failures > 0)
      && (t.cleared <==> t.successes > 0)
      && (forall x :: x in t.requested ==> x in selected && Listed(articles, x))
  {
    if |selected| == 0 {
      return NotStarted(NoneSelected);
    }
    var requested: seq<Id> := [];
    var ok := 0;
    var failed := 0;
    var i := 0;
    while i < |selected|
      invariant 0 <= i <= |selected|
      invariant requested == ListedIds(selected[..i], articles)
      invariant ok == Successes(requested, enhance)
      invariant ok + failed == |requested|
    {
      var id := selected[i];
      ListedIdsStep(selected, i, articles);
      if Listed(articles, id) {
        SuccessesStep(requested, id, enhance);
        requested := requested + [id];
        if enhance(id) {
          ok := ok + 1;
        } else {
          failed := failed + 1;
        }
      }
      i := i + 1;
    }
    assert selected[..i] == selected;
    t := Tally(requested, ok, failed, failed > 0, ok > 0);
  }

  const NoneToEnhance := "No articles to enhance"

  /** `handleEnhanceAll` before confirmation: no originals means no request,
      otherwise the confirmation names how many originals there are. */
  function EnhanceAllClick(originals: seq<Item>): (r: Result<nat>)
    ensures r.Err? <==> |originals| == 0
    ensures r.Err? ==> r.message == NoneToEnhance
    ensures r.Ok? ==> r.value == |originals| > 0
  {
    if |originals| == 0 then Err(NoneToEnhance) else Ok(|originals|)
  }

  /** When every selected id is listed, each is requested in selection order
      and the counts cover the whole selection. */
  lemma {:induction false} AllListedAllRequested(selected: seq<Id>, articles: seq<Item>)
    requires forall k :: 0 <= k < |selected| ==> Listed(articles, selected[k])
    ensures ListedIds(selected, articles) == selected
    decreases |selected|
  {
    if |selected| > 0 {
      AllListedAllRequested(selected[..|selected| - 1], articles);
      assert selected == selected[..|selected| - 1] + [selected[|selected| - 1]];
    }
  }

  // ---------------------------------------------------------------------------
  // Word counts and previews
  // ---------------------------------------------------------------------------

  /** The reader's count: trimmed, split on whitespace runs, empty pieces
      dropped; no text counts 0. */
  function ReaderWordCount(text: Option<string>): (n: nat)
  {
    if text.None? || text.value == "" then 0 else NonEmptyCount(SplitWs(Trim(text.value)))
  }

  /** The card's count: trimmed, runs collapsed to one space, split on the
      space, empty pieces dropped; no text counts 0. */
  function CardWordCount(text: Option<string>): (n: nat)
  {
    if text.None? || text.value == "" then 0 else NonEmptyCount(SplitAt(CollapseWs(Trim(text.value)), ' '))
  }

  /** Both counts are the number of maximal non-whitespace runs, so they agree
      on every text, and a text counts 0 exactly when it is all whitespace. */
  lemma WordCountsAgree(t: string)
    ensures ReaderWordCount(Some(t)) == Words(t)
    ensures CardWordCount(Some(t)) == Words(t)
    ensures ReaderWordCount(Some(t)) == 0 <==> AllWs(t)
  {
    WordsTrim(t);
    WordsZeroIffAllWs(t);
    if t != "" {
      SplitWsNonEmpty(Trim(t));
      var c := CollapseWs(Trim(t));
      WordStartsCollapse(Trim(t), true);
      SplitAtSpaceNonEmpty(c);
    }
  }

  /** The server's unfiltered split never counts fewer words than the client,
      and counts the same for a non-empty text without surrounding
      whitespace. */
  lemma ServerCountsAtLeastClient(t: string)
    ensures SplitCount(t) >= ReaderWordCount(Some(t))
    ensures Tight(t) ==> SplitCount(t) == ReaderWordCount(Some(t))
  {
    WordCountsAgree(t);
  }

  /** The card preview: the first 150 characters of the content. */
  function Preview(content: Option<string>): (r: string)
  {
    if content.None? then "" else Take(content.value, PreviewMax)
  }

  lemma PreviewSpec(content: string)
    ensures var r := Preview(Some(content));
      && |r| <= PreviewMax
      && r == content[..|r|]
      && (|content| <= PreviewMax ==> r == content)
      && (|content| >= PreviewMax ==> |r| == PreviewMax)
  {
  }
}
