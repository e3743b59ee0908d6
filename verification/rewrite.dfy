/** The rewrite engine: the prompt sent to the language model, the parsing of
    its reply into a title and a body, the citation block appended to every
    rewritten article, and the messages its failures are reported with. The
    model call itself is an oracle: a function from the prompt to the reply. */
module RewriteEngine {

  import opened Results
  import opened Text

  /** A scraped page handed to the rewrite, with the search result's
      displayed link and snippet. */
  datatype Reference = Reference(
    title: string,
    url: string,
    content: string,
    displayLink: string,
    snippet: string,
    wordCount: nat)

  datatype Original = Original(title: string, content: string, url: string)

  /** A reference as the rewritten article lists it. */
  datatype Cited = Cited(title: string, url: string, source: string)

  datatype Enhanced = Enhanced(
    title: string,
    content: string,
    originalTitle: string,
    wordCount: nat,
    readingTime: string,
    references: seq<Cited>)

  /** What the model call came to. */
  datatype AiReply = Replied(text: string) | AiFailed(message: string)

  /** The reply split into a title and a body. */
  datatype Parsed = Parsed(title: string, body: string)

  // ---------------------------------------------------------------------------
  // The prompt
  // ---------------------------------------------------------------------------

  const PreviewMax: nat := 2000
  const Missing := "N/A"

  const PromptHead := "You are a professional content writer and SEO expert. Your task is to rewrite and enhance an article to match the style, formatting, and quality of top-ranking articles on Google.\n\n"

  const PromptTail :=
    "**YOUR TASK:**\n"
    + "1. Analyze the writing style, tone, and structure of the two reference articles\n"
    + "2. Rewrite the original article to match their style and formatting\n"
    + "3. Enhance the content quality while maintaining the core message\n"
    + "4. Improve readability, SEO optimization, and engagement\n"
    + "5. Use similar heading structures and content organization\n"
    + "6. Match the length and depth of the reference articles\n"
    + "7. Keep the same professional tone and expertise level\n\n"
    + "**REQUIREMENTS:**\n"
    + "- Keep the enhanced content between 800-2000 words\n"
    + "- Use clear headings (use ## for main headings, ### for subheadings)\n"
    + "- Include an engaging introduction\n"
    + "- Use bullet points or numbered lists where appropriate\n"
    + "- Add a conclusion section\n"
    + "- Maintain factual accuracy\n"
    + "- Make it more comprehensive than the original\n"
    + "- Use markdown formatting\n\n"
    + "**OUTPUT FORMAT:**\n"
    + "Return ONLY the enhanced article content in markdown format. Do not include any meta-commentary, explanations, or notes. Start directly with the article title as an H1 heading (# Title), followed by the content.\n\n"
    + "Begin your response now:"

  /** The `i`-th reference, if there is one (`references[i] || {}`). */
  function RefAt(refs: seq<Reference>, i: nat): (r: Option<Reference>)
    ensures r.Some? <==> i < |refs|
    ensures r.Some? ==> r.value == refs[i]
  {
    if i < |refs| then Some(refs[i]) else None
  }

  /** A field rendered as `field || 'N/A'`. */
  function OrMissing(s: string): (r: string)
    ensures s != "" ==> r == s
    ensures s == "" ==> r == Missing
  {
    if s != "" then s else Missing
  }

  /** The lines describing one reference slot: absent fields read `N/A` and
      the content is cut to its first 2000 characters. */
  function RefBlock(ref: Option<Reference>): string {
    match ref
    case None => "Title: " + Missing + "\nURL: " + Missing + "\nContent Preview: " + Missing + "..."
    case Some(x) =>
      "Title: " + OrMissing(x.title) + "\nURL: " + OrMissing(x.url)
        + "\nContent Preview: " + OrMissing(Take(x.content, PreviewMax)) + "..."
  }

  /** `buildEnhancementPrompt`. */
  function BuildPrompt(original: Original, refs: seq<Reference>): string {
    PromptHead
      + "**ORIGINAL ARTICLE:**\nTitle: " + original.title + "\nContent: " + original.content + "\n\n"
      + "**REFERENCE ARTICLE 1 (Top Ranking on Google):**\n" + RefBlock(RefAt(refs, 0)) + "\n\n"
      + "**REFERENCE ARTICLE 2 (Second Top Ranking on Google):**\n" + RefBlock(RefAt(refs, 1)) + "\n\n"
      + PromptTail
  }

  /** The prompt looks at the first two references only: lists that agree on
      them give the same prompt. */
  lemma PromptUsesFirstTwo(original: Original, a: seq<Reference>, b: seq<Reference>)
    requires Take(a, 2) == Take(b, 2)
    ensures BuildPrompt(original, a) == BuildPrompt(original, b)
  {
    assert RefAt(a, 0) == RefAt(b, 0) by {
      if |a| > 0 { assert a[0] == Take(a, 2)[0]; }
      if |b| > 0 { assert b[0] == Take(b, 2)[0]; }
    }
    assert RefAt(a, 1) == RefAt(b, 1) by {
      if |a| > 1 { assert a[1] == Take(a, 2)[1]; }
      if |b| > 1 { assert b[1] == Take(b, 2)[1]; }
    }
  }

  /** A reference's content reaches the prompt only through its first 2000
      characters: contents that agree there give the same prompt. */
  lemma PromptPreviewBound(original: Original, refs: seq<Reference>, i: nat, content: string)
    requires i < |refs|
    requires Take(content, PreviewMax) == Take(refs[i].content, PreviewMax)
    ensures BuildPrompt(original, refs[i := refs[i].(content := content)]) == BuildPrompt(original, refs)
  {
    var refs' := refs[i := refs[i].(content := content)];
    assert RefBlock(RefAt(refs', 0)) == RefBlock(RefAt(refs, 0));
    assert RefBlock(RefAt(refs', 1)) == RefBlock(RefAt(refs, 1));
  }

  // ---------------------------------------------------------------------------
  // The heading `^#\s+(.+?)[\n\r]`
  // ---------------------------------------------------------------------------

  /** `c` matches the heading pattern with the capture `c[p..q]`: a `#`, a
      non-empty whitespace run `c[1..p]`, a non-empty capture free of line
      terminators, and a line feed or carriage return at `q`. */
  predicate HeadingAt(c: string, p: nat, q: nat) {
    && 0 < |c| && c[0] == '#'
    && 2 <= p < q < |c|
    && (forall k :: 1 <= k < p ==> IsWs(c[k]))
    && (forall k :: p <= k < q ==> !IsLineTerm(c[k]))
    && IsNewline(c[q])
  }

  /** The first line terminator at or after `from`. */
  function FirstLineTerm(c: string, from: nat): (r: Option<nat>)
    ensures r.Some? ==> from <= r.value < |c| && IsLineTerm(c[r.value])
    ensures r.Some? ==> forall k :: from <= k < r.value ==> !IsLineTerm(c[k])
    ensures r.None? ==> forall k :: from <= k < |c| ==> !IsLineTerm(c[k])
    decreases |c| - from
  {
    if from >= |c| then None
    else if IsLineTerm(c[from]) then Some(from)
    else FirstLineTerm(c, from + 1)
  }

  /** Backtracking over the greedy whitespace run: try the capture starting at
      `p`, then one character earlier, down to the shortest run. For a fixed
      start the lazy capture can only end at the first line terminator, and
      it matches when that is a line feed or carriage return. */
  function MatchDown(c: string, p: nat): (r: Option<(nat, nat)>)
    requires 0 < |c| && c[0] == '#' && p <= |c|
    requires forall k :: 1 <= k < p ==> IsWs(c[k])
    ensures r.Some? ==> HeadingAt(c, r.value.0, r.value.1) && r.value.0 <= p
    ensures r.Some? ==> forall p2: nat, q2: nat :: HeadingAt(c, p2, q2) && p2 <= p ==>
      p2 < r.value.0 || (p2 == r.value.0 && r.value.1 <= q2)
    ensures r.None? ==> forall p2: nat, q2: nat :: HeadingAt(c, p2, q2) ==> p < p2
    decreases p
  {
    if p < 2 then None
    else if p < |c| && !IsLineTerm(c[p]) && FirstLineTerm(c, p + 1).Some? && IsNewline(c[FirstLineTerm(c, p + 1).value]) then
      Some((p, FirstLineTerm(c, p + 1).value))
    else MatchDown(c, p - 1)
  }

  /** The regular-expression match: the longest whitespace run that admits a
      capture, and for it the shortest capture. */
  function Heading(c: string): (r: Option<(nat, nat)>)
    ensures r.Some? ==> HeadingAt(c, r.value.0, r.value.1)
    ensures r.Some? ==> forall p2: nat, q2: nat :: HeadingAt(c, p2, q2) ==>
      p2 < r.value.0 || (p2 == r.value.0 && r.value.1 <= q2)
    ensures r.None? <==> forall p2: nat, q2: nat :: !HeadingAt(c, p2, q2)
  {
    if 0 < |c| && c[0] == '#' then
      var w := LeadingWs(c[1..]);
      HeadingRunBound(c, w);
      MatchDown(c, 1 + w)
    else None
  }

  /** A heading's whitespace run lies within the leading run after `#`. */
  lemma HeadingRunBound(c: string, w: nat)
    requires 0 < |c| && c[0] == '#' && w == LeadingWs(c[1..])
    ensures forall k :: 1 <= k < 1 + w ==> IsWs(c[k])
    ensures forall p2: nat, q2: nat :: HeadingAt(c, p2, q2) ==> p2 <= 1 + w
  {
    assert forall k :: 1 <= k < 1 + w ==> c[k] == c[1..][k - 1];
  }

  /** A line separator after the `#` stops the capture before the line
      feed, and it is not in `[\n\r]` itself, so the reply has no heading. */
  lemma SeparatorBlocksHeading()
    ensures Heading("# a\U{2028}b\nbody").None?
  {
    var c := "# a\U{2028}b\nbody";
    assert c[1] == ' ' && c[2] == 'a' && c[3] == '\U{2028}';
    assert forall p: nat, q: nat :: !HeadingAt(c, p, q);
  }

  /** `parseEnhancedContent`'s title step on the trimmed reply: a heading line
      gives the title (trimmed capture) and is cut off the body; otherwise the
      original title stays and the body is the whole trimmed reply. */
  function SplitHeading(text: string, fallback: string): Parsed
  {
    SplitTrimmed(Trim(text), fallback)
  }

  /** The title step on the already trimmed reply `c`. */
  function SplitTrimmed(c: string, fallback: string): Parsed
  {
    var m := Heading(c);
    if m.None? then Parsed(fallback, c)
    else Parsed(Trim(c[m.value.0..m.value.1]), Trim(c[m.value.1 + 1..]))
  }

  /** Without a heading line the original title stays and the body is the
      whole trimmed reply. */
  lemma SplitHeadingNoMatch(c: string, fallback: string)
    requires forall p: nat, q: nat :: !HeadingAt(c, p, q)
    ensures SplitTrimmed(c, fallback) == Parsed(fallback, c)
  {
  }

  /** The match the title step uses is the one the regex engine prefers: the
      longest whitespace run after `#`, then the shortest capture; the title
      is then the trimmed capture and the body the trimmed rest after the
      line terminator. */
  lemma HeadingIsPreferred(c: string, p: nat, q: nat)
    requires HeadingAt(c, p, q)
    requires forall p2: nat, q2: nat :: HeadingAt(c, p2, q2) ==> p2 < p || (p2 == p && q <= q2)
    ensures Heading(c) == Some((p, q))
  {
    var m := Heading(c);
    assert m.Some?;
    var (p1, q1) := m.value;
    assert HeadingAt(c, p1, q1);
    assert p < p1 || (p == p1 && q1 <= q);
    assert p1 < p || (p1 == p && q <= q1);
  }

  /** Rendering a title as a heading line before a body and parsing the
      result gives both back, for a title without line terminators and a
      body, both without whitespace at either end. */
  lemma HeadingRoundTrip(title: string, body: string, fallback: string)
    requires Tight(title) && Tight(body)
    requires forall k :: 0 <= k < |title| ==> !IsLineTerm(title[k])
    ensures SplitHeading("# " + title + "\n" + body, fallback) == Parsed(title, body)
  {
    var s := "# " + title + "\n" + body;
    assert s[|s| - 1] == body[|body| - 1];
    assert Tight(s);
    TrimTight(s);
    var q := 2 + |title|;
    assert s[q] == '\n';
    assert forall k :: 2 <= k < q ==> s[k] == title[k - 2];
    assert HeadingAt(s, 2, q);
    var m := Heading(s);
    assert m.Some?;
    var (p, q') := m.value;
    assert p == 2 by {
      assert !IsWs(s[2]);
    }
    assert q' == q;
    assert s[2..q] == title;
    assert s[q + 1..] == body;
    TrimTight(title);
    TrimTight(body);
  }

  // ---------------------------------------------------------------------------
  // The references section
  // ---------------------------------------------------------------------------

  const SectionHeader := "\n\n---\n\n## References\n\n"
  const SectionIntro := "*This article was enhanced based on top-ranking content from Google Search. Below are the reference sources:*\n\n"

  /** The source shown for a reference in the citation block: its displayed
      link, else the host of its url, else `Unknown` when it has no url. */
  function SectionSource(ref: Reference, hostOf: HostOf): (r: Result<string>)
    ensures ref.displayLink != "" ==> r == Ok(ref.displayLink)
    ensures ref.displayLink == "" && ref.url == "" ==> r == Ok("Unknown")
    ensures ref.displayLink == "" && ref.url != "" ==>
      (r.Ok? <==> hostOf(ref.url).Some?) && (r.Ok? ==> r.value == hostOf(ref.url).value)
    ensures r.Err? ==> r.message == InvalidUrl
  {
    if ref.displayLink != "" then Ok(ref.displayLink)
    else if ref.url == "" then Ok("Unknown")
    else match hostOf(ref.url)
      case None => Err(InvalidUrl)
      case Some(h) => Ok(h)
  }

  /** One numbered entry: the title linked to the url and the source, an
      indented snippet line when there is a snippet, and a blank line. */
  function Entry(number: nat, ref: Reference, source: string): string {
    var snippet := if ref.snippet != "" then "   - " + ref.snippet + "\n" else "";
    NatToString(number) + ". **[" + ref.title + "](" + ref.url + ")** - " + source + "\n" + snippet + "\n"
  }

  /** The sources of all references; the first host lookup that throws aborts
      the whole block. */
  function Sources(refs: seq<Reference>, hostOf: HostOf): (r: Result<seq<string>>)
    ensures r.Ok? <==> forall i :: 0 <= i < |refs| ==> SectionSource(refs[i], hostOf).Ok?
    ensures r.Ok? ==> |r.value| == |refs| && forall i :: 0 <= i < |refs| ==> SectionSource(refs[i], hostOf) == Ok(r.value[i])
    ensures r.Err? ==> r.message == InvalidUrl
  {
    if |refs| == 0 then Ok([])
    else
      assert forall i :: 1 <= i < |refs| ==> refs[i] == refs[1..][i - 1];
      match SectionSource(refs[0], hostOf)
      case Err(m) => Err(m)
      case Ok(source) =>
        match Sources(refs[1..], hostOf)
        case Err(m) => Err(m)
        case Ok(rest) => Ok([source] + rest)
  }

  /** The entries for `refs` with their sources, numbered from `first`. */
  function Entries(refs: seq<Reference>, sources: seq<string>, first: nat): string
    requires |sources| == |refs|
  {
    if |refs| == 0 then ""
    else Entry(first, refs[0], sources[0]) + Entries(refs[1..], sources[1..], first + 1)
  }

  /** Numbering runs on in input order: the entries of a concatenation are the
      first part's entries followed by the second's, numbered on from where
      the first part stopped. */
  lemma {:induction false} EntriesAppend(a: seq<Reference>, sa: seq<string>, b: seq<Reference>, sb: seq<string>, first: nat)
    requires |sa| == |a| && |sb| == |b|
    ensures Entries(a + b, sa + sb, first) == Entries(a, sa, first) + Entries(b, sb, first + |a|)
    decreases |a|
  {
    if |a| == 0 {
      assert a + b == b && sa + sb == sb;
    } else {
      var e := Entry(first, a[0], sa[0]);
      EntriesCons(a, sa, b, sb, first);
      EntriesAppend(a[1..], sa[1..], b, sb, first + 1);
      calc {
        Entries(a + b, sa + sb, first);
        e + Entries(a[1..] + b, sa[1..] + sb, first + 1);
        e + (Entries(a[1..], sa[1..], first + 1) + Entries(b, sb, first + |a|));
        (e + Entries(a[1..], sa[1..], first + 1)) + Entries(b, sb, first + |a|);
        Entries(a, sa, first) + Entries(b, sb, first + |a|);
      }
    }
  }

  /** The entries of a concatenation with a non-empty first part start with
      the first part's first entry. */
  lemma EntriesCons(a: seq<Reference>, sa: seq<string>, b: seq<Reference>, sb: seq<string>, first: nat)
    requires |sa| == |a| > 0 && |sb| == |b|
    ensures Entries(a + b, sa + sb, first) == Entry(first, a[0], sa[0]) + Entries(a[1..] + b, sa[1..] + sb, first + 1)
  {
    assert (a + b)[1..] == a[1..] + b && (sa + sb)[1..] == sa[1..] + sb;
  }

  /** `buildReferencesSection`: nothing for no references, otherwise the
      header, the introductory line and the entries numbered from 1. */
  function ReferencesSection(refs: seq<Reference>, hostOf: HostOf): (r: Result<string>)
    ensures |refs| == 0 ==> r == Ok("")
    ensures |refs| > 0 && r.Ok? ==> StartsWith(r.value, SectionHeader + SectionIntro)
    ensures |refs| > 0 && r.Ok? ==>
      Sources(refs, hostOf).Ok? && r.value == SectionHeader + SectionIntro + Entries(refs, Sources(refs, hostOf).value, 1)
    ensures r.Ok? <==> Sources(refs, hostOf).Ok?
    ensures r.Err? ==> r.message == InvalidUrl
  {
    if |refs| == 0 then Ok("")
    else match Sources(refs, hostOf)
      case Err(m) => Err(m)
      case Ok(sources) =>
        var entries := Entries(refs, sources, 1);
        assert (SectionHeader + SectionIntro + entries)[..|SectionHeader + SectionIntro|] == SectionHeader + SectionIntro;
        Ok(SectionHeader + SectionIntro + entries)
  }

  /** A non-empty list of references gives a non-empty section. */
  lemma SectionNonEmpty(refs: seq<Reference>, hostOf: HostOf)
    requires |refs| > 0 && ReferencesSection(refs, hostOf).Ok?
    ensures ReferencesSection(refs, hostOf).value != ""
  {
  }

  /** The `i`-th entry sits between the entries before it and those after
      it, numbered `first + i` and showing the `i`-th source. */
  lemma EntryAt(refs: seq<Reference>, sources: seq<string>, first: nat, i: nat)
    requires |sources| == |refs| && i < |refs|
    ensures Entries(refs, sources, first)
      == Entries(refs[..i], sources[..i], first) + Entry(first + i, refs[i], sources[i])
         + Entries(refs[i + 1..], sources[i + 1..], first + i + 1)
  {
    var a, sa := refs[..i], sources[..i];
    var b, sb := refs[i..], sources[i..];
    assert refs == a + b && sources == sa + sb;
    EntriesAppend(a, sa, b, sb, first);
    assert b[0] == refs[i] && sb[0] == sources[i];
    assert b[1..] == refs[i + 1..] && sb[1..] == sources[i + 1..];
    var e := Entry(first + i, refs[i], sources[i]);
    var x := Entries(a, sa, first);
    var y := Entries(refs[i + 1..], sources[i + 1..], first + i + 1);
    assert Entries(b, sb, first + i) == e + y;
    assert Entries(refs, sources, first) == x + (e + y);
  }

  /** An entry is its heading line (number, bold link, source) followed by
      an indented snippet line exactly when the reference has a snippet,
      then a blank line. */
  lemma EntryShape(number: nat, ref: Reference, source: string)
    ensures var heading := NatToString(number) + ". **[" + ref.title + "](" + ref.url + ")** - " + source + "\n";
      var e := Entry(number, ref, source);
      && StartsWith(e, heading)
      && (ref.snippet == "" <==> e == heading + "\n")
      && (ref.snippet != "" ==> e == heading + "   - " + ref.snippet + "\n" + "\n")
  {
  }

  /** Every reference is listed in the section, numbered by its position
      from 1 and showing its own source. */
  lemma SectionListsEvery(refs: seq<Reference>, hostOf: HostOf, i: nat)
    requires i < |refs| && ReferencesSection(refs, hostOf).Ok?
    ensures Contains(ReferencesSection(refs, hostOf).value, Entry(i + 1, refs[i], SectionSource(refs[i], hostOf).value))
  {
    var sources := Sources(refs, hostOf).value;
    var section := ReferencesSection(refs, hostOf).value;
    var head := SectionHeader + SectionIntro;
    EntryAt(refs, sources, 1, i);
    var x := Entries(refs[..i], sources[..i], 1);
    var e := Entry(1 + i, refs[i], sources[i]);
    var after := Entries(refs[i + 1..], sources[i + 1..], i + 2);
    assert section == head + (x + e + after);
    assert section == (head + x) + e + after;
    ContainsMiddle(head + x, e, after);
  }

  // ---------------------------------------------------------------------------
  // Parsing the reply and rewriting
  // ---------------------------------------------------------------------------

  /** The list of references the rewrite returns; its source is the displayed
      link, else the host of the url (which throws when the url does not
      parse, the empty url included). */
  function CiteAll(refs: seq<Reference>, hostOf: HostOf): (r: Result<seq<Cited>>)
    ensures r.Ok? ==> |r.value| == |refs|
    ensures r.Ok? ==> forall i :: 0 <= i < |refs| ==> r.value[i].title == refs[i].title && r.value[i].url == refs[i].url
    ensures r.Ok? ==> forall i :: 0 <= i < |refs| && refs[i].displayLink != "" ==> r.value[i].source == refs[i].displayLink
    ensures r.Ok? ==> forall i :: 0 <= i < |refs| && refs[i].displayLink == "" ==>
      HostName(hostOf, refs[i].url).Some? && r.value[i].source == HostName(hostOf, refs[i].url).value
    ensures r.Ok? <==> forall i :: 0 <= i < |refs| ==> refs[i].displayLink != "" || HostName(hostOf, refs[i].url).Some?
    ensures (exists i :: 0 <= i < |refs| && refs[i].displayLink == "" && refs[i].url == "") ==> r.Err?
    ensures r.Err? ==> r.message == InvalidUrl
  {
    if |refs| == 0 then Ok([])
    else
      assert forall i :: 1 <= i < |refs| ==> refs[i] == refs[1..][i - 1];
      var src: Result<string> :=
        if refs[0].displayLink != "" then Ok(refs[0].displayLink)
        else match HostName(hostOf, refs[0].url)
          case None => Err(InvalidUrl)
          case Some(h) => Ok(h);
      match src
      case Err(m) => Err(m)
      case Ok(s) =>
        match CiteAll(refs[1..], hostOf)
        case Err(m) => Err(m)
        case Ok(rest) => Ok([Cited(refs[0].title, refs[0].url, s)] + rest)
  }

  const ParsePrefix := "Failed to parse enhanced content: "

  /** `parseEnhancedContent`: title and body from the reply, the references
      section always appended after a blank line, the word count of the final
      text, the reading time, and the cited references. */
  function ParseEnhanced(text: string, original: Original, refs: seq<Reference>, hostOf: HostOf): (r: Result<Enhanced>)
    ensures r.Ok? <==> ReferencesSection(refs, hostOf).Ok? && CiteAll(refs, hostOf).Ok?
    ensures r.Ok? ==>
      var parsed := SplitHeading(text, original.title);
      && r.value.title == parsed.title
      && r.value.content == parsed.body + "\n\n" + ReferencesSection(refs, hostOf).value
      && r.value.originalTitle == original.title
      && r.value.wordCount == SplitCount(r.value.content)
      && r.value.readingTime == ReadingTime(r.value.wordCount)
      && |r.value.references| == |refs|
      && r.value.references == CiteAll(refs, hostOf).value
    ensures r.Err? ==> r.message == ParsePrefix + InvalidUrl
  {
    var parsed := SplitHeading(text, original.title);
    match ReferencesSection(refs, hostOf)
    case Err(m) => Err(ParsePrefix + m)
    case Ok(section) =>
      var content := parsed.body + "\n\n" + section;
      var words := SplitCount(content);
      match CiteAll(refs, hostOf)
      case Err(m) => Err(ParsePrefix + m)
      case Ok(cited) => Ok(Enhanced(parsed.title, content, original.title, words, ReadingTime(words), cited))
  }

  /** The rewritten body always ends with the references section. */
  lemma ContentEndsWithReferences(text: string, original: Original, refs: seq<Reference>, hostOf: HostOf)
    requires ParseEnhanced(text, original, refs, hostOf).Ok?
    ensures var c := ParseEnhanced(text, original, refs, hostOf).value.content;
      var section := ReferencesSection(refs, hostOf).value;
      |section| <= |c| && c[|c| - |section|..] == section
  {
  }

  // Written in pieces around the fragments the error checks look for,
  // because the verifier reads a long string literal only near its end.
  const KeyMissing := "GROQ_" + "API_KEY" + " not found in environment variables"
  const InvalidKey := "Invalid Groq " + "API" + " key. Please check your GROQ_API_KEY in .env"
  const QuotaExceeded := "Groq API quota exceeded. Please try again later."
  const SafetyBlocked := "Content was blocked by safety filters. Please try different content."
  const EnhanceFailedPrefix := "Failed to enhance article: "

  /** The message a failure inside the rewrite is rethrown with, the checks
      made in this order. */
  function RewriteError(message: string): (r: string)
    ensures (Contains(message, "API_KEY") || Contains(message, "401")) ==> r == InvalidKey
    ensures (!(Contains(message, "API_KEY") || Contains(message, "401"))
      && (Contains(message, "quota") || Contains(message, "429"))) ==> r == QuotaExceeded
    ensures (!(Contains(message, "API_KEY") || Contains(message, "401"))
      && !(Contains(message, "quota") || Contains(message, "429"))
      && Contains(message, "safety")) ==> r == SafetyBlocked
    ensures (!(Contains(message, "API_KEY") || Contains(message, "401"))
      && !(Contains(message, "quota") || Contains(message, "429"))
      && !Contains(message, "safety")) ==> r == EnhanceFailedPrefix + message
  {
    if Contains(message, "API_KEY") || Contains(message, "401") then InvalidKey
    else if Contains(message, "quota") || Contains(message, "429") then QuotaExceeded
    else if Contains(message, "safety") then SafetyBlocked
    else EnhanceFailedPrefix + message
  }

  /** `enhanceArticle`: check the key, send the prompt, parse the reply. */
  function EnhanceArticle(keySet: bool, ai: string -> AiReply, original: Original, refs: seq<Reference>, hostOf: HostOf): (r: Result<Enhanced>)
    ensures !keySet ==> r == Err(RewriteError(KeyMissing))
    ensures keySet && ai(BuildPrompt(original, refs)).AiFailed? ==>
      r == Err(RewriteError(ai(BuildPrompt(original, refs)).message))
    ensures keySet && ai(BuildPrompt(original, refs)).Replied? ==>
      var parsed := ParseEnhanced(ai(BuildPrompt(original, refs)).text, original, refs, hostOf);
      (parsed.Ok? ==> r == parsed) && (parsed.Err? ==> r == Err(RewriteError(parsed.message)))
  {
    if !keySet then Err(RewriteError(KeyMissing))
    else match ai(BuildPrompt(original, refs))
      case AiFailed(m) => Err(RewriteError(m))
      case Replied(text) =>
        match ParseEnhanced(text, original, refs, hostOf)
        case Err(m) => Err(RewriteError(m))
        case Ok(e) => Ok(e)
  }

  /** A missing key is reported as an invalid key. */
  lemma MissingKeyReportedInvalid(ai: string -> AiReply, original: Original, refs: seq<Reference>, hostOf: HostOf)
    ensures EnhanceArticle(false, ai, original, refs, hostOf) == Err(InvalidKey)
  {
    ContainsMiddle("GROQ_", "API_KEY", " not found in environment variables");
  }

  /** A reference whose url does not parse makes the whole rewrite fail with
      the parse message run through the rewrite's own error checks. */
  lemma UnparsableReferenceMessage(keySet: bool, ai: string -> AiReply, original: Original, refs: seq<Reference>, hostOf: HostOf)
    requires keySet && ai(BuildPrompt(original, refs)).Replied?
    requires exists i :: 0 <= i < |refs| && refs[i].displayLink == "" && HostName(hostOf, refs[i].url).None?
    ensures EnhanceArticle(keySet, ai, original, refs, hostOf) == Err(RewriteError(ParsePrefix + InvalidUrl))
  {
    var i :| 0 <= i < |refs| && refs[i].displayLink == "" && HostName(hostOf, refs[i].url).None?;
    assert !CiteAll(refs, hostOf).Ok?;
  }
}
