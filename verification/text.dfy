/** String helpers shared by the server and the client: the whitespace class
    behind the regular-expression escape `\s`, trimming, whitespace collapsing,
    the two flavours of `split` the code uses and the word counts built on them,
    substring search, decimal rendering and ceiling division. */
module Text {

  import opened Results

  /** The host part of a url as the platform's URL parser reports it, `None`
      when the parser throws. The parser itself is not part of this model. */
  type HostOf = string -> Option<string>

  /** The message the URL parser throws with. */
  const InvalidUrl := "Invalid URL"

  /** `new URL(url).hostname`: the parser throws on the empty url, whatever
      it does with any other. */
  function HostName(hostOf: HostOf, url: string): (r: Option<string>)
    ensures url == "" ==> r.None?
    ensures url != "" ==> r == hostOf(url)
  {
    if url == "" then None else hostOf(url)
  }

  // ---------------------------------------------------------------------------
  // Character classes
  // ---------------------------------------------------------------------------

  /** The class `\s`, restricted to the ASCII characters this model distinguishes:
      space, tab, line feed, carriage return, form feed and vertical tab. */
  predicate IsWs(c: char) {
    c == ' ' || c == '\t' || c == '\n' || c == '\r' || c == '\U{000C}' || c == '\U{000B}'
  }

  /** The characters `.` refuses to match in a regular expression: line
      feed, carriage return, line separator and paragraph separator. */
  predicate IsLineTerm(c: char) {
    IsNewline(c) || c == '\U{2028}' || c == '\U{2029}'
  }

  /** The class `[\n\r]`. */
  predicate IsNewline(c: char) {
    c == '\n' || c == '\r'
  }

  predicate IsDigit(c: char) {
    '0' <= c <= '9'
  }

  predicate AllWs(s: string) {
    forall i :: 0 <= i < |s| ==> IsWs(s[i])
  }

  predicate NoWs(s: string) {
    forall i :: 0 <= i < |s| ==> !IsWs(s[i])
  }

  /** Every whitespace character is a plain space and no two are adjacent:
      the shape `s.replace(/\s+/g, ' ')` leaves behind. */
  predicate SingleSpaced(s: string) {
    && (forall i :: 0 <= i < |s| && IsWs(s[i]) ==> s[i] == ' ')
    && (forall i :: 0 <= i < |s| - 1 ==> !(IsWs(s[i]) && IsWs(s[i + 1])))
  }

  // ---------------------------------------------------------------------------
  // Trimming, collapsing, truncation
  // ---------------------------------------------------------------------------

  /** Length of the leading whitespace run. */
  function LeadingWs(s: string): (k: nat)
    ensures k <= |s|
    ensures forall i :: 0 <= i < k ==> IsWs(s[i])
    ensures k < |s| ==> !IsWs(s[k])
  {
    if |s| > 0 && IsWs(s[0]) then 1 + LeadingWs(s[1..]) else 0
  }

  /** Length of the trailing whitespace run. */
  function TrailingWs(s: string): (k: nat)
    ensures k <= |s|
    ensures forall i :: |s| - k <= i < |s| ==> IsWs(s[i])
    ensures k < |s| ==> !IsWs(s[|s| - k - 1])
  {
    if |s| > 0 && IsWs(s[|s| - 1]) then 1 + TrailingWs(s[..|s| - 1]) else 0
  }

  /** Drops the leading whitespace run. */
  function TrimStart(s: string): (r: string)
    ensures |r| <= |s| && r == s[|s| - |r|..]
    ensures forall i :: 0 <= i < |s| - |r| ==> IsWs(s[i])
    ensures |r| > 0 ==> !IsWs(r[0])
    ensures |s| > 0 && IsWs(s[0]) ==> |r| < |s|
  {
    s[LeadingWs(s)..]
  }

  /** Drops the trailing whitespace run. */
  function TrimEnd(s: string): (r: string)
    ensures |r| <= |s| && r == s[..|r|]
    ensures forall i :: |r| <= i < |s| ==> IsWs(s[i])
    ensures |r| > 0 ==> !IsWs(r[|r| - 1])
  {
    s[..|s| - TrailingWs(s)]
  }

  /** Number of leading whitespace characters `Trim` removes. */
  function TrimOffset(s: string): nat
  {
    |s| - |TrimStart(s)|
  }

  /** `String.prototype.trim`: the slice of `s` between its outer whitespace runs. */
  function Trim(s: string): (r: string)
    ensures TrimOffset(s) + |r| <= |s| && r == s[TrimOffset(s)..TrimOffset(s) + |r|]
    ensures forall i :: 0 <= i < TrimOffset(s) ==> IsWs(s[i])
    ensures forall i :: TrimOffset(s) + |r| <= i < |s| ==> IsWs(s[i])
    ensures |r| > 0 ==> !IsWs(r[0]) && !IsWs(r[|r| - 1])
    ensures r == "" <==> AllWs(s)
  {
    TrimSlice(s);
    TrimEnd(TrimStart(s))
  }

  lemma TrimSlice(s: string)
    ensures var r := TrimEnd(TrimStart(s));
      && TrimOffset(s) + |r| <= |s| && r == s[TrimOffset(s)..TrimOffset(s) + |r|]
      && (r == "" ==> AllWs(s))
  {
    var t := TrimStart(s);
    assert TrimEnd(t) == t[..|TrimEnd(t)|];
  }

  /** `s.replace(/\s+/g, ' ')`: every maximal whitespace run becomes one space. */
  function CollapseWs(s: string): (r: string)
    ensures |r| <= |s|
    ensures SingleSpaced(r)
    ensures |r| == 0 <==> |s| == 0
    ensures |r| > 0 ==> (IsWs(r[0]) <==> IsWs(s[0]))
    decreases |s|
  {
    if |s| == 0 then ""
    else if IsWs(s[0]) then " " + CollapseWs(TrimStart(s))
    else [s[0]] + CollapseWs(s[1..])
  }

  /** An independent reading of the same replacement: a left-to-right scan
      that remembers whether the previous character was whitespace, and
      writes one space for the first character of each run and nothing for
      the rest of it. */
  function Squeeze(s: string, inRun: bool): (r: string)
    ensures |r| <= |s|
  {
    if |s| == 0 then ""
    else if IsWs(s[0]) then (if inRun then "" else " ") + Squeeze(s[1..], true)
    else [s[0]] + Squeeze(s[1..], false)
  }

  /** Inside a run the scan writes nothing until the run ends. */
  lemma {:induction false} SqueezeSkipsRun(s: string)
    ensures Squeeze(s, true) == Squeeze(TrimStart(s), false)
    decreases |s|
  {
    if |s| > 0 && IsWs(s[0]) {
      SqueezeSkipsRun(s[1..]);
      assert TrimStart(s) == TrimStart(s[1..]);
    }
  }

  /** The run-by-run replacement and the scan agree on every string. */
  lemma {:induction false} CollapseIsSqueeze(s: string)
    ensures CollapseWs(s) == Squeeze(s, false)
    decreases |s|
  {
    if |s| > 0 {
      if IsWs(s[0]) {
        SqueezeSkipsRun(s[1..]);
        assert TrimStart(s) == TrimStart(s[1..]);
        CollapseIsSqueeze(TrimStart(s));
      } else {
        CollapseIsSqueeze(s[1..]);
      }
    }
  }

  /** The non-whitespace characters of `s`, in order. */
  function Visible(s: string): (r: string)
    ensures |r| <= |s|
    ensures forall i :: 0 <= i < |r| ==> !IsWs(r[i])
  {
    if |s| == 0 then "" else (if IsWs(s[0]) then "" else [s[0]]) + Visible(s[1..])
  }

  lemma {:induction false} VisibleAppend(a: string, b: string)
    ensures Visible(a + b) == Visible(a) + Visible(b)
    decreases |a|
  {
    if |a| == 0 {
      assert a + b == b;
    } else {
      assert (a + b)[1..] == a[1..] + b;
      VisibleAppend(a[1..], b);
    }
  }

  lemma {:induction false} VisibleAllWs(s: string)
    requires AllWs(s)
    ensures Visible(s) == ""
    decreases |s|
  {
    if |s| > 0 {
      VisibleAllWs(s[1..]);
    }
  }

  /** Collapsing whitespace keeps every other character, in order. */
  lemma {:induction false} CollapseKeepsVisible(s: string)
    ensures Visible(CollapseWs(s)) == Visible(s)
    decreases |s|
  {
    if |s| > 0 {
      if IsWs(s[0]) {
        var t := TrimStart(s);
        var run := s[..|s| - |t|];
        CollapseKeepsVisible(t);
        assert s == run + t;
        VisibleAppend(run, t);
        VisibleAllWs(run);
        assert (" " + CollapseWs(t))[1..] == CollapseWs(t);
      } else {
        CollapseKeepsVisible(s[1..]);
        assert ([s[0]] + CollapseWs(s[1..]))[1..] == CollapseWs(s[1..]);
      }
    }
  }

  /** Trimming drops whitespace only. */
  lemma TrimKeepsVisible(s: string)
    ensures Visible(Trim(s)) == Visible(s)
  {
    var o := TrimOffset(s);
    var r := Trim(s);
    assert s == s[..o] + r + s[o + |r|..];
    VisibleAppend(s[..o] + r, s[o + |r|..]);
    VisibleAppend(s[..o], r);
    VisibleAllWs(s[..o]);
    VisibleAllWs(s[o + |r|..]);
  }

  /** A prefix of a string keeps a prefix of its visible characters. */
  lemma VisiblePrefix(s: string, k: nat)
    requires k <= |s|
    ensures Visible(s[..k]) <= Visible(s)
  {
    assert s == s[..k] + s[k..];
    VisibleAppend(s[..k], s[k..]);
  }

  /** `s.slice(0, n)` / `s.substring(0, n)` for a non-negative bound. */
  function Take<T>(s: seq<T>, n: nat): (r: seq<T>)
    ensures |r| <= |s| && |r| <= n && r == s[..|r|]
    ensures |s| <= n ==> r == s
    ensures n <= |s| ==> |r| == n
  {
    if |s| <= n then s else s[..n]
  }

  lemma SingleSpacedSlice(s: string, i: nat, j: nat)
    requires i <= j <= |s| && SingleSpaced(s)
    ensures SingleSpaced(s[i..j])
  {
    var t := s[i..j];
    forall k | 0 <= k < |t| - 1 ensures !(IsWs(t[k]) && IsWs(t[k + 1])) {
      assert t[k] == s[i + k] && t[k + 1] == s[i + k + 1];
    }
  }

  /** The chain `a || b || ... || ''` over strings: the first non-empty
      candidate, or the empty string when every candidate is empty. */
  function FirstNonEmpty(cands: seq<string>): (r: string)
    ensures r == "" <==> forall k :: 0 <= k < |cands| ==> cands[k] == ""
    ensures r != "" ==> exists k :: 0 <= k < |cands| && cands[k] == r && forall j :: 0 <= j < k ==> cands[j] == ""
  {
    if |cands| == 0 then ""
    else if cands[0] != "" then cands[0]
    else
      var r := FirstNonEmpty(cands[1..]);
      assert r != "" ==> exists k :: 0 <= k < |cands[1..]| && cands[1..][k] == r && forall j :: 0 <= j < k ==> cands[1..][j] == "";
      r
  }

  /** JavaScript's `v || ''` on an optional string. */
  function OrEmpty(v: Option<string>): (r: string)
    ensures v.Some? ==> r == v.value
    ensures v.None? ==> r == ""
  {
    if v.Some? then v.value else ""
  }

  /** `parts.join(sep)`. */
  function Join(parts: seq<string>, sep: string): (r: string)
    ensures |parts| == 1 ==> r == parts[0]
  {
    if |parts| == 0 then ""
    else if |parts| == 1 then parts[0]
    else parts[0] + sep + Join(parts[1..], sep)
  }

  /** ASCII `toLowerCase`. */
  function ToLower(s: string): (r: string)
    ensures |r| == |s|
    ensures forall i :: 0 <= i < |s| ==> r[i] == LowerChar(s[i])
  {
    if |s| == 0 then "" else [LowerChar(s[0])] + ToLower(s[1..])
  }

  function LowerChar(c: char): char
  {
    if 'A' <= c <= 'Z' then (c as int + 32) as char else c
  }

  // ---------------------------------------------------------------------------
  // Splitting and word counts
  // ---------------------------------------------------------------------------

  /** `s.split(/\s+/)`: the pieces between maximal whitespace runs; an empty
      piece appears at either end when `s` starts or ends with whitespace,
      and the empty string yields one empty piece. */
  function SplitWs(s: string): (r: seq<string>)
    ensures |r| >= 1
    ensures forall k :: 0 <= k < |r| ==> NoWs(r[k])
    ensures |s| > 0 && !IsWs(s[0]) ==> r[0] != "" && r[0][0] == s[0]
    decreases |s|
  {
    if |s| == 0 then [""]
    else if IsWs(s[0]) then [""] + SplitWs(TrimStart(s))
    else
      var rest := SplitWs(s[1..]);
      [[s[0]] + rest[0]] + rest[1..]
  }

  /** `s.split(c)` for a one-character separator: one piece per occurrence plus one. */
  function SplitAt(s: string, c: char): (r: seq<string>)
    ensures |r| >= 1
    ensures |s| > 0 && s[0] != c ==> r[0] != ""
  {
    if |s| == 0 then [""]
    else if s[0] == c then [""] + SplitAt(s[1..], c)
    else
      var rest := SplitAt(s[1..], c);
      [[s[0]] + rest[0]] + rest[1..]
  }

  /** `pieces.filter(w => w.length > 0).length`. */
  function NonEmptyCount(pieces: seq<string>): (n: nat)
    ensures n <= |pieces|
    ensures n == |pieces| <==> forall k :: 0 <= k < |pieces| ==> pieces[k] != ""
  {
    if |pieces| == 0 then 0
    else (if pieces[0] != "" then 1 else 0) + NonEmptyCount(pieces[1..])
  }

  /** Reference definition of a word count: the number of positions where a
      maximal non-whitespace run begins, `afterWs` telling whether the position
      before `s` counts as whitespace. */
  function WordStarts(s: string, afterWs: bool): nat
  {
    if |s| == 0 then 0
    else (if afterWs && !IsWs(s[0]) then 1 else 0) + WordStarts(s[1..], IsWs(s[0]))
  }

  /** The number of maximal non-whitespace runs in `s`. */
  function Words(s: string): nat
  {
    WordStarts(s, true)
  }

  lemma {:induction false} WordStartsAllWs(s: string, b: bool)
    requires AllWs(s)
    ensures WordStarts(s, b) == 0
    decreases |s|
  {
    if |s| > 0 {
      WordStartsAllWs(s[1..], true);
    }
  }

  /** The "run already started" flag only matters when `s` begins a word. */
  lemma WordStartsFlag(s: string)
    ensures WordStarts(s, true) == WordStarts(s, false) + (if |s| > 0 && !IsWs(s[0]) then 1 else 0)
  {
  }

  /** Leading whitespace never begins a word. */
  lemma {:induction false} WordStartsTrimStart(s: string, b: bool)
    requires |s| > 0 && IsWs(s[0])
    ensures WordStarts(s, b) == WordStarts(TrimStart(s), true)
    decreases |s|
  {
    if |s| > 1 && IsWs(s[1]) {
      WordStartsTrimStart(s[1..], true);
    }
  }

  /** Trailing whitespace never begins a word. */
  lemma {:induction false} WordStartsDropTail(s: string, k: nat, b: bool)
    requires k <= |s| && AllWs(s[k..])
    ensures WordStarts(s, b) == WordStarts(s[..k], b)
    decreases |s|
  {
    if k == 0 {
      WordStartsAllWs(s, b);
    } else {
      assert s[1..][k - 1..] == s[k..];
      WordStartsDropTail(s[1..], k - 1, IsWs(s[0]));
      assert s[..k][1..] == s[1..][..k - 1];
    }
  }

  /** Trimming does not change the number of words. */
  lemma WordsTrim(s: string)
    ensures Words(Trim(s)) == Words(s)
  {
    var t := TrimStart(s);
    if |s| > 0 && IsWs(s[0]) {
      WordStartsTrimStart(s, true);
    }
    var r := TrimEnd(t);
    assert AllWs(t[|r|..]);
    WordStartsDropTail(t, |r|, true);
  }

  /** A tight string is its own trim. */
  lemma TrimTight(s: string)
    requires Tight(s)
    ensures Trim(s) == s
  {
    var r := Trim(s);
    assert TrimOffset(s) == 0;
  }

  /** Collapsing whitespace runs does not change the number of words. */
  lemma {:induction false} WordStartsCollapse(s: string, b: bool)
    ensures WordStarts(CollapseWs(s), b) == WordStarts(s, b)
    decreases |s|
  {
    if |s| == 0 {
    } else if IsWs(s[0]) {
      var t := TrimStart(s);
      WordStartsCollapse(t, true);
      WordStartsTrimStart(s, b);
      assert (" " + CollapseWs(t))[1..] == CollapseWs(t);
    } else {
      WordStartsCollapse(s[1..], false);
      assert ([s[0]] + CollapseWs(s[1..]))[1..] == CollapseWs(s[1..]);
    }
  }

  /** The non-empty pieces of `s.split(/\s+/)` are exactly the words of `s`. */
  lemma {:induction false} SplitWsNonEmpty(s: string)
    ensures NonEmptyCount(SplitWs(s)) == Words(s)
    decreases |s|
  {
    if |s| == 0 {
    } else if IsWs(s[0]) {
      var t := TrimStart(s);
      SplitWsNonEmpty(t);
      WordStartsTrimStart(s, true);
      assert ([""] + SplitWs(t))[1..] == SplitWs(t);
    } else {
      var rest := SplitWs(s[1..]);
      SplitWsNonEmpty(s[1..]);
      WordStartsFlag(s[1..]);
      var r := [[s[0]] + rest[0]] + rest[1..];
      assert r[1..] == rest[1..];
      assert NonEmptyCount(rest) == (if rest[0] != "" then 1 else 0) + NonEmptyCount(rest[1..]);
      if |s| > 1 && !IsWs(s[1]) {
        assert rest[0] != "";
      } else if |s| > 1 {
        assert rest[0] == "";
      }
    }
  }

  /** The non-empty pieces of `s.split(' ')` are the words of `s` when every
      whitespace character of `s` is a plain space. */
  lemma {:induction false} SplitAtSpaceNonEmpty(s: string)
    requires forall i :: 0 <= i < |s| && IsWs(s[i]) ==> s[i] == ' '
    ensures NonEmptyCount(SplitAt(s, ' ')) == Words(s)
    decreases |s|
  {
    if |s| == 0 {
    } else if s[0] == ' ' {
      SplitAtSpaceNonEmpty(s[1..]);
      assert ([""] + SplitAt(s[1..], ' '))[1..] == SplitAt(s[1..], ' ');
    } else {
      var rest := SplitAt(s[1..], ' ');
      SplitAtSpaceNonEmpty(s[1..]);
      WordStartsFlag(s[1..]);
      var r := [[s[0]] + rest[0]] + rest[1..];
      assert r[1..] == rest[1..];
      assert NonEmptyCount(rest) == (if rest[0] != "" then 1 else 0) + NonEmptyCount(rest[1..]);
      if |s| > 1 && s[1] == ' ' {
        assert rest[0] == "";
      }
    }
  }

  /** A string has no words exactly when it has no non-whitespace character. */
  lemma {:induction false} WordsZeroIffAllWs(s: string)
    ensures Words(s) == 0 <==> AllWs(s)
    decreases |s|
  {
    if |s| > 0 && IsWs(s[0]) {
      WordsZeroIffAllWs(s[1..]);
      assert AllWs(s) <==> AllWs(s[1..]);
    }
  }

  /** `s` is non-empty and neither starts nor ends with whitespace. */
  predicate Tight(s: string) {
    |s| > 0 && !IsWs(s[0]) && !IsWs(s[|s| - 1])
  }

  /** For a tight string, `split(/\s+/)` produces no empty piece. */
  lemma {:induction false} SplitWsTight(s: string)
    requires Tight(s)
    ensures forall k :: 0 <= k < |SplitWs(s)| ==> SplitWs(s)[k] != ""
    decreases |s|
  {
    var t := s[1..];
    var rest := SplitWs(t);
    if |t| == 0 {
    } else if !IsWs(t[0]) {
      SplitWsTight(t);
    } else {
      var u := TrimStart(t);
      assert |u| > 0;
      assert u[|u| - 1] == s[|s| - 1];
      SplitWsTight(u);
      assert rest == [""] + SplitWs(u);
      assert rest[1..] == SplitWs(u);
    }
  }

  /** `s.split(/\s+/).length` counts every word, plus one empty piece for
      leading and one for trailing whitespace; for a tight string it is
      exactly the number of words. */
  lemma SplitCountVsWords(s: string)
    ensures |SplitWs(s)| >= Words(s)
    ensures Tight(s) ==> |SplitWs(s)| == Words(s)
  {
    SplitWsNonEmpty(s);
    if Tight(s) {
      SplitWsTight(s);
    }
  }

  /** `s.split(/\s+/).length`, the count the server reports as a word count:
      at least one, one for the empty string, never below the number of
      words, and equal to it on a tight string. */
  function SplitCount(s: string): (n: nat)
    ensures n >= 1
    ensures s == "" ==> n == 1
    ensures n >= Words(s)
    ensures Tight(s) ==> n == Words(s)
  {
    SplitCountVsWords(s);
    |SplitWs(s)|
  }

  // ---------------------------------------------------------------------------
  // Substring search
  // ---------------------------------------------------------------------------

  predicate OccursAt(s: string, pat: string, i: nat) {
    i + |pat| <= |s| && s[i..i + |pat|] == pat
  }

  /** `s.includes(pat)`. */
  predicate Contains(s: string, pat: string) {
    exists i :: 0 <= i <= |s| && OccursAt(s, pat, i)
  }

  /** A pattern placed between two strings occurs right after the first. */
  lemma ContainsMiddle(a: string, pat: string, b: string)
    ensures OccursAt(a + pat + b, pat, |a|) && Contains(a + pat + b, pat)
  {
    var s := a + pat + b;
    assert s[|a|..|a| + |pat|] == pat;
    assert OccursAt(s, pat, |a|);
  }

  predicate StartsWith(s: string, prefix: string) {
    |prefix| <= |s| && s[..|prefix|] == prefix
  }

  /** First occurrence of `pat` at or after `from`. */
  function IndexFrom(s: string, pat: string, from: nat): (r: Option<nat>)
    ensures r.Some? ==> from <= r.value && OccursAt(s, pat, r.value)
    ensures r.Some? ==> forall j: nat :: from <= j < r.value ==> !OccursAt(s, pat, j)
    ensures r.None? ==> forall j: nat :: from <= j ==> !OccursAt(s, pat, j)
    decreases |s| - from
  {
    if from + |pat| > |s| then None
    else if OccursAt(s, pat, from) then Some(from)
    else IndexFrom(s, pat, from + 1)
  }

  /** `s.indexOf(pat)`, `None` standing for -1. */
  function IndexOf(s: string, pat: string): (r: Option<nat>)
    ensures r.None? <==> !Contains(s, pat)
    ensures r.Some? ==> OccursAt(s, pat, r.value) && forall j: nat :: j < r.value ==> !OccursAt(s, pat, j)
  {
    IndexFrom(s, pat, 0)
  }

  /** Last occurrence of `pat` starting at or before `upTo`. */
  function LastIndexUpTo(s: string, pat: string, upTo: nat): (r: Option<nat>)
    ensures r.Some? ==> r.value <= upTo && OccursAt(s, pat, r.value)
    ensures r.Some? ==> forall j: nat :: r.value < j <= upTo ==> !OccursAt(s, pat, j)
    ensures r.None? ==> forall j: nat :: j <= upTo ==> !OccursAt(s, pat, j)
  {
    if OccursAt(s, pat, upTo) then Some(upTo)
    else if upTo == 0 then None
    else LastIndexUpTo(s, pat, upTo - 1)
  }

  /** `s.lastIndexOf(pat)`, `None` standing for -1. */
  function LastIndexOf(s: string, pat: string): (r: Option<nat>)
    ensures r.None? <==> !Contains(s, pat)
    ensures r.Some? ==> OccursAt(s, pat, r.value) && forall j: nat :: r.value < j ==> !OccursAt(s, pat, j)
  {
    LastIndexUpTo(s, pat, |s|)
  }

  // ---------------------------------------------------------------------------
  // Numbers
  // ---------------------------------------------------------------------------

  function DigitChar(d: nat): (c: char)
    requires d < 10
    ensures IsDigit(c) && c as int - '0' as int == d
  {
    (d + '0' as int) as char
  }

  /** Decimal rendering of a natural number, as template literals print it. */
  function NatToString(n: nat): (r: string)
    ensures |r| >= 1
    ensures forall i :: 0 <= i < |r| ==> IsDigit(r[i])
  {
    if n < 10 then [DigitChar(n)] else NatToString(n / 10) + [DigitChar(n % 10)]
  }

  /** Value of a string of decimal digits. */
  function DigitsValue(s: string): nat
    requires forall i :: 0 <= i < |s| ==> IsDigit(s[i])
  {
    if |s| == 0 then 0
    else
      var last := s[|s| - 1];
      assert IsDigit(last);
      DigitsValue(s[..|s| - 1]) * 10 + (last as int - '0' as int)
  }

  /** Reading the rendering back gives the number. */
  lemma {:induction false} NatToStringRoundTrip(n: nat)
    ensures DigitsValue(NatToString(n)) == n
  {
    if n >= 10 {
      var r := NatToString(n);
      NatToStringRoundTrip(n / 10);
      assert r[..|r| - 1] == NatToString(n / 10);
    }
  }

  /** Distinct numbers render differently. */
  lemma NatToStringInjective(m: nat, n: nat)
    requires NatToString(m) == NatToString(n)
    ensures m == n
  {
    NatToStringRoundTrip(m);
    NatToStringRoundTrip(n);
  }

  /** `Math.ceil(a / b)` for a non-negative numerator and a positive divisor. */
  function CeilDiv(a: nat, b: nat): (r: nat)
    requires b > 0
    ensures r * b >= a
    ensures r > 0 ==> (r - 1) * b < a
  {
    (a + b - 1) / b
  }

  /** Whole minutes to read `words` words at 200 words a minute, rounded up. */
  function ReadingMinutes(words: nat): (m: nat)
    ensures m * 200 >= words
    ensures m > 0 ==> (m - 1) * 200 < words
  {
    CeilDiv(words, 200)
  }

  /** The reading-time label both the server and the reader view show. */
  function ReadingTime(words: nat): (r: string)
  {
    NatToString(ReadingMinutes(words)) + " min read"
  }

  /** More words never read faster. */
  lemma ReadingMinutesMonotone(m: nat, n: nat)
    requires m <= n
    ensures ReadingMinutes(m) <= ReadingMinutes(n)
  {
  }

  /** The label is read back as the minutes: two word counts get the same
      label exactly when they need the same number of minutes. */
  lemma ReadingTimeSameIff(m: nat, n: nat)
    ensures ReadingTime(m) == ReadingTime(n) <==> ReadingMinutes(m) == ReadingMinutes(n)
  {
    var x := NatToString(ReadingMinutes(m));
    var y := NatToString(ReadingMinutes(n));
    if ReadingTime(m) == ReadingTime(n) {
      assert |x| == |y|;
      assert x == (x + " min read")[..|x|];
      NatToStringInjective(ReadingMinutes(m), ReadingMinutes(n));
    }
  }

  /** No words means no reading time. */
  lemma ReadingTimeZero()
    ensures ReadingTime(0) == "0 min read"
  {
    assert NatToString(0) == "0";
  }
}
