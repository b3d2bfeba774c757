/** `extractLinks` (src/email/helper/helper.ts): the values captured by the global,
    case-insensitive regular expression  href=["']([^"']+)["']  in document order. */
module Helper {
  import opened Wrappers
  import opened Strings

  /** The text `s[start..end]` matched by one execution of the regular expression. */
  datatype Span = Span(start: nat, end: nat)

  /** The regular expression matches exactly `s[p..e]`: `href=` in any letter case, one
      quote of either kind, a non-empty run of non-quote characters, one quote of either
      kind. The run is maximal, so the closing quote is the first quote after the opening one. */
  predicate IsMatch(s: string, p: nat, e: nat) {
    p + 7 < e <= |s|
    && StartsWithIgnoringCase(s[p..], "href=")
    && IsQuote(s[p + 5])
    && IsQuote(s[e - 1])
    && (forall k :: p + 6 <= k < e - 1 ==> !IsQuote(s[k]))
  }

  /** No match of the regular expression starts in `[a, b)`. */
  ghost predicate NoMatchIn(s: string, a: int, b: int) {
    forall p: nat, e: nat :: a <= p < b ==> !IsMatch(s, p, e)
  }

  predicate AllMatches(s: string, ms: seq<Span>) {
    forall k :: 0 <= k < |ms| ==> IsMatch(s, ms[k].start, ms[k].end)
  }

  /** Index of the first quote at or after `j`, or `|s|` when there is none
      (how far the greedy `[^"']+` runs). */
  function ClosingQuote(s: string, j: nat): (r: nat)
    requires j <= |s|
    ensures j <= r <= |s|
    ensures r < |s| ==> IsQuote(s[r])
    ensures forall k :: j <= k < r ==> !IsQuote(s[k])
    decreases |s| - j
  {
    if j == |s| || IsQuote(s[j]) then j else ClosingQuote(s, j + 1)
  }

  /** The end of the match starting at `p`, if the regular expression matches there;
      a match starting at a given position is unique. */
  function MatchAt(s: string, p: nat): (r: Option<nat>)
    ensures r.Some? ==> IsMatch(s, p, r.value)
    ensures forall e: nat :: IsMatch(s, p, e) ==> r == Some(e)
  {
    if p + 6 <= |s| && StartsWithIgnoringCase(s[p..], "href=") && IsQuote(s[p + 5]) then
      var c := ClosingQuote(s, p + 6);
      if p + 6 < c < |s| then Some(c + 1) else None
    else
      None
  }

  /** `RegExp.prototype.exec` with `lastIndex == from`: the leftmost match starting at or
      after `from`, or none. */
  function Exec(s: string, from: nat): (r: Option<Span>)
    ensures r.Some? ==> from <= r.value.start && IsMatch(s, r.value.start, r.value.end)
    ensures r.Some? ==> NoMatchIn(s, from, r.value.start)
    ensures r.None? ==> NoMatchIn(s, from, |s|)
    decreases |s| - from
  {
    if from >= |s| then
      None
    else
      match MatchAt(s, from)
      case Some(e) => Some(Span(from, e))
      case None => Exec(s, from + 1)
  }

  /** The matches the loop of `extractLinks` visits when it starts with `lastIndex == from`:
      after each match the search resumes at its end. */
  function Matches(s: string, from: nat): (r: seq<Span>)
    ensures AllMatches(s, r)
    decreases |s| - from
  {
    match Exec(s, from)
    case None => []
    case Some(m) => [m] + Matches(s, m.end)
  }

  /** Capture group 1 of a match: the text between the two quotes. */
  function Capture(s: string, m: Span): string {
    if m.start + 6 <= m.end - 1 <= |s| then s[m.start + 6..m.end - 1] else ""
  }

  /** The links `extractLinks` collects once `lastIndex` is `from`. */
  function LinksFrom(s: string, from: nat): seq<string>
    decreases |s| - from
  {
    match Exec(s, from)
    case None => []
    case Some(m) => [Capture(s, m)] + LinksFrom(s, m.end)
  }

  /** The value `extractLinks(content)` returns. */
  function LinksOf(content: string): seq<string> {
    LinksFrom(content, 0)
  }

  /** `extractLinks`: drives `exec` of the global regular expression, whose `lastIndex`
      moves to the end of each match, and pushes each capture. */
  method ExtractLinks(content: string) returns (links: seq<string>)
    ensures links == LinksOf(content)
  {
    links := [];
    var lastIndex: nat := 0;
    var m := Exec(content, lastIndex);
    while m.Some?
      invariant m == Exec(content, lastIndex)
      invariant links + LinksFrom(content, lastIndex) == LinksOf(content)
      decreases |content| - lastIndex
    {
      var span := m.value;
      links := links + [Capture(content, span)];
      lastIndex := span.end;
      m := Exec(content, lastIndex);
    }
  }

  // ---------------------------------------------------------------------------
  // Properties of the scan

  /** `ms` is what a global regular expression scan from `from` finds: the first element
      is the leftmost match starting at or after `from`, the rest is the scan resumed at
      its end, and when `ms` is empty no match starts at or after `from`. */
  ghost predicate IsLeftmostScan(s: string, from: nat, ms: seq<Span>)
    decreases ms
  {
    if ms == [] then
      NoMatchIn(s, from, |s|)
    else
      from <= ms[0].start
      && IsMatch(s, ms[0].start, ms[0].end)
      && NoMatchIn(s, from, ms[0].start)
      && IsLeftmostScan(s, ms[0].end, ms[1..])
  }

  lemma {:induction false} MatchesAreLeftmostScan(s: string, from: nat)
    ensures IsLeftmostScan(s, from, Matches(s, from))
    decreases |s| - from
  {
    match Exec(s, from)
    case None =>
    case Some(m) =>
      MatchesAreLeftmostScan(s, m.end);
      assert Matches(s, from)[1..] == Matches(s, m.end);
  }

  /** The scan is fully determined: any leftmost scan from `from` is `Matches(s, from)`. */
  lemma {:induction false} LeftmostScanIsUnique(s: string, from: nat, ms: seq<Span>)
    requires IsLeftmostScan(s, from, ms)
    ensures ms == Matches(s, from)
    decreases ms
  {
    var x := Exec(s, from);
    if ms != [] && x.Some? && x.value.start == ms[0].start {
      var _ := MatchAt(s, ms[0].start);
      assert x.value == ms[0];
      LeftmostScanIsUnique(s, ms[0].end, ms[1..]);
    }
  }

  /** A leftmost scan lists its matches in document order, without overlap, inside `s`. */
  lemma {:induction false} LeftmostScanIsOrdered(s: string, from: nat, ms: seq<Span>)
    requires IsLeftmostScan(s, from, ms)
    ensures forall k :: 0 <= k < |ms| ==> from <= ms[k].start < ms[k].end <= |s|
    ensures forall k :: 0 <= k < |ms| - 1 ==> ms[k].end <= ms[k + 1].start
    decreases ms
  {
    if ms != [] {
      LeftmostScanIsOrdered(s, ms[0].end, ms[1..]);
      assert forall k :: 1 <= k < |ms| ==> ms[k] == ms[1..][k - 1];
    }
  }

  /** The links are the captures of the matches, one for one. */
  lemma {:induction false} LinksAreCaptures(s: string, from: nat)
    ensures |LinksFrom(s, from)| == |Matches(s, from)|
    ensures forall k :: 0 <= k < |Matches(s, from)| ==> LinksFrom(s, from)[k] == Capture(s, Matches(s, from)[k])
    decreases |s| - from
  {
    match Exec(s, from)
    case None =>
    case Some(m) =>
      LinksAreCaptures(s, m.end);
  }

  /** Every link is non-empty and holds no quote character of either kind. */
  lemma LinksAreQuoteFree(s: string)
    ensures forall k :: 0 <= k < |LinksOf(s)| ==> |LinksOf(s)[k]| > 0
    ensures forall k, j :: 0 <= k < |LinksOf(s)| && 0 <= j < |LinksOf(s)[k]| ==> !IsQuote(LinksOf(s)[k][j])
  {
    var ms := Matches(s, 0);
    LinksAreCaptures(s, 0);
    forall k, j | 0 <= k < |ms| && 0 <= j < |LinksOf(s)[k]|
      ensures !IsQuote(LinksOf(s)[k][j])
    {
      assert LinksOf(s)[k][j] == s[ms[k].start + 6 + j];
    }
  }

  /** `l` stands in `s` right after `href=` (any letter case) and one quote, and is
      followed immediately by a quote. */
  predicate QuotedHrefAt(s: string, p: nat, l: string) {
    p + 6 + |l| < |s|
    && StartsWithIgnoringCase(s[p..], "href=")
    && IsQuote(s[p + 5])
    && s[p + 6..p + 6 + |l|] == l
    && IsQuote(s[p + 6 + |l|])
  }

  /** Every link is found in `content` in its quoted `href=` context. */
  lemma LinkInContext(s: string, k: nat)
    requires k < |LinksOf(s)|
    ensures exists p: nat :: QuotedHrefAt(s, p, LinksOf(s)[k])
  {
    LinksAreCaptures(s, 0);
    var m := Matches(s, 0)[k];
    CaptureInContext(s, m);
  }

  lemma CaptureInContext(s: string, m: Span)
    requires IsMatch(s, m.start, m.end)
    ensures QuotedHrefAt(s, m.start, Capture(s, m))
  {
    var l := Capture(s, m);
    assert m.start + 6 + |l| == m.end - 1;
  }

  /** The result is empty exactly when the regular expression matches nowhere. */
  lemma LinksEmptyIff(s: string)
    ensures LinksOf(s) == [] <==> NoMatchIn(s, 0, |s|)
  {
    MatchesAreLeftmostScan(s, 0);
    LinksAreCaptures(s, 0);
    if NoMatchIn(s, 0, |s|) {
      LeftmostScanIsUnique(s, 0, []);
    }
  }

  /** In particular, no `href=` followed by a quote and a non-quote means no link. */
  lemma NoHrefNoLinks(s: string)
    requires forall p: nat :: p + 6 < |s| && StartsWithIgnoringCase(s[p..], "href=") && IsQuote(s[p + 5]) ==> IsQuote(s[p + 6])
    ensures LinksOf(s) == []
  {
    LinksEmptyIff(s);
  }

  /** Number of positions at or after `i` where `href=` starts, letters compared without case. */
  function HrefCount(s: string, i: nat): nat
    decreases |s| - i
  {
    if i >= |s| then 0
    else (if StartsWithIgnoringCase(s[i..], "href=") then 1 else 0) + HrefCount(s, i + 1)
  }

  lemma {:induction false} HrefCountSplit(s: string, i: nat, p: nat, j: nat)
    requires i <= p < j
    ensures HrefCount(s, i) >= (if p < |s| && StartsWithIgnoringCase(s[p..], "href=") then 1 else 0) + HrefCount(s, j)
    decreases j - i
  {
    if i < p {
      HrefCountSplit(s, i + 1, p, j);
    } else if i + 1 < j {
      HrefCountMonotone(s, i + 1, j);
    }
  }

  lemma {:induction false} HrefCountMonotone(s: string, i: nat, j: nat)
    requires i <= j
    ensures HrefCount(s, i) >= HrefCount(s, j)
    decreases j - i
  {
    if i < j {
      HrefCountMonotone(s, i + 1, j);
    }
  }

  lemma {:induction false} MatchesBoundedByHrefs(s: string, from: nat)
    ensures |Matches(s, from)| <= HrefCount(s, from)
    decreases |s| - from
  {
    match Exec(s, from)
    case None =>
    case Some(m) =>
      MatchesBoundedByHrefs(s, m.end);
      HrefCountSplit(s, from, m.start, m.end);
  }

  /** There are at most as many links as occurrences of `href=`. */
  lemma LinksBoundedByHrefs(s: string)
    ensures |LinksOf(s)| <= HrefCount(s, 0)
  {
    MatchesBoundedByHrefs(s, 0);
    LinksAreCaptures(s, 0);
  }

  /** The same value twice yields two entries, and the two quotes need not agree. */
  lemma DuplicatesAndMixedQuotesKept()
    ensures LinksOf("href=\"a'HREF='a\"") == ["a", "a"]
  {
    var s := "href=\"a'HREF='a\"";
    assert MatchAt(s, 0) == Some(8);
    assert Exec(s, 0) == Some(Span(0, 8));
    assert MatchAt(s, 8) == Some(16);
    assert Exec(s, 8) == Some(Span(8, 16));
    assert Exec(s, 16) == None;
    assert LinksFrom(s, 16) == [];
    assert Capture(s, Span(8, 16)) == "a";
    assert LinksFrom(s, 8) == ["a"];
    assert Capture(s, Span(0, 8)) == "a";
  }
}
