/** What the search of `EmailService` promises, proved about the functions that define it. */
module EmailProperties {
  import opened Wrappers
  import opened JsonValues
  import opened Strings
  import opened Helper
  import opened EmailService

  predicate DepthsWithin(fs: seq<Fetch>, lo: int, hi: int) {
    forall k :: 0 <= k < |fs| ==> lo <= fs[k].depth <= hi
  }

  predicate IsTruthyValue(o: Outcome) {
    o.Value? && Truthy(o.json)
  }

  // ---------------------------------------------------------------------------
  // Depth

  /** `maxDepth <= 0` fetches nothing; otherwise the target is fetched first, at
      `maxDepth`, and everything fetched after it is fetched at a depth in
      `[1, maxDepth - 1]`: each level of recursion passes exactly `maxDepth - 1`. */
  lemma {:induction false} SearchDepths(e: Env, url: string, maxDepth: int)
    ensures maxDepth <= 0 ==> Search(e, url, maxDepth) == Run(Null, [])
    ensures maxDepth > 0 ==>
      var fs := Search(e, url, maxDepth).fetched;
      |fs| >= 1 && fs[0] == Fetch(url, maxDepth) && DepthsWithin(fs[1..], 1, maxDepth - 1)
    decreases Fuel(maxDepth), 1
  {
    if maxDepth > 0 && url in e.web {
      var response := e.web[url];
      if !DeclaresJson(response) && e.parse(response.body).None? {
        FollowLinksDepths(e, url, maxDepth, LinksOf(response.body));
      }
    }
  }

  lemma {:induction false} FollowLinksDepths(e: Env, url: string, maxDepth: int, links: seq<string>)
    requires maxDepth > 0
    ensures
      var fs := FollowLinks(e, url, maxDepth, links).fetched;
      |fs| >= 1 && fs[0] == Fetch(url, maxDepth) && DepthsWithin(fs[1..], 1, maxDepth - 1)
    decreases Fuel(maxDepth - 1), 4
  {
    var here := [Fetch(url, maxDepth)];
    var first := FirstSuccess(e, JsonLinks(e, links, url), url, maxDepth);
    FirstSuccessDepths(e, JsonLinks(e, links, url), url, maxDepth);
    var fs := FollowLinks(e, url, maxDepth, links).fetched;
    if first.found.None? && maxDepth > 1 {
      var second := FirstSuccess(e, links, url, maxDepth);
      FirstSuccessDepths(e, links, url, maxDepth);
      assert fs == here + first.fetched + second.fetched;
      assert fs[1..] == first.fetched + second.fetched;
      DepthsWithinAppend(first.fetched, second.fetched, 1, maxDepth - 1);
    } else {
      assert fs == here + first.fetched;
      assert fs[1..] == first.fetched;
    }
  }

  lemma DepthsWithinAppend(a: seq<Fetch>, b: seq<Fetch>, lo: int, hi: int)
    requires DepthsWithin(a, lo, hi) && DepthsWithin(b, lo, hi)
    ensures DepthsWithin(a + b, lo, hi)
  {
  }

  lemma {:induction false} FirstSuccessDepths(e: Env, candidates: seq<string>, base: string, maxDepth: int)
    requires maxDepth > 0
    ensures DepthsWithin(FirstSuccess(e, candidates, base, maxDepth).fetched, 1, maxDepth - 1)
    decreases Fuel(maxDepth - 1), 3, |candidates|
  {
    if candidates != [] {
      if e.resolve(candidates[0], base).Some? {
        SearchDepths(e, e.resolve(candidates[0], base).value, maxDepth - 1);
      }
      FirstSuccessDepths(e, candidates[1..], base, maxDepth);
    }
  }

  /** At depth 1 only the target itself is fetched: its links are extracted, but the
      recursive calls at depth 0 fetch nothing. */
  lemma DepthOneFetchesOnlyTarget(e: Env, url: string)
    ensures Search(e, url, 1).fetched == [Fetch(url, 1)]
  {
    if url in e.web {
      var links := LinksOf(e.web[url].body);
      DepthOneCandidatesFetchNothing(e, JsonLinks(e, links, url), url);
    }
  }

  lemma DepthOneCandidatesFetchNothing(e: Env, candidates: seq<string>, base: string)
    ensures FirstSuccess(e, candidates, base, 1).fetched == []
  {
    FirstSuccessDepths(e, candidates, base, 1);
  }

  // ---------------------------------------------------------------------------
  // Errors

  /** The search throws exactly when fetching its own target fails, or when a body declared
      as `application/json` does not parse; what its candidates throw never escapes. */
  lemma SearchThrowsIff(e: Env, url: string, maxDepth: int)
    ensures Search(e, url, maxDepth).outcome == Throw
      <==> maxDepth > 0
           && (url !in e.web || (DeclaresJson(e.web[url]) && e.parse(e.web[url].body).None?))
  {
  }

  /** A body declared as JSON, or that parses as JSON anyway, ends the search at this target
      (nothing else is fetched): its value is returned, falsy or not, or the call throws if
      a declared body does not parse. */
  lemma JsonBodyEndsSearch(e: Env, url: string, maxDepth: int)
    requires maxDepth > 0 && url in e.web
    requires DeclaresJson(e.web[url]) || e.parse(e.web[url].body).Some?
    ensures Search(e, url, maxDepth)
         == Run(match e.parse(e.web[url].body) case Some(j) => Value(j) case None => Throw,
                [Fetch(url, maxDepth)])
  {
  }

  // ---------------------------------------------------------------------------
  // Candidates

  /** Running the candidates of `a + b` is running those of `a`, then, only if none of them
      succeeded, those of `b`. */
  lemma {:induction false} FirstSuccessConcat(e: Env, a: seq<string>, b: seq<string>, base: string, maxDepth: int)
    ensures
      var pa := FirstSuccess(e, a, base, maxDepth);
      var pb := FirstSuccess(e, b, base, maxDepth);
      FirstSuccess(e, a + b, base, maxDepth)
        == if pa.found.Some? then pa else Pass(pb.found, pa.fetched + pb.fetched)
    decreases |a|
  {
    if a == [] {
      assert a + b == b;
    } else {
      assert (a + b)[0] == a[0];
      assert (a + b)[1..] == a[1..] + b;
      FirstSuccessConcat(e, a[1..], b, base, maxDepth);
    }
  }

  /** The order in which candidates are tried: the links whose resolved `href` ends in
      `.json`, in document order, and then, only if `maxDepth > 1`, every link again, the
      `.json` ones included, with the first success returned and `null` if none. */
  lemma CandidateOrder(e: Env, url: string, maxDepth: int)
    requires maxDepth > 0 && url in e.web
    requires !DeclaresJson(e.web[url]) && e.parse(e.web[url].body).None?
    ensures
      var links := LinksOf(e.web[url].body);
      var candidates := JsonLinks(e, links, url) + (if maxDepth > 1 then links else []);
      var pass := FirstSuccess(e, candidates, url, maxDepth);
      Search(e, url, maxDepth)
        == Run(if pass.found.Some? then Value(pass.found.value) else Null, [Fetch(url, maxDepth)] + pass.fetched)
  {
    var links := LinksOf(e.web[url].body);
    assert Search(e, url, maxDepth) == FollowLinks(e, url, maxDepth, links);
    FollowLinksOrder(e, url, maxDepth, links);
  }

  lemma FollowLinksOrder(e: Env, url: string, maxDepth: int, links: seq<string>)
    ensures
      var candidates := JsonLinks(e, links, url) + (if maxDepth > 1 then links else []);
      var pass := FirstSuccess(e, candidates, url, maxDepth);
      FollowLinks(e, url, maxDepth, links)
        == Run(if pass.found.Some? then Value(pass.found.value) else Null, [Fetch(url, maxDepth)] + pass.fetched)
  {
    var jsonLinks := JsonLinks(e, links, url);
    if maxDepth <= 1 {
      assert jsonLinks + [] == jsonLinks;
    } else {
      var first := FirstSuccess(e, jsonLinks, url, maxDepth);
      var rest := FirstSuccess(e, links, url, maxDepth);
      FirstSuccessConcat(e, jsonLinks, links, url, maxDepth);
      if first.found.None? {
        assert [Fetch(url, maxDepth)] + first.fetched + rest.fetched == [Fetch(url, maxDepth)] + (first.fetched + rest.fetched);
      }
    }
  }

  /** A candidate succeeds exactly when it resolves and the search one level down returns a
      truthy value; a `null`, a falsy value or a throw counts as failure. */
  lemma FollowLinkSucceedsIff(e: Env, link: string, base: string, maxDepth: int, j: Json)
    ensures FollowLink(e, link, base, maxDepth).outcome == Value(j)
      <==> e.resolve(link, base).Some?
           && Search(e, e.resolve(link, base).value, maxDepth - 1).outcome == Value(j)
           && Truthy(j)
  {
  }

  /** Candidate `k` is the first one that succeeds, with value `j`. */
  predicate FirstSucceedsAt(e: Env, candidates: seq<string>, base: string, maxDepth: int, k: int, j: Json) {
    0 <= k < |candidates|
    && FollowLink(e, candidates[k], base, maxDepth).outcome == Value(j)
    && forall i :: 0 <= i < k ==> FollowLink(e, candidates[i], base, maxDepth).outcome == Throw
  }

  /** A candidate loop returns the value of the first candidate that succeeds, and nothing
      when every candidate fails. */
  lemma {:induction false} FirstSuccessIff(e: Env, candidates: seq<string>, base: string, maxDepth: int, j: Json)
    ensures FirstSuccess(e, candidates, base, maxDepth).found == Some(j)
      <==> exists k :: FirstSucceedsAt(e, candidates, base, maxDepth, k, j)
    ensures FirstSuccess(e, candidates, base, maxDepth).found == None
      <==> forall k :: 0 <= k < |candidates| ==> FollowLink(e, candidates[k], base, maxDepth).outcome == Throw
    decreases |candidates|
  {
    if candidates != [] {
      var tail := candidates[1..];
      FirstSuccessIff(e, tail, base, maxDepth, j);
      var first := FollowLink(e, candidates[0], base, maxDepth);
      forall i | 1 <= i < |candidates|
        ensures candidates[i] == tail[i - 1]
      {
      }
      if first.outcome.Value? {
        assert FirstSucceedsAt(e, candidates, base, maxDepth, 0, first.outcome.json);
        forall k | FirstSucceedsAt(e, candidates, base, maxDepth, k, j)
          ensures k == 0
        {
        }
      } else {
        if exists k :: FirstSucceedsAt(e, tail, base, maxDepth, k, j) {
          var k :| FirstSucceedsAt(e, tail, base, maxDepth, k, j);
          assert FirstSucceedsAt(e, candidates, base, maxDepth, k + 1, j);
        }
        if exists k :: FirstSucceedsAt(e, candidates, base, maxDepth, k, j) {
          var k :| FirstSucceedsAt(e, candidates, base, maxDepth, k, j);
          assert FirstSucceedsAt(e, tail, base, maxDepth, k - 1, j);
        }
      }
    }
  }

  /** In a web where no page declares or holds JSON, the search never finds a value,
      whatever the links: on a cyclic link graph it stops by depth and returns
      `null` or throws. */
  lemma {:induction false} NoJsonWebFindsNothing(e: Env, url: string, maxDepth: int)
    requires forall u :: u in e.web ==> !DeclaresJson(e.web[u]) && e.parse(e.web[u].body).None?
    ensures Search(e, url, maxDepth).outcome == (if maxDepth > 0 && url !in e.web then Throw else Null)
    decreases Fuel(maxDepth), 1
  {
    if maxDepth > 0 && url in e.web {
      var links := LinksOf(e.web[url].body);
      NoJsonWebFailsEveryCandidate(e, JsonLinks(e, links, url), url, maxDepth);
      NoJsonWebFailsEveryCandidate(e, links, url, maxDepth);
    }
  }

  lemma {:induction false} NoJsonWebFailsEveryCandidate(e: Env, candidates: seq<string>, base: string, maxDepth: int)
    requires forall u :: u in e.web ==> !DeclaresJson(e.web[u]) && e.parse(e.web[u].body).None?
    requires maxDepth > 0
    ensures FirstSuccess(e, candidates, base, maxDepth).found == None
    decreases Fuel(maxDepth - 1), 3, |candidates|
  {
    if candidates != [] {
      if e.resolve(candidates[0], base).Some? {
        NoJsonWebFindsNothing(e, e.resolve(candidates[0], base).value, maxDepth - 1);
      }
      NoJsonWebFailsEveryCandidate(e, candidates[1..], base, maxDepth);
    }
  }

  /** Two distinct pages `a` and `b` whose only link is to each other, each link resolving to the
      other page's `.json` URL, neither page holding JSON. The search from `a` at depth 2
      stops and finds nothing; it fetches `b` twice, once as a `.json` candidate and again
      in the pass over all links, and never fetches `a` again. */
  lemma CyclicLinksStop(e: Env, a: string, b: string)
    requires a != b
    requires a in e.web && b in e.web
    requires !DeclaresJson(e.web[a]) && e.parse(e.web[a].body).None? && LinksOf(e.web[a].body) == [b]
    requires !DeclaresJson(e.web[b]) && e.parse(e.web[b].body).None? && LinksOf(e.web[b].body) == [a]
    requires e.resolve(b, a) == Some(b) && e.resolve(a, b) == Some(a)
    requires EndsWith(a, ".json") && EndsWith(b, ".json")
    ensures Search(e, a, 2) == Run(Null, [Fetch(a, 2), Fetch(b, 1), Fetch(b, 1)])
  {
    assert JsonLinks(e, [a], b) == [a];
    assert JsonLinks(e, [b], a) == [b];
    assert Search(e, b, 1) == Run(Null, [Fetch(b, 1)]);
    assert FirstSuccess(e, [b], a, 2) == Pass(None, [Fetch(b, 1)]);
  }

  // ---------------------------------------------------------------------------
  // The request

  /** Attachment `k` is the first `.json` attachment that parses, with value `j`. */
  predicate AttachmentWinsAt(e: Env, attachments: seq<Attachment>, k: int, j: Json) {
    0 <= k < |attachments|
    && IsJsonAttachment(attachments[k])
    && e.parse(attachments[k].content) == Some(j)
    && forall i :: 0 <= i < k ==> !(IsJsonAttachment(attachments[i]) && e.parse(attachments[i].content).Some?)
  }

  /** The attachment loop returns the first `.json` attachment that parses, whatever its
      value (a falsy one too), skipping those that do not parse. */
  lemma {:induction false} FirstJsonAttachmentIff(e: Env, attachments: seq<Attachment>, j: Json)
    ensures FirstJsonAttachment(e, attachments) == Some(j) <==> exists k :: AttachmentWinsAt(e, attachments, k, j)
    ensures FirstJsonAttachment(e, attachments) == None
      <==> forall k :: 0 <= k < |attachments| ==> !(IsJsonAttachment(attachments[k]) && e.parse(attachments[k].content).Some?)
    decreases |attachments|
  {
    if attachments != [] {
      var tail := attachments[1..];
      FirstJsonAttachmentIff(e, tail, j);
      forall i | 1 <= i < |attachments|
        ensures attachments[i] == tail[i - 1]
      {
      }
      if IsJsonAttachment(attachments[0]) && e.parse(attachments[0].content).Some? {
        assert AttachmentWinsAt(e, attachments, 0, e.parse(attachments[0].content).value);
        forall k | AttachmentWinsAt(e, attachments, k, j)
          ensures k == 0
        {
        }
      } else {
        if exists k :: AttachmentWinsAt(e, tail, k, j) {
          var k :| AttachmentWinsAt(e, tail, k, j);
          assert AttachmentWinsAt(e, attachments, k + 1, j);
        }
        if exists k :: AttachmentWinsAt(e, attachments, k, j) {
          var k :| AttachmentWinsAt(e, attachments, k, j);
          assert AttachmentWinsAt(e, tail, k - 1, j);
        }
      }
    }
  }

  /** Link `k` is the first top-level link whose search at depth 2 returns a truthy value `j`. */
  predicate LinkWinsAt(e: Env, links: seq<string>, k: int, j: Json) {
    0 <= k < |links|
    && Search(e, links[k], InitialDepth).outcome == Value(j)
    && Truthy(j)
    && forall i :: 0 <= i < k ==> !IsTruthyValue(Search(e, links[i], InitialDepth).outcome)
  }

  /** The top-level link loop searches each raw link at depth 2 in order and returns the
      first truthy value; throws, `null`s and falsy values are skipped; when every link
      fails it ends in `NoJsonFound`. */
  lemma {:induction false} FromLinksIff(e: Env, links: seq<string>, j: Json)
    ensures FromLinks(e, links).reply == Found(j) <==> exists k :: LinkWinsAt(e, links, k, j)
    ensures FromLinks(e, links).reply == NoJsonFound
      <==> forall k :: 0 <= k < |links| ==> !IsTruthyValue(Search(e, links[k], InitialDepth).outcome)
    decreases |links|
  {
    if links != [] {
      var tail := links[1..];
      FromLinksIff(e, tail, j);
      forall i | 1 <= i < |links|
        ensures links[i] == tail[i - 1]
      {
      }
      var first := Search(e, links[0], InitialDepth);
      if IsTruthyValue(first.outcome) {
        assert LinkWinsAt(e, links, 0, first.outcome.json);
        forall k | LinkWinsAt(e, links, k, j)
          ensures k == 0
        {
        }
      } else {
        if exists k :: LinkWinsAt(e, tail, k, j) {
          var k :| LinkWinsAt(e, tail, k, j);
          assert LinkWinsAt(e, links, k + 1, j);
        }
        if exists k :: LinkWinsAt(e, links, k, j) {
          var k :| LinkWinsAt(e, links, k, j);
          assert LinkWinsAt(e, tail, k - 1, j);
        }
      }
    }
  }

  /** The request: a `.json` attachment that parses wins and nothing is fetched; only when
      there is none are the links of the body (`textAsHtml`, else `text`) searched, raw and
      in order; and the answer is `NoJsonFound` exactly when neither yields anything. */
  lemma EmailResultIff(e: Env, email: ParsedEmail, j: Json)
    ensures FirstJsonAttachment(e, email.attachments) == Some(j) ==> EmailResult(e, email) == Answer(Found(j), [])
    ensures FirstJsonAttachment(e, email.attachments) == None ==>
      (EmailResult(e, email).reply == Found(j) <==> exists k :: LinkWinsAt(e, LinksOf(BodyText(email)), k, j))
    ensures EmailResult(e, email).reply == NoJsonFound
      <==> (forall k :: 0 <= k < |email.attachments|
              ==> !(IsJsonAttachment(email.attachments[k]) && e.parse(email.attachments[k].content).Some?))
           && (forall l :: l in LinksOf(BodyText(email)) ==> !IsTruthyValue(Search(e, l, InitialDepth).outcome))
  {
    FirstJsonAttachmentIff(e, email.attachments, j);
    FromLinksIff(e, LinksOf(BodyText(email)), j);
  }

  lemma {:induction false} FromLinksDepths(e: Env, links: seq<string>)
    ensures DepthsWithin(FromLinks(e, links).fetched, 1, InitialDepth)
    decreases |links|
  {
    if links != [] {
      SearchDepths(e, links[0], InitialDepth);
      FromLinksDepths(e, links[1..]);
    }
  }

  /** Everything the request fetches is fetched at depth 1 or 2. */
  lemma EmailFetchDepths(e: Env, email: ParsedEmail)
    ensures DepthsWithin(EmailResult(e, email).fetched, 1, InitialDepth)
  {
    FromLinksDepths(e, LinksOf(BodyText(email)));
  }

  // ---------------------------------------------------------------------------
  // Reading the email

  /** A path is read over HTTP exactly when, folded to lower case, it starts with
      `http://` or `https://`. */
  lemma IsHttpUrlIff(path: string)
    ensures IsHttpUrl(path) <==> "http://" <= LowerAll(path) || "https://" <= LowerAll(path)
  {
    assert LowerAll("http://") == "http://";
    assert LowerAll("https://") == "https://";
    StartsWithIgnoringCaseIff(path, "http://");
    StartsWithIgnoringCaseIff(path, "https://");
  }

  /** Quote stripping, case by case: one quote on each end is removed, each on its own, and
      a path with no quote at either end is kept as it is. */
  lemma StripQuotesCases(p: string, q1: char, q2: char)
    requires IsQuote(q1) && IsQuote(q2)
    ensures StripQuotes([q1] + p + [q2]) == p
    ensures (p == [] || !IsQuote(p[|p| - 1])) ==> StripQuotes([q1] + p) == p
    ensures (p == [] || !IsQuote(p[0])) ==> StripQuotes(p + [q2]) == p
    ensures (p == [] || (!IsQuote(p[0]) && !IsQuote(p[|p| - 1]))) ==> StripQuotes(p) == p
  {
    assert ([q1] + p + [q2])[1..|p| + 1] == p;
    assert ([q1] + p)[1..] == p;
    assert (p + [q2])[..|p|] == p;
  }
}
