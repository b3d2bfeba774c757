/** `EmailService` (src/email/email.service.ts): find a JSON document in an already parsed
    email, first among its attachments, then by following the links of its body through
    a web of pages, to a bounded depth.

    The collaborators the service calls are parameters (`Env`): the web, as the responses
    the HTTP client would resolve with; `JSON.parse`, as a partial function; and
    `new URL(link, base).href`, as a partial function. Each fetch the search attempts is
    recorded, with the depth it was attempted at, so that what is and is not fetched can be
    stated. Every exception is a value: `Throw`. */
module EmailService {
  import opened Wrappers
  import opened JsonValues
  import opened Strings
  import opened Helper

  /** What the HTTP client resolves with: the `content-type` header (`""` when absent) and
      the body as text. */
  datatype Response = Response(contentType: string, body: string)

  datatype Env = Env(
    web: map<string, Response>,               // a URL absent from the map: the request fails
    parse: string -> Option<Json>,            // JSON.parse; None where it throws
    resolve: (string, string) -> Option<string>) // new URL(link, base).href; None where it throws

  /** One attempted fetch: the URL passed to the HTTP client and the `maxDepth` of the call. */
  datatype Fetch = Fetch(url: string, depth: int)

  /** How a call of `getJsonFromLink` or `getJsonFileFromLink` ends: it returns a JSON value,
      returns `null`, or throws. */
  datatype Outcome = Value(json: Json) | Null | Throw

  datatype Run = Run(outcome: Outcome, fetched: seq<Fetch>)

  /** How a candidate loop ends: the value of the first candidate that succeeded, if any. */
  datatype Pass = Pass(found: Option<Json>, fetched: seq<Fetch>)

  /** The depth the top-level search starts with. */
  const InitialDepth := 2

  /** The termination measure: `maxDepth <= 0` stops the search. */
  function Fuel(maxDepth: int): nat {
    if maxDepth <= 0 then 0 else maxDepth
  }

  /** `contentType.includes('application/json')`. */
  predicate DeclaresJson(r: Response) {
    Includes(r.contentType, "application/json")
  }

  /** The filter of `getJsonFromLink`: the link resolves against `base` and the whole
      resolved `href` (query and fragment included) ends in `.json`. */
  predicate IsJsonHref(e: Env, link: string, base: string) {
    match e.resolve(link, base)
    case Some(href) => EndsWith(href, ".json")
    case None => false
  }

  /** `a` keeps some of the elements of `b`, in the same order. */
  predicate IsSubsequence(a: seq<string>, b: seq<string>)
    decreases |b|
  {
    if a == [] then true
    else if b == [] then false
    else if a[0] == b[0] then IsSubsequence(a[1..], b[1..])
    else IsSubsequence(a, b[1..])
  }

  /** `links.filter(...)`: the `.json` links, raw as extracted, in document order. */
  function JsonLinks(e: Env, links: seq<string>, base: string): (r: seq<string>)
    ensures forall l :: l in r <==> l in links && IsJsonHref(e, l, base)
    ensures forall l :: multiset(r)[l] == if IsJsonHref(e, l, base) then multiset(links)[l] else 0
    ensures IsSubsequence(r, links)
    decreases |links|
  {
    if links == [] then []
    else
      assert links == [links[0]] + links[1..];
      if IsJsonHref(e, links[0], base) then [links[0]] + JsonLinks(e, links[1..], base)
      else JsonLinks(e, links[1..], base)
  }

  // ---------------------------------------------------------------------------
  // The search, as functions: what `getJsonFromLink` and `getJsonFileFromLink` do

  /** `getJsonFromLink(url, maxDepth)`: with no depth left it returns `null` and fetches
      nothing; otherwise its first fetch is its own target, at `maxDepth`. */
  function Search(e: Env, url: string, maxDepth: int): (r: Run)
    ensures maxDepth <= 0 ==> r == Run(Null, [])
    ensures maxDepth > 0 ==> |r.fetched| >= 1 && r.fetched[0] == Fetch(url, maxDepth)
    decreases Fuel(maxDepth), 1
  {
    if maxDepth <= 0 then
      Run(Null, [])
    else
      var here := [Fetch(url, maxDepth)];
      if url !in e.web then
        Run(Throw, here)
      else
        var response := e.web[url];
        if DeclaresJson(response) then
          match e.parse(response.body)
          case Some(j) => Run(Value(j), here)
          case None => Run(Throw, here)
        else if e.parse(response.body).Some? then
          Run(Value(e.parse(response.body).value), here)
        else
          FollowLinks(e, url, maxDepth, LinksOf(response.body))
  }

  /** The two candidate passes of `getJsonFromLink` over the links of the page at `url`:
      the `.json` links, then, if `maxDepth > 1`, all links. */
  function FollowLinks(e: Env, url: string, maxDepth: int, links: seq<string>): (r: Run)
    ensures |r.fetched| >= 1 && r.fetched[0] == Fetch(url, maxDepth)
    ensures r.outcome != Throw
    ensures r.outcome.Value? ==> Truthy(r.outcome.json)
    decreases Fuel(maxDepth - 1), 4
  {
    var here := [Fetch(url, maxDepth)];
    var first := FirstSuccess(e, JsonLinks(e, links, url), url, maxDepth);
    if first.found.Some? then
      Run(Value(first.found.value), here + first.fetched)
    else if maxDepth > 1 then
      var second := FirstSuccess(e, links, url, maxDepth);
      Run(if second.found.Some? then Value(second.found.value) else Null,
          here + first.fetched + second.fetched)
    else
      Run(Null, here + first.fetched)
  }

  /** `getJsonFileFromLink(link, base, maxDepth)`: resolve, search one level down, and
      throw unless the result is truthy. */
  function FollowLink(e: Env, link: string, base: string, maxDepth: int): (r: Run)
    ensures r.outcome != Null
    ensures r.outcome.Value? ==> Truthy(r.outcome.json)
    decreases Fuel(maxDepth - 1), 2
  {
    match e.resolve(link, base)
    case None => Run(Throw, [])
    case Some(href) =>
      var child := Search(e, href, maxDepth - 1);
      if child.outcome.Value? && Truthy(child.outcome.json) then child
      else Run(Throw, child.fetched)
  }

  /** A candidate loop: `FollowLink` on each candidate in turn until one returns; a
      candidate that throws moves on to the next. Only a truthy value is ever found. */
  function FirstSuccess(e: Env, candidates: seq<string>, base: string, maxDepth: int): (r: Pass)
    ensures r.found.Some? ==> Truthy(r.found.value)
    decreases Fuel(maxDepth - 1), 3, |candidates|
  {
    if candidates == [] then
      Pass(None, [])
    else
      var attempt := FollowLink(e, candidates[0], base, maxDepth);
      if attempt.outcome.Value? then
        Pass(Some(attempt.outcome.json), attempt.fetched)
      else
        var rest := FirstSuccess(e, candidates[1..], base, maxDepth);
        Pass(rest.found, attempt.fetched + rest.fetched)
  }

  /** One step of a candidate loop, at candidate `i`. */
  lemma FirstSuccessStep(e: Env, candidates: seq<string>, i: nat, base: string, maxDepth: int)
    requires i < |candidates|
    ensures FirstSuccess(e, candidates[i..], base, maxDepth)
         == var attempt := FollowLink(e, candidates[i], base, maxDepth);
            if attempt.outcome.Value? then Pass(Some(attempt.outcome.json), attempt.fetched)
            else var rest := FirstSuccess(e, candidates[i + 1..], base, maxDepth);
                 Pass(rest.found, attempt.fetched + rest.fetched)
  {
    assert candidates[i..][1..] == candidates[i + 1..];
  }

  // ---------------------------------------------------------------------------
  // The search, as the service runs it

  /** `getJsonFromLink`. */
  method GetJsonFromLink(e: Env, url: string, maxDepth: int) returns (r: Outcome, fetched: seq<Fetch>)
    ensures Run(r, fetched) == Search(e, url, maxDepth)
    decreases Fuel(maxDepth), 1
  {
    if maxDepth <= 0 {
      return Null, [];
    }
    fetched := [Fetch(url, maxDepth)];
    if url !in e.web {
      return Throw, fetched;
    }
    var response := e.web[url];
    if DeclaresJson(response) {
      var parsed := e.parse(response.body);
      if parsed.Some? {
        return Value(parsed.value), fetched;
      }
      return Throw, fetched;
    }
    var content := response.body;
    var direct := e.parse(content);
    if direct.Some? {
      return Value(direct.value), fetched;
    }
    var links := ExtractLinks(content);
    var jsonLinks := JsonLinks(e, links, url);
    var first, firstFetched := TryCandidates(e, jsonLinks, url, maxDepth);
    fetched := fetched + firstFetched;
    if first.Some? {
      return Value(first.value), fetched;
    }
    if maxDepth > 1 {
      var second, secondFetched := TryCandidates(e, links, url, maxDepth);
      fetched := fetched + secondFetched;
      if second.Some? {
        return Value(second.value), fetched;
      }
    }
    return Null, fetched;
  }

  /** A candidate loop of `getJsonFromLink`: `return await getJsonFileFromLink(...)` on each
      candidate in turn, a throw continuing with the next. */
  method TryCandidates(e: Env, candidates: seq<string>, url: string, maxDepth: int)
    returns (found: Option<Json>, fetched: seq<Fetch>)
    ensures Pass(found, fetched) == FirstSuccess(e, candidates, url, maxDepth)
    decreases Fuel(maxDepth - 1), 3
  {
    fetched := [];
    var i := 0;
    while i < |candidates|
      invariant 0 <= i <= |candidates|
      invariant FirstSuccess(e, candidates, url, maxDepth)
             == var rest := FirstSuccess(e, candidates[i..], url, maxDepth); Pass(rest.found, fetched + rest.fetched)
    {
      FirstSuccessStep(e, candidates, i, url, maxDepth);
      var child, childFetched := GetJsonFileFromLink(e, candidates[i], url, maxDepth);
      fetched := fetched + childFetched;
      if child.Value? {
        return Some(child.json), fetched;
      }
      i := i + 1;
    }
    assert candidates[i..] == [];
    return None, fetched;
  }

  /** `getJsonFileFromLink`. */
  method GetJsonFileFromLink(e: Env, jsonLink: string, url: string, maxDepth: int)
    returns (r: Outcome, fetched: seq<Fetch>)
    ensures Run(r, fetched) == FollowLink(e, jsonLink, url, maxDepth)
    decreases Fuel(maxDepth - 1), 2
  {
    var resolved := e.resolve(jsonLink, url);
    if resolved.None? {
      return Throw, [];
    }
    var json;
    json, fetched := GetJsonFromLink(e, resolved.value, maxDepth - 1);
    if json.Throw? {
      return Throw, fetched;
    }
    if !(json.Value? && Truthy(json.json)) {
      return Throw, fetched;
    }
    return json, fetched;
  }

  // ---------------------------------------------------------------------------
  // The whole request, from the parsed email

  /** An attachment as the MIME parser gives it; `content` is its text, decoded as UTF-8. */
  datatype Attachment = Attachment(filename: Option<string>, content: string)

  /** What the MIME parser gives back. */
  datatype ParsedEmail = ParsedEmail(attachments: seq<Attachment>, textAsHtml: Option<string>, text: Option<string>)

  /** What the request ends in: the JSON found, or `BadRequestException`. */
  datatype Reply = Found(json: Json) | NoJsonFound

  datatype Answer = Answer(reply: Reply, fetched: seq<Fetch>)

  predicate IsJsonAttachment(a: Attachment) {
    a.filename.Some? && EndsWith(a.filename.value, ".json")
  }

  /** `parsed.textAsHtml || parsed.text || ''`: an empty string counts as absent. */
  function BodyText(email: ParsedEmail): (r: string)
    ensures email.textAsHtml.Some? && email.textAsHtml.value != "" ==> r == email.textAsHtml.value
    ensures r != "" ==> Some(r) == email.textAsHtml || Some(r) == email.text
    ensures r == "" <==> (email.textAsHtml.None? || email.textAsHtml.value == "")
                         && (email.text.None? || email.text.value == "")
  {
    if email.textAsHtml.Some? && email.textAsHtml.value != "" then email.textAsHtml.value
    else if email.text.Some? && email.text.value != "" then email.text.value
    else ""
  }

  /** The attachment loop: the value of the first `.json` attachment that parses. */
  function FirstJsonAttachment(e: Env, attachments: seq<Attachment>): (r: Option<Json>)
    ensures r.Some? ==> exists a :: a in attachments && IsJsonAttachment(a) && e.parse(a.content) == r
    decreases |attachments|
  {
    if attachments == [] then None
    else if IsJsonAttachment(attachments[0]) && e.parse(attachments[0].content).Some? then
      e.parse(attachments[0].content)
    else
      FirstJsonAttachment(e, attachments[1..])
  }

  /** The top-level link loop: `getJsonFromLink(link, 2)` on each raw link until one gives a
      truthy value; a throw, a `null` or a falsy value moves on to the next link. */
  function FromLinks(e: Env, links: seq<string>): (r: Answer)
    ensures r.reply.Found? ==> Truthy(r.reply.json)
    ensures r.reply.Found? ==> exists l :: l in links && Search(e, l, InitialDepth).outcome == Value(r.reply.json)
    decreases |links|
  {
    if links == [] then
      Answer(NoJsonFound, [])
    else
      var attempt := Search(e, links[0], InitialDepth);
      if attempt.outcome.Value? && Truthy(attempt.outcome.json) then
        Answer(Found(attempt.outcome.json), attempt.fetched)
      else
        var rest := FromLinks(e, links[1..]);
        Answer(rest.reply, attempt.fetched + rest.fetched)
  }

  /** `parseEmailAndExtractJson`, once the email has been read and parsed. */
  function EmailResult(e: Env, email: ParsedEmail): Answer {
    match FirstJsonAttachment(e, email.attachments)
    case Some(j) => Answer(Found(j), [])
    case None => FromLinks(e, LinksOf(BodyText(email)))
  }

  /** One step of the top-level link loop, at link `k`. */
  lemma FromLinksStep(e: Env, links: seq<string>, k: nat)
    requires k < |links|
    ensures FromLinks(e, links[k..])
         == var attempt := Search(e, links[k], InitialDepth);
            if attempt.outcome.Value? && Truthy(attempt.outcome.json) then Answer(Found(attempt.outcome.json), attempt.fetched)
            else var rest := FromLinks(e, links[k + 1..]);
                 Answer(rest.reply, attempt.fetched + rest.fetched)
  {
    assert links[k..][1..] == links[k + 1..];
  }

  /** `parseEmailAndExtractJson`, from the parsed email on. */
  method ParseEmailAndExtractJson(e: Env, email: ParsedEmail) returns (reply: Reply, fetched: seq<Fetch>)
    ensures Answer(reply, fetched) == EmailResult(e, email)
  {
    var found := FindJsonAttachment(e, email.attachments);
    if found.Some? {
      return Found(found.value), [];
    }
    var links := ExtractLinks(BodyText(email));
    reply, fetched := TryLinks(e, links);
  }

  /** The attachment loop of `parseEmailAndExtractJson`: a `.json` attachment whose content
      does not parse is skipped. */
  method FindJsonAttachment(e: Env, attachments: seq<Attachment>) returns (found: Option<Json>)
    ensures found == FirstJsonAttachment(e, attachments)
  {
    var i := 0;
    while i < |attachments|
      invariant 0 <= i <= |attachments|
      invariant FirstJsonAttachment(e, attachments[i..]) == FirstJsonAttachment(e, attachments)
    {
      assert attachments[i..][1..] == attachments[i + 1..];
      var attachment := attachments[i];
      if IsJsonAttachment(attachment) {
        var parsed := e.parse(attachment.content);
        if parsed.Some? {
          return parsed;
        }
      }
      i := i + 1;
    }
    return None;
  }

  /** The link loop of `parseEmailAndExtractJson`: `getJsonFromLink(link, 2)` on each raw
      link, a throw or a falsy result continuing with the next. */
  method TryLinks(e: Env, links: seq<string>) returns (reply: Reply, fetched: seq<Fetch>)
    ensures Answer(reply, fetched) == FromLinks(e, links)
  {
    fetched := [];
    var k := 0;
    while k < |links|
      invariant 0 <= k <= |links|
      invariant FromLinks(e, links) == Answer(FromLinks(e, links[k..]).reply, fetched + FromLinks(e, links[k..]).fetched)
    {
      FromLinksStep(e, links, k);
      var json, linkFetched := GetJsonFromLink(e, links[k], InitialDepth);
      fetched := fetched + linkFetched;
      if json.Value? && Truthy(json.json) {
        return Found(json.json), fetched;
      }
      k := k + 1;
    }
    return NoJsonFound, fetched;
  }

  // ---------------------------------------------------------------------------
  // Reading the email: the string tests of `readEmailContent` and `readFileFromLocalPath`

  /** Where the email is read from. */
  datatype Source = Remote(url: string) | LocalFile(path: string)

  /** `/^(https?:\/\/)/i`. */
  predicate IsHttpUrl(path: string) {
    StartsWithIgnoringCase(path, "http://") || StartsWithIgnoringCase(path, "https://")
  }

  /** `filePath.replace(/^["']|["']$/g, '')`: one leading and one trailing quote of either
      kind, each removed on its own; a lone quote is removed once. */
  function StripQuotes(path: string): (r: string)
    ensures |path| > 0 && IsQuote(path[0]) ==> r <= path[1..]
    ensures !(|path| > 0 && IsQuote(path[0])) ==> r <= path
    ensures |path| - (if |path| > 0 && IsQuote(path[0]) then 2 else 1) <= |r| <= |path|
    ensures |r| == |path| <==> |path| == 0 || (!IsQuote(path[0]) && !IsQuote(path[|path| - 1]))
  {
    var start := if |path| > 0 && IsQuote(path[0]) then 1 else 0;
    var end := if |path| > start && IsQuote(path[|path| - 1]) then |path| - 1 else |path|;
    path[start..end]
  }

  /** `readEmailContent`: a URL is read over HTTP as given, anything else from the file
      system with its quotes stripped (before `path.resolve`). */
  function EmailSource(path: string): (r: Source)
    ensures r.Remote? <==> IsHttpUrl(path)
    ensures r.Remote? ==> r.url == path
    ensures r.LocalFile? ==> r.path == StripQuotes(path)
  {
    if IsHttpUrl(path) then Remote(path) else LocalFile(StripQuotes(path))
  }
}
