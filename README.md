# mail-parser: a Dafny model of the JSON discovery core

mail-parser is a small NestJS service. It is given the path or URL of an email, parses
the email, and looks for a JSON document. It first looks among the attachments. If none
qualifies, it follows the links in the body: each linked page is fetched, and is either
JSON itself or a page whose own links are followed in turn, down to a fixed depth.

This project models that core and proves what it does:

- `Helper` (src/email/helper/helper.ts) models `extractLinks`. It is a global,
  case-insensitive scan for `href=` followed by a quoted value. The regular expression's
  match semantics are stated as a declarative predicate (`IsMatch`). `Exec` finds the
  leftmost match at or after `lastIndex`, and the `ExtractLinks` method runs the same
  `exec` loop as the source.
- `EmailService` (src/email/email.service.ts) models `getJsonFromLink`,
  `getJsonFileFromLink` and `parseEmailAndExtractJson`, from the parsed email on. It also
  models the two string tests of reading the email: the `http(s)://` test and the
  quote stripping of a local path. Each operation is a specification function (`Search`,
  `FollowLink`, `FirstSuccess`, `EmailResult`) plus a method with the source's loops and
  early returns, and each method is proved equal to its function.
- `EmailProperties` holds the lemmas about the search. They cover:
  - the depth discipline;
  - which failures escape a call;
  - the order in which candidates are tried;
  - first success wins, and failures move on to the next candidate;
  - termination on cyclic link graphs;
  - attachments beating links;
  - the exact conditions for "no JSON found".
- `Strings`, `JsonValues` and `Wrappers` hold the JavaScript primitives the core relies
  on: `includes`, `endsWith`, ASCII case folding, JSON values and their truthiness, and
  an `Option` type.

The service's collaborators are parameters, bundled in `Env`:
- `web` stands for the HTTP client: a map from URL to content type and body text. A URL
  not in the map is a request that fails.
- `parse` stands for `JSON.parse`: a partial function.
- `resolve` stands for `new URL(link, base).href`: a partial function.

Every exception is a value (`Throw`). Every call also returns the list of fetches it
attempted, each with the URL and the `maxDepth` of the call that made it. This is how
"nothing is fetched" and the depth properties are stated.

Behaviours of the code that the model keeps:
- The top-level loop passes each link of the email to `getJsonFromLink` as extracted, not
  resolved against anything (email.service.ts:41).
- The `.json` filter tests the whole resolved `href`, query string and fragment included,
  not its path (email.service.ts:141-142).
- The second pass, taken only when `maxDepth > 1`, tries every link again, the `.json`
  links included (email.service.ts:158-165). `CyclicLinksStop` shows a page fetched twice
  because of this.
- A body declared `application/json` that does not parse makes the call throw. It does
  not go on to look for links (email.service.ts:121-123).
- A `.json` attachment that parses is returned even when its value is falsy
  (email.service.ts:27). A top-level link whose search returns a falsy value is skipped
  (email.service.ts:42). A nested link whose search returns a falsy value counts as a
  failure (email.service.ts:178-180).
- The body text is `textAsHtml || text || ''`, so an empty `textAsHtml` falls back to
  `text` (email.service.ts:36).
- The two quotes around a link need not be the same kind. A value must be non-empty to be
  a link (`[^"']+`, helper.ts:8).

## Model

| member | source | states |
|---|---|---|
| Strings.StartsWithIgnoringCaseIff | src/email/helper/helper.ts:8 | for a lower-case pattern, the `i`-flag comparison of a prefix is the same as comparing the ASCII-folded string |
| Strings.IncludesIff | src/email/email.service.ts:121 | `includes` holds exactly when the substring occurs at some index |
| Helper.ClosingQuote | src/email/helper/helper.ts:8 | greedy `[^"']+` runs to the first quote at or after the start, or to the end of the text, with no quote before it |
| Helper.MatchAt | src/email/helper/helper.ts:8 | a result is a match starting there, and any match starting there is that result: the match at a position is unique |
| Helper.Exec | src/email/helper/helper.ts:10 | `exec` from `lastIndex` returns a match starting at or after it, and no match starts between `lastIndex` and it; none means that no match starts at or after `lastIndex` |
| Helper.Matches | src/email/helper/helper.ts:10-12 | every span the loop visits is a match of the regular expression |
| Helper.ExtractLinks | src/email/helper/helper.ts:4-15 | the `exec` loop returns exactly the captures of the leftmost scan `LinksOf(content)` |
| Helper.MatchesAreLeftmostScan | src/email/helper/helper.ts:10-12 | the visited matches form a leftmost scan: each is the leftmost match at or after the end of the previous one, and nothing matches after the last |
| Helper.LeftmostScanIsUnique | src/email/helper/helper.ts:10-12 | any leftmost scan equals the visited matches, so the result is fully determined by the input |
| Helper.LeftmostScanIsOrdered | src/email/helper/helper.ts:10-12 | the matches are inside the text, in document order and do not overlap |
| Helper.LinksAreCaptures | src/email/helper/helper.ts:11 | one link per match, in order, each being the text between the match's quotes |
| Helper.LinksAreQuoteFree | src/email/helper/helper.ts:8 | every link is non-empty and holds no `"` or `'` |
| Helper.CaptureInContext | src/email/helper/helper.ts:8 | the capture of a match stands right after `href=` and a quote, and is followed by a quote |
| Helper.LinkInContext | src/email/helper/helper.ts:8-12 | every returned link occurs in the content after `href=` (any case) and a quote, followed by a quote |
| Helper.LinksEmptyIff | src/email/helper/helper.ts:4-15 | the result is empty exactly when the regular expression matches nowhere |
| Helper.NoHrefNoLinks | src/email/helper/helper.ts:8 | text where every `href=` and quote is followed by another quote yields no link |
| Helper.MatchesBoundedByHrefs | src/email/helper/helper.ts:10-12 | the scan visits at most as many matches as there are `href=` occurrences |
| Helper.LinksBoundedByHrefs | src/email/helper/helper.ts:4-15 | there are at most as many links as `href=` occurrences (any case) |
| Helper.DuplicatesAndMixedQuotesKept | src/email/helper/helper.ts:8-12 | duplicates are kept, the attribute name is matched in any case, and the closing quote may differ from the opening one |
| EmailService.JsonLinks | src/email/email.service.ts:138-146 | the filter keeps a link exactly when its resolved `href` ends in `.json` (a link that fails to resolve is dropped), keeps every occurrence of a kept link (the multiset counts agree) and keeps document order (a subsequence) |
| EmailService.FollowLink | src/email/email.service.ts:174-182 | `getJsonFileFromLink` never yields `null`: it returns a truthy value or throws |
| EmailService.Search | src/email/email.service.ts:104-172 | `getJsonFromLink` with `maxDepth <= 0` returns `null` and fetches nothing; otherwise its first fetch is its own target, at `maxDepth` |
| EmailService.FollowLinks | src/email/email.service.ts:134-168 | the `.json` filter and the two candidate passes over a page's links: the page's own fetch comes first, at `maxDepth`; they never throw, since a candidate's throw is caught, and any value they return is truthy |
| EmailService.FirstSuccess | src/email/email.service.ts:149-155 | a candidate loop only ever returns a truthy value |
| EmailService.GetJsonFromLink | src/email/email.service.ts:104-172 | the method's outcome and fetches are those of `Search`: depth check, fetch, JSON body, direct parse, then the two candidate passes |
| EmailService.TryCandidates | src/email/email.service.ts:149-155 | the loop `return await getJsonFileFromLink(...)` with its `catch { continue }` ends as `FirstSuccess` |
| EmailService.GetJsonFileFromLink | src/email/email.service.ts:174-182 | the method resolves, searches one level down and throws unless the value is truthy, as `FollowLink` |
| EmailService.BodyText | src/email/email.service.ts:36 | a non-empty `textAsHtml` is used; otherwise a non-empty `text`; the result is empty exactly when both are absent or empty |
| EmailService.FirstJsonAttachment | src/email/email.service.ts:22-33 | a value found is the parse of some `.json` attachment's content |
| EmailService.FromLinks | src/email/email.service.ts:39-49 | a value found is truthy, and it is the result of the depth-2 search of one of the links |
| EmailService.FindJsonAttachment | src/email/email.service.ts:22-33 | the attachment loop, skipping `.json` attachments that do not parse, ends as `FirstJsonAttachment` |
| EmailService.TryLinks | src/email/email.service.ts:39-49 | the link loop at depth 2, skipping throws and falsy results, ends as `FromLinks` |
| EmailService.ParseEmailAndExtractJson | src/email/email.service.ts:21-51 | the attachment loop, then the link loop over the body text, end as `EmailResult` |
| EmailService.StripQuotes | src/email/email.service.ts:89 | the result is a slice of the path with at most one character removed at each end, starting after a leading quote if any, and is the whole path exactly when neither end is a quote |
| EmailService.EmailSource | src/email/email.service.ts:58-64 | a path is read over HTTP, unchanged, exactly when it passes the `http(s)://` test; otherwise it is read from the file system, quotes stripped |
| EmailProperties.SearchDepths | src/email/email.service.ts:108-110 | `maxDepth <= 0` returns `null` and fetches nothing; otherwise the target is fetched first at `maxDepth`, and every later fetch is at a depth in `[1, maxDepth - 1]` |
| EmailProperties.FollowLinksDepths | src/email/email.service.ts:149-166 | the candidate passes of a page fetched at `maxDepth` fetch only at depths in `[1, maxDepth - 1]` |
| EmailProperties.FirstSuccessDepths | src/email/email.service.ts:174-177 | a candidate loop at `maxDepth` fetches only at depths in `[1, maxDepth - 1]` |
| EmailProperties.DepthOneFetchesOnlyTarget | src/email/email.service.ts:149-166 | at depth 1 only the target is fetched: the second pass is skipped, and the first pass recurses at depth 0, which fetches nothing |
| EmailProperties.DepthOneCandidatesFetchNothing | src/email/email.service.ts:174-177 | candidates tried at depth 1 fetch nothing |
| EmailProperties.SearchThrowsIff | src/email/email.service.ts:112-171 | the search throws exactly when fetching its own target fails, or when a body declared `application/json` does not parse; a candidate's throw never escapes |
| EmailProperties.JsonBodyEndsSearch | src/email/email.service.ts:121-131 | a body declared as JSON, or one that parses anyway, ends the search at that page with its value (falsy too), or with a throw for a declared body that does not parse; nothing else is fetched |
| EmailProperties.FirstSuccessConcat | src/email/email.service.ts:149-166 | trying the candidates of `a + b` is trying those of `a`, then, only if none succeeded, those of `b` |
| EmailProperties.CandidateOrder | src/email/email.service.ts:134-168 | after the page fetch, candidates are tried in the order `.json` links, then, if `maxDepth > 1`, all links; the first success is returned, else `null` |
| EmailProperties.FollowLinksOrder | src/email/email.service.ts:149-168 | the two passes over a page's links are one candidate loop over the `.json` links followed, if `maxDepth > 1`, by all links; the first success is returned, else `null` |
| EmailProperties.FollowLinkSucceedsIff | src/email/email.service.ts:174-182 | a candidate succeeds exactly when it resolves and the search one level down returns a truthy value |
| EmailProperties.FirstSuccessIff | src/email/email.service.ts:149-155 | a candidate loop yields `j` exactly when some candidate yields `j` and every earlier one throws; it yields nothing exactly when every candidate throws |
| EmailProperties.NoJsonWebFindsNothing | src/email/email.service.ts:104-172 | in a web where no page declares or holds JSON, the search ends in `null`, or in a throw when the target cannot be fetched, whatever the links and cycles |
| EmailProperties.NoJsonWebFailsEveryCandidate | src/email/email.service.ts:149-166 | in such a web, every candidate loop finds nothing |
| EmailProperties.CyclicLinksStop | src/email/email.service.ts:104-182 | two distinct pages linking to each other: the search from one at depth 2 terminates with `null`, fetching the other page twice and never the first one again |
| EmailProperties.FirstJsonAttachmentIff | src/email/email.service.ts:22-33 | the attachment loop returns exactly the first `.json` attachment that parses, falsy values included; it returns none exactly when no `.json` attachment parses |
| EmailProperties.FromLinksIff | src/email/email.service.ts:39-49 | the link loop returns `j` exactly when the search of some raw link at depth 2 returns the truthy `j` and no earlier link's search returns a truthy value; otherwise it ends with no JSON found |
| EmailProperties.EmailResultIff | src/email/email.service.ts:14-52 | a parsing `.json` attachment wins and nothing is fetched; otherwise the links of the body text decide; `BadRequestException` is raised exactly when no attachment parses and no link's search gives a truthy value |
| EmailProperties.FromLinksDepths | src/email/email.service.ts:39-49 | the top-level link loop fetches only at depths 1 and 2 |
| EmailProperties.EmailFetchDepths | src/email/email.service.ts:41 | everything a request fetches is fetched at depth 1 or 2 |
| EmailProperties.IsHttpUrlIff | src/email/email.service.ts:59 | a path is read over HTTP exactly when its ASCII-folded form starts with `http://` or `https://` |
| EmailProperties.StripQuotesCases | src/email/email.service.ts:89 | one quote of either kind is removed from each end, independently of the other; a path with no quote at either end is unchanged |

## Left out

- Reading the email: the HTTP client (`readFileFromUrlPath`, email.service.ts:67-83) and
  the file system and `path.resolve` (email.service.ts:90-91) are I/O. Only the choice
  between them (`EmailSource`, `IsHttpUrl`) and the quote stripping are modelled.
- MIME parsing (`simpleParser`) is a foreign library. The model starts from its result
  (`ParsedEmail`), with attachment contents already decoded as UTF-8 text.
- `JSON.parse` and `new URL(...)` are foreign code. They are the parameters `Env.parse`
  and `Env.resolve`, so their grammar and URL normalisation are not modelled.
- The HTTP client's timeouts, redirects and user agent are left out. The `web` parameter
  gives only the response each URL resolves with, or none for a failed request.
- `JSON.parse` of a page that yields `null` is the outcome `Value(JNull)`, while
  `getJsonFromLink`'s final `return null` (email.service.ts:168) is `Null`. Both stand for
  the same JavaScript `null`; no caller tells them apart, since `if (json)`
  (email.service.ts:42) and `!json` (email.service.ts:178) treat both as failure and
  `Truthy(JNull)` is false.
- JSON numbers are exact reals, so `±Infinity` (what `JSON.parse` gives an out-of-range
  literal such as `1e999`) is not a value of the model, and neither is the rounding to
  64-bit floating point. Truthiness is kept: `parse` stands for all of `JSON.parse`, so it
  may give `1e999` any non-zero real and an underflowing `1e-400` the real `0.0`.
- `web` is a fixed map, so fetching the same URL twice gives the same response or the same
  failure. A server whose answers change between requests is not modelled;
  `CyclicLinksStop`, which fetches one page twice, relies on this.
- `async`/`await` is left out. The calls are awaited one after another, and the model
  runs them in that order.
- `console.log` (email.service.ts:37, 93, 135, 175) is output only.
- The exception classes are reduced to values: `InternalServerErrorException` and
  `NotFoundException` are `Throw`, and `BadRequestException` is `NoJsonFound`. The HTTP
  status they map to belongs to the NestJS framework.
- The controller (src/email/app.controller.ts) and its empty-path check, and the module
  wiring (src/email/email.module.ts), are routing and not part of this model.
- Unicode case folding is not needed. Without the `u` flag, JavaScript's `i` flag never
  folds a non-ASCII character onto an ASCII one, and both `href=` and `http(s)://` are
  ASCII, so the model folds ASCII letters only.
