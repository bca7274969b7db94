# TinyLink in Dafny

A model of the logic of TinyLink, a URL shortener: short codes are six to
eight letters and digits, each mapped to a target URL. The model covers

- the shared helpers (`src/lib/utils.ts`): the code pattern
  `[A-Za-z0-9]{6,8}`, the 62-character alphabet and the seven-character code
  generator, the HTTP(S) URL test and URL truncation (module `Utils`, file
  `utils.dfy`);
- the link collection endpoint (`src/app/api/links/route.ts`): the decision
  of `POST /api/links` (URL first, then a supplied code, then the collision
  test, then exactly one insert) and `GET /api/links` (every link, newest
  first), over a link table held as a map from code to link in the class
  `LinksApi.LinkTable` (file `links_api.dfy`);
- the middleware (`src/middleware.ts`): the known-route test on the
  pathname, the pass-through answer and the `matcher` exclusion pattern
  (module `Middleware`, file `middleware.dfy`);
- the dashboard's pure helpers (`src/app/page.tsx`): its `truncateUrl` and
  `isValidCode`, the case-insensitive search followed by the sort on clicks
  or creation time, the sort selector's `field-order` value and the test
  that enables the submit button (module `Dashboard`, file `dashboard.dfy`).

Supporting modules: `Wrappers` (an `Option` type for missing JSON fields and
failed parses), `JsStrings` (the JavaScript string built-ins used:
`startsWith`, `includes`, `substring`, `toLowerCase`, `trim`, `split`) and
`Ordering` (`Array.prototype.sort` with a key comparator, which ECMAScript
2019 requires to be stable; modelled as a stable insertion sort and proved to
be the only sorted, stable rearrangement).

Abstractions: the WHATWG URL parser behind `new URL(url)` is a parameter
`parse: string -> Option<string>` giving the protocol, or `None` when the
constructor throws. The random generator is replaced by its seven draws, one
alphabet index each (`picks`). The database is the map `LinkTable.links`; the
columns it fills in itself on insert (`id`, `clicks`, `lastClicked`,
`createdAt`) are an input `DbColumns`. Timestamps are integers.

`POST /api/links` trims a supplied code on line 36 but then validates and
stores the untrimmed value (lines 39-46); the trimmed value only decides
whether the generator is called, and never the outcome. `LinkTable.Create`
follows the handler step by step, trim included, and is proved equal to the
decision function `CreateOutcome`, in which trimming does not appear.

## Model

| member | source | states |
|---|---|---|
| `Utils.MatchesAlnumRun` | src/lib/utils.ts:21-24 | the anchored pattern `^[A-Za-z0-9]{min,max}$`, matched one character at a time, accepts a string exactly when its length is in `[min, max]` and every character is a letter or digit |
| `Utils.IsValidCode` | src/lib/utils.ts:22-24 | `isValidCode` holds exactly when the code has 6 to 8 characters, all ASCII letters or digits |
| `Utils.AlphabetLayout` | src/lib/utils.ts:4 | the alphabet is `A`..`Z`, then `a`..`z`, then `0`..`9`, in that order |
| `Utils.AlphabetAlnum` | src/lib/utils.ts:4 | each of the 62 alphabet characters is an ASCII letter or digit |
| `Utils.AlphabetIsAlnumClass` | src/lib/utils.ts:4 | the alphabet has 62 pairwise distinct characters, and a character is in it exactly when it is an ASCII letter or digit |
| `Utils.AlphabetIndex` | src/lib/utils.ts:4 | every letter or digit sits in the alphabet at the returned position |
| `Utils.GenerateCode` | src/lib/utils.ts:5-9 | a generated code has exactly 7 characters and always passes `isValidCode` |
| `Utils.GenerateCodeBijective` | src/lib/utils.ts:4-9 | the generator is one-to-one on its draws, and every 7-character alphanumeric string is the code of some draws |
| `Utils.IsValidUrl` | src/lib/utils.ts:12-19 | true exactly when the parser succeeds with protocol `http:` or `https:`; false when it throws |
| `Utils.TruncateUrl` | src/lib/utils.ts:36-39 | the URL is returned unchanged when it fits; otherwise the result is the first `maxLength` characters followed by `...` (length `maxLength + 3`); a negative bound leaves only `...` |
| `Utils.TruncateUrlIdempotent` | src/lib/utils.ts:36-39 | truncating a truncated URL again with the same bound changes nothing |
| `LinksApi.CreateOutcome` | src/app/api/links/route.ts:22-66 | the status is always 201, 400 or 409; a created link has a valid code not yet in the table, and the requested HTTP(S) URL as target |
| `LinksApi.TrimmedOrGenerated` | src/app/api/links/route.ts:36 | the result is never empty; a missing or empty custom code falls back to the generated code; a supplied one gives its trimmed form, or the generated code when trimming leaves nothing |
| `LinksApi.UrlCheckedFirst` | src/app/api/links/route.ts:27-33 | a missing, empty or non-HTTP(S) URL gives 400 "invalid URL" whatever the code, and the table is unchanged |
| `LinksApi.PaddedCodeRefused` | src/app/api/links/route.ts:36-45 | with a valid URL, a supplied code is validated untrimmed: one holding any trimmable character (padded or blank-only) gives 400 "invalid code" and no write |
| `LinksApi.InvalidCodeRefused` | src/app/api/links/route.ts:38-45 | with a valid URL, a supplied non-empty code that fails `isValidCode` (too short, too long, or not all letters and digits) gives 400 "invalid code" and no write |
| `LinksApi.ChosenCode` | src/app/api/links/route.ts:36-56 | the code used is the supplied one verbatim when non-empty, otherwise the generated one; if it is taken the answer is 409 with no write, otherwise 201 with that code |
| `LinksApi.CommitAddsOneRow` | src/app/api/links/route.ts:49-66 | on success the table gains exactly the new code, its row holds the requested URL, and every other row is unchanged; on any other outcome the table is unchanged |
| `LinksApi.LinkTable.Create` | src/app/api/links/route.ts:22-66 | the handler, step by step (trim, generate, validate, reassign, check, insert), answers what `CreateOutcome` decides on the old table, changes the table only by that decision's one insert, and keeps every row under its own valid code |
| `LinksApi.ValidTableInsert` | src/app/api/links/route.ts:59-64 | inserting a row under its own valid code keeps every row under its own valid code |
| `LinksApi.LinkTable.ListNewestFirst` | src/app/api/links/route.ts:6-11 | the list holds every stored link exactly once, with `createdAt` never increasing |
| `Ordering.InsertSorted` | src/app/page.tsx:146-150 | inserting one element by the comparator into a sorted sequence keeps it sorted |
| `Ordering.SortBy` | src/app/page.tsx:146-150 | the sort returns a permutation of its input, ordered by the key in the chosen direction |
| `Ordering.SortByStable` | src/app/page.tsx:146-150 | the sort keeps elements with equal keys in their input order |
| `Ordering.SortByUnique` | src/app/page.tsx:146-150 | any sorted rearrangement that keeps equal keys in input order is the sort's result |
| `Middleware.Handle` | src/middleware.ts:4-21 | the middleware always passes the request on |
| `Middleware.HandleIgnoresPath` | src/middleware.ts:16-20 | the answer is the same for every pathname, known route or not |
| `Middleware.PrefixIsKnownRoute` | src/middleware.ts:9-11 | any path beginning with `/_next`, `/api` or `/code` is a known route, the test being on characters, not segments |
| `Middleware.ExactRoutes` | src/middleware.ts:12-13 | `/healthz` and `/` are known routes, `/healthz/` is not |
| `Middleware.DottedPathIsKnownRoute` | src/middleware.ts:14 | any path containing a dot is a known route |
| `Middleware.ValidCodeClassification` | src/middleware.ts:8-15 | for a valid code `c`, `/c` is a known route exactly when `c` begins with `api` or `code`, or is `healthz` |
| `Middleware.HealthzCodeClassedAsKnownRoute` | src/middleware.ts:12 | `healthz` is a valid code, yet `/healthz` is classed as a known route |
| `Middleware.ApiPrefixedCodeClassedAsKnownRoute` | src/middleware.ts:10 | `apiXYZ1` is a valid code, yet `/apiXYZ1` is classed as a known route |
| `Middleware.CodePrefixedCodeClassedAsKnownRoute` | src/middleware.ts:11 | `codeAB1` is a valid code, yet `/codeAB1` is classed as a known route |
| `Middleware.MatcherExclusions` | src/middleware.ts:23-25 | every path under `/_next/static` or `/_next/image` skips the middleware, and so does every path starting `/favicon`, any one character but a line terminator, then `ico` (`/favicon.ico` and, through the unescaped dot, `/faviconXico`) |
| `Middleware.MatcherKeepsOtherNextPaths` | src/middleware.ts:24 | a path `/_next/` followed by text that starts with neither `static` nor `image` and holds no line terminator runs the middleware (for example `/_next/data/...`) |
| `Middleware.ValidCodePathsRun` | src/middleware.ts:24 | the matcher never skips a path made of `/` and a valid code |
| `Dashboard.TruncateUrl` | src/app/page.tsx:138-139 | the page's truncation returns a fitting URL unchanged, otherwise its first `max` characters and `...` |
| `Dashboard.TruncateUrlAgrees` | src/app/page.tsx:138-139 | the page's truncation equals the shared helper's for every bound |
| `Dashboard.DefaultsDiffer` | src/app/page.tsx:138 | the defaults differ: a URL of 31 to 50 characters is kept whole by the shared helper's default 50 and cut to 30 characters and `...` by the page's default 30 |
| `Dashboard.IsValidCode` | src/app/page.tsx:161 | the page's check accepts the empty string and otherwise exactly 6 to 8 letters or digits |
| `Dashboard.IsValidCodeWidensServerCheck` | src/app/page.tsx:161 | the page's check is the server's `isValidCode` widened by the empty string only |
| `Dashboard.FilterLinksCounts` | src/app/page.tsx:141-145 | the search keeps each matching link as often as it occurs and drops every other link |
| `Dashboard.FilterLinksAppend` | src/app/page.tsx:141-145 | the search keeps order: filtering a concatenation is the concatenation of the filtered parts |
| `Dashboard.FilterLinksPerKey` | src/app/page.tsx:141-145 | for every key, the listed links with that key are the matching links with that key, in input order |
| `Dashboard.FilteredLinksSpec` | src/app/page.tsx:141-150 | a link is listed exactly when its code or URL contains the search text ignoring case; the list is a permutation of the matching links, ordered by clicks or creation time as chosen, equal keys in the order of the filtered list and of the input |
| `Dashboard.EmptySearchKeepsAll` | src/app/page.tsx:141-145 | an empty search keeps every link |
| `Dashboard.SearchIgnoresCase` | src/app/page.tsx:142-144 | a search text and its lower-cased form select the same links |
| `Dashboard.SelectRoundTrip` | src/app/page.tsx:279-283 | for all four combinations, splitting `field-order` on `-` gives back both names, and the comparator reads back both choices |
| `Dashboard.RequestBody` | src/app/page.tsx:79 | the request carries the URL, and the custom code only when it is not empty |
| `Dashboard.EnabledSubmitPassesValidation` | src/app/page.tsx:249 | a form the enabled button submits is never refused with 400 by `POST /api/links`: the answer is 201 or 409 |
| `JsStrings.IncludesIsOccurrence` | src/app/page.tsx:143-144 | `includes` holds exactly when the text occurs at some offset |
| `JsStrings.TrimStartShape` | src/app/api/links/route.ts:36 | only trimmable characters are dropped at the start, the rest is a suffix of the input and does not start with one |
| `JsStrings.TrimEndShape` | src/app/api/links/route.ts:36 | only trimmable characters are dropped at the end, the rest is a prefix of the input and does not end with one |
| `JsStrings.TrimEnds` | src/app/api/links/route.ts:36 | a trimmed string has no trimmable character at either end |
| `JsStrings.TrimEmpty` | src/app/api/links/route.ts:36 | trimming leaves nothing exactly when every character is trimmable |
| `JsStrings.TrimIsSlice` | src/app/api/links/route.ts:36 | the trimmed string is a contiguous slice of the input |
| `JsStrings.Split` | src/app/page.tsx:281 | splitting gives at least one piece, none containing the separator |
| `JsStrings.JoinSplit` | src/app/page.tsx:281 | joining the pieces with the separator gives the string back |

## Left out

- The database: Prisma's `findMany`, `findUnique` and `create` become reads and writes of the map `LinkTable.links`; the schema's defaults are not modelled, the inserted row's own columns are the input `DbColumns`.
- The `catch` branches of `GET` and `POST` (status 500 on a database failure or a malformed request), because database failures are not modelled.
- A JSON `url` or `code` that is not a string (a number, say, on which `trim` throws): the body's fields are optional strings.
- The race between the existence check (route.ts line 50) and the insert (line 59): the database's unique constraint settles it, and concurrency is not modelled.
- The randomness of `nanoid`: its seven draws are an input.
- URL parsing inside `new URL`: an abstract parser that gives the protocol or fails. The page's own `isValidUrl` (page.tsx lines 152-159) is the same test and uses `Utils.IsValidUrl`.
- `formatDate` in both files: locale and time-zone formatting.
- Date parsing in the sort (page.tsx line 147): `createdAt` is an integer timestamp, so an unparsable date (`NaN` in the comparator) is not modelled.
- `toLowerCase` beyond ASCII: only `A`-`Z` are folded.
- Utils.TruncateUrl, Dashboard.TruncateUrl: lengths and cuts count Unicode characters, not the UTF-16 code units JavaScript counts, so a character outside the Basic Multilingual Plane (an emoji, say) counts once rather than twice and a surrogate pair is never split; the two agree on URLs without such characters. The same holds for every length and index in `JsStrings`.
- `src/app/healthz/route.ts`, `src/app/not-found.tsx` and `src/app/code/[code]/page.tsx`: a liveness probe, a page and a details page, all I/O and rendering.
- `src/app/[code]/route.ts` (the redirect with the click counter) is not part of this model, and neither is the delete handler: its source is not among the files this model follows, so nothing about it is modelled.
- The dashboard's React state, effects, `fetch` calls, toasts, clipboard and confirmation dialogs (`handleSubmit`, `handleDelete`, `copyToClipboard`) and all JSX.
- How Next.js compiles `config.matcher` (case sensitivity, optional trailing slash): the pattern is read as the plain anchored regular expression `^/((?!_next/static|_next/image|favicon.ico).*)$`.
- LinksApi.LinkTable.ListNewestFirst: the order among links with equal `createdAt` is left open, as the database leaves it.
- Dashboard.EnabledSubmitPassesValidation: assumes the parser throws on the empty string, as the URL Standard's parser does without a base URL.
