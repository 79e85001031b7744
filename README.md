# 135editor template fetcher: the extraction decision procedure

The fetcher answers `GET /api/template?id=<id>` with the rendered HTML of the template page
`https://www.135editor.com/editor_styles/<id>?preview=1`. It launches a headless browser,
opens the page and lets it settle. It then looks for the template's content container. First
it tries an ordered list of CSS selectors in the main document and falls back to `<body>`. If
that gives nothing, or too little, it tries the page's frames, with frames whose URL looks like
a preview first. It answers 200 with the trimmed HTML, 400 for a blank id, 404 when nothing
usable was found, or 500 when a browser call threw. The browser is closed on every path after
it was launched.

This project models that procedure over an abstract page:

- `JsString` covers the JavaScript string built-ins the code relies on. These are `trim` (the
  ECMAScript white-space and line-terminator set), `length` (UTF-16 code units) and `includes`.
- `UriComponent` is `encodeURIComponent` in full. Unreserved characters pass through. Every
  other character becomes its UTF-8 octets written as `%XY`. A separate percent-decoder is its
  proved inverse, which makes the target URL injective in the id.
- `Extractor` holds `getTargetUrl`, `tryExtractFromContext`, the frame ranking and
  `extractFromIframes`. A rendering context is a map from selector to the outer HTML of its
  first match, plus the body's outer HTML if there is a body, plus a flag saying that
  evaluation throws. A frame is a URL paired with a context. Each search loop is a method
  proved equal to a declarative specification function. The lemmas about that function state
  first-match-wins, the body fallback, the permutation done by ranking, and the choice of the
  first usable frame.
- `TemplateRoute` holds the `/api/template` handler. Each awaited browser call (launch,
  `newPage`, `setUserAgent`, `setViewport`, `goto`, the settle delay) is an abstract outcome
  that resolves or throws. The handler returns the response and the log of browser events
  (launch, navigation, close). Its contract ties the response to the specification `Respond`.
  It also says that nothing happens for a blank id, that the navigation to the target URL
  happens exactly when the setup calls resolve and is the only one, and that close is
  attempted exactly once, last, exactly when the launch succeeded.

Points where the code behaves in ways its names or its front end suggest otherwise:

- Only a blank id is rejected (server.js:110-114). Here `abc` is fetched
  (`NonDecimalIdIsFetched`). The digits-only check exists only in the browser front end
  (public/main.js:37), which is not part of this model.
- The 404's `iframeUrlTried` is always null (server.js:106, 156; `NotFoundNeverNamesFrame`),
  although the field is named for the frame tried. `extractFromIframes` reports a frame URL
  only together with usable HTML, and usable HTML never leads to a 404.
- The thresholds differ. A selector match or a frame's HTML must be longer than 300 code units
  (server.js:62, 100). The main page's HTML is accepted from 300 on (server.js:147), and the
  body fallback has no length check of its own.
- The 200 body is trimmed after the length check (server.js:147, 162), so its length after
  trimming is never checked. Real outer HTML starts with `<` and ends with `>`, so trimming
  leaves it unchanged (`TrimKeepsTightString`).
- The keyword "editor_styles" never changes the ranking, because every URL that contains it
  also contains "style" (`EditorStylesHintIsRedundant`). The target URL itself carries the hints
  (`TargetUrlIsPreferred`). Since `page.frames()` lists the main frame first, a main frame still
  at the target URL keeps its place and is tried first (`RankKeepsPreferredHead`). Ranking is
  then the identity, so no iframe is promoted: when the main frame yields too little, an
  earlier unhinted frame with usable HTML wins over a later hinted preview frame
  (`MainFrameBlocksPromotion`).

## Model

| member | source | states |
|---|---|---|
| `UriComponent.EncodeURIComponent` | server.js:28-30 | the encoding uses only unreserved characters, `%` and upper-case hexadecimal digits |
| `UriComponent.EncodeKeepsUnreserved` | server.js:28-30 | text made only of unreserved characters (decimal digits among them) is encoded as itself |
| `UriComponent.DecodeEncode` | server.js:28-30 | percent-decoding the encoding of any string gives the string back |
| `UriComponent.EncodeInjective` | server.js:28-30 | two ids with the same encoding are equal |
| `Extractor.GetTargetUrl` | server.js:27-31 | the definition, `TargetPrefix + EncodeURIComponent(id) + TargetSuffix`; the URL starts with the fixed prefix, ends with `?preview=1`, and between them holds only unreserved characters and `%XY` escapes, so no character of the id reaches the URL unescaped (see `TargetUrlInjective`, `TargetUrlIsPreferred`) |
| `Extractor.TargetUrlOfDigits` | server.js:27-31 | for an all-digit id the target URL is `https://www.135editor.com/editor_styles/` + id + `?preview=1` |
| `Extractor.TargetUrlInjective` | server.js:27-31 | different ids give different target URLs |
| `Extractor.TargetUrlIsPreferred` | server.js:27-31 | the target URL contains a frame hint ("editor_styles") |
| `JsString.Trim` | server.js:110 | the result has no white space at either end, and it is empty exactly when the input is all white space |
| `JsString.TrimRemovesOnlySpace` | server.js:162 | the input is the trimmed text with only white space before and after it |
| `JsString.TrimKeepsTightString` | server.js:162 | text with no white space at either end is returned unchanged |
| `JsString.Utf16Length` | server.js:62 | `length` is between the number of characters and twice that |
| `JsString.Utf16LengthOfBmp` | server.js:62 | for text in the Basic Multilingual Plane, `length` is the number of characters |
| `Extractor.FirstQualifying` | server.js:60-65 | the index found qualifies (a match longer than 300), and no earlier selector qualifies |
| `Extractor.TryExtractFromContext` | server.js:37-74 | the in-page loop returns the specification's result: null when evaluation throws, else the first qualifying match, else the body's HTML or null |
| `Extractor.EarliestSelectorWins` | server.js:60-65 | when selector `i` qualifies, the result is the match of the first qualifying selector, at or before `i` |
| `Extractor.LaterSelectorLoses` | server.js:60-65 | a selector is never taken while an earlier one qualifies |
| `Extractor.TakenMatchIsLong` | server.js:62-63 | when some selector qualifies, the result is longer than 300 |
| `Extractor.BodyFallback` | server.js:66-67 | with no qualifying selector the result is the body's HTML, whatever its length, or null without a body |
| `Extractor.EvaluationErrorYieldsNull` | server.js:71-73 | an evaluation error yields null |
| `Extractor.FirstIndex` | server.js:84-92 | `find`: the index found satisfies the test and no earlier element does |
| `Extractor.MoveToFrontPositions` | server.js:94 | moving element `i` to the front keeps the others in order and is a permutation |
| `JsString.Includes` | server.js:87-90 | the definition of `includes`: `part` occurs at some offset; a longer part is never included, and the empty part always is |
| `Extractor.IsPreferredUrl` | server.js:85-91 | the definition of the hint test, the four `includes` checks; a hinted URL is at least as long as the shortest keyword (see `EditorStylesHintIsRedundant`) |
| `Extractor.PreferredIndex` | server.js:84-92 | the definition of `frames.find(...)` by position: the index found has a hinted URL and no earlier one does, or it is the length when none does |
| `Extractor.Rank` | server.js:84-94 | the definition of `candidates`, the first hinted frame moved to the front; same length, a hinted frame first whenever one exists, the frames themselves when none is hinted (see `RankPositions`, `RankIsPermutation`) |
| `Extractor.RankIsPermutation` | server.js:84-94 | the ranked candidates are a permutation of the frames |
| `Extractor.RankPositions` | server.js:84-94 | the first hinted frame goes first, earlier frames move back by one, later frames stay put |
| `Extractor.RankPutsFirstPreferredFirst` | server.js:84-94 | if any URL contains a hint, the first such frame is at index 0 |
| `Extractor.RankKeepsOthersInOrder` | server.js:94 | every frame but the moved one keeps its relative order |
| `Extractor.RankWithoutHints` | server.js:94 | without a hinted URL the order is unchanged |
| `Extractor.RankKeepsPreferredHead` | server.js:84-94 | when the first frame is hinted the order is unchanged |
| `Extractor.EditorStylesHintIsRedundant` | server.js:86-91 | a URL is hinted exactly when it contains "preview", "style" or "render" |
| `Extractor.ExtractFromIframes` | server.js:80-107 | the frame loop returns the first ranked frame whose HTML is longer than 300, with its URL, else `{html: null, frameUrl: null}` |
| `Extractor.IframeSearchOutcome` | server.js:96-106 | HTML and frame URL are reported together or not at all; reported HTML is longer than 300 and comes from a frame of the page |
| `Extractor.IframeSearchEmpty` | server.js:96-106 | the search comes back empty exactly when no frame yields HTML longer than 300 |
| `Extractor.MainFrameBlocksPromotion` | server.js:84-104 | with the main frame still at the target URL and yielding too little, the next frame wins whenever its HTML is usable, whatever frame follows it, a hinted preview frame included |
| `Extractor.PreferredFrameWins` | server.js:84-104 | when the first hinted frame yields enough HTML, its HTML and URL are the result |
| `TemplateRoute.RespondFromPage` | server.js:143-162 | after the page settles, the response is the main page's trimmed HTML if at least 300, else the frames' trimmed HTML if at least 300, else 404 with the target URL and the frame URL |
| `TemplateRoute.TryCatch` | server.js:121-169 | the browser counts as assigned exactly when launch resolves; the events are the launch, then the navigation to the target URL exactly when the setup calls resolve; the response is `Decide` on the extractions when every call resolves, otherwise a 500 with the target URL |
| `TemplateRoute.HandleTemplate` | server.js:109-179 | the response is `Respond`; a blank id causes no browser event; the log is `HandlerLog`; the navigation to the target URL happens exactly when launch, `newPage`, `setUserAgent` and `setViewport` resolve, and there is no other; close is attempted exactly once, last, exactly when launch resolved; no event repeats |
| `TemplateRoute.HandlerLogShape` | server.js:116-177 | a request with a non-blank id launches first; it navigates to the target URL, and nowhere else, exactly when the setup calls resolve; it closes once, last, exactly when the launch succeeded; no event repeats |
| `TemplateRoute.TemplateId` | server.js:110 | the definition, the trimmed query id or the empty string; it is empty for a missing id and otherwise has no white space at either end |
| `TemplateRoute.Respond` | server.js:109-168 | the specification of the response: 400 exactly for a blank id, 500 exactly when a browser call before extraction throws, and 404 and 500 carry the target URL of the id; otherwise the main page or frame choice of `Decide` (see `OnlyBlankIdRejected`, `NotFoundExactly`, `SuccessBody`) |
| `TemplateRoute.OnlyBlankIdRejected` | server.js:110-118 | 400 exactly when the trimmed id is empty; 404 and 500 carry the target URL of the id |
| `TemplateRoute.NonDecimalIdIsFetched` | server.js:112 | the id `abc` is not rejected |
| `TemplateRoute.SuccessBody` | server.js:143-162 | a 200 body is the trimmed main-page HTML of length at least 300, or else the trimmed HTML of a frame of the page whose length is over 300 |
| `TemplateRoute.NotFoundNeverNamesFrame` | server.js:152-157 | a 404 carries the target URL and a null `iframeUrlTried` |
| `TemplateRoute.NotFoundExactly` | server.js:147-158 | once the page is ready, 404 happens exactly when the main page is short and no frame yields HTML over 300 |
| `TemplateRoute.MainPageDecides` | server.js:147 | when the main page's HTML is at least 300, the frames do not affect the response |
| `TemplateRoute.PreviewFrameFallback` | server.js:84-104 | when the main page is short and the first hinted frame yields enough HTML, the body is that frame's trimmed HTML |
| `TemplateRoute.MainPageAtThresholdAccepted` | server.js:147 | a main-page body of exactly 300 code units is accepted |
| `TemplateRoute.FrameAtThresholdRefused` | server.js:100 | the same 300-unit body from the only frame gives a 404 naming no frame |

## Left out

- Browser I/O. Launch, `newPage`, `setUserAgent`, `setViewport`, `goto` (server.js:138) and
  the 2500 ms settle wait (server.js:141) appear only as outcomes that resolve or throw; their
  arguments are not modelled. The timeout setters (server.js:135-136) are synchronous and are
  left out. The 800 ms wait before each extraction (server.js:55) catches its own rejection,
  so it has no effect on the result and is left out. Wall-clock time and the network are not
  modelled.
- DOM semantics. `document.querySelector` and `outerHTML` are replaced by the selector map of
  a context. A frame's context is a snapshot, so the page changing between evaluations is not
  modelled. `page.frames()` is taken as given. In the browser it lists the main frame first.
- Frame identity. `frames.filter(f => f !== prefer)` compares objects. The model removes the
  chosen frame by its position, which is the same thing for distinct frame objects.
- The failing `browser.close()`. Its rejection is caught and ignored, so its outcome is not an
  input. The event log records only that close was attempted.
- The 500 response's `message` field, the Chinese error texts and `console.error` logging.
- Query shapes other than a single string. A repeated or bracketed `id` parameter reaches the
  handler as an array or an object. `toString` then yields a non-blank id such as `1,2` or
  `[object Object]`. The model takes the id as a string or absent.
- Lone UTF-16 surrogates. Strings here are Unicode scalar values, so `encodeURIComponent`
  never throws a `URIError`.
- The percent-decoder is the inverse used for the round-trip proof and is not the source's
  `decodeURIComponent`. It accepts some over-long UTF-8 forms that `decodeURIComponent` rejects.
- Express wiring: CORS, body parsers, static files, `/health` and the catch-all route
  (server.js:181-183). The front end requests `/api/template/<id>` (public/main.js:46), which no
  route matches, so it falls into the catch-all.
- public/main.js as a whole: status text, history, clipboard, `fetch`, and its client-side
  `/^\d+$/` id check (public/main.js:37).
- Concurrency between requests. Each request is modelled on its own.
