# Video link player: verified model of the page logic

The application is a single-page front-end. The user pastes a video url and picks a
third-party parsing endpoint from a configured list. The page then shows that
endpoint's player in a frame whose address is the endpoint url followed by the
percent-encoded video url. This project models the page's session state and
handlers, its bounded recent-history list and the frame address composition.

- `history.dfy`, module `History`: the recent-history list update
  (`[newItem, ...history.filter(item => item.url !== url)].slice(0, 10)`) and its
  properties: the bound, the new entry first, no other entry with its url, the
  survivors kept in order, distinct urls preserved, and the ten-most-recent outcome.
- `js_string.dfy`, module `JsString`: ECMA-262's `String.prototype.trim` and the
  blank-input test `!videoUrl.trim()`. White space and line terminators are as in
  sections 12.2 and 12.3 of ECMA-262.
- `uri_component.dfy`, module `UriComponent`: `encodeURIComponent` (ECMA-262, 2022
  edition, section 19.2.6.5) over Unicode scalar values, UTF-8 as in RFC 3629,
  triplets as in section 2.1 of RFC 3986. It also models `decodeURIComponent`
  (section 19.2.6.3) as the encoder's inverse. It proves the output alphabet, the
  absence of delimiters, the round trip and injectivity.
- `video_player.dfy`, module `VideoPlayer`: the frame address
  `apiUrl + encodeURIComponent(videoUrl)`, with worked examples.
- `app.dfy`, module `VideoApp`: class `App` holds the eight `useState` fields plus
  the persisted history copy and the count of scheduled timer callbacks. Each
  handler states its whole new state as an update of a `Snapshot` of the old one.
  The module also has the endpoint lookup and a first-visit scenario.
- `wrappers.dfy`: the `Option` type.

The url parser behind `new URL(s)` is the constant `isValidUrl: string -> bool`
that the page is built with. `Date.now()` and `toLocaleString()` are passed in as
`now` and `timestamp`. The endpoint list is the constant `apis`.

Three details of the code that the model keeps as written:
- The endpoint's address field is `url` (src/App.jsx:225).
- The url check and the recorded history entry both use the untrimmed input. The
  trimmed text is only used for the blank test.
- `currentApi?.name || '未知接口'` also falls back to `未知接口` when the endpoint
  is found but its name is empty, because `''` is falsy (`VideoApp.ApiLabel`).

## Model

| member | source | states |
|---|---|---|
| `History.Without` | src/App.jsx:61 | the filtered list holds exactly the old entries whose url differs (membership both ways), none has the url, and it is no longer than the old list |
| `History.Updated` | src/App.jsx:53-61 | the new history has between 1 and 10 entries, its first entry is the new item, and no later entry has the new url |
| `History.UpdatedTail` | src/App.jsx:61 | the length is min(10, survivors + 1), and the entries after the first are the surviving old entries cut to nine |
| `History.WithoutIsSubsequence` | src/App.jsx:61 | the survivors are a subsequence of the old list, so they keep their old relative order |
| `History.WithoutAppend` | src/App.jsx:61 | filtering distributes over concatenation, which fixes the result entry by entry |
| `History.WithoutAbsent` | src/App.jsx:61 | when no entry has the url, the filter returns the old list unchanged |
| `History.WithoutDistinct` | src/App.jsx:61 | filtering a list with pairwise-distinct urls leaves distinct urls |
| `History.DistinctPreserved` | src/App.jsx:61 | if the old history had pairwise-distinct urls, so does the new one |
| `History.RecordTwice` | src/App.jsx:54-61 | recording one url twice leaves exactly one entry for it, first, carrying the second name |
| `History.UpdatedFresh` | src/App.jsx:61 | recording a url not yet listed just prepends the entry and cuts to ten |
| `History.RecordAllFromEmpty` | src/App.jsx:61 | from an empty history, recording items with distinct urls leaves the ten most recent, most recent first |
| `JsString.TrimStart` | src/App.jsx:67 | the result is a suffix of the input, the dropped prefix is all white space, and the result does not start with white space |
| `JsString.TrimEnd` | src/App.jsx:67 | the result is a prefix of the input, the dropped suffix is all white space, and the result does not end with white space |
| `JsString.TrimEmptyIffBlank` | src/App.jsx:67 | the trimmed input is empty exactly when every character is white space |
| `JsString.Trim` | src/App.jsx:67 | the result is no longer than the input and neither of its ends is white space; `TrimStart`, `TrimEnd` and `TrimEmptyIffBlank` fix it further |
| `JsString.TrimsToEmpty` | src/App.jsx:67 | the blank test returns true exactly for empty or white-space-only input |
| `UriComponent.Utf8Encode` | src/components/VideoPlayer.jsx:14 | a character takes 1 to 4 bytes, by the ranges of RFC 3629; the lead byte announces that length and the other bytes are continuation bytes |
| `UriComponent.PercentEncode` | src/components/VideoPlayer.jsx:14 | each byte becomes exactly one three-character triplet |
| `UriComponent.EncodeChar` | src/components/VideoPlayer.jsx:14 | one character becomes 1 to 12 characters; an escaped one starts with `%` and takes one triplet per UTF-8 byte; `EncodeCharUnchanged` says which characters are copied |
| `UriComponent.Encode` | src/components/VideoPlayer.jsx:14 | the encoding is never shorter than the input and at most twelve times as long; `EncodeAppend`, `EncodeWellFormed` and `DecodeEncode` fix it further |
| `UriComponent.EncodeCharUnchanged` | src/components/VideoPlayer.jsx:14 | a character is copied unchanged exactly when it is one of A-Z a-z 0-9 - _ . ! ~ * ' ( ) |
| `UriComponent.EncodeWellFormed` | src/components/VideoPlayer.jsx:14 | the encoded text consists only of unreserved characters and `%XX` triplets with upper-case hex digits |
| `UriComponent.WellFormedAlphabet` | src/components/VideoPlayer.jsx:14 | every character of such text is unreserved or `%` |
| `UriComponent.EncodeHasNoDelimiters` | src/components/VideoPlayer.jsx:14 | the encoded text never contains `:` `/` `?` `#` `&` `=` or a space |
| `UriComponent.EncodeAppend` | src/components/VideoPlayer.jsx:14 | encoding a concatenation is the concatenation of the encodings |
| `UriComponent.ByteAtPercentEncode` | src/components/VideoPlayer.jsx:14 | the k-th triplet of the encoded bytes reads back as the k-th byte |
| `UriComponent.Utf8Reassemble` | src/components/VideoPlayer.jsx:14 | the payload bits of the UTF-8 bytes put back together give the code point |
| `UriComponent.EscapeRoundTrip` | src/components/VideoPlayer.jsx:14 | an escaped character decodes back to itself and consumes exactly its triplets |
| `UriComponent.DecodeEncode` | src/components/VideoPlayer.jsx:14 | decoding the encoded text gives back the input exactly |
| `UriComponent.EncodeInjective` | src/components/VideoPlayer.jsx:14 | two strings with the same encoding are equal |
| `VideoPlayer.PlayerSource` | src/components/VideoPlayer.jsx:14 | the address starts with `apiUrl`, with no separator inserted; the rest decodes back to the video url and holds no url delimiter |
| `VideoPlayer.PlayerSourceInjective` | src/components/VideoPlayer.jsx:14 | with one endpoint, different video urls give different addresses |
| `VideoPlayer.EncodeConcat` | src/components/VideoPlayer.jsx:14 | encoding piece by piece gives the encoding of the whole |
| `VideoPlayer.ExampleYouku` | src/components/VideoPlayer.jsx:14 | "https://api.example/play?u=" with "https://v.youku.com/a b" gives "https://api.example/play?u=https%3A%2F%2Fv.youku.com%2Fa%20b" |
| `VideoPlayer.ExampleUnknownEndpoint` | src/components/VideoPlayer.jsx:14-22 | with the fallback endpoint url "" the frame address for "a b" is its encoding "a%20b" alone |
| `VideoPlayer.ExampleNonAscii` | src/components/VideoPlayer.jsx:14 | U+89C6 becomes its three UTF-8 bytes as `%E8%A7%86` |
| `VideoApp.FindApi` | src/App.jsx:106-108 | the result is the first endpoint whose id matches; there is none exactly when no endpoint has that id |
| `VideoApp.ApiLabel` | src/App.jsx:83 | the recorded name is the found endpoint's name when that name is not empty, and `未知接口` when no endpoint is found or its name is empty |
| `VideoApp.ApiUrl` | src/App.jsx:225 | the frame's endpoint url is the found endpoint's url, or "" when none is found |
| `VideoApp.App.constructor` | src/App.jsx:25-32 | the initial state: light theme, empty input, the first endpoint selected, not playing or loading, no error, empty history, list hidden |
| `VideoApp.App.SystemThemeChanged` | src/App.jsx:35-43 | the reported system preference becomes the theme, and nothing else changes |
| `VideoApp.App.LoadHistory` | src/App.jsx:46-51 | a persisted history replaces the in-memory one; without one nothing changes |
| `VideoApp.App.GetCurrentApi` | src/App.jsx:106-108 | the result is the first configured endpoint with the selected id, and there is none only when no endpoint has that id |
| `VideoApp.App.AddToHistory` | src/App.jsx:53-64 | the history becomes the updated list, the persisted copy equals it, distinct urls are preserved, and nothing else changes |
| `VideoApp.App.HandlePlayVideo` | src/App.jsx:66-89 | blank input sets only the empty-input message; input the parser rejects sets only the format message; otherwise the error is cleared, loading starts, the untrimmed input is recorded with the endpoint's name, the history is persisted and one timer is scheduled |
| `VideoApp.App.TimerFires` | src/App.jsx:85-88 | a scheduled callback ends loading and starts playing, and nothing else changes |
| `VideoApp.App.HandleHistorySelect` | src/App.jsx:91-94 | the entry's url fills the input and the list closes; nothing else changes |
| `VideoApp.App.HandleBackToHome` | src/App.jsx:96-100 | playing stops and the input and error are cleared; history and the selected endpoint are untouched |
| `VideoApp.App.ToggleTheme` | src/App.jsx:102-104 | the theme flag is negated and nothing else changes |
| `VideoApp.App.ToggleHistoryPanel` | src/App.jsx:148 | the history list visibility is negated and nothing else changes |
| `VideoApp.App.InputChanged` | src/App.jsx:157 | the input becomes the typed value and nothing else changes |
| `VideoApp.App.SelectApi` | src/App.jsx:184 | the chosen endpoint id becomes the selection and nothing else changes |
| `VideoApp.App.PlayerSrc` | src/App.jsx:223-227 | the frame address starts with the current endpoint's url (or "") and the rest decodes back to the input; when the selected id names no endpoint the address is exactly the encoded input |
| `VideoApp.FirstVisit` | src/App.jsx:66-89 | starting with nothing persisted, one valid submission followed by its timer leaves the page playing, with exactly one history entry, which is also persisted |

## Left out

- Rendering (JSX, Fluent UI components, CSS) and the frame's `sandbox` and `allow` attributes: presentation only.
- The `window.matchMedia` subscription: the system preference arrives as the input of `SystemThemeChanged`; subscribing and unsubscribing are not modelled.
- `localStorage` and `JSON.parse`/`JSON.stringify`: storage is the field `stored`, holding already-parsed entries. `None` stands for a missing or empty stored value, which `if (savedHistory)` skips. Parse failures and write failures are not modelled.
- The url parser behind `new URL(...)`: it is a foreign library, so it is the given predicate `isValidUrl`.
- `Date.now()` and `new Date().toLocaleString()`: clock reads, passed in as `now` and `timestamp`.
- The 800 ms `setTimeout`: the model has no time. Scheduling increments `pendingTimers`, and `TimerFires` runs one callback. React state batching and stale closures are not modelled.
- `src/config/apiConfig.json` is not part of this model: the endpoint list is the constructor's `apis`. The constructor requires it to be non-empty because the initial selection reads `apiConfig.apis[0].id`.
- The player's `useState`/`useEffect` cache of the address (src/components/VideoPlayer.jsx:11-16): the model gives the composed address directly. It omits the first render, where the frame source is still `''`.
- `encodeURIComponent`'s `URIError` for lone surrogates: model strings are sequences of Unicode scalar values, so that case cannot arise.
- `UriComponent.Decode` (`decodeURIComponent`) is not called by the application. It is here as the encoder's inverse, to state injectivity.
- `VideoApp.App.HandleHistorySelect` accepts any entry. The page only passes entries of the displayed list.
