# cURL request form — a Dafny model

The repository is a single React form for probing an HTTP endpoint. The user
pastes a cURL command, "Parse cURL" fills the form's URL, method, header and
body fields from it, and "Send Request" issues one `fetch`. This project models
the part of `src/components/ApiRequestForm.jsx` that carries logic:

- `parseCurl` (lines 15-40). It runs four regular expressions over the command:
  the URL after `curl`, the `-X` method, every `-H` header and the
  `--data-raw` body. It then updates the form's fields.
- `parseHeaders` (lines 43-49). It turns the header text, one `Key: Value` per
  line, into the header object.
- The request `handleSubmit` builds (lines 63-71). The user's headers are
  spread over a default `Content-Type: application/json`, and a body is sent
  only when the method is not GET.

Files:

| file | module | contents |
|---|---|---|
| `wrappers.dfy` | `Wrappers` | `Option` |
| `strings.dfy` | `Strings` | JavaScript's `\s` set, `trim`, `indexOf`, `split` and `join` on `seq<char>` |
| `patterns.dfy` | `CurlPatterns` | the four regular expressions and the `match` / `matchAll` searches |
| `headers.dfy` | `HeaderText` | `parseHeaders` and `Object.fromEntries` |
| `request.dfy` | `Dispatch` | the header merge and the body rule of the `fetch` options |
| `form.dfy` | `Form` | class `ApiRequestForm`: the form's state and `ParseCurl` |
| `example.dfy` | `CurlExample` | a one-line command of the shape `curl '<url>' -X '<method>' -H '<header>' --data-raw '<body>'` and what `parseCurl` takes from it |

## The regular expressions

Each pattern has a declarative description, `CurlPatterns.Matches`. It says
when a stretch `s[start..end]` is a match and what its capture is.

The engine's choice among the matches is written out as a computation:

- `MatchAt` tries one start position.
- `Search` tries each start from left to right. This is `String.prototype.match`.
- `SearchAll` searches again from the end of each match. This is `matchAll` with the `g` flag.

For these four patterns, the alternative the backtracking engine tries first
at a given start is the longest one:

- `\s+` must be followed by a quote, so only the whole white-space run can
  precede the quote.
- `https?` tries `https://` first.
- `[^\s]+` gives back characters until it reaches a closing quote. So the URL
  capture ends at the last quote of the non-space run, not at the first one.
- The three quoted patterns allow exactly one white-space character after the
  flag. Their token class excludes the quote, so each start has at most one
  match.

The lemmas prove that `Search` returns the leftmost match, and the greediest
one at that start. It returns nothing exactly when there is no match.
`SearchAll` returns consecutive first matches and skips no match.

## Behaviour that differs from the obvious reading

The code does the following, and the model does the same:

- **Headers when no `-H` is found.** `[...curl.matchAll(...)]` is an array, which is always truthy. So
  `setHeaders` runs for every pasted command, and a command without `-H` clears
  the header text to "" (`Form.HeaderTextEmpty`, `Form.NothingRecognised`). So
  pasting a command in which nothing is recognised does change the draft.
- **Splitting on colons.** A header line is split on every `:`, not only on the first one. The value
  is the text between the first and the second colon. Anything after a second
  colon is dropped: `Authorization: Basic a:b` gives the value `Basic a`
  (`HeaderText.ParseLineWithColon`).
- **Empty header text.** Empty header text is one empty line. It gives the object `{"": undefined}`,
  not an empty object (`HeaderText.ParseHeadersOfEmpty`). A request with such
  an object has a header named "". As a consequence outside the model,
  `fetch` rejects that header name, so the request is then never sent.
- **Method values.** The method is any run of word characters after `-X`. It is not limited to
  GET, POST, PUT and DELETE (`Form.ParsedMethod`).
- **Where the URL ends.** The URL is not simply the first quoted token. It runs to the last quote
  before white space, quotes inside included (`Form.UrlRightAfterCurl`).

## Model

| member | source | states |
|---|---|---|
| Strings.TrimStart | src/components/ApiRequestForm.jsx:45 | the result is the suffix of the input left after removing its leading white space: the removed prefix is all white space and the result does not begin with white space |
| Strings.TrimEnd | src/components/ApiRequestForm.jsx:45 | the result is the prefix left after removing trailing white space: the removed suffix is all white space and the result does not end with white space |
| Strings.Trim | src/components/ApiRequestForm.jsx:45 | a trimmed string has no white space at either end |
| Strings.TrimOfPadded | src/components/ApiRequestForm.jsx:45 | trimming any white-space padding around a string with non-space ends gives back exactly that string |
| Strings.TrimmedIsTrim | src/components/ApiRequestForm.jsx:45 | a string without white space at its ends is its own trim |
| Strings.TrimIdempotent | src/components/ApiRequestForm.jsx:45 | trimming twice gives the same as trimming once |
| Strings.IndexOf | src/components/ApiRequestForm.jsx:45 | the position found holds the character and no earlier position does |
| Strings.IndexOfFirst | src/components/ApiRequestForm.jsx:45 | any occurrence with none before it is the position indexOf reports |
| Strings.Split | src/components/ApiRequestForm.jsx:44-45 | a split has at least one piece and no piece contains the separator |
| Strings.SplitHead | src/components/ApiRequestForm.jsx:45 | the first piece of a split runs up to the first separator, or to the end when there is none |
| Strings.SplitTail | src/components/ApiRequestForm.jsx:45 | after the first separator a split continues with the split of the rest |
| Strings.JoinSplit | src/components/ApiRequestForm.jsx:44 | joining the pieces of a split with the same separator gives back the original text |
| Strings.Join | src/components/ApiRequestForm.jsx:35 | no contract of its own; characterised by Strings.JoinSplit and Strings.SplitJoin, which make it the inverse of Split |
| Strings.SplitJoin | src/components/ApiRequestForm.jsx:35 | splitting the join of a non-empty list of separator-free pieces gives back the list, so the header lines written by parseCurl are the lines parseHeaders reads |
| CurlPatterns.Matches | src/components/ApiRequestForm.jsx:16-19 | no contract of its own; the declarative reading of the four regular expressions, against which CurlPatterns.MatchAt, CurlPatterns.SearchFindsFirst, CurlPatterns.SearchAllChained and CurlPatterns.SearchAllCovers are stated |
| CurlPatterns.RunEnd | src/components/ApiRequestForm.jsx:16 | the end of the longest run of one character class from a position: every character before it is in the class, and the character at it is not |
| CurlPatterns.LastQuote | src/components/ApiRequestForm.jsx:16 | the last quote in a range, or none when the range has no quote; the point where `[^\s]+` stops backtracking |
| CurlPatterns.MatchAt | src/components/ApiRequestForm.jsx:16-19 | at a start position, the result is the match that no other match at that start outruns, and nothing is returned exactly when no match starts there |
| CurlPatterns.Search | src/components/ApiRequestForm.jsx:22-25 | a reported match is a non-empty stretch inside the searched part of the command |
| CurlPatterns.SearchFindsFirst | src/components/ApiRequestForm.jsx:22-25 | the search reports a match that starts no later than any other and is the greediest at its start; it reports nothing only when no match exists |
| CurlPatterns.SearchAll | src/components/ApiRequestForm.jsx:24 | every match matchAll reports lies inside the searched part |
| CurlPatterns.SearchAllChained | src/components/ApiRequestForm.jsx:24 | the k-th match is the first match found by searching from the end of the (k-1)-th, so the matches are in order and do not overlap |
| CurlPatterns.SearchAllCovers | src/components/ApiRequestForm.jsx:24 | no match is skipped: every match starts inside one that matchAll reports |
| CurlPatterns.MatchSpan | src/components/ApiRequestForm.jsx:16-19 | every match is non-empty and lies inside the input |
| CurlPatterns.Groups | src/components/ApiRequestForm.jsx:34 | one capture per match, and the k-th element is the capture of the k-th match |
| HeaderText.ParseLine | src/components/ApiRequestForm.jsx:45-46 | no contract of its own; characterised by HeaderText.ParseLineWithoutColon, HeaderText.ParseLineWithColon and HeaderText.ParseLineOfPair |
| HeaderText.HeaderEntries | src/components/ApiRequestForm.jsx:44-47 | no contract of its own; characterised by HeaderText.HeaderEntriesOfLines |
| HeaderText.FromEntries | src/components/ApiRequestForm.jsx:48 | no contract of its own; characterised by HeaderText.FromEntriesKeys and HeaderText.FromEntriesLast |
| HeaderText.ParseHeaders | src/components/ApiRequestForm.jsx:43-49 | no contract of its own; characterised by HeaderText.ParseHeadersKeys, HeaderText.ParseHeadersLast and HeaderText.ParseHeadersOfEmpty |
| HeaderText.FromEntriesKeys | src/components/ApiRequestForm.jsx:48 | the object's keys are exactly the entries' keys |
| HeaderText.FromEntriesLast | src/components/ApiRequestForm.jsx:48 | a key takes the value of its last entry |
| HeaderText.ParseLineWithoutColon | src/components/ApiRequestForm.jsx:45-46 | a line without a colon is all key (trimmed) and its value is undefined |
| HeaderText.ParseLineWithColon | src/components/ApiRequestForm.jsx:45-46 | with a first colon at i, the key is the trimmed text before it and the value the trimmed text up to the second colon or the end |
| HeaderText.ParseLineOfPair | src/components/ApiRequestForm.jsx:45-46 | `key + ": " + value` parses back to that key and value when neither has a colon or surrounding white space |
| HeaderText.HeaderEntriesOfLines | src/components/ApiRequestForm.jsx:44-47 | text made of lines without line breaks has one entry per line, each the parse of that line |
| HeaderText.ParseHeadersKeys | src/components/ApiRequestForm.jsx:43-49 | a key is in the header object exactly when some line parses to that key |
| HeaderText.ParseHeadersLast | src/components/ApiRequestForm.jsx:43-49 | a line whose key no later line repeats gives that key its value |
| HeaderText.ParseHeadersOfEmpty | src/components/ApiRequestForm.jsx:43-49 | the empty text gives the one entry "" with an undefined value |
| HeaderText.ParseHeadersOfTwoLines | src/components/ApiRequestForm.jsx:43-49 | two `Key: Value` lines with distinct keys give exactly the object with those two pairs |
| HeaderText.ParseHeadersExample | src/components/ApiRequestForm.jsx:43-49 | "A: 1\nB: 2" gives {A: "1", B: "2"} |
| Dispatch.OutgoingHeaders | src/components/ApiRequestForm.jsx:67-70 | Content-Type is always present and is application/json unless the user overrides it; every user header is kept unchanged; no other header is added |
| Dispatch.BuildRequest | src/components/ApiRequestForm.jsx:65-71 | the request carries the form's URL and method, the merged headers of the parsed header text, and a body (the serialised payload) exactly when the method is not GET |
| Dispatch.RequestCarriesHeaderLine | src/components/ApiRequestForm.jsx:67-70 | a header line reaches the request with its parsed value unless a later line has the same key |
| Dispatch.DefaultContentType | src/components/ApiRequestForm.jsx:67-70 | when no line has the key "Content-Type", the request's Content-Type is application/json |
| Form.HeaderLinesOf | src/components/ApiRequestForm.jsx:33-35 | no contract of its own; characterised by Form.HeaderTextEmpty, Form.HeaderLinesRoundTrip and CurlPatterns.Groups |
| Form.ApiRequestForm.constructor | src/components/ApiRequestForm.jsx:6-12 | the initial state: empty URL, headers, body and command, method GET, not loading |
| Form.ApiRequestForm.ParseCurl | src/components/ApiRequestForm.jsx:15-40 | URL, method and body take the capture of their search when it finds one and keep their old value otherwise; the header text is always replaced by the -H captures joined with '\n'; nothing else changes |
| Form.ParsedUrl | src/components/ApiRequestForm.jsx:16 | the URL field changes exactly when some URL match exists, and the new URL starts with http:// or https:// and has no white space |
| Form.UrlRightAfterCurl | src/components/ApiRequestForm.jsx:16 | for a command that starts with `curl '`, a URL and a quote, followed by white space or the end, exactly that URL is extracted |
| Form.ParsedMethod | src/components/ApiRequestForm.jsx:17 | the method field changes exactly when some -X match exists, and the new method is a non-empty run of word characters |
| Form.ParsedTokens | src/components/ApiRequestForm.jsx:18-19 | every header token and the body token is non-empty and contains no quote |
| Form.ParsedHeaderOrder | src/components/ApiRequestForm.jsx:24 | the header tokens are the -H matches in order of appearance: the first is the leftmost, each later one the leftmost after the end of the previous |
| Form.ParsedHeadersComplete | src/components/ApiRequestForm.jsx:24 | no -H match is skipped: each starts inside one of the matches whose tokens are kept |
| Form.HeaderTextEmpty | src/components/ApiRequestForm.jsx:33-36 | the header text is "" exactly when the command has no -H match |
| Form.HeaderLinesRoundTrip | src/components/ApiRequestForm.jsx:34-35 | when no token has a line break, the header text splits back into exactly the tokens |
| Form.NothingRecognised | src/components/ApiRequestForm.jsx:27-39 | a command in which no pattern matches keeps URL, method and body and sets the header text to "" |
| CurlExample.UrlOfCommand | src/components/ApiRequestForm.jsx:16 | in `curl '<url>' -X '<method>' -H '<header>' --data-raw '<body>'`, with an http(s) URL, a word-character method, a quote-free header not ending in white space and a quote-free body, the URL search finds exactly the URL |
| CurlExample.MethodOfCommand | src/components/ApiRequestForm.jsx:17 | in such a command the method search finds exactly the method token |
| CurlExample.HeaderOfCommand | src/components/ApiRequestForm.jsx:18 | in such a command matchAll of the -H pattern finds exactly one match, the header token |
| CurlExample.BodyOfCommand | src/components/ApiRequestForm.jsx:19 | in such a command the body search finds exactly the body token |
| CurlExample.ParseCurlOfCommand | src/components/ApiRequestForm.jsx:15-40 | parsing such a command sets the URL, method, header text and body to its four parts, whatever the fields held before |
| CurlExample.PasteExample | src/components/ApiRequestForm.jsx:6-40 | pasting `curl 'https://api.example.com/data' -X 'POST' -H 'Authorization: Bearer xyz' --data-raw '{"a":1}'` into a fresh form gives URL `https://api.example.com/data`, method `POST`, header text `Authorization: Bearer xyz` and body `{"a":1}` |

## Left out

- Rendering. The JSX markup, the antd components, `message.error` and the
  `onChange` setters that bind the inputs are UI plumbing with no logic.
- The network call. The `fetch` call itself, the promise chain, `res.json()`,
  the `response` state and the `loading` updates around it are I/O and
  asynchronous. `loading` is part of the state only so that `ParseCurl` can be
  shown to leave it alone.
- The body's JSON round trip. `JSON.parse` and `JSON.stringify` of the body are
  not modelled. The serialised payload is an opaque type parameter.
  `JSON.parse` at line 63 runs outside the `try` block. Because of the
  `body ? … : null` test, an empty body is sent as `null`.
- The `try`/`catch` around `parseHeaders` (lines 55-61). In the model,
  `ParseHeaders` is total, and so is the code it models: `split`, `trim` and
  `Object.fromEntries` cannot throw on these inputs.
- The order of an object's keys. Header objects are maps.
- `fetch`'s own treatment of headers: case-insensitive names, rejection of the
  empty name, and undefined values sent as the text "undefined".
- React's batching. The setters called in `parseCurl` are modelled as one
  assignment of the new values at the end. Each new value depends only on the
  command and the old state, so the outcome is the same.
- Characters. The model works on Dafny `char`s, not UTF-16 code units, so a
  surrogate pair counts as one character. No pattern or separator involved is
  outside the Basic Multilingual Plane.
- CurlPatterns.Search: its own contract states only where the match lies. The
  full leftmost-and-greediest property is the separate lemma
  `CurlPatterns.SearchFindsFirst`, to keep callers cheap to verify.
- CurlPatterns.SearchAll: its own contract states only where the matches lie.
  Order and completeness are the lemmas `CurlPatterns.SearchAllChained` and
  `CurlPatterns.SearchAllCovers`.
