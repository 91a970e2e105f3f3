# Smart-contract code generator: response handling

This project models the decision logic of the `generateRust` handler of
`SmartContractGeneratorApi` (`server/index.ts`). The handler:

1. builds a prompt from the caller's description, a reference template and the
   requested language;
2. sends the prompt to a text-generation service;
3. turns the service's reply into an HTTP response. It lower-cases the
   requested language, and only `rust` and `typescript` select an opening tag
   (```` ```rust ```` or ```` ```typescript ````). It captures the text between
   the first such tag and the next ```` ``` ````, trims it, and answers
   `{code}` with status `"200"` when the result is non-empty.

Everything else becomes an error body with status `"500"`:

- when no non-empty code is extracted, the body is `No <language> code generated.`;
- a non-200 service status gives `Error generating <language> code.`;
- an exception gives `Internal Server Error`.

The handler is pure once its inputs are fixed, so the model is a set of
functions and lemmas:

- `text.dfy`, module `Text`, holds the string operations the handler relies
  on: ASCII lower-casing, first-occurrence search and JavaScript-style `trim`.
  `trim` is characterised by `TrimmedAt`, and `TrimUnique` proves that this
  characterisation determines it.
- `generator.dfy`, module `Generator`, holds the prompt, the language
  dispatch, the fenced-block extraction, the response and the whole handler.

The regular expression ``/```rust([\s\S]*?)```/`` is modelled as a search:
`Search` finds the first opening tag, then the first closing fence at or after
the tag's end. It is proved equal to an independent description of what
`exec` reports (`IsFirstMatch`): the leftmost match start and, at that start,
the shortest (lazy) body. The template file and the service are inputs:

- the template is an `Option<string>`, where `None` means reading the file
  failed;
- the service is a function from the prompt to a `Reply`: either
  `Answered(status, content)`, or `Thrown` when the call raised an exception.

Two points where the code's behaviour is narrower than a first reading
suggests:

- **Case-insensitivity covers only the choice of tag.** The error messages
  interpolate the caller's original spelling. So `"Rust"` and `"rust"` get the
  same status and the same code, but different error bodies.
  `CaseInsensitiveLanguage` states the whole correspondence.
- **The non-200 branch is narrow.** The HTTP client used by the handler raises
  an exception for non-2xx statuses by default. A status such as 429 therefore
  reaches the `catch` and becomes `Internal Server Error` (`Thrown` here). The
  model follows the code as written: an `Answered` reply with any status
  other than 200 gives the upstream error.

## Model

| member | source | states |
|---|---|---|
| Text.Lower | server/index.ts:65 | `toLowerCase` on ASCII letters: same length, no upper-case letter is left, every other character is unchanged, and each upper-case letter maps to its lower-case form |
| Text.LowerIdempotent | server/index.ts:65 | lower-casing an already lower-cased language changes nothing |
| Text.Find | server/index.ts:68 | the first index at or after `from` where the pattern occurs: the pattern is there, and it occurs nowhere in between; `None` only when it occurs nowhere from `from` on |
| Text.Trim | server/index.ts:69 | `trim()`: the result is `s[i..j]`, where everything outside is whitespace and the result has no whitespace at either edge; it is a substring of the input, and it is empty exactly when the input is all whitespace |
| Text.TrimmedAtEmpty | server/index.ts:72 | what trimming leaves is empty exactly when the captured text is all whitespace |
| Text.TrimUnique | server/index.ts:69 | any split of the input into whitespace, an edge-trimmed middle and whitespace has `Trim` equal to that middle, so the characterisation determines `trim` |
| Text.TrimSurrounded | server/index.ts:72 | whitespace around a middle with no whitespace at its edges is exactly what `Trim` removes |
| Text.TrimIdempotent | server/index.ts:69 | trimming a trimmed capture changes nothing |
| Generator.Prompt | server/index.ts:39-42 | the prompt contains the description, then the template, then the language twice at two non-overlapping places, in that order |
| Generator.InterpolatedInOrder | server/index.ts:39-42 | in any interpolation of four values into fixed text, the values occur in the result one after another |
| Generator.TagFor | server/index.ts:67-73 | a tag exists exactly for the lower-cased names `rust` and `typescript`, and it is the fence followed by that name |
| Generator.Search | server/index.ts:68 | when `Search` gives no result, the pattern `tag([\s\S]*?)```` has no match at all; otherwise it returns the leftmost-start, shortest-body match that `exec` reports |
| Generator.FirstMatchUnique | server/index.ts:71 | the leftmost, lazy match is unique |
| Generator.Capture | server/index.ts:68-69 | group 1 is `null` exactly when the pattern has no match, and otherwise a substring of the reply |
| Generator.CaptureIsFirstBlock | server/index.ts:71-72 | whatever first match exists, group 1 is exactly the text between its opening tag and its closing fence |
| Generator.ExtractCode | server/index.ts:64-73 | `code` is `null` unless the language has a tag; when present it has no edge whitespace and occurs in the reply |
| Generator.Respond | server/index.ts:59-93 | status `"200"` comes exactly with a code body, every other outcome has status `"500"`, and a call that throws gives `Internal Server Error` |
| Generator.GenerateRust | server/index.ts:26-94 | a failed template read, or a service call that throws, gives `Internal Server Error`; a code body only ever comes from a 200 reply to this prompt, and it is non-empty, edge-trimmed and part of that reply's content; `"200"` comes exactly with a code body |
| Generator.SuccessIsTrimmedPartOfReply | server/index.ts:69-76 | a `"200"` response implies a 200 reply, a supported language, and code that is non-empty, edge-trimmed and a substring of the reply |
| Generator.FirstBlockDecides | server/index.ts:67-82 | for `rust`/`typescript` in any letter case, the response is the trimmed interior of the first block if it is non-empty, else the extraction error |
| Generator.NoBlockIsExtractionError | server/index.ts:68-81 | when no opening tag is followed by a closing fence, the response is the extraction error and never partial text |
| Generator.BlankBlockIsExtractionError | server/index.ts:72-81 | a whitespace-only first block gives the extraction error, not empty code |
| Generator.FirstMatchKeptAfterFence | server/index.ts:68 | replacing everything after the first match's closing fence keeps it the first match |
| Generator.LaterTextIgnored | server/index.ts:68-72 | whatever follows the first block's closing fence, including later blocks, never changes the response |
| Generator.CaseInsensitiveLanguage | server/index.ts:65-93 | two spellings with the same lower-case form get the same response, except that the extraction and upstream errors each echo the caller's own spelling |
| Generator.MessagesDistinct | server/index.ts:78-92 | the extraction error, the upstream error and `Internal Server Error` are pairwise different |
| Generator.UnsupportedLanguageIsExtractionError | server/index.ts:64-81 | a language whose lower-case form is neither `rust` nor `typescript` always gets `No <language> code generated.` with `"500"`, whatever the reply holds |
| Generator.UpstreamErrorIgnoresContent | server/index.ts:59-88 | a status other than 200 gives `Error generating <language> code.` with `"500"`, and the reply content does not matter |
| Generator.SingleBlockReply | server/index.ts:67-82 | a reply that is exactly one tagged block, with no backtick inside, is decided by that block's trimmed interior |
| Generator.RustReplyExample | server/index.ts:67-76 | language `Rust` with a reply of one `rust` block gives the code without its surrounding newlines, with `"200"` |
| Generator.CapitalisedFenceExample | server/index.ts:67-81 | a block opened by ```` ```Rust ```` is not found, because the tag is case-sensitive; the response is `No rust code generated.` |
| Generator.TagPrefixExample | server/index.ts:68-69 | ```` ```rustacean ```` matches as a rust block, and the captured code starts with `acean` |

## Left out

- Reading `adder.rs` (`readRustTemplate`, server/index.ts:11-19, 32): file I/O. The template's content is an input, and a failed read is `None`. The read failure goes to the same `catch` as any other exception.
- The outbound request (server/index.ts:45-57) is network and environment access: headers, the API key from the environment, the model identifier and the one-message payload. The service is a function parameter from prompt to `Reply`. The request payload itself is not modelled.
- Exceptions from the HTTP client and from reading `choices[0].message.content` are folded into the single `Thrown` input. This includes non-2xx statuses under the client's default settings and a reply without choices.
- A missing `language` or `description` in the request body is not modelled: both are always strings here. In the source, a missing `language` makes `toLowerCase` throw, and a missing `description` is interpolated as `undefined`.
- Text.Lower: does not model `toLowerCase` beyond ASCII letters. The tag choice is unaffected. The only non-ASCII characters whose lower-case forms contain ASCII letters are U+212A (to `k`) and U+0130 (to `i` plus a combining dot). Neither can produce `rust` or `typescript`.
- Strings are sequences of Unicode scalar values, while JavaScript indexes UTF-16 code units. Positions differ for characters outside the Basic Multilingual Plane, but the captured text does not.
- Text.IsWhitespace lists the characters `trim` removes under the current Unicode space-separator set. A future Unicode version could add more.
- Logging (`console.log`, `console.error`) has no effect on any response.
- The demonstration handlers `handleSimpleTextRequest`, `handleJsonBody`, `handleQueryParams` and `handleMultipartData` (server/index.ts:102-188) are framework glue. The multipart one depends on a parsing library that is not part of this model.
- `async`/`await`: once its inputs are fixed, the modelled part is a single synchronous computation.
