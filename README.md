# GitLab adapter: a verified model of the request translator

`GitLabAdapter` (src/gitlab-adapter.js) translates a GitHub-style request
into a GitLab REST request. It handles three operations: `get_file_contents`,
`create_repository` and `create_or_update_file`. It has two parts:

- `transformParams(params, operation)` copies the caller's parameter object.
  It then renames, derives and deletes properties of the copy, depending on
  the operation. Unknown operations return the copy unchanged.
- `getEndpoint(operation, params)` builds the endpoint path. For the two file
  operations, the project path `owner/repo` and the file path are each
  percent-encoded by `encodeURIComponent`. Repository creation always goes to
  `/projects`. Any other operation throws `Unsupported operation: <operation>`.

The model has these modules:

| file | module | models |
|---|---|---|
| common.dfy | `Wrappers`, `Bytes` | `Option`; `Result`, whose `Err` stands for a thrown `Error` and its message; octets |
| js_values.dfy | `JsValues` | JavaScript values (`undefined`, `null`, booleans, strings); truthiness; string conversion; property lookup; a mutable object `JsObject` |
| utf8.dfy | `Utf8` | the UTF-8 encoding of `Buffer.from(string)` and `encodeURIComponent`, with a strict decoder |
| base64.dfy | `Base64` | `toString('base64')`, as in section 4 of RFC 4648, with a strict decoder |
| uri_component.dfy | `UriComponent` | `encodeURIComponent` (percent-encoding as in section 2.1 of RFC 3986), and `decodeURIComponent` as its inverse |
| slug.dfy | `Slug` | `name.toLowerCase().replace(/\s+/g, '-')` |
| gitlab_adapter.dfy | `GitLabAdapter` | `transformParams` and `getEndpoint` |
| examples.dfy | `AdapterExamples` | example requests and what the adapter makes of them, derived from the model |

`transformParams` changes an object step by step. It is modelled by the
method `TransformParams`. The method allocates a fresh `JsObject` and hands
it to one method per `switch` case (`RenameBranch`, `RewriteForRepository`,
`RewriteForFile`). Each of these assigns and deletes properties of the copy
in the source's order. `TransformParams` has no `modifies` clause, so the
caller's object cannot change. Its postcondition
ties the result to the function `Transform`. `Transform` is built from one
function per operation, and each of those functions states, key by key, what
the result holds. `getEndpoint` is a pure function returning a `Result`.

Truthiness follows JavaScript: `false`, `""`, `null` and `undefined` are
falsy. A missing property reads as `undefined`. In `getEndpoint`, a missing
`owner`, `repo` or `path` becomes the text `"undefined"`, as string
concatenation does in JavaScript. So `getEndpoint` has no precondition.
`transformParams` does have preconditions: a string `name` for
`create_repository`, and a string `content` for `create_or_update_file`.
Any other `name` makes `params.name.toLowerCase()` throw a `TypeError`,
because `undefined` and `null` have no properties and a boolean has no
`toLowerCase`. Any other `content` makes `Buffer.from` throw a `TypeError`.

Four behaviours of the code are easy to misread:

- `get_file_contents` renames `branch` only when it is truthy. An empty
  `branch` stays and no `ref` is added.
- `initialize_with_readme` is set only when `autoInit` is truthy.
- `description` is assigned its own value, so it always passes through
  unchanged. This holds whether or not it is present or truthy.
- An unknown operation passes through `transformParams` without error.

## Model

| member | source | states |
|---|---|---|
| `GitLabAdapter.TransformParams` | src/gitlab-adapter.js:41-77 | the result is a fresh object whose properties are `Transform` of the input's; the caller's object is unchanged |
| `GitLabAdapter.RenameBranch` | src/gitlab-adapter.js:46-52 | the copy's properties become `FileContentsParams` of the caller's |
| `GitLabAdapter.RewriteForRepository` | src/gitlab-adapter.js:54-64 | the copy's properties become `RepositoryParams` of the caller's |
| `GitLabAdapter.RewriteForFile` | src/gitlab-adapter.js:66-73 | the copy's properties become `FileParams` of the caller's |
| `GitLabAdapter.Transform` | src/gitlab-adapter.js:43-76 | an operation other than the three known ones returns a map equal to the input, with no error |
| `GitLabAdapter.FileContentsParams` | src/gitlab-adapter.js:46-52 | a truthy `branch` becomes `ref` and `branch` is removed; otherwise the map is unchanged and no `ref` is added; every other key keeps its value |
| `GitLabAdapter.RepositoryParams` | src/gitlab-adapter.js:54-64 | `path` is the slug of `name`; `visibility` is `"private"` exactly when `private` is truthy and `"public"` otherwise; `private` and `autoInit` are gone; `initialize_with_readme` is `autoInit` when that is truthy and untouched otherwise |
| `GitLabAdapter.RepositoryParamsKeepsOthers` | src/gitlab-adapter.js:54-64 | `name`, `description` and every other key not listed above keep their values, or stay absent |
| `GitLabAdapter.FileParams` | src/gitlab-adapter.js:66-73 | `branch` is always present (`undefined` if absent); `content` is the Base64 of the content's UTF-8 bytes; `commit_message` is `message`; `last_commit_id` is `sha` when `sha` is truthy and untouched otherwise; `message`, `sha` and all other keys keep their values |
| `GitLabAdapter.FileContentRoundTrip` | src/gitlab-adapter.js:69 | decoding the transmitted `content` from Base64 and then from UTF-8 gives back the caller's text, the empty text included |
| `GitLabAdapter.FileContentLength` | src/gitlab-adapter.js:69 | the content's Base64 is `4 * ceil(n / 3)` characters long for `n` UTF-8 bytes; it contains only alphabet characters and `=` |
| `GitLabAdapter.RepositoryPathIsSlug` | src/gitlab-adapter.js:57 | the transmitted `path` has no whitespace, and taking its slug again changes nothing |
| `GitLabAdapter.GetEndpoint` | src/gitlab-adapter.js:80-94 | succeeds exactly for the three operations; `create_repository` gives `/projects` whatever the parameters; both file operations give `/projects/` + enc(`owner/repo`) + `/repository/files/` + enc(`path`); any other operation fails with `Unsupported operation: ` followed by the operation |
| `GitLabAdapter.EncodedHasNoSlash` | src/gitlab-adapter.js:83 | a percent-encoded segment never contains a raw `/` |
| `GitLabAdapter.ParseFileEndpointOf` | src/gitlab-adapter.js:83 | a file endpoint parses back into its project path and file path, whatever characters they hold, `/` included |
| `GitLabAdapter.FileEndpointRoundTrip` | src/gitlab-adapter.js:82-89 | both file operations produce the same endpoint, and that endpoint parses back into `owner/repo` and `path` |
| `GitLabAdapter.CanTransform` | src/gitlab-adapter.js:57-69 | the inputs on which `transformParams` does not throw: `create_repository` needs a string `name`, because `.toLowerCase()` throws a `TypeError` on `undefined` and `null` and is missing on a boolean; `create_or_update_file` needs a string `content`, because `Buffer.from` throws a `TypeError` on `undefined`, `null` and booleans; every other operation accepts anything |
| `GitLabAdapter.FileContent` | src/gitlab-adapter.js:69 | `Buffer.from(content)` takes the UTF-8 bytes of the string and `toString('base64')` writes them in padded Base64; its properties are stated by `FileContentRoundTrip` and `FileContentLength` |
| `GitLabAdapter.ProjectPath` | src/gitlab-adapter.js:83 | `params.owner + '/' + params.repo`: each operand is converted as JavaScript's `+` converts it, so a missing one reads `undefined` |
| `GitLabAdapter.FileEndpoint` | src/gitlab-adapter.js:83 | the template literal: `/projects/`, the encoded project path, `/repository/files/`, the encoded file path, each segment passed through `encodeURIComponent` on its own; `ParseFileEndpointOf` states that it is unambiguous |
| `JsValues.Truthy` | src/gitlab-adapter.js:48-72 | the test of `if (params.branch)`, `params.private ? … : …`, `if (params.description)`, `if (params.autoInit)` and `if (params.sha)`: `undefined`, `null`, `false` and `""` are falsy and every other value is truthy |
| `JsValues.ToJsString` | src/gitlab-adapter.js:83 | JavaScript's `ToString`, applied by `+` with a string operand and by `encodeURIComponent` to its argument: `undefined`, `null`, `true` and `false` become their names, and a string stays as it is |
| `JsValues.Get` | src/gitlab-adapter.js:83 | property access `params.key`: the own property's value, or `undefined` when there is none |
| `Slug.IsWhitespace` | src/gitlab-adapter.js:57 | the characters `\s` matches in a JavaScript regular expression: the ECMAScript white-space characters (tab, vertical tab, form feed, space, no-break space, zero-width no-break space and the Unicode space separators) and the line terminators (line feed, carriage return, U+2028 and U+2029) |
| `Slug.ToLowerCase` | src/gitlab-adapter.js:57 | `toLowerCase`, restricted to the ASCII letters: each `A`–`Z` becomes its lower-case letter and every other character is kept; the result has the name's length (see `Slug.ToLowerCase` under Left out for what JavaScript does beyond this) |
| `Slug.Slug` | src/gitlab-adapter.js:57 | `name.toLowerCase().replace(/\s+/g, '-')`: lower-case first, then every maximal whitespace run becomes one `-`; `SlugShape`, `SlugRun` and `SlugIdempotent` state what it yields |
| `Slug.LowerChar` | src/gitlab-adapter.js:57 | lower-casing leaves no upper-case ASCII letter and keeps whitespace as whitespace |
| `Slug.SkipWhitespace` | src/gitlab-adapter.js:57 | drops the whole whitespace run at the front: the rest does not start with whitespace |
| `Slug.ReplaceWhitespaceRuns` | src/gitlab-adapter.js:57 | the replacement is no longer than its input |
| `Slug.ReplaceLeavesNoWhitespace` | src/gitlab-adapter.js:57 | the replacement contains no whitespace |
| `Slug.ReplaceWithoutWhitespace` | src/gitlab-adapter.js:57 | a string without whitespace is left unchanged |
| `Slug.ReplaceRun` | src/gitlab-adapter.js:57 | a maximal whitespace run between two parts becomes exactly one `-` between their replacements |
| `Slug.ReplaceKeepsLowerCase` | src/gitlab-adapter.js:57 | the replacement introduces no upper-case ASCII letter |
| `Slug.SlugShape` | src/gitlab-adapter.js:57 | a slug holds no whitespace and no upper-case ASCII letter, and is no longer than the name |
| `Slug.SlugIdempotent` | src/gitlab-adapter.js:57 | the slug of a slug is the slug itself |
| `Slug.SlugWithoutWhitespace` | src/gitlab-adapter.js:57 | a name without whitespace is only lower-cased |
| `Slug.SlugRun` | src/gitlab-adapter.js:57 | each maximal whitespace run of a name becomes one `-` of its slug |
| `Slug.SlugExample` | src/gitlab-adapter.js:57 | `My Repo` becomes `my-repo` |
| `Base64.Encode` | src/gitlab-adapter.js:69 | the encoding has `4 * ceil(n / 3)` characters |
| `Base64.EncodeAlphabet` | src/gitlab-adapter.js:69 | each character of the encoding is from the alphabet or is `=` |
| `Base64.DecodeEncode` | src/gitlab-adapter.js:69 | decoding the encoding of any octets, the empty sequence included, gives them back |
| `Base64.EncodeDecode` | src/gitlab-adapter.js:69 | every string the strict decoder accepts is the encoding of what it decodes to |
| `Utf8.EncodeChar` | src/gitlab-adapter.js:69 | a character takes one to four bytes; it takes one byte exactly when it is ASCII, and then that byte is its code; every byte of a longer encoding is at least 0x80 |
| `Utf8.Encode` | src/gitlab-adapter.js:69 | a string of `n` characters takes between `n` and `4n` bytes |
| `Utf8.DecodeEncodedChar` | src/gitlab-adapter.js:69 | the decoder reads back exactly one encoded character, whatever follows it |
| `Utf8.DecodeEncode` | src/gitlab-adapter.js:69 | decoding the UTF-8 of any string gives it back |
| `Utf8.EncodeInjective` | src/gitlab-adapter.js:69 | distinct strings have distinct encodings |
| `Utf8.EncodeAscii` | src/gitlab-adapter.js:69 | an ASCII string is encoded byte for byte |
| `UriComponent.IsUnreserved` | src/gitlab-adapter.js:83 | the characters `encodeURIComponent` leaves as they are: ASCII letters, digits and `- _ . ! ~ * ' ( )`; every other character is percent-encoded |
| `UriComponent.EncodeUriComponent` | src/gitlab-adapter.js:83 | every output character is unreserved, `%` or an upper-case hex digit; the output is between `n` and `12n` characters long |
| `UriComponent.PercentDecodeEncode` | src/gitlab-adapter.js:83 | percent-decoding the output gives the UTF-8 bytes of the input |
| `UriComponent.DecodeEncodeUriComponent` | src/gitlab-adapter.js:83 | `decodeURIComponent(encodeURIComponent(s)) == s` for every string |
| `UriComponent.EncodeUnreserved` | src/gitlab-adapter.js:83 | a string of unreserved characters is left as it is |
| `UriComponent.EncodeAppend` | src/gitlab-adapter.js:83 | encoding distributes over concatenation |
| `AdapterExamples.BranchBecomesRef` | src/gitlab-adapter.js:46-52 | `{branch: "main"}` becomes `{ref: "main"}`; `{}` gets no `ref` |
| `AdapterExamples.RepositoryExample` | src/gitlab-adapter.js:54-64 | `{name: "My Repo", private: true, autoInit: true}` becomes `{name: "My Repo", path: "my-repo", visibility: "private", initialize_with_readme: true}` |
| `AdapterExamples.PublicRepositoryExample` | src/gitlab-adapter.js:59 | `private: false` gives visibility `public` |
| `AdapterExamples.FileExample` | src/gitlab-adapter.js:66-73 | content `hello` is sent as `aGVsbG8=`, with `branch`, `commit_message` and `last_commit_id` taken from `branch`, `message` and `sha` |
| `AdapterExamples.FileEndpointExample` | src/gitlab-adapter.js:82-83 | owner `a`, repo `b`, path `dir/f.txt` give `/projects/a%2Fb/repository/files/dir%2Ff.txt` |
| `AdapterExamples.CreateRepositoryEndpoint` | src/gitlab-adapter.js:85-86 | repository creation goes to `/projects` |
| `AdapterExamples.UnsupportedEndpoint` | src/gitlab-adapter.js:91-92 | `delete_repository` fails with `Unsupported operation: delete_repository` |

## Left out

- The constructor (src/gitlab-adapter.js:10-38) is not modelled. It reads the token from the process environment, creates the log directory on disk and sets up the `axios` HTTP client. All of that is I/O or setup of a foreign library.
- The log lines written with `console.log` and `console.error` are not modelled. They are output only.
- The HTTP requests later sent through the client are not modelled. This includes the network, the `Private-Token` header and content negotiation.
- `Slug.LowerChar`: lower-cases only the ASCII letters `A`–`Z`. `toLowerCase` also maps non-ASCII letters, so for a name holding them the model's slug keeps those letters as they are. `\s` is modelled in full, with the ECMAScript whitespace and line-terminator set.
- `Slug.ToLowerCase`: maps only the ASCII letters, one character to one character. JavaScript's `toLowerCase` applies the full Unicode case mapping to the whole string: it also lower-cases non-ASCII letters, and some of them become more than one character (`İ`, U+0130, becomes `i` followed by U+0307), so the result can be longer than the input.
- `Slug.Slug`: inherits the ASCII-only lower-casing of `Slug.ToLowerCase`. For a name holding non-ASCII upper-case letters, the program's `path` has them lower-cased and the model's keeps them.
- `Slug.SlugShape`: its bound `|Slug(name)| <= |name|` holds for the ASCII-only model. The program's slug of a name holding a letter like `İ` is longer than the name.
- Parameter values are strings, booleans, `null` and `undefined`. Numbers, arrays and nested objects are not modelled. `Buffer.from` of an array or a buffer is one case this leaves out.
- Strings are sequences of Unicode scalar values. JavaScript strings may also hold lone surrogates, which `Buffer.from` replaces with U+FFFD and on which `encodeURIComponent` throws a `URIError`. The model cannot express them.
- Properties inherited from `Object.prototype` are not modelled. A parameter object is modelled by its own properties only.
- These members have no counterpart in the source: `Utf8.Decode`, `Utf8.DecodeChar`, `UriComponent.PercentDecode`, `UriComponent.DecodeUriComponent`, `Base64.Decode` (with `Base64.DecodeGroup` and `Base64.DecodeLast`), `GitLabAdapter.ParseFileEndpoint`, `GitLabAdapter.SplitAtSlash` and `GitLabAdapter.StripPrefix`, and the helpers only the decoders use: `Base64.ValueOf`, `Base64.Octets`, `UriComponent.HexValue` and `Utf8.IsContinuation`. They are the inverses and the endpoint parser that the round-trip properties are stated against.
