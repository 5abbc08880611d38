# yapmc request templating and import, in Dafny

yapmc is a Swing desktop client for HTTP APIs. It keeps saved calls, each with a URL, a method, headers, a body map and an optional group. Named environments of variables fill `{{name}}` placeholders in those calls. Calls also arrive by pasting a cURL command or by importing a HAR capture. This project models the logic behind those features as pure functions over immutable data, and proves properties of it:

- **Placeholder substitution** (`Substitution`).
  - `substituteVariables` is modelled twice. One copy is the `find`/`appendReplacement`/`appendTail` loop as a method. The other is a reference definition: a tokenizer followed by a token-wise expansion. The method is proved to compute the reference.
  - The copy in `CallOutputFrame` is proved to be the same function (`CallOutputFrame`).
- **Executing a call** (`Execution`).
  - The guard that refuses a URL that still looks templated, with its message.
  - Substitution of header and body keys and values.
  - Dispatch on the upper-cased method, the body string and the default JSON content type.
  - The folding of every exception into a failed result with status 0.
  - The HTTP client's `send` is a function parameter. The request it receives is a record of what the builder was told.
- **cURL import** (`CurlNormalize`, `Curl`, `CurlName`).
  - Whitespace normalisation.
  - The URL, method, header and data extractors.
  - `parseJsonToMap`.
  - `generateName`.
  - Each regular expression is written as a scanner for one match position. `find()` is the leftmost position where that scanner succeeds (`Scan`).
- **HAR import** (`HarParser`, `ImportFrame`).
  - The tolerant `parseHar`/`parseEntry` pair.
  - The import dialog's own converter, which filters browser headers, uses `"body"` as its fallback key and never reads form parameters.
  - The rule that turns the file name into the call name.
  - JSON arrives already parsed as a `Json` datatype. Gson is an oracle record of functions (`Json`).
- **Small collection rules**:
  - the key/value row editor (`KeyValueInputGroup`);
  - the duplicate-free call list of a group (`ApiCallGroup`);
  - the sidebar's grouping and drag-and-drop regrouping (`UrlPanel`);
  - the data directory and the name-keyed environment store (`EnvironmentService`).
- **The output window's helpers** (`CallOutputFrame`): the JSON content-type test and the guards of the JSON pretty-printer.

Java's `HashMap` iteration order is not specified. Wherever a result depends on it, the order is a parameter `order` with `Pairs.IsOrderOf(order, m)`. `Pairs.OrderExists` shows that this excludes no map. Case mapping, trimming and white space follow the Java library restricted to ASCII (`Text`).

Two places where the behaviour of the code differs from what a reader of its comments would expect are modelled as the code behaves:

- `executeApiCall` sends an empty string, not `{}`, as the body of a POST, PUT or PATCH with an empty body map (`Execution.BodyContent`).
- `curl ... -d '{"a":"b"}'` does not yield the body `{a: b}`. The data pattern stops at the first quote of either kind, so the captured argument is `{`, which is not brace-wrapped. The body is therefore `{"data": "{"}` (`Curl.QuotedJsonDataExample`). More generally, a captured data argument never contains `"`, so the brace branch never yields pairs (`Curl.ExtractBody`).

## Model

Source paths are relative to the repository root.

| member | source | states |
|---|---|---|
| Substitution.PlaceholderKey | src/main/java/com/overzealouspelican/service/ApiCallService.java:283 | a match of `\{\{([^}]+)\}\}` at the front captures a non-empty key without `}` and covers exactly `{{key}}` |
| Substitution.PlaceholderKeyExact | src/main/java/com/overzealouspelican/service/ApiCallService.java:283 | every `{{k}}` with a non-empty `k` free of `}` is matched, with key `k` (the converse of PlaceholderKey) |
| Substitution.FindPlaceholder | src/main/java/com/overzealouspelican/service/ApiCallService.java:287 | `find()` from an index returns the leftmost match at or after it; the pattern matches nowhere before it, and nowhere at all when there is none |
| Substitution.SubstituteScan | src/main/java/com/overzealouspelican/service/ApiCallService.java:283-299 | the find/appendReplacement/appendTail loop computes the reference substitution `Resolve`: every token replaced independently |
| Substitution.ResolveStep | src/main/java/com/overzealouspelican/service/ApiCallService.java:287-295 | one loop step appends the text before the match plus the value or the placeholder itself, and the rest is substituted from just after the match |
| Substitution.ResolveTail | src/main/java/com/overzealouspelican/service/ApiCallService.java:297 | past the last match the remaining text is copied unchanged and no further names are captured |
| Substitution.SubstituteVariables | src/main/java/com/overzealouspelican/service/ApiCallService.java:278-300 | a null text or a null variable map is returned as it is; otherwise the result is the reference substitution |
| Substitution.TokenizeUnparse | src/main/java/com/overzealouspelican/service/ApiCallService.java:283-299 | the tokens of a text put back together give the text, so no character outside a placeholder is lost |
| Substitution.ExpandUnknown | src/main/java/com/overzealouspelican/service/ApiCallService.java:292-295 | tokens whose keys are all unbound expand to their original text |
| Substitution.ResolveIdentity | src/main/java/com/overzealouspelican/service/ApiCallService.java:289-295 | when no captured name is bound, substitution returns the input unchanged |
| Substitution.ResolveEmptyEnvironment | src/main/java/com/overzealouspelican/service/ApiCallService.java:289-295 | an empty variable map changes nothing |
| Substitution.ResolveLeadingPlaceholder | src/main/java/com/overzealouspelican/service/ApiCallService.java:288-295 | a leading placeholder becomes its value verbatim (or stays when unbound) and scanning continues in the input after it |
| Substitution.ResolveLiteralPrefix | src/main/java/com/overzealouspelican/service/ApiCallService.java:283-297 | text without `{` is copied through in front of the substituted rest |
| Substitution.NamesNonEmpty | src/main/java/com/overzealouspelican/service/ApiCallService.java:283 | every captured key is non-empty |
| Substitution.ExampleBearer | src/main/java/com/overzealouspelican/service/ApiCallService.java:289-291 | `Bearer {{token}}` becomes `Bearer ` followed by the token's value |
| Substitution.ExampleMissing | src/main/java/com/overzealouspelican/service/ApiCallService.java:292-295 | an unknown key keeps its placeholder |
| Substitution.ExampleNoRescan | src/main/java/com/overzealouspelican/service/ApiCallService.java:291 | an inserted value that looks like a placeholder is not substituted again |
| Execution.Dispatch | src/main/java/com/overzealouspelican/service/ApiCallService.java:208-244 | the verb is the one named by the upper-cased method, or GET when the name is none of the seven |
| Execution.DispatchName | src/main/java/com/overzealouspelican/service/ApiCallService.java:208-244 | every verb is reached from its own name in any letter case |
| Execution.Failed | src/main/java/com/overzealouspelican/service/ApiCallService.java:263-271 | the catch block's result: not a success, status 0, duration 0, no headers, body `Error: ` followed by the message |
| Execution.RewriteMap | src/main/java/com/overzealouspelican/service/ApiCallService.java:182-195 | putting rewritten entries into a new map: every rewritten key is present, and each carries the rewritten value of some key that rewrites to it |
| Execution.RewriteMapIdentity | src/main/java/com/overzealouspelican/service/ApiCallService.java:182-195 | a rewrite that changes no key or value copies the map |
| Execution.RewriteMapPointwise | src/main/java/com/overzealouspelican/service/ApiCallService.java:182-195 | when no other key collides with it, an entry maps to its rewritten entry |
| Execution.ResolveMapEntries | src/main/java/com/overzealouspelican/service/ApiCallService.java:181-195 | header and body keys and values are all substituted, and unresolved placeholders pass through |
| Execution.ResolveMapEmptyEnvironment | src/main/java/com/overzealouspelican/service/ApiCallService.java:181-195 | with an empty environment the header and body maps are unchanged, whatever the iteration order |
| Execution.BuildRequest | src/main/java/com/overzealouspelican/service/ApiCallService.java:181-246 | the request: resolved URL and headers, 30-second timeout, verb from dispatch; a body exactly for POST/PUT/PATCH; the JSON content type added exactly for those verbs when no resolved header is named `Content-Type` |
| Execution.BodyContent | src/main/java/com/overzealouspelican/service/ApiCallService.java:305-310 | an empty body map gives the empty string, not `{}`; any other map Gson's serialisation |
| Execution.Received | src/main/java/com/overzealouspelican/service/ApiCallService.java:254-271 | a response is copied with no error; an exception becomes the catch block's result; the result is a success iff the send answered with a 2xx status |
| Execution.ExecuteApiCall | src/main/java/com/overzealouspelican/service/ApiCallService.java:156-273 | a URL still templated after substitution fails with the list of its placeholders; otherwise the request sent has the dispatched verb and the resolved URL, and the result is what the send did: a success iff the URL passed and the answer was 2xx |
| Execution.AppendNamesJoins | src/main/java/com/overzealouspelican/service/ApiCallService.java:170-174 | the StringBuilder loop joins non-empty names with `, ` |
| Execution.UnresolvedMessageNames | src/main/java/com/overzealouspelican/service/ApiCallService.java:168-178 | the refusal message lists the names the pattern finds, comma-separated, then the available keys |
| Execution.TemplatedUrlNeverSent | src/main/java/com/overzealouspelican/service/ApiCallService.java:166-179 | a resolved URL containing both `{{` and `}}` fails whatever the client would do, so nothing is sent |
| Execution.SuccessMeansAnswered | src/main/java/com/overzealouspelican/service/ApiCallService.java:255-261 | a successful result means the URL passed the guard and the client answered with a 2xx status |
| Execution.EmptyEnvironmentRequest | src/main/java/com/overzealouspelican/service/ApiCallService.java:181-209 | with no variables the request carries the saved URL, headers and body map unchanged |
| Execution.ClosingBeforeOpening | src/main/java/com/overzealouspelican/service/ApiCallService.java:167-174 | `}}` before `{{` with no placeholder between is refused, with an empty list of names |
| CurlNormalize.Collapse | src/main/java/com/overzealouspelican/util/CurlParser.java:26 | every white-space run becomes one space: the result holds no other white space and no two spaces in a row, and starts with a space exactly when the input starts with white space |
| CurlNormalize.CollapseIsStepwise | src/main/java/com/overzealouspelican/util/CurlParser.java:26 | collapsing equals the character-by-character rewrite: a white-space character right after white space is dropped, the first of a run becomes a space, every other character is copied |
| CurlNormalize.CollapseKeepsOthers | src/main/java/com/overzealouspelican/util/CurlParser.java:26 | collapsing keeps every non-white-space character, in order: filtering them out of the result gives those of the input |
| CurlNormalize.CollapseExample | src/main/java/com/overzealouspelican/util/CurlParser.java:26 | `a`, two spaces, a tab and `b` collapse to `a b` |
| CurlNormalize.StripContinuations | src/main/java/com/overzealouspelican/util/CurlParser.java:25 | removing backslash-newline continuations never lengthens the command; `StripIsReplaceAll` ties it to the matcher loop |
| CurlNormalize.StripIsReplaceAll | src/main/java/com/overzealouspelican/util/CurlParser.java:25 | the character-by-character rewrite equals `replaceAll` as the matcher runs it: find the leftmost backslash whose following white-space run holds a newline, copy the text before it, write one space, go on after the run, copy the rest when no match is left |
| CurlNormalize.StripAppend | src/main/java/com/overzealouspelican/util/CurlParser.java:25 | two pieces joined where no backslash's white-space run crosses the join are rewritten piece by piece |
| CurlNormalize.ContinuationReplaced | src/main/java/com/overzealouspelican/util/CurlParser.java:25 | after any text, a backslash followed by white space holding a newline becomes a single space; the text before and after it is rewritten on its own |
| CurlNormalize.StripKeeps | src/main/java/com/overzealouspelican/util/CurlParser.java:25 | removing continuations keeps every character that is neither white space nor a backslash, in order |
| CurlNormalize.TrimCollapsed | src/main/java/com/overzealouspelican/util/CurlParser.java:26-27 | trimming collapsed text leaves it collapsed, with no newline and no white space at either end |
| CurlNormalize.TrimKeepsOthers | src/main/java/com/overzealouspelican/util/CurlParser.java:27 | trimming keeps every character that is not trimmable, in order |
| CurlNormalize.NormalizeKeeps | src/main/java/com/overzealouspelican/util/CurlParser.java:24-27 | a command already trimmed and collapsed is its own normal form |
| CurlNormalize.Normalize | src/main/java/com/overzealouspelican/util/CurlParser.java:24-27 | the normalised command is the trim of the collapse of `replaceAll` as the matcher runs it; it is trimmed and collapsed, no longer than the input, and holds exactly the input's visible characters (neither white space nor backslash) in their order |
| CurlNormalize.NormalizeJoin | src/main/java/com/overzealouspelican/util/CurlParser.java:24-27 | between two words, the separator is normalised on its own and the words are normalised on their own |
| CurlNormalize.SpaceBetweenWords | src/main/java/com/overzealouspelican/util/CurlParser.java:24-27 | words separated by any non-empty white-space run come out separated by exactly one space |
| CurlNormalize.ContinuationBetweenWords | src/main/java/com/overzealouspelican/util/CurlParser.java:24-27 | words separated by a backslash and white space holding a newline come out separated by exactly one space |
| CurlNormalize.BackslashKept | src/main/java/com/overzealouspelican/util/CurlParser.java:24-27 | a backslash whose white space holds no newline stays, followed by one space when any white space followed it |
| CurlNormalize.NormalizeSpacesExample | src/main/java/com/overzealouspelican/util/CurlParser.java:24-27 | two spaces between one-character words become one |
| CurlNormalize.NormalizeBackslashExample | src/main/java/com/overzealouspelican/util/CurlParser.java:24-27 | a backslash directly between words stays |
| CurlNormalize.NormalizeContinuationExample | src/main/java/com/overzealouspelican/util/CurlParser.java:24-27 | a backslash, a newline and indentation between words become one space |
| CurlNormalize.StripContinuationsKeeps | src/main/java/com/overzealouspelican/util/CurlParser.java:25 | text without a newline comes out of the continuation rewrite unchanged |
| CurlNormalize.CollapseKeeps | src/main/java/com/overzealouspelican/util/CurlParser.java:26 | collapsed text is a fixed point of collapsing |
| CurlNormalize.NormalizeIdempotent | src/main/java/com/overzealouspelican/util/CurlParser.java:24-27 | normalising twice is normalising once |
| Curl.UrlAt | src/main/java/com/overzealouspelican/util/CurlParser.java:59 | a URL match starts with `curl` and captures a non-empty URL |
| Curl.QuotedAt | src/main/java/com/overzealouspelican/util/CurlParser.java:59 | a quoted argument opens and closes with a quote of either kind and captures the non-empty quote-free text between them |
| Curl.ExtractUrl | src/main/java/com/overzealouspelican/util/CurlParser.java:57-71 | a URL is found iff the pattern matches somewhere, and then it is the capture of the leftmost match |
| Curl.ExtractUrlBare | src/main/java/com/overzealouspelican/util/CurlParser.java:59-67 | a bare URL right after `curl ` is taken up to the next white space or `-` |
| Curl.ExtractUrlQuoted | src/main/java/com/overzealouspelican/util/CurlParser.java:59-67 | a quoted URL right after `curl ` is taken between the quotes, which may be of different kinds |
| Curl.OptionBeforeUrlFails | src/main/java/com/overzealouspelican/util/CurlParser.java:59-70 | an option right after `curl` leaves no URL |
| Curl.MethodAt | src/main/java/com/overzealouspelican/util/CurlParser.java:78 | a method match captures a non-empty run of ASCII letters |
| Curl.ExtractMethod | src/main/java/com/overzealouspelican/util/CurlParser.java:76-96 | the leftmost `-X`/`--request` capture upper-cased; without one, POST iff the text contains `-d ` or `--data`, else GET |
| Curl.ExplicitMethod | src/main/java/com/overzealouspelican/util/CurlParser.java:78-87 | an explicit `-X m` after text without `-` yields `m` upper-cased |
| Curl.HeaderAt | src/main/java/com/overzealouspelican/util/CurlParser.java:105 | a `-H`/`--header` match ends after its start and captures a non-empty quote-free argument |
| Curl.HeaderArgs | src/main/java/com/overzealouspelican/util/CurlParser.java:105-113 | every captured header argument is non-empty and free of quotes |
| Curl.SplitHeader | src/main/java/com/overzealouspelican/util/CurlParser.java:116-121 | an argument splits iff its first colon is at an index above 0, into the trimmed parts before and after that colon |
| Curl.HeaderPairs | src/main/java/com/overzealouspelican/util/CurlParser.java:114-121 | the pairs put are exactly the splits of the arguments that split |
| Curl.SplitsAppend | src/main/java/com/overzealouspelican/util/CurlParser.java:108-121 | pairing keeps the argument order, for any split: the pairs of two runs of arguments are those of the first followed by those of the second |
| Curl.SplitsPosition | src/main/java/com/overzealouspelican/util/CurlParser.java:108-121 | the pair of an argument that splits sits right after the pairs of the arguments before it, so the pairs follow the arguments' order |
| Curl.LastHeaderWins | src/main/java/com/overzealouspelican/util/CurlParser.java:114-121 | for each key, the map holds the value of the last argument that splits to it |
| Curl.ExtractHeaders | src/main/java/com/overzealouspelican/util/CurlParser.java:101-126 | every argument that splits contributes its key, every entry is the key and value of some argument that splits, and a later duplicate key overwrites an earlier one |
| Curl.DataAt | src/main/java/com/overzealouspelican/util/CurlParser.java:135 | a `-d`/`--data` match captures a non-empty quote-free argument |
| Curl.FirstData | src/main/java/com/overzealouspelican/util/CurlParser.java:135-143 | only the leftmost data match is used; its capture is non-empty and free of quotes |
| Curl.ExtractBody | src/main/java/com/overzealouspelican/util/CurlParser.java:131-157 | no data gives an empty body; unwrapped data is stored under `data`; brace-wrapped data always gives an empty body, since the capture holds no `"` |
| Curl.ParseJsonToMap | src/main/java/com/overzealouspelican/util/CurlParser.java:162-183 | a pair can only be found in text that contains `"` |
| Curl.JsonPairAt | src/main/java/com/overzealouspelican/util/CurlParser.java:167 | a key/value match starts at a `"` and ends after its start |
| Curl.JsonPairs | src/main/java/com/overzealouspelican/util/CurlParser.java:170-181 | the find loop can only collect pairs from text that contains `"` |
| Curl.ParseJsonToMapPair | src/main/java/com/overzealouspelican/util/CurlParser.java:162-183 | `{"k":"v"}` gives exactly the trimmed pair |
| Curl.JsonPairAtQuoted | src/main/java/com/overzealouspelican/util/CurlParser.java:167-180 | the pair pattern on `"k":"v"` captures the trimmed key and value and ends after the closing quote |
| Curl.QuotedJsonDataExample | src/main/java/com/overzealouspelican/util/CurlParser.java:135-152 | `-d '{"a":"b"}'` yields the body `{"data": "{"}` |
| Curl.ParseCurl | src/main/java/com/overzealouspelican/util/CurlParser.java:18-52 | blank commands and commands without a URL are refused with their own errors; otherwise the call has the extracted URL, method, headers and body, with no name and no group |
| CurlName.SchemeEnd | src/main/java/com/overzealouspelican/util/CurlParser.java:195 | `https?://` matches at an index only where `http` starts, ending just after `://` |
| CurlName.LazyEnd | src/main/java/com/overzealouspelican/util/CurlParser.java:195 | the lazy `(.+?)` ends at the first position where `\?` or `$` matches, with no line terminator crossed |
| CurlName.LazyEndAt | src/main/java/com/overzealouspelican/util/CurlParser.java:195 | the lazy group ends at the first stop position reached without crossing a line terminator |
| CurlName.PathAt | src/main/java/com/overzealouspelican/util/CurlParser.java:195 | a path capture is non-empty and holds no line terminator |
| CurlName.PathAtStart | src/main/java/com/overzealouspelican/util/CurlParser.java:195-199 | `scheme host / path ?query` captures exactly `path` |
| CurlName.FindPath | src/main/java/com/overzealouspelican/util/CurlParser.java:195-199 | a found path is non-empty |
| CurlName.HostAt | src/main/java/com/overzealouspelican/util/CurlParser.java:225 | a host capture is non-empty and holds no `/` |
| CurlName.SplitJoin | src/main/java/com/overzealouspelican/util/CurlParser.java:201 | the pieces between slashes joined with `/` give the path back |
| CurlName.SplitAll | src/main/java/com/overzealouspelican/util/CurlParser.java:201 | splitting at every `/` gives at least one piece, none containing `/` |
| CurlName.Split | src/main/java/com/overzealouspelican/util/CurlParser.java:201 | `split("/")` drops trailing empty pieces, so a non-empty result ends in a non-empty segment |
| CurlName.SplitLast | src/main/java/com/overzealouspelican/util/CurlParser.java:201-203 | the last segment of `dirs/seg` is `seg` |
| CurlName.SplitEmptyIffSlashes | src/main/java/com/overzealouspelican/util/CurlParser.java:201-202 | `split("/")` of a non-empty path has no segments exactly when the path is all slashes |
| CurlName.Spaced | src/main/java/com/overzealouspelican/util/CurlParser.java:205 | every `-` and `_` becomes a space; nothing else changes |
| CurlName.TitleFrom | src/main/java/com/overzealouspelican/util/CurlParser.java:207-219 | a character is upper-cased exactly when it is not white space and starts a word |
| CurlName.TitleCase | src/main/java/com/overzealouspelican/util/CurlParser.java:207-219 | the first character of every word is upper-cased and all others are kept |
| CurlName.GenerateName | src/main/java/com/overzealouspelican/util/CurlParser.java:188-235 | the name is never empty; an empty URL gives `Imported cURL`; without a path match the host or `Imported cURL` |
| CurlName.HostOrDefault | src/main/java/com/overzealouspelican/util/CurlParser.java:224-234 | the host capture when there is one, else `Imported cURL`; never empty |
| CurlName.NameFromLastSegment | src/main/java/com/overzealouspelican/util/CurlParser.java:195-220 | `scheme host / dirs seg ?query` is named after `seg` in Title Case with `-` and `_` as spaces |
| CurlName.NameOfPath | src/main/java/com/overzealouspelican/util/CurlParser.java:198-220 | a found path with segments names the call after its last segment |
| CurlName.NameFromHost | src/main/java/com/overzealouspelican/util/CurlParser.java:225-229 | a URL that is only scheme and host is named after the host |
| CurlName.NoColonDefault | src/main/java/com/overzealouspelican/util/CurlParser.java:234 | text without a colon is named `Imported cURL` |
| HarParser.PutAll | src/main/java/com/overzealouspelican/util/HarParser.java:88-99 | reading name/value items into a map succeeds iff every item reads |
| HarParser.PutAllKeys | src/main/java/com/overzealouspelican/util/HarParser.java:88-99 | the map holds exactly the kept names that some item reads |
| HarParser.PutAllLastWins | src/main/java/com/overzealouspelican/util/HarParser.java:91-97 | the last item read with a kept name decides that name's value |
| HarParser.ReadNameValue | src/main/java/com/overzealouspelican/util/HarParser.java:92-94 | absent `name` and `value` both default to the empty string; a non-object item fails |
| HarParser.NamedValuesMap | src/main/java/com/overzealouspelican/util/HarParser.java:88-99 | headers with an empty or absent name are dropped, and a later duplicate overwrites |
| HarParser.ObjectBody | src/main/java/com/overzealouspelican/util/HarParser.java:112-116 | the body holds each top-level key with its primitive string or its JSON text |
| HarParser.TextBody | src/main/java/com/overzealouspelican/util/HarParser.java:106-123 | brace-wrapped text that parses as an object gives its members; all other text gives `{"data": text}` |
| HarParser.RequestBody | src/main/java/com/overzealouspelican/util/HarParser.java:101-136 | no `postData` gives an empty body |
| HarParser.ParseEntry | src/main/java/com/overzealouspelican/util/HarParser.java:72-150 | an entry converts iff it has a `request` object whose `method` and `url` are absent or read as strings, whose URL is non-empty, and whose headers and body read; the call then has that URL, that method (GET when absent), the headers read (none when absent), the body read, the name `generateName(url)` and no group |
| HarParser.Collect | src/main/java/com/overzealouspelican/util/HarParser.java:45-56 | the result holds only converted entries and every one of them, and it is empty iff no entry converts |
| HarParser.CollectAppend | src/main/java/com/overzealouspelican/util/HarParser.java:45-56 | the results of two runs of entries concatenate, so entry order is kept |
| HarParser.FirstConverted | src/main/java/com/overzealouspelican/util/HarParser.java:45-56 | the first converting entry gives the first result |
| HarParser.EntriesOf | src/main/java/com/overzealouspelican/util/HarParser.java:30-42 | a structural failure is one of: not parsed, no `log` object, no `entries` array |
| HarParser.ParseHar | src/main/java/com/overzealouspelican/util/HarParser.java:22-67 | blank content is refused; structural errors are passed on; a parsed document with at least one convertible entry succeeds, and a success is exactly the converted entries in entry order, non-empty, with every call named after its URL; `NoValidRequests` iff no entry converts |
| HarParser.CollectedNamed | src/main/java/com/overzealouspelican/util/HarParser.java:45-56 | every call the entry loop collects has a non-empty URL and is named after it |
| HarParser.ParseHarKeepsOrder | src/main/java/com/overzealouspelican/util/HarParser.java:45-56 | the calls of the entries of a first run come before those of a second run |
| HarParser.UrlOnlyEntry | src/main/java/com/overzealouspelican/util/HarParser.java:77-149 | a request with only a URL gives method GET, no headers and no body |
| HarParser.EmptyUrlSkipped | src/main/java/com/overzealouspelican/util/HarParser.java:81-85 | a request with an empty URL is skipped |
| ImportFrame.SecPrefixSkipped | src/main/java/com/overzealouspelican/frame/ImportFrame.java:299-314 | every header whose name starts with `sec-`, in any case, is skipped |
| ImportFrame.SkippedAndKept | src/main/java/com/overzealouspelican/frame/ImportFrame.java:299-314 | browser headers such as User-Agent and Host are skipped in any case; Content-Type, Authorization and Accept are kept |
| ImportFrame.SkipIgnoresCase | src/main/java/com/overzealouspelican/frame/ImportFrame.java:299-315 | the browser-header filter ignores letter case |
| ImportFrame.ReadHeader | src/main/java/com/overzealouspelican/frame/ImportFrame.java:265-267 | a header reads only when both `name` and `value` are present |
| ImportFrame.StringMembers | src/main/java/com/overzealouspelican/frame/ImportFrame.java:286-288 | the members put before the first one without a string form, each with its string; the flag says whether all were put |
| ImportFrame.TextBody | src/main/java/com/overzealouspelican/frame/ImportFrame.java:284-292 | text that does not parse to an object is kept whole under `body` |
| ImportFrame.TextBodyComplete | src/main/java/com/overzealouspelican/frame/ImportFrame.java:284-288 | when every member has a string form, the body holds exactly the object's members by their strings |
| ImportFrame.TextBodyFallback | src/main/java/com/overzealouspelican/frame/ImportFrame.java:286-292 | a member without a string form puts the raw text under `body`; every other key comes from a member whose string form is its value |
| ImportFrame.TextBodyFallbackKeeps | src/main/java/com/overzealouspelican/frame/ImportFrame.java:286-292 | a member without a string form keeps every pair put before it, each with its own value unless its key is `body` |
| ImportFrame.ConvertHarToApiCall | src/main/java/com/overzealouspelican/frame/ImportFrame.java:255-297 | the call has the given name, the request's `url` and `method`, no group, and empty headers or body when those parts are absent |
| ImportFrame.ConvertedHeaders | src/main/java/com/overzealouspelican/frame/ImportFrame.java:261-274 | the headers are exactly the names the filter keeps, and the last duplicate wins |
| ImportFrame.ParamsIgnored | src/main/java/com/overzealouspelican/frame/ImportFrame.java:277-294 | without `postData.text` the body is empty: form parameters are never read |
| ImportFrame.StripExtension | src/main/java/com/overzealouspelican/frame/ImportFrame.java:218 | either the name is unchanged, or a prefix remains and what was cut is a dot followed by non-dots up to the end |
| ImportFrame.StripExtensionRoundTrip | src/main/java/com/overzealouspelican/frame/ImportFrame.java:218 | `base.ext` loses exactly `.ext` |
| ImportFrame.NoDotKept | src/main/java/com/overzealouspelican/frame/ImportFrame.java:218 | a name without a dot is kept |
| ImportFrame.PerformImport | src/main/java/com/overzealouspelican/frame/ImportFrame.java:189-253 | no file and no selected entry are reported; with both, the import fails exactly when the selected entry's request does not convert; a saved call is that conversion, named after the file; the import is declined exactly when the converted name is saved already and the overwrite is refused |
| ImportFrame.ImportSavesSelected | src/main/java/com/overzealouspelican/frame/ImportFrame.java:208-237 | importing entry `i` from `base.ext`, with no clash or a confirmed overwrite, saves the conversion of that entry's request under the name `base` |
| CallOutputFrame.SubstitutedIsResolve | src/main/java/com/overzealouspelican/frame/CallOutputFrame.java:156-178 | the output window's substitution computes the reference substitution |
| CallOutputFrame.SameAsService | src/main/java/com/overzealouspelican/frame/CallOutputFrame.java:156-178 | both copies of `substituteVariables` compute the same function, null passthrough included |
| CallOutputFrame.BareMediaTypeNotJson | src/main/java/com/overzealouspelican/frame/CallOutputFrame.java:183-192 | a missing response is not JSON, and neither is a bare `application/json` without a `content-type:` name |
| CallOutputFrame.JsonContentTypeIgnoresCase | src/main/java/com/overzealouspelican/frame/CallOutputFrame.java:189-191 | the JSON content-type test ignores letter case |
| CallOutputFrame.JsonHeaderLine | src/main/java/com/overzealouspelican/frame/CallOutputFrame.java:183-192 | a response with a `Content-Type: application/json` line anywhere is treated as JSON |
| CallOutputFrame.PrettyText | src/main/java/com/overzealouspelican/frame/CallOutputFrame.java:197-228 | text without the marker is unchanged; any change keeps the text before the first marker and the marker, and follows a printable body that parsed; a printable body that parses is replaced by Gson's pretty form |
| CallOutputFrame.JsonBodyPrettyPrinted | src/main/java/com/overzealouspelican/frame/CallOutputFrame.java:197-228 | a trimmed JSON body after the first marker is pretty-printed and the head is kept |
| CallOutputFrame.PrettyPrintJson | src/main/java/com/overzealouspelican/frame/CallOutputFrame.java:197-228 | a null response stays null; any other response is `PrettyText` of it |
| CallOutputFrame.ErrorBodyUnchanged | src/main/java/com/overzealouspelican/frame/CallOutputFrame.java:209-215 | a response whose body part starts with `Error: ` is shown as it is |
| CallOutputFrame.MarkerFirstAfter | src/main/java/com/overzealouspelican/frame/CallOutputFrame.java:204 | the body is split off at the first marker, after a head that holds none |
| KeyValueInputGroup.AddRow | src/main/java/com/overzealouspelican/component/KeyValueInputGroup.java:101-149 | an empty row with a fresh remove button is appended to all three lists |
| KeyValueInputGroup.Initial | src/main/java/com/overzealouspelican/component/KeyValueInputGroup.java:23-33 | a new group has a single empty row |
| KeyValueInputGroup.RemoveRow | src/main/java/com/overzealouspelican/component/KeyValueInputGroup.java:124-130 | a pressed button's row leaves all three lists at the same index, the others keep their order, and the lists stay parallel |
| KeyValueInputGroup.IndexOf | src/main/java/com/overzealouspelican/component/KeyValueInputGroup.java:125 | `indexOf` gives the first index holding the button, or -1 exactly when it is absent |
| KeyValueInputGroup.CollectKeys | src/main/java/com/overzealouspelican/component/KeyValueInputGroup.java:151-162 | the collected keys are exactly the trimmed keys of rows whose trimmed key and value are both non-empty |
| KeyValueInputGroup.CollectLastWins | src/main/java/com/overzealouspelican/component/KeyValueInputGroup.java:153-159 | the last row that counts with a key supplies its trimmed value |
| KeyValueInputGroup.CollectNone | src/main/java/com/overzealouspelican/component/KeyValueInputGroup.java:151-162 | rows that all fail the filter give an empty map |
| KeyValueInputGroup.CollectClean | src/main/java/com/overzealouspelican/component/KeyValueInputGroup.java:151-162 | distinct, trimmed, non-empty rows are collected exactly |
| KeyValueInputGroup.CollectOrdered | src/main/java/com/overzealouspelican/component/KeyValueInputGroup.java:151-178 | the rows written from a clean map in iteration order collect back to the map |
| KeyValueInputGroup.FieldText | src/main/java/com/overzealouspelican/component/KeyValueInputGroup.java:175-176 | a text field given a string holds it with every newline turned into a space, and holds no newline |
| KeyValueInputGroup.FieldTextsKeep | src/main/java/com/overzealouspelican/component/KeyValueInputGroup.java:175-176 | texts without a newline enter their fields unchanged |
| KeyValueInputGroup.SetKeyValuePairs | src/main/java/com/overzealouspelican/component/KeyValueInputGroup.java:164-183 | an empty map leaves one empty row; otherwise one row per entry in iteration order, each key and value as its field holds it |
| KeyValueInputGroup.SetKeepsClean | src/main/java/com/overzealouspelican/component/KeyValueInputGroup.java:164-183 | a map free of newlines enters the rows unchanged: the keys are the iteration order and the values its entries |
| KeyValueInputGroup.GetKeyValuePairs | src/main/java/com/overzealouspelican/component/KeyValueInputGroup.java:151-162 | the keys are exactly the trimmed keys of rows whose trimmed key and value are both non-empty, and each maps to the trimmed value of the last such row |
| KeyValueInputGroup.EditedRowCollected | src/main/java/com/overzealouspelican/component/KeyValueInputGroup.java:151-162 | text typed into a row, as the field holds it, is collected trimmed under its trimmed key unless a later counting row has the same key |
| KeyValueInputGroup.Clear | src/main/java/com/overzealouspelican/component/KeyValueInputGroup.java:185-193 | one empty row remains |
| KeyValueInputGroup.ClearCollectsNothing | src/main/java/com/overzealouspelican/component/KeyValueInputGroup.java:185-193 | after clearing, the collected map is empty |
| KeyValueInputGroup.SetGetRoundTrip | src/main/java/com/overzealouspelican/component/KeyValueInputGroup.java:151-179 | writing a map with non-empty, already trimmed, newline-free keys and values and reading it back gives the map |
| KeyValueInputGroup.NewlineComesBackAsSpace | src/main/java/com/overzealouspelican/component/KeyValueInputGroup.java:151-179 | a value holding a newline comes back with a space in its place, so the round trip needs newline-free text |
| ApiCallGroup.Unnamed | src/main/java/com/overzealouspelican/model/ApiCallGroup.java:14-17 | a new group has no name and no calls, and is expanded |
| ApiCallGroup.Named | src/main/java/com/overzealouspelican/model/ApiCallGroup.java:19-23 | a new named group has no calls and is expanded |
| ApiCallGroup.Add | src/main/java/com/overzealouspelican/model/ApiCallGroup.java:41-45 | a name is appended only when absent, so the list stays duplicate-free and becomes non-empty |
| ApiCallGroup.Remove | src/main/java/com/overzealouspelican/model/ApiCallGroup.java:47-49 | the first occurrence is deleted and the rest keep their order; on a duplicate-free list the name is then gone |
| ApiCallGroup.AddRemoveInverse | src/main/java/com/overzealouspelican/model/ApiCallGroup.java:41-49 | adding a new name and removing it restores the group |
| ApiCallGroup.EmptyAfterRemove | src/main/java/com/overzealouspelican/model/ApiCallGroup.java:47-61 | after removing a name, a duplicate-free group is empty exactly when that name was its only one or it was empty already |
| ApiCallGroup.RemoveAddMovesLast | src/main/java/com/overzealouspelican/model/ApiCallGroup.java:41-49 | removing and re-adding a name keeps the same names and moves it to the end |
| ApiCallGroup.SetNames | src/main/java/com/overzealouspelican/model/ApiCallGroup.java:37-39 | null gives an empty list; any other list is taken as it is; the group's name and expanded state are unchanged |
| ApiCallGroup.SetNamesKeepsRepeats | src/main/java/com/overzealouspelican/model/ApiCallGroup.java:37-39 | a list with a repeat breaks the duplicate-free invariant |
| UrlPanel.GroupKey | src/main/java/com/overzealouspelican/panel/UrlPanel.java:102-104 | a call is listed under its group iff that is non-null and not blank |
| UrlPanel.Partitioned | src/main/java/com/overzealouspelican/panel/UrlPanel.java:97-109 | the group names are distinct and each group has at least one call |
| UrlPanel.PartitionGroups | src/main/java/com/overzealouspelican/panel/UrlPanel.java:100-109 | a group is listed iff some call uses it, with exactly its calls in map order |
| UrlPanel.PartitionUngrouped | src/main/java/com/overzealouspelican/panel/UrlPanel.java:100-109 | the ungrouped list holds exactly the calls without a group, in map order |
| UrlPanel.FirstAppearanceOrder | src/main/java/com/overzealouspelican/panel/UrlPanel.java:97-109 | groups are listed in the order their first call appears |
| UrlPanel.PartitionIsPermutation | src/main/java/com/overzealouspelican/panel/UrlPanel.java:97-109 | every call lands in exactly one place |
| UrlPanel.EveryCallListedOnce | src/main/java/com/overzealouspelican/panel/UrlPanel.java:92-132 | with no group collapsed, the listed items are the saved calls, each exactly once |
| UrlPanel.CollapsedHidesMembers | src/main/java/com/overzealouspelican/panel/UrlPanel.java:115-122 | a collapsed group shows its header and none of its calls |
| UrlPanel.ExpandedRowsAreFlatten | src/main/java/com/overzealouspelican/panel/UrlPanel.java:112-123 | with every group expanded, the listed calls are the groups' calls in group order |
| UrlPanel.HeaderListed | src/main/java/com/overzealouspelican/panel/UrlPanel.java:112-117 | every listed group gets a header with its call count and state |
| UrlPanel.HeadersFromNames | src/main/java/com/overzealouspelican/panel/UrlPanel.java:112-123 | every header among the group rows belongs to a listed group |
| UrlPanel.LoadApiCallsList | src/main/java/com/overzealouspelican/panel/UrlPanel.java:92-134 | the headers are exactly the groups some call uses, each with its call count and state, and the list ends with the ungrouped calls in map order |
| UrlPanel.Toggle | src/main/java/com/overzealouspelican/panel/UrlPanel.java:157 | a click flips its group's state, with expanded as the default, and no other |
| UrlPanel.AddToGroup | src/main/java/com/overzealouspelican/panel/UrlPanel.java:349-358 | an unknown name changes nothing; a listed call gets the group and is saved under its name |
| UrlPanel.Save | src/main/java/com/overzealouspelican/service/ApiCallService.java:115-119 | a named call is stored under its name, replacing any old one; an unnamed call changes nothing |
| UrlPanel.HandleDrop | src/main/java/com/overzealouspelican/panel/UrlPanel.java:270-347 | the drop is ignored iff a call is dropped on itself or a name is unknown; it is refused iff both groups are non-null and differ; it is declined iff neither call has a usable group and the answer is missing or blank |
| UrlPanel.DropJoinsGroups | src/main/java/com/overzealouspelican/panel/UrlPanel.java:316-335 | a regrouping puts both calls in one non-blank group and touches nothing else: the target's group when it has one, else the dragged call's, else the answer |
| UrlPanel.AnswerOnlyForUngrouped | src/main/java/com/overzealouspelican/panel/UrlPanel.java:316-330 | the new-group answer matters only when neither call has a usable group |
| EnvironmentService.DataDirectory | src/main/java/com/overzealouspelican/service/EnvironmentService.java:41-66 | a non-empty custom location wins; otherwise APPDATA/YAPMC or home/AppData/Roaming/YAPMC on Windows, home/Library/Application Support/YAPMC on a Mac, home/.yapmc elsewhere |
| EnvironmentService.EnvironmentsPath | src/main/java/com/overzealouspelican/service/EnvironmentService.java:34 | the file `environments.json` sits directly in the data directory |
| EnvironmentService.OsMentionsIgnoresCase | src/main/java/com/overzealouspelican/service/EnvironmentService.java:50 | the platform test ignores the letter case of the OS name |
| EnvironmentService.MacOsX | src/main/java/com/overzealouspelican/service/EnvironmentService.java:59-61 | `Mac OS X` selects the Library folder |
| EnvironmentService.CustomLocationWins | src/main/java/com/overzealouspelican/service/EnvironmentService.java:43-46 | a custom location is used whatever the platform |
| EnvironmentService.Save | src/main/java/com/overzealouspelican/service/EnvironmentService.java:115-119 | an environment is inserted or replaced under its name; the others are unchanged |
| EnvironmentService.Load | src/main/java/com/overzealouspelican/service/EnvironmentService.java:124-127 | a name loads iff it is stored, and gives the stored environment |
| EnvironmentService.Delete | src/main/java/com/overzealouspelican/service/EnvironmentService.java:132-136 | only the named entry is removed |
| EnvironmentService.ExistsIffLoads | src/main/java/com/overzealouspelican/service/EnvironmentService.java:141-144 | a name exists exactly when it loads |
| EnvironmentService.LoadAfterSave | src/main/java/com/overzealouspelican/service/EnvironmentService.java:115-127 | a saved environment loads back as saved and exists |
| EnvironmentService.DeleteUndoesSave | src/main/java/com/overzealouspelican/service/EnvironmentService.java:115-136 | saving then deleting a name is deleting it |
| EnvironmentService.LoadAfterDelete | src/main/java/com/overzealouspelican/service/EnvironmentService.java:124-144 | after a delete the name is gone and the other names load as before |
| EnvironmentService.SaveOverwrites | src/main/java/com/overzealouspelican/service/EnvironmentService.java:115-119 | saving twice under one name keeps only the second |
| Pairs.ToMap | src/main/java/com/overzealouspelican/util/CurlParser.java:120 | `put` in a loop: the keys are the keys of the pairs, and each value is that of some pair with the key |
| Pairs.ToMapLastWins | src/main/java/com/overzealouspelican/util/CurlParser.java:120 | `put` in a loop: the last pair with a key decides its value |
| Pairs.EntriesRoundTrip | src/main/java/com/overzealouspelican/component/KeyValueInputGroup.java:173-178 | copying a map entry by entry, in any iteration order, gives it back |
| Json.Get | src/main/java/com/overzealouspelican/util/HarParser.java:80-81 | a member is found iff the key occurs, with the value of its last occurrence |
| Json.Entries | src/main/java/com/overzealouspelican/util/HarParser.java:113-114 | a parsed object iterates each key once, with the value `get` returns |
| Json.AsString | src/main/java/com/overzealouspelican/frame/ImportFrame.java:287 | `getAsString` succeeds on primitives and fails on null and objects |
| Text.Trim | src/main/java/com/overzealouspelican/util/CurlParser.java:27 | the trimmed text is an infix with no character at or below U+0020 at either end, and only such characters were removed |
| Text.TrimEmptyIffBlank | src/main/java/com/overzealouspelican/util/CurlParser.java:19 | `trim().isEmpty()` holds exactly for blank text |

## Left out

- The network: `httpClient.send` is a function parameter returning a response or an exception message. Timing is whatever that answer reports, and `URI.create` and header validation errors are folded into it.
- Gson: parsing, serialisation and pretty printing are the function fields of `Json.Gson`. Their escaping and layout are not modelled.
- `null` exception messages: `Error: null` is not modelled; the message is a string.
- Regular expressions in general: only the specific patterns of the core are modelled, as explicit scanners.
- File persistence: reading and writing `environments.json` and `api-calls.json`, read and write errors, and directory creation. The stores are maps.
- `System.getProperty`, `System.getenv` and the custom storage setting: these are parameters of `EnvironmentService.DataDirectory`, and the path is a sequence of segments. `File.getName` is also left out: `ImportFrame.PerformImport` receives the base name as a parameter.
- Swing: layout, dialogs, the console logging and event wiring. A dialog's answer is a parameter, as in `UrlPanel.HandleDrop` and `ImportFrame.PerformImport`.
- Concurrency and observers: the background thread that runs a call, and the application state's change notification.
- `loadHarFile` in the import dialog: it only fills the entry selector for display.
- ImportFrame.PerformImport: receives the `log.entries` array that `loadHarFile` already read as a parameter; reading `log` and `entries` a second time inside the try block is not modelled.
- `formatResponse` and its stack trace: display text.
- Unicode: case mapping, `trim` and white space are modelled on ASCII only, as `Text` states.
- The order of `HashMap` iteration: it is a parameter wherever a result depends on it.
- CallOutputFrame.PrettyText: the empty-input guard is not stated in the contract; it is only in the body, because an empty text has no marker anyway.
- CallOutputFrame.SubstituteVariables: its own contract says only that both inputs present give a result. The value is stated by CallOutputFrame.SameAsService.
- UrlPanel.AddToGroup: the saved call's key is its name, so the contract assumes every stored call is keyed by its own name (`Keyed`), as saveApiCall leaves the store. A call without a name is not a valid key and is not modelled.
- UrlPanel.Save: a call without a name would be stored under the `null` key; the model leaves the store unchanged, because every call that reaches it has a name.
- KeyValueInputGroup.SetGetRoundTrip: holds only for keys and values without a newline, because a single-line text field turns each newline into a space; `NewlineComesBackAsSpace` shows the trip that fails.
- ApiCallGroup.SetNames: it can break the duplicate-free invariant, as the source does; `SetNamesKeepsRepeats` shows it.
- HarParser.EntriesOf: the message Gson attaches to a parse failure is not modelled; only the prefix of the wrapped message is.
- Calls with a null URL or method read from a hand-edited file are not modelled: both importers always set them.
