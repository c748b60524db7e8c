# SmartCalc expression pipeline in Dafny

SmartCalc lets a user draw a mathematical expression on a canvas. It sends a
PNG snapshot and the current variable bindings to a server route. The route
validates the request and asks a vision language model (Gemini) to solve the
drawing. It then turns the model's free text into a list of
`{expr, result, assign}` answers. The page renders each answer as LaTeX and
remembers assignments for the next run.

This project models the three parts of that pipeline that carry logic:

- **`schema.dfy`** (module `Schema`): the request validator
  `CalculateRequestSchema` of `lib/schema.ts`. A payload is a JSON value.
  `Validate` returns either the typed request or the set of zod issues.
- **`utils.dfy`** (module `Utils`): the post-processing in `analyzeImage` of
  `lib/utils.ts`. It covers the non-greedy bracket match, the line-feed strip,
  the `assign` rewrite and the three fixed failure lists. The model call
  enters as a `CallOutcome`: the reply text, or the string form of what the
  call threw. `JSON.parse` enters as a function `parse: string -> Option<Json>`
  supplied by the caller.
- **`page.dfy`** (module `Page`): the `Home` component of `app/page.tsx`. The
  class `Home` holds the state that the component changes. Its methods model
  the reset effect, the LaTeX append, and what `runRoute` does with the answers:
  the variable-map merge, then the alpha-channel bounding-box scan that places
  the results.
- `wrappers.dfy`, `json.dfy` and `types.dfy` hold the shared datatypes:
  `Option`/`Result`, JSON values, and `Response`/`GeneratedResult` from
  `types/index.ts`.
- `scenarios.dfy` (module `Scenarios`) follows the two example replies of
  the model prompt (lib/utils.ts:15-37) from the reply text to the client's
  variable map. The equation reply is laid out over several lines, as the
  prompt shows it, so the line-feed strip acts on it. A `Session` method
  then passes one request through `Validate`, and two replies through
  `AnalyzeImage`, the client's reading of the answers and `runRoute`, and
  ends with a reset. The model's reply and the parser's output remain
  parameters.

Where the code and what the field names and the model prompt suggest
differ, the model follows the code:

- The array is found from the first `[` to the first `]` after it. Brackets are
  not balanced, so `[[1],[2]]` yields `[[1]`.
- `assign` becomes "the key is present", not "the value is truthy".
  `"assign": false` therefore yields `true`.
- Entries are never dropped, and numbers are not turned into strings. Every
  key is passed on by the object spread.
- An empty array gives an empty list, not a failure.
- In the client, every update in the assignment loop spreads the map captured
  before the loop. Only the last assignment of a batch survives
  (`EarlierAssignmentLost`).

## Model

| member | source | states |
|---|---|---|
| `Schema.ImageIssues` | lib/schema.ts:4-7 | `image` raises no issue iff it is a string with the exact prefix `data:image/`. The custom issue "Must be a base64 encoded image" is raised iff it is a string without that prefix. There is at most one issue |
| `Schema.DictIssues` | lib/schema.ts:8 | `dict_of_vars` raises no issue iff it is an object whose values are all strings. Every issue lies under the `dict_of_vars` path |
| `Schema.StringValues` | lib/schema.ts:8 | The validated record has the same keys as the input, each bound to the input's string |
| `Schema.Validate` | lib/schema.ts:3-9 | A payload is accepted iff it is an object whose `image` is a string starting with `data:image/` and whose `dict_of_vars` holds only strings. On acceptance, `image` and `dict_of_vars` equal the input's. A rejection carries at least one issue. A payload that is not an object gets exactly one type issue at the root |
| `Schema.PrefixIssueExactly` | lib/schema.ts:5-7 | An object payload is rejected with the prefix message iff its `image` is a string without the case-sensitive prefix, whatever `dict_of_vars` holds |
| `Schema.ImageTypeIssue` | lib/schema.ts:4 | A missing or non-string `image` is rejected with a type issue on `image` |
| `Schema.DictIssueReported` | lib/schema.ts:8 | A missing or non-object `dict_of_vars`, or one with a non-string value, is rejected with an issue under `dict_of_vars` |
| `Schema.EmptyDictAndBarePrefixAccepted` | lib/schema.ts:5-8 | An empty `dict_of_vars` and the bare string `data:image/` are accepted and passed on unchanged. Extra keys are stripped |
| `Utils.IndexOf` | lib/utils.ts:54 | Returns the first position at or after `from` that holds the character, or reports that none does |
| `Utils.FindArray` | lib/utils.ts:54 | The match starts at the first `[` of the text and ends at the first `]` after it. No match exists iff no `[` is followed anywhere by a `]` |
| `Utils.MatchArray` | lib/utils.ts:54 | `match[0]` is the text between the two found positions, both brackets included. It is absent iff no span is found |
| `Utils.MatchShape` | lib/utils.ts:54 | The matched text starts with `[`, ends with `]`, and holds no other `]` |
| `Utils.MatchEmbedded` | lib/utils.ts:54 | An array preceded by prose without `[`, and holding no `]` before its end, is matched exactly, whatever follows it |
| `Utils.StripNewlines` | lib/utils.ts:63 | The result holds no line feed and is no longer than the input |
| `Utils.StripConcat` | lib/utils.ts:63 | Stripping distributes over concatenation, so the kept characters stay in order |
| `Utils.StripCounts` | lib/utils.ts:63 | Every character other than a line feed is kept exactly as often as it occurs. The length drops by the number of line feeds |
| `Utils.StripNoNewline` | lib/utils.ts:63 | Text without a line feed is left unchanged |
| `Utils.StripIdempotent` | lib/utils.ts:63 | Stripping twice is the same as stripping once |
| `Utils.IndexName` | lib/utils.ts:69 | The decimal name of an array index is a single character iff the index is below 10 |
| `Utils.IndexNameDigits` | lib/utils.ts:69 | The name of an array index is made of decimal digits only |
| `Utils.IndexNameInjective` | lib/utils.ts:69 | Distinct array indices get distinct property names |
| `Utils.SpreadArray` | lib/utils.ts:69 | Spreading an array gives exactly one property per index, named by its decimal form and holding that element. There is never an `assign` key |
| `Utils.ProcessAnswer` | lib/utils.ts:68-71 | For an object, the keys stay the same plus `assign`. Every other key keeps its value. `assign` is `true` iff the key was present, whatever its value. An array element becomes an object with exactly its index names plus `assign`, each index name holding its element, and `assign: false` |
| `Utils.ProcessAnswers` | lib/utils.ts:68-71 | `map` succeeds iff every element is an object or an array, because `in` throws otherwise. The output then has the same length and order, and each element is processed |
| `Utils.ErrorList` | lib/utils.ts:57-60 | A failure list is one object with exactly the keys `expr` and `result`, and no `assign` |
| `Utils.Interpret` | lib/utils.ts:66-82 | Every entry is an object. The list is empty iff the parser returned an empty array. When the parser returns an array whose elements are all objects or arrays, the list has its length and each element processed in place. Otherwise it is the "Invalid response format" list. It is never the "Could not parse expression" list |
| `Utils.ProcessText` | lib/utils.ts:53-82 | Every entry is an object. The result is the "Could not parse expression" list iff the reply has no `[` followed by a `]` |
| `Utils.AnalyzeImage` | lib/utils.ts:11-90 | Every entry is an object. A thrown call gives one entry whose `result` is "API error occurred". A reply gives the "Could not parse expression" list iff it has no `[` followed by a `]` |
| `Utils.NoArrayGivesParseError` | lib/utils.ts:54-61 | With no `[` followed by a `]`, the result is exactly `[{expr: "Error", result: "Could not parse expression"}]` |
| `Utils.ParserInput` | lib/utils.ts:63-67 | The parser receives the matched text with its line feeds removed |
| `Utils.AnswersPreserved` | lib/utils.ts:66-75 | After a successful parse of an array of objects, the output has the same length and order. Every key other than `assign`, including `expr` and `result`, is unchanged. `assign` records only whether the key was present |
| `Utils.EmptyArrayGivesNoAnswers` | lib/utils.ts:66-75 | A parsed empty array gives an empty answer list, not an error entry |
| `Utils.InvalidFormatExactly` | lib/utils.ts:66-81 | The result is `[{expr: "Error", result: "Invalid response format"}]` iff one of three things happens: parsing fails, the parsed value is not an array, or some element is neither an object nor an array |
| `Utils.ApiErrorContained` | lib/utils.ts:84-89 | A thrown call gives exactly one entry. Its `result` is "API error occurred" and its `expr` is "Error: " followed by the description of what was thrown |
| `Utils.OnlyObjects` | lib/utils.ts:53-89 | Every returned entry is an object. The list is empty only when the extracted array parsed as `[]` |
| `Page.AsResponse` | app/page.tsx:160-161 | An entry is read as a `Response` iff it is an object with string `expr` and `result`, which are carried over. It is an assignment iff its `assign` key is present and holds `true`, so an entry without the key is never one |
| `Page.ErrorEntryRead` | app/page.tsx:160-161 | Each failure list's entry is read as a non-assignment response carrying its `expr` and message |
| `Page.ProcessedAssignRead` | lib/utils.ts:68-71 | A processed object with string `expr` and `result` is read as an assignment iff the model's object had an `assign` key, even one whose value was `false` |
| `Page.MergeAsWritten` | app/page.tsx:160-167 | The map after a run keeps every name it had. At most one name is new. Every new or changed binding is the `expr` and `result` of an assignment entry of the batch. A batch without assignments leaves the map unchanged |
| `Page.LastAssignment` | app/page.tsx:160-167 | Finds the position of the batch's last entry with `assign` true, with no assignment after it. It is absent iff the batch has no assignment |
| `Page.MergeWithoutAssignment` | app/page.tsx:160-167 | A batch without an assignment entry leaves the variable map unchanged |
| `Page.MergeBindsLastOnly` | app/page.tsx:161-165 | After a run, the last assignment's `expr` is bound to its `result`. Every other name keeps its previous binding or stays absent |
| `Page.MergeIdempotent` | app/page.tsx:160-167 | Applying the same batch twice gives the same map as applying it once |
| `Page.EarlierAssignmentLost` | app/page.tsx:161-165 | An assignment followed by a later assignment to another name is missing from the client's map, while applying every assignment in turn would keep it |
| `Page.Latex` | app/page.tsx:77 | The LaTeX string is the prefix, the expression, ` = `, the answer, and the suffix, in that order. Its length is theirs plus 15 |
| `Page.LatexDetermines` | app/page.tsx:77 | For expressions of equal length, equal LaTeX strings come from equal expressions and answers |
| `Page.Center` | app/page.tsx:188-189 | Twice the centre is `min + max`. The centre lies between the bounds when they are ordered |
| `Page.PixelIndexInBounds` | app/page.tsx:176-179 | Every alpha index `(y*width+x)*4 + 3` that the scan reads lies inside the `4*width*height` bytes of the canvas |
| `Page.ScanInk` | app/page.tsx:169-186 | Every pixel with alpha > 0 lies in `[minX,maxX]×[minY,maxY]`, and each bound is reached by such a pixel. On a blank canvas the bounds stay at `width`, `height`, 0, 0 |
| `Page.ScanRow` | app/page.tsx:177-185 | After each row, every drawn pixel of the rows visited lies in the box. Before the first drawn pixel the box keeps its starting values, and afterwards each bound is reached by a drawn pixel |
| `Page.InkBoxUnique` | app/page.tsx:171-186 | The scan's postcondition determines the box: two boxes meeting it are equal |
| `Page.BlankCanvasCenter` | app/page.tsx:171-174 | On a blank canvas the results are placed at the middle of the canvas |
| `Page.Home.constructor` | app/page.tsx:15-19 | The state starts as an empty map, an empty LaTeX list, no result, the reset flag lowered, and position (10, 200) |
| `Page.Home.RequestReset` | app/page.tsx:268-269 | The Reset button raises the reset flag |
| `Page.Home.ResetEffect` | app/page.tsx:32-40 | When the flag is raised, the effect empties the LaTeX list, clears the result and the map, and lowers the flag. Otherwise nothing changes |
| `Page.Home.RenderLatexToCanvas` | app/page.tsx:76-79 | Appends exactly one LaTeX string at the end and leaves the earlier entries unchanged |
| `Page.Home.ApplyAssignments` | app/page.tsx:160-167 | The new map is the pre-run map with only the last assignment of the batch applied |
| `Page.Home.RunRoute` | app/page.tsx:145-191 | `runRoute` merges the map as above. On a canvas with width and height, it computes the ink bounding box and places the results at its centre. On a canvas with no width or no height, reading the pixels throws after the merge: no box is computed and the results stay where they were |
| `Scenarios.EmbeddedReply` | lib/utils.ts:53-75 | A reply array in prose reaches the parser with only its line feeds removed, when it has no inner `]` and no `[` before it. Its parsed objects come back one by one, in order |
| `Scenarios.EquationStrip` | lib/utils.ts:17-20 | The equation reply laid out over four lines reaches the parser as one line: the line feeds go, the indentation stays |
| `Scenarios.EquationRun` | lib/utils.ts:15-30 | The multi-line reply to "3x + 3 = 12" gives two entries in order, and only the second is an assignment. The empty map becomes `{"x": "3"}` |
| `Scenarios.AssignmentRun` | lib/utils.ts:32-33 | The reply to "x = 3", wrapped in prose and line feeds, gives one assignment entry. The map becomes `{"x": "3"}` |
| `Scenarios.NoArrayRun` | lib/utils.ts:54-61 | A reply without an array is read by the client as one non-assignment response carrying "Could not parse expression" |
| `Scenarios.FirstRequestAccepted` | lib/schema.ts:3-9 | A request with a PNG data URL and the empty map passes the schema unchanged |
| `Scenarios.RunAssignmentReply` | app/page.tsx:145-167 | A run on the assignment reply, from the reply text through `analyzeImage`, the client's reading and `runRoute`, turns the empty map into `{"x": "3"}` and leaves the rendered list and the reset flag alone |
| `Scenarios.RunNoArrayReply` | app/page.tsx:145-167 | A run on a reply without an array leaves the map, the rendered list and the reset flag as they were |

## Left out

- The Gemini call (lib/utils.ts:12-13, 39-50) is left out because it goes to a network service. It includes building the prompt with `JSON.stringify(dictOfVars)`, base64-encoding the image, and reading the API key from the environment. The model takes its outcome as the `CallOutcome` parameter.
- `JSON.parse` (lib/utils.ts:67) is left out because it is a library parser. It is the abstract `parse` parameter and may return any JSON value or fail.
- JSON objects are maps, so key order is not kept. It matters only for display. For the same reason zod issues form a set and not a list.
- JSON numbers are real numbers; floating-point rounding is not modelled.
- The zod issue texts for type errors are not modelled ("Required", "Expected string, received number"). Each issue records what was expected and what was received.
- `Page.AsResponse`: the client casts each answer to `Response` without checking it. An entry whose `expr` or `result` is not a string is outside the model of the client.
- The HTTP route in app/api/calculate/route.ts is left out because it is plumbing. This covers `req.json()`, decoding the data URI through `fetch(...).blob()`, `NextResponse`, status codes, CORS headers and the size limit.
- Drawing and erasing strokes, the cursor, the eraser radius, colour swatches, MathJax loading, clearing the canvas pixels (`resetCanvas`, the `clearRect` in `renderLatexToCanvas`) and dragging results are left out because they are rendering.
- The `setTimeout`-staggered `setResult` calls (app/page.tsx:192-199) and the effect that renders each new result (app/page.tsx:89-93) are left out because they are animation timing. `Page.Home.RenderLatexToCanvas` models what each such render appends.
- `Page.Home.RunRoute`: the variable map is captured when the run starts. A reset that lands while the request is in flight is not modelled, because the model has no concurrency.
- `cn` (lib/utils.ts:7-9) is left out because it is a wrapper around two styling libraries. Console output is left out because it has no effect on the results.
