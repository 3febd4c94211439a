# widdershins OpenAPI 3 conversion core, in Dafny

This project models the data-shaping core of widdershins' OpenAPI 3
converter (`openapi3.js`). That converter turns an OpenAPI 3 document into
Slate-style Markdown. The model covers the part that decides *what* is shown,
and leaves out how it is rendered:

- **table of contents** (`convertToToc`): every operation of `paths` is filed
  as a method record under its first tag (or `Default`). Its key is the
  `operationId`, or `method_path`, with `/` and spaces turned into `_`. A
  resource is described by the document's tag definition of that name.
- **parameters**: an operation's own parameters and its path item's shared
  ones are resolved one level through `$ref`. Shared parameters the
  operation overrides (same `name` and `in`) are dropped. A request body adds
  a synthetic version-2-style `body` parameter.
- **per-parameter shaping**: the `required` default, the display type
  (`safeType`), the short description and the long-description flag, and the
  enumerated name/value pairs.
- **example query strings**: the full one and the required-only one.
- **produced/consumed media types** and the **header list** of code samples.
- **authentication summary**: the requirements in force and the text naming
  each scheme's type with its scopes.
- **title line and blank-line collapse**: the document title line and the
  final collapse of three line breaks into two.

JavaScript objects are ordered key/value sequences (module `Assoc`). A JSON
pointer lookup is a function parameter returning `Option`, and a lookup that
fails is modelled as an error result (`UnresolvedReference`).
`encodeURIComponent` is also a parameter. A string value that may be missing
is an `Option<string>`, and its JavaScript truthiness is `Truthy` (present and
not empty).

Modules:

- `Optional`, `Strings` (split/join, last segment, first line) and
  `Trimming` (`trim`);
- `Assoc` and `Document`, which hold the document's datatypes;
- `Toc`, `Parameters`, `SafeType`, `Query`, `Headers`, `Security` and `Text`.

## Model

| member | source | states |
|---|---|---|
| Toc.ConvertToTocShape | openapi3.js:21-58 | the method filed under a tag and unique name is the last path/method entry with that tag and name; a resource exists exactly for the tags some operation uses; its description and externalDocs come from the last tag definition of that name |
| Toc.ConvertToTocKeysClean | openapi3.js:24-50 | no method key contains `/` or a space, and no method record points at the shared `parameters` key |
| Toc.EveryOperationFiled | openapi3.js:24-50 | every path/method entry other than `parameters` can be found under its tag and unique name |
| Toc.UniqueNameReplaces | openapi3.js:31-32 | the unique name is the operationId (or `method_path`) with exactly the `/` and space characters replaced by `_`, every other character kept in place |
| Toc.LastTagWins | openapi3.js:39-46 | the tag definition used is absent exactly when no definition has that name, and otherwise it is the last one with that name |
| Toc.LastFiledIsLast | openapi3.js:49-50 | a later operation with the same tag and key overwrites an earlier one: the record found is that of the last filing with that tag and key |
| Toc.ConvertToTocOrder | openapi3.js:37-50 | the resources, and so the document sections, come in the order in which their tag is first used by a path/method entry |
| Toc.BuildResources | openapi3.js:37-48 | after any prefix of the filings, a resource exists exactly for the tags filed so far, described as when it was created |
| Parameters.ResolveAll | openapi3.js:218-228 | resolution fails exactly when some `$ref` does not resolve; otherwise the list keeps its length, inline parameters stay and each reference is replaced by its target |
| Parameters.SurvivorsIff | openapi3.js:230-243 | a shared parameter survives exactly when no operation parameter has both its `name` and its `in` |
| Parameters.SurvivorsAppend | openapi3.js:241-243 | the filter keeps the relative order of the shared parameters: it distributes over concatenation |
| Parameters.SurvivorsCount | openapi3.js:241-243 | each shared parameter is kept as many times as it occurs, or dropped entirely when overridden |
| Parameters.MergeShape | openapi3.js:230-247 | the merged list is the non-overridden shared parameters followed by all operation parameters in order; membership holds exactly for those two kinds |
| Parameters.SharedOf | openapi3.js:215 | the shared parameters are the whole list under the path item's `parameters` key, and there are none without that key |
| Parameters.PathSharedParametersKept | openapi3.js:215-247 | every parameter under the path item's `parameters` key that an operation does not override reaches that operation's list, and so does each of the operation's own |
| Parameters.PathWithoutSharedParameters | openapi3.js:215 | a path item without a `parameters` key gives each operation the list it would have with no shared parameters |
| Parameters.MergeWithoutOperationParameters | openapi3.js:231 | without operation parameters every shared parameter is kept |
| Parameters.EffectiveParametersShape | openapi3.js:215-259 | the parameter list succeeds exactly when every reference resolves and a request body has a content type; it is then the merge, followed by exactly one `body` parameter when there is a request body |
| Parameters.FirstOperationAgrees | openapi3.js:230-243 | for the first operation of a path (no marks yet) the marking merge as written equals the intended merge and marks exactly the overridden shared parameters |
| Parameters.MarkOutlivesOperation | openapi3.js:230-243 | as written, a shared parameter overridden by any operation of a path is missing from every later operation of that path that has parameters but does not override it, whatever marks the path carried before; the intended merge keeps it there (see Findings) |
| Parameters.MarkOutlivesOperationExample | openapi3.js:230-243 | the concrete instance: shared `id`, a first operation declaring `id`, a second declaring only `limit`; as written the second list is `[limit]`, intended `[id, limit]` |
| Parameters.MergePathKeeps | openapi3.js:230-247 | under the intended merge each operation of a path holds exactly its own parameters and the shared ones it does not override itself, whatever the other operations declare |
| SafeType.RequiredDefaultIdempotent | openapi3.js:263 | applying the default again changes nothing |
| SafeType.ComputeSafeType | openapi3.js:264-278 | the step-by-step assignment yields the display type; a declared type other than `object`/`array` is kept; with no type, schema `$ref` or schema type it is `object` |
| SafeType.RefBeatsSchemaType | openapi3.js:265-271 | when the declared type does not decide, the last segment of the schema's `$ref` wins over the schema's type and holds no `/` |
| SafeType.SingleSuffix | openapi3.js:273-278 | a `[element]` suffix is added at most once, and only to a type that is exactly `array` |
| SafeType.ItemsTypeFirst | openapi3.js:273-277 | `items.type` is preferred over the schema's item `$ref` |
| SafeType.ShapeParameters | openapi3.js:261-278 | every parameter gets its `required` default and its display type, position by position |
| Query.AssembleQuery | openapi3.js:300-313 | the loop yields the query parameters and the required ones in order; each string is empty without parameters, otherwise `?` and the `name=value` pairs joined by `&` |
| Query.FiltersIff | openapi3.js:300-312 | a parameter is listed exactly when it is in `query`, and among the required ones exactly when it is also required |
| Query.QueryStringSnoc | openapi3.js:305-306 | appending a parameter adds `?` to an empty string or `&` otherwise, then its pair |
| Query.RequiredOfQuery | openapi3.js:308-312 | the required parameters are exactly the required ones among the query parameters |
| Query.AllRequiredSameString | openapi3.js:305-311 | when every query parameter is required, both strings coincide |
| Headers.Produces | openapi3.js:188-195 | the produced media types fail exactly when some response reference does not resolve; otherwise a media type is produced exactly when some response's `content` has it, and nothing is produced exactly when no response has content |
| Headers.ContentTypeIffResponseContent | openapi3.js:188-327 | a `Content-Type` header is made up exactly when some response of the operation has content |
| Headers.ProducesFirst | openapi3.js:188-195 | the first produced media type is the first key of the first response that has any content |
| Headers.AcceptMatchesBodyParameter | openapi3.js:180-296 | with a request body, something is consumed; the `Accept` media type is the content type whose schema the synthetic `body` parameter carries, and that parameter is the operation's `bodyParameter` |
| Headers.HeaderParametersIff | openapi3.js:297-299 | a parameter is a header parameter exactly when it is listed with `in: header` |
| Headers.BodyParameterIsLast | openapi3.js:294-296 | there is a body parameter exactly when some parameter is in `body`, and it is the last such parameter |
| Headers.AllHeadersShape | openapi3.js:317-337 | the header list is the header parameters in order; then a `Content-Type` header exactly when something is produced, carrying the first produced type and placed right after the header parameters; then an `Accept` header exactly when something is consumed, carrying the first consumed type and placed last |
| Security.OperationSecurityWins | openapi3.js:634-636 | an operation's own `security` decides alone, and an empty one switches authentication off whatever the document declares; an operation without one is shown as if it declared the document's list |
| Security.Definitions | openapi3.js:646-650 | the scheme definitions fail exactly when some requirement's scheme is not under `#/components/securitySchemes/`; otherwise there is one per requirement, in order |
| Security.AuthenticationShape | openapi3.js:634-661 | the no-authentication section is shown exactly when no requirement is in force; otherwise the section fails exactly when some scheme is missing, and it lists one definition per requirement |
| Security.AuthenticatedSummary | openapi3.js:645-661 | when every scheme has a non-empty type, the summary is the per-requirement items joined by `, ` |
| Security.ScopeListIsJoin | openapi3.js:653-658 | the scopes appear separated by single spaces, with one more space before the closing parenthesis |
| Text.VersionText | openapi3.js:81 | the version text always starts with `v` or `V`: the version as given when it does, `v` before it otherwise, `v?` when it is missing or empty |
| Text.VersionTextIdempotent | openapi3.js:81 | formatting an already formatted version changes nothing |
| Text.VersionTextRecoverable | openapi3.js:81 | the version given is the version text or the version text without its first character |
| Text.ShortDesc | openapi3.js:433 | the short description has no line break, and it is the description up to its first line break; it is `No description` without a description |
| Text.ShortDescWhole | openapi3.js:433 | a description without a line break is its own short description |
| Text.LongDescsIff | openapi3.js:430-434 | `longDescs` is set exactly when some parameter's description has a line break with non-space text on both sides |
| Text.LongDescriptionIff | openapi3.js:434 | a description counts as long exactly when some line break in it has non-space text on both sides |
| Text.EnumsIff | openapi3.js:438-453 | a name/value pair is listed exactly when some parameter of that name has the value in its `enum` or its `items.enum` |
| Text.EnumsLength | openapi3.js:438-453 | one pair per enumerated value: none dropped and none added |
| Text.CollapseLength | openapi3.js:691 | the collapse shortens the text by one character per replaced run of three line breaks |
| Text.CollapseKeeps | openapi3.js:691 | text without three line breaks in a row is left as it is |
| Text.CollapseSinglePass | openapi3.js:691 | the collapse is a single pass: four line breaks become three, which still hold a run of three |
| Strings.LastSegment | openapi3.js:270 | `split('/').pop()` holds no `/` and is the whole string or the text after some `/`; it is the whole string when there is no `/` |
| Strings.FirstLine | openapi3.js:433 | `split('\n')[0]` holds no line break and is a prefix of the string, followed by a line break when shorter |
| Trimming.TrimmedHasLineBreak | openapi3.js:434 | the trimmed text contains a line break exactly when some line break has non-space text on both sides |

## Left out

- Rendering: the doT templates, the template callbacks, `data.append` and all Markdown text built around the shaped data are not modelled. Only the data that reaches the templates is modelled.
- Example sampling (`openapi-sampler`) is not modelled. A sampled example enters the model as a value (`Query.Prepared.example`).
- `encodeURIComponent` is a function parameter of the query-string model, because it is a foreign routine.
- JSON pointer resolution (`jptr`) is a lookup parameter of each operation that needs it. The behaviour of openapi3.js when a pointer does not resolve depends on that foreign routine, so it is modelled as an `UnresolvedReference` error.
- References are resolved one level, as in openapi3.js. Writing the resolved object back into the document (aliasing between operations that share a referenced object) is not modelled, apart from the flag in Findings within one path. Because line 221 puts the referenced component itself into the shared list, that flag can also reach other paths that reference the same component; this wider reach is not modelled.
- Schema dereferencing, circular-reference detection, YAML/JSON serialisation of examples and schemas, the response status table, logging and the language-tab header are not modelled. They are output formatting or foreign libraries.
- The operation loop's skipping of keys that start with `x-` (openapi3.js:171) is not modelled. It affects which filed methods are later rendered. The table of contents files every path-item key but `parameters`, as openapi3.js:26 does, reading `operationId` and `tags` of an `x-` or other value too.
- JSON numbers are represented by integers only (`Document.Json.JNumber`). A fractional enum value or example such as `1.5` cannot be written; no modelled operation computes on numbers, they are only copied into the enumerated pairs or handed to `encodeURIComponent`.
- JavaScript's iteration order puts integer-like keys first. The model iterates every object in document order.
- Values of unexpected JSON types are not modelled: a `parameters` value on a path item that is not an array (the model then has no shared parameters), a non-boolean `required`, a non-string `version`, `title`, `type` or `$ref`, and non-array `tags`. A schema `$ref` that is the empty string counts as absent, as JavaScript truthiness makes it.
- An empty `$ref` on a parameter, request body or response cannot be written in the model: a `Ref`/`BodyRef` is always looked up. openapi3.js (lines 181, 190, 220, 225) keeps such an object inline, and it then has none of the fields the model gives a parameter or body.
- A tag whose name is a property of `Object.prototype` is not modelled. The model starts resources from an empty ordered map.
- `param.originalType` and the overwrite of `param.type` by the display type (openapi3.js:435-436) are not modelled. `SafeType.ShapeParameters` returns the display types alongside the parameters instead.
- Text.Title: only the version text carries a contract. The title is the document title, a space, and that text.
- Text.VersionText: the `toLowerCase()` test is modelled for the two letters `v` and `V` only, which are the only characters whose lower case is `v`.
- Security.AuthenticatedSummary: the summary is stated as a join only when every scheme's type is non-empty. With an empty type the `list ? ', ' : ''` test of openapi3.js skips a separator, and `Security.Summary` models that fold as written.

## Findings

| source | as written | input that shows it | evidently intended | confidence | as-written member | corrected member |
|---|---|---|---|---|---|---|
| openapi3.js:230-243 | an overridden shared parameter is marked with `x-widdershins-delete` on the path item's own parameter object; the clone on line 232 copies only the array, so the mark stays for the later operations of the same path | a path with shared parameter `id` in `query`, whose first operation declares `id` and whose second declares only `limit`: the second operation's list is `[limit]`; the same holds for any operation and any later one with parameters that does not override it | each operation drops only the shared parameters it overrides itself, so the second operation's list is `[id, limit]` | not executed | Parameters.MarkOutlivesOperation | Parameters.MergePath |
