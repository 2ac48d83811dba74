# openapi-fetch-angular: parameter serialization and request preparation

This is a Dafny model of the parameter-serialization engine of
`openapi-fetch-angular`, plus the option handling its `OpenAPIClientService`
does before each request.

The serializer module (`openapi-serializer.ts`) is modelled in full, except for
`convertHeaders`:
- the three OpenAPI style encoders: `serializePrimitiveParam`,
  `serializeArrayParam` and `serializeObjectParam`;
- the query serializer built by `createQuerySerializer`;
- the right-biased header merge `mergeHeaders`;
- the placeholder substitution of `defaultPathSerializer`;
- URL assembly in `createFinalURL`.

From the service (`openapi-client.service.ts`), the model covers:
- how the constructor resolves the client options: the base URL, the base
  headers and the global query serializer;
- how `coreFetch` picks the query serializer, merges headers and request
  options, and builds the arguments of the HTTP request;
- what each verb wrapper (`get`, `put`, …, `trace`) passes to `coreFetch`.

Where the source loops over state, the model loops too: `while` loops, proved
equal to recursive specification functions. These are the constructor,
`coreFetch`, `mergeHeaders`, the explode loops, the query loop and the
replace-first loop of the path serializer. The lemmas then state what those
functions do. Examples:
- round trips through a reference query decoder;
- failure exactly on nested values;
- header and option precedence;
- the OpenAPI style-table examples.

Modules:
- `Wrappers`: Option and Result. The only error is the one
  `serializePrimitiveParam` throws for a nested array or object.
- `Strings`: join, split, startsWith, endsWith and indexOf.
- `JsValues`: parameter values (undefined, null, scalar text, array, plain
  object), `String()` coercion, and `for…in` enumeration. Enumerating an
  array gives the keys "0", "1", ….
- `Records`: objects as insertion-ordered key/value sequences.
  - `r[k] = v` keeps an existing key in place.
  - `{...a, ...b}` is the same key-by-key copy.
- `UriComponent`: `encodeURIComponent` (UTF-8, then `%XX` for everything
  outside the unreserved set) and a matching `decodeURIComponent`.
- `QueryDecoding`: a reference reader for `name=value&…` strings.
- `Encoders`: the three style encoders.
- `EncoderLaws`: what the encoders promise.
- `QuerySerialization`: `createQuerySerializer`.
- `HeaderMerge`: `mergeHeaders`.
- `PathSerialization`: `defaultPathSerializer`, with `String.prototype.replace`
  and its `$` patterns.
- `FinalUrl`: `createFinalURL`.
- `Client`: the service class.
- `ClientLaws`: what the service promises.

## Behaviour as written

The model follows the code. In these places the code's behaviour is easy to
misread:

- **Nullish headers are kept.** `mergeHeaders` copies null and undefined
  values like any other. A later null overrides an earlier value
  (`HeaderMerge.NullOverrides`). Only `convertHeaders`, which is not part of
  this model, drops them.
- **`params.headers` is read, `params.header` is not.** `coreFetch` merges
  `params.headers`. The `header` record of the OpenAPI parameter object has
  no effect (`ClientLaws.ParamsHeaderIgnored`).
- **An empty array is not the empty string.** With explode=false it still
  gives its prefix (`id=` for form). With explode=true it gives the leading
  joiner for label and matrix. An empty fragment is still joined with `&`
  (`QuerySerialization.EmptyFragmentIsKept`).
- **Unlisted styles fall back.**
  - The joiner tables fall back to `,` or `&`.
  - There is a switch default.
  - In an exploded array, only simple and label bypass
    `serializePrimitiveParam`.
- **Simple and label path values are inserted without encoding.** Matrix
  values go through `serializePrimitiveParam` and get a `;` in front.
- **Replacement text goes through `replace`.** `$&`, `$$`, `` $` `` and `$'`
  in a value are expanded (`PathSerialization.DollarPatternExample`).
- **Braces in the base URL are substituted too.** The base URL is joined to
  the path before path substitution.
- **Base URL normalisation happens once.** Exactly one trailing `/` is removed,
  in the constructor and not per call.
- **A substitution can create a placeholder that a later one replaces.** Each
  match is replaced at its first occurrence in the URL as rewritten so far. In
  `{{a}}/{x}` with a = `x` and x = `X`, the first replacement gives `{x}/{x}`, and
  the second then replaces the new `{x}` at the front: the result is `X/{x}`,
  not `{x}/X` (`PathSerialization.ReplacementCreatesMatch`). Values free of
  `{`, `}` and `$` do not rule this out.
- **`undefined` is a value for the query option merge.** A request option
  written as `array: undefined` or `allowReserved: undefined` still replaces the
  client's member in `{...global, ...request}`, so createQuerySerializer falls
  back to its defaults (`ClientLaws.UndefinedMemberOverrides`).
- **A global serializer function is dropped when request options are given.**
  If the client was given a serializer function and a request passes
  serializer options, the request options are used alone.

## Model

Paths are relative to `projects/openapi-fetch-angular/src/lib/`.

| member | source | states |
|---|---|---|
| Encoders.SerializePrimitiveParam | projects/openapi-fetch-angular/src/lib/openapi-serializer.ts:126-142 | fails exactly for an array or object value; undefined and null give ""; a scalar gives text starting with `name=`; with allowReserved the text after `name=` is the value unchanged |
| Encoders.PrimitiveValueDecodes | projects/openapi-fetch-angular/src/lib/openapi-serializer.ts:139-141 | the text after `name=` decodes back to the scalar |
| EncoderLaws.PrimitiveRoundTrip | projects/openapi-fetch-angular/src/lib/openapi-serializer.ts:139-141 | for a plain name, the fragment reads back as the single pair (name, value) |
| Encoders.SerializeArrayParam | projects/openapi-fetch-angular/src/lib/openapi-serializer.ts:50-124 | the method's result equals the array-encoding specification, both branches, the prefix switch and the joiner tables with their fallbacks |
| Encoders.ExplodeItems | projects/openapi-fetch-angular/src/lib/openapi-serializer.ts:110-119 | the explode loop pushes one entry per element (piece for simple/label, primitive fragment otherwise) or stops with the first error |
| EncoderLaws.ExplodedEntriesFailure | projects/openapi-fetch-angular/src/lib/openapi-serializer.ts:111-119 | the explode loop fails if and only if the style is not simple or label and some element is an array or object |
| EncoderLaws.ExplodedEntriesAt | projects/openapi-fetch-angular/src/lib/openapi-serializer.ts:111-119 | on success, entry i is exactly what element i contributes |
| EncoderLaws.ArrayParamFailsIffNested | projects/openapi-fetch-angular/src/lib/openapi-serializer.ts:65-123 | serializeArrayParam fails if and only if the value is an array, explode is on, the style is not simple or label, and some element is nested |
| EncoderLaws.EmptyArray | projects/openapi-fetch-angular/src/lib/openapi-serializer.ts:69-123 | an empty array gives the explode=false prefix, and with explode only the leading joiner of label or matrix |
| EncoderLaws.FlatArrayRoundTrip | projects/openapi-fetch-angular/src/lib/openapi-serializer.ts:69-99 | for every style but spaceDelimited the joiner is one character; splitting the text after the prefix on it gives back the encoded pieces, and each decodes to its element's text |
| EncoderLaws.SpaceDelimitedIsAmbiguous | projects/openapi-fetch-angular/src/lib/openapi-serializer.ts:70-83 | the `%20` joiner makes `["a b"]` and `["a","b"]` encode alike (`id=a%20b`) |
| EncoderLaws.SimpleExplodeMatchesFlat | projects/openapi-fetch-angular/src/lib/openapi-serializer.ts:69-123 | for simple style explode makes no difference, for any value |
| EncoderLaws.ExplodedTextEntries | projects/openapi-fetch-angular/src/lib/openapi-serializer.ts:111-119 | exploded scalars under a non-simple, non-label style give `name=encodeURIComponent(v)` per element, in order |
| EncoderLaws.ExplodedArrayRoundTrip | projects/openapi-fetch-angular/src/lib/openapi-serializer.ts:100-123 | form, spaceDelimited and pipeDelimited with explode read back as one (name, v) pair per element |
| EncoderLaws.ExplodedMatrixShape | projects/openapi-fetch-angular/src/lib/openapi-serializer.ts:100-123 | matrix with explode is `;` followed by the `;`-joined `name=v` fragments |
| EncoderLaws.FlatArrayExamples | projects/openapi-fetch-angular/src/lib/openapi-serializer.ts:69-99 | `[3,4,5]` gives `id=3,4,5` (form), `id=3\|4\|5` (pipeDelimited) and `3,4,5` (simple) |
| EncoderLaws.ExplodedArrayExamples | projects/openapi-fetch-angular/src/lib/openapi-serializer.ts:100-123 | `[3,4,5]` exploded gives `id=3&id=4&id=5` (form) and `;id=3;id=4;id=5` (matrix) |
| EncoderLaws.LabelArrayExample | projects/openapi-fetch-angular/src/lib/openapi-serializer.ts:111-122 | `[3,4,5]` exploded under label gives `.3.4.5` |
| Encoders.SerializeObjectParam | projects/openapi-fetch-angular/src/lib/openapi-serializer.ts:144-202 | the method's result equals the object-encoding specification: non-objects give "", then the explode=false branch or the explode loop, the joiner table and the label/matrix prefix |
| Encoders.FlattenFields | projects/openapi-fetch-angular/src/lib/openapi-serializer.ts:167-174 | the explode=false loop pushes each key and then its value's piece |
| Encoders.ExplodeFields | projects/openapi-fetch-angular/src/lib/openapi-serializer.ts:192-197 | the explode loop pushes one primitive fragment per property under its field name (`name[k]` for deepObject) or stops with the first error |
| EncoderLaws.FlatFieldsAt | projects/openapi-fetch-angular/src/lib/openapi-serializer.ts:167-174 | position 2i holds key i and position 2i+1 the piece of value i |
| EncoderLaws.ExplodedFieldsFailure | projects/openapi-fetch-angular/src/lib/openapi-serializer.ts:192-197 | the object explode loop fails if and only if some property holds an array or object |
| EncoderLaws.ExplodedFieldsAt | projects/openapi-fetch-angular/src/lib/openapi-serializer.ts:192-197 | on success, fragment i is property i serialized under its field name |
| EncoderLaws.ObjectParamFailsIffNested | projects/openapi-fetch-angular/src/lib/openapi-serializer.ts:153-202 | serializeObjectParam fails if and only if the value is an array or object, the explode=false branch is not taken, and some property is nested |
| EncoderLaws.NamedPairs | projects/openapi-fetch-angular/src/lib/openapi-serializer.ts:193 | pair i is property i under its field name (`name[k]` for deepObject, `k` otherwise) |
| EncoderLaws.ExplodedObjectFragments | projects/openapi-fetch-angular/src/lib/openapi-serializer.ts:192-201 | off the explode=false branch, scalar properties give their encoded named pairs, joined and prefixed per style |
| EncoderLaws.ExplodedObjectRoundTrip | projects/openapi-fetch-angular/src/lib/openapi-serializer.ts:192-201 | deepObject and exploded form read back as the (field name, value) pairs |
| EncoderLaws.FlatObjectRoundTrip | projects/openapi-fetch-angular/src/lib/openapi-serializer.ts:166-178 | form without explode is `name=` plus the `,`-joined list; splitting on `,` gives the list back, keys at even positions, values decoding back at odd ones |
| EncoderLaws.ExplodedObjectExamples | projects/openapi-fetch-angular/src/lib/openapi-serializer.ts:192-201 | `{a:1,b:2}` gives `obj[a]=1&obj[b]=2` (deepObject) and `.a=1.b=2` (label, explode) |
| EncoderLaws.FlatObjectExample | projects/openapi-fetch-angular/src/lib/openapi-serializer.ts:166-178 | `{a:1,b:2}` gives `obj=a,1,b,2` (form, no explode) |
| QuerySerialization.AllowReserved | projects/openapi-fetch-angular/src/lib/openapi-serializer.ts:27 | reserved characters are allowed exactly when the option is `true` |
| QuerySerialization.ArrayStyle | projects/openapi-fetch-angular/src/lib/openapi-serializer.ts:23-28 | arrays default to form with explode; a given `array` option replaces both |
| QuerySerialization.ObjectStyle | projects/openapi-fetch-angular/src/lib/openapi-serializer.ts:34-39 | objects default to deepObject with explode; a given `object` option replaces both |
| QuerySerialization.SerializeQuery | projects/openapi-fetch-angular/src/lib/openapi-serializer.ts:10-48 | the serializer's result equals the query specification: non-objects give "", nullish values are skipped, each other parameter's fragment is pushed and the fragments are `&`-joined |
| QuerySerialization.SerializeQueryParam | projects/openapi-fetch-angular/src/lib/openapi-serializer.ts:21-43 | a present parameter goes to the array encoder, the object encoder or the primitive encoder, with the resolved style and allowReserved |
| QuerySerialization.SearchFragmentsArePerParameter | projects/openapi-fetch-angular/src/lib/openapi-serializer.ts:16-44 | one fragment per non-nullish parameter, in key order, each that parameter's; failure if and only if one of them fails |
| QuerySerialization.ScalarQueryString | projects/openapi-fetch-angular/src/lib/openapi-serializer.ts:43-46 | with allowReserved off, a record of scalars gives `name=encodeURIComponent(value)` per property joined by `&` |
| QuerySerialization.ScalarQueryRoundTrip | projects/openapi-fetch-angular/src/lib/openapi-serializer.ts:13-47 | that query string reads back as the record's pairs |
| QuerySerialization.NonObjectQueryIsEmpty | projects/openapi-fetch-angular/src/lib/openapi-serializer.ts:15 | anything but an array or object gives the empty query |
| QuerySerialization.EmptyFragmentIsKept | projects/openapi-fetch-angular/src/lib/openapi-serializer.ts:46 | `{a: [], b: '1'}` gives `&b=1` |
| QuerySerialization.LimitExample | projects/openapi-fetch-angular/src/lib/openapi-client.service.spec.ts:76-84 | `{limit: '10'}` gives `limit=10` |
| QueryDecoding.ParseQueryOfEncodedPairs | projects/openapi-fetch-angular/src/lib/openapi-serializer.ts:46 | `&`-joined `name=encodeURIComponent(value)` fragments with plain names read back as the pairs |
| UriComponent.DecodeEncode | projects/openapi-fetch-angular/src/lib/openapi-serializer.ts:140 | decodeURIComponent undoes encodeURIComponent for every string |
| UriComponent.EncodeInjective | projects/openapi-fetch-angular/src/lib/openapi-serializer.ts:140 | distinct strings encode differently |
| UriComponent.EncodeIdentityIff | projects/openapi-fetch-angular/src/lib/openapi-serializer.ts:140 | encoding leaves a string unchanged if and only if all its characters are unreserved |
| UriComponent.EncodeConcat | projects/openapi-fetch-angular/src/lib/openapi-serializer.ts:82 | encoding distributes over concatenation |
| UriComponent.EncodedAlphabet | projects/openapi-fetch-angular/src/lib/openapi-serializer.ts:140 | the encoding holds only unreserved characters and `%` |
| UriComponent.EncodedExcludes | projects/openapi-fetch-angular/src/lib/openapi-serializer.ts:82 | a character neither unreserved nor `%` (such as `,`, `&`, `=`, `{`) never appears in an encoding |
| UriComponent.Utf8RoundTrip | projects/openapi-fetch-angular/src/lib/openapi-serializer.ts:140 | the UTF-8 bytes of a character have the length their lead byte announces and decode back to it |
| HeaderMerge.MergeHeaders | projects/openapi-fetch-angular/src/lib/openapi-serializer.ts:204-216 | the reduce loop builds the merge specification from an empty record, skipping undefined sources |
| HeaderMerge.MergedLookup | projects/openapi-fetch-angular/src/lib/openapi-serializer.ts:207-215 | a key is in the merge if and only if some present source has it, and its value is that of the last source having it, nullish or not |
| HeaderMerge.MergedKeysDistinct | projects/openapi-fetch-angular/src/lib/openapi-serializer.ts:211-213 | every key occurs once in the merge |
| HeaderMerge.MergedKeepsKeyOrder | projects/openapi-fetch-angular/src/lib/openapi-serializer.ts:211-213 | another source keeps the keys already merged in their order and appends new ones |
| HeaderMerge.NullOverrides | projects/openapi-fetch-angular/src/lib/openapi-serializer.ts:211-213 | a later null replaces an earlier value and the key stays |
| Records.GetAssign | projects/openapi-fetch-angular/src/lib/openapi-serializer.ts:211-213 | after the key-by-key copy a key takes the source's value if the source has it, otherwise keeps its own |
| Records.AssignKeepsKeyOrder | projects/openapi-fetch-angular/src/lib/openapi-serializer.ts:211-213 | the copy keeps the existing keys in order |
| JsValues.Enumerate | projects/openapi-fetch-angular/src/lib/openapi-serializer.ts:16 | `for…in` enumerates exactly arrays and objects, an object's own properties in order, an array's indices as keys |
| PathSerialization.MatchAt | projects/openapi-fetch-angular/src/lib/openapi-serializer.ts:8 | a match of the pattern is `{`, one or more characters other than braces, `}` |
| PathSerialization.ParsePlaceholder | projects/openapi-fetch-angular/src/lib/openapi-serializer.ts:233-252 | the style a match selects is simple, label or matrix |
| PathSerialization.ReadPlaceholder | projects/openapi-fetch-angular/src/lib/openapi-serializer.ts:233-252 | the loop body reads the name, explode flag and style that the placeholder specification gives |
| PathSerialization.ParsePlaceholderForms | projects/openapi-fetch-angular/src/lib/openapi-serializer.ts:242-252 | `{name}`, `{.name}`, `{;name}` and their `*` forms select that name, explode if and only if `*`, and the style the sigil names |
| PathSerialization.EncodePathValue | projects/openapi-fetch-angular/src/lib/openapi-serializer.ts:260-288 | arrays and objects go through their encoders with allowReserved off; matrix scalars as `;` plus the primitive fragment; label as `.` plus the text; simple as the text |
| PathSerialization.DefaultPathSerializer | projects/openapi-fetch-angular/src/lib/openapi-serializer.ts:227-292 | the loop equals the replace-first specification over the match list, skipping nullish or missing parameters and stopping at an encoder error |
| PathSerialization.LoopIsLeftToRightPass | projects/openapi-fetch-angular/src/lib/openapi-serializer.ts:231-291 | when every `{` opens a placeholder and no replacement holds `{` or `$`, the replace-first loop equals one left-to-right pass that replaces or keeps each placeholder in place |
| PathSerialization.KeptWhenAllSkipped | projects/openapi-fetch-angular/src/lib/openapi-serializer.ts:253-259 | when every match is skipped the URL comes back unchanged |
| PathSerialization.NoPathParamsIdentity | projects/openapi-fetch-angular/src/lib/openapi-serializer.ts:253-258 | without path parameters the template is returned as it is |
| PathSerialization.SinglePlaceholder | projects/openapi-fetch-angular/src/lib/openapi-serializer.ts:232-290 | a template with one placeholder between brace-free texts: the encoder's error, the template kept, or the placeholder replaced through replace's `$` patterns |
| PathSerialization.SinglePlaceholderReplaced | projects/openapi-fetch-angular/src/lib/openapi-serializer.ts:285-288 | with a `$`-free replacement the placeholder is replaced by exactly that text |
| PathSerialization.PlainSubstitution | projects/openapi-fetch-angular/src/lib/openapi-serializer.ts:285-288 | a simple placeholder whose parameter is a string is replaced by the string unencoded |
| PathSerialization.SimplePathExample | projects/openapi-fetch-angular/src/lib/openapi-client.service.spec.ts:50-58 | `/blogposts/{post_id}` with post_id `123` gives `/blogposts/123` |
| PathSerialization.MissingPathParamExample | projects/openapi-fetch-angular/src/lib/openapi-client.service.spec.ts:44-48 | an empty path record leaves `/blogposts/{post_id}` as it is |
| PathSerialization.MatrixPathExample | projects/openapi-fetch-angular/src/lib/openapi-serializer.ts:278-283 | `/items/{;id}` with id `42` gives `/items/;id=42` |
| PathSerialization.MatchedPlaceholderKept | projects/openapi-fetch-angular/src/lib/openapi-serializer.ts:285-288 | a replacement text `$&` puts the placeholder back |
| PathSerialization.DollarPatternExample | projects/openapi-fetch-angular/src/lib/openapi-serializer.ts:285-288 | `/{a}` with a = `$&` stays `/{a}` |
| PathSerialization.ReplacementCreatesMatch | projects/openapi-fetch-angular/src/lib/openapi-serializer.ts:231-291 | in `{{a}}/{x}` with a = `x` and x = `X`, the loop gives `X/{x}` and the left-to-right pass `{x}/X`: the first replacement makes a new `{x}`, which the second replace hits first |
| FinalUrl.CreateFinalURL | projects/openapi-fetch-angular/src/lib/openapi-serializer.ts:294-317 | the method's result equals the URL specification: base URL plus path (substituted if a path record is given), then `?` and the query with one leading `?` removed, if that query is non-empty |
| FinalUrl.QueryOrEmpty | projects/openapi-fetch-angular/src/lib/openapi-serializer.ts:309 | a missing, undefined or null query is the empty object; any other query is passed as it is |
| FinalUrl.NullishQueryIsEmpty | projects/openapi-fetch-angular/src/lib/openapi-serializer.ts:309 | an undefined or null query gives the same URL as no query, for every serializer |
| FinalUrl.StripQuestionMark | projects/openapi-fetch-angular/src/lib/openapi-serializer.ts:310-312 | a leading `?` put back gives the input; otherwise the input is unchanged |
| FinalUrl.FinalURLShape | projects/openapi-fetch-angular/src/lib/openapi-serializer.ts:305-316 | success if and only if the path part and the query succeed; the URL starts with the path part; it equals it if and only if the query is empty; otherwise `?` and the query follow |
| FinalUrl.PathPartWithoutPathRecord | projects/openapi-fetch-angular/src/lib/openapi-serializer.ts:305-308 | without a path record the path part is base URL plus path |
| FinalUrl.NoParamsBareURL | projects/openapi-fetch-angular/src/lib/openapi-serializer.ts:305-316 | no params with a created serializer gives the bare URL |
| FinalUrl.LeadingQuestionMarkStripped | projects/openapi-fetch-angular/src/lib/openapi-serializer.ts:310-312 | a custom serializer's `??a` becomes `?a` after the added `?`: only one `?` is removed |
| FinalUrl.QueryReadsBack | projects/openapi-fetch-angular/src/lib/openapi-serializer.ts:305-316 | with scalar query values under plain names, the text after the path part's `?` reads back as the query record |
| FinalUrl.LimitURLExample | projects/openapi-fetch-angular/src/lib/openapi-client.service.spec.ts:76-84 | `/query-params` with `{limit: '10'}` gives `/query-params?limit=10` |
| Client.NormalizeBaseUrl | projects/openapi-fetch-angular/src/lib/openapi-client.service.ts:39-48 | an absent base URL is ""; one ending in `/` loses exactly that `/`; any other is kept |
| ClientLaws.OneTrailingSlashRemoved | projects/openapi-fetch-angular/src/lib/openapi-client.service.ts:46-48 | a base URL with one `/` appended comes back as it was |
| Client.OpenAPIClientService.constructor | projects/openapi-fetch-angular/src/lib/openapi-client.service.ts:37-49 | the service keeps the normalized base URL, the global serializer, the client headers merged over the default headers, and the remaining options |
| ClientLaws.BaseHeadersLookup | projects/openapi-fetch-angular/src/lib/openapi-client.service.ts:49 | a base header takes the client's value if the client has it, else the default |
| Client.MergeOptions | projects/openapi-fetch-angular/src/lib/openapi-client.service.ts:67-72 | each member present in the request options, `undefined` included, replaces the global one; missing members keep the global one |
| Client.MemberValue | projects/openapi-fetch-angular/src/lib/openapi-serializer.ts:23-39 | createQuerySerializer reads a member as given exactly when it holds a value; `undefined` reads as missing |
| ClientLaws.UndefinedMemberOverrides | projects/openapi-fetch-angular/src/lib/openapi-client.service.ts:67-72 | a request `array: undefined` and `allowReserved: undefined` override global ones, giving form/explode arrays and allowReserved off |
| ClientLaws.UndefinedReadsAsAbsent | projects/openapi-fetch-angular/src/lib/openapi-serializer.ts:23-39 | for createQuerySerializer alone, a member written as `undefined` is the same as a missing one |
| ClientLaws.MergeOptionsIdentity | projects/openapi-fetch-angular/src/lib/openapi-client.service.ts:67-72 | the empty options record is an identity of the merge on both sides |
| ClientLaws.MergeOptionsAssociative | projects/openapi-fetch-angular/src/lib/openapi-client.service.ts:67-72 | the merge is associative |
| ClientLaws.GlobalSerializerUsed | projects/openapi-fetch-angular/src/lib/openapi-client.service.ts:59-62 | without a request serializer, a global function is used as it is and global options, or none, go through createQuerySerializer |
| ClientLaws.RequestFunctionWins | projects/openapi-fetch-angular/src/lib/openapi-client.service.ts:63-66 | a request serializer function replaces the global one |
| ClientLaws.RequestOptionsMerged | projects/openapi-fetch-angular/src/lib/openapi-client.service.ts:63-72 | request options are merged over global options, and used alone when the global is a function or absent |
| ClientLaws.ShallowMergeExample | projects/openapi-fetch-angular/src/lib/openapi-client.service.ts:67-72 | a request `array` replaces the global one while the global `object` and `allowReserved` survive |
| Client.OpenAPIClientService.CoreFetch | projects/openapi-fetch-angular/src/lib/openapi-client.service.ts:51-86 | the method's result equals the request specification: options defaulted, serializer selected, headers merged, options spread, URL built, method and body read from the spread options |
| ClientLaws.OutgoingHeaderPrecedence | projects/openapi-fetch-angular/src/lib/openapi-client.service.ts:49-78 | an outgoing header comes from `params.headers`, else the request headers, else the client headers, else the default headers; the keys are those of the four together |
| ClientLaws.RequestHeadersLookup | projects/openapi-fetch-angular/src/lib/openapi-client.service.ts:78 | `params.headers` over the request headers over the base headers, for values and for keys |
| ClientLaws.PreparedHeaders | projects/openapi-fetch-angular/src/lib/openapi-client.service.ts:75-86 | the request carries the merged headers, also as the `headers` member of its options |
| ClientLaws.InitPrecedence | projects/openapi-fetch-angular/src/lib/openapi-client.service.ts:75-79 | any option other than `headers` comes from the request options if present, else from the client's options |
| ClientLaws.ParamsDefault | projects/openapi-fetch-angular/src/lib/openapi-client.service.ts:54 | without params, a created serializer yields the base URL plus the path, with no substitution and no query |
| ClientLaws.ParamsHeaderIgnored | projects/openapi-fetch-angular/src/lib/openapi-client.service.ts:78 | changing `params.header` changes nothing in the prepared request |
| Client.WithMethod | projects/openapi-fetch-angular/src/lib/openapi-client.service.ts:103-133 | the options a verb wrapper passes have `method` set to the verb |
| ClientLaws.VerbOverrides | projects/openapi-fetch-angular/src/lib/openapi-client.service.ts:103-133 | a verb wrapper's request succeeds if and only if the one without the override does, has the verb as its method whatever the options say, and has the same URL and headers |
| ClientLaws.RootBaseUrlExample | projects/openapi-fetch-angular/src/lib/openapi-client.service.spec.ts:327-337 | with base URL `/`, a GET of `/anyMethod` goes to `/anyMethod` with method GET |
| Client.OpenAPIClientService.Get | projects/openapi-fetch-angular/src/lib/openapi-client.service.ts:103-105 | coreFetch with the options and method GET |
| Client.OpenAPIClientService.Put | projects/openapi-fetch-angular/src/lib/openapi-client.service.ts:107-109 | coreFetch with the options and method PUT |
| Client.OpenAPIClientService.Post | projects/openapi-fetch-angular/src/lib/openapi-client.service.ts:111-113 | coreFetch with the options and method POST |
| Client.OpenAPIClientService.Delete | projects/openapi-fetch-angular/src/lib/openapi-client.service.ts:115-117 | coreFetch with the options and method DELETE |
| Client.OpenAPIClientService.Options | projects/openapi-fetch-angular/src/lib/openapi-client.service.ts:119-121 | coreFetch with the options and method OPTIONS |
| Client.OpenAPIClientService.Head | projects/openapi-fetch-angular/src/lib/openapi-client.service.ts:123-125 | coreFetch with the options and method HEAD |
| Client.OpenAPIClientService.Patch | projects/openapi-fetch-angular/src/lib/openapi-client.service.ts:127-129 | coreFetch with the options and method PATCH |
| Client.OpenAPIClientService.Trace | projects/openapi-fetch-angular/src/lib/openapi-client.service.ts:131-133 | coreFetch with the options and method TRACE |

## Left out

- The HTTP call, the `lastValueFrom` await and the response handling (`openapi-client.service.ts:88-100`) are I/O. `CoreFetch` returns the method, URL, body and options it would hand to `new HttpRequest`.
- `convertHeaders` turns the merged record into Angular `HttpHeaders` and drops falsy values. It belongs to the HTTP adapter.
- `DEFAULT_HEADERS` is an Angular `HttpHeaders` instance, and what `for…in` enumerates on it is Angular's business. The constructor takes the enumerated record as its `defaultHeaders` parameter.
- Number and boolean parameters are represented by their `String()` text. Number formatting is not modelled, so `post_id: 123` and `'123'` are the same value here.
- `for…in` on a real object lists integer-like keys first, in numeric order. The model enumerates keys in insertion order, and does not model inherited enumerable properties.
- Strings are sequences of Unicode scalar values. Lone surrogates, and the `URIError` that `encodeURIComponent` throws for them, are not modelled.
- A caller's query serializer function is a total function from the query value to a string. A function that throws, or that depends on anything other than its argument, is not modelled.
- The client and fetch option records are fixed sets of typed members, plus a `rest` or `init` record for everything else; a member there is missing or given. Only the query serializer options tell a missing member from one written as `undefined`, because only their merge then differs. Type-level members and TypeScript generics (`Paths`, `ClientMethod`) have no runtime effect and are not modelled.
- `serializeArrayParam` and `serializeObjectParam` called on a non-array or non-object return "". The model covers this, but its only callers always pass the right kind.
- The Angular `@Injectable` decoration and the `http` parameter are not modelled. The verb wrappers modelled here are the service's `async` methods; the tests call `getPromise` and `.subscribe`, which belong to another version of the service, so the tests were used only for their inputs and expected URLs.
- PathSerialization.LoopIsLeftToRightPass: the replace-first loop equals the left-to-right pass only when every `{` opens a placeholder and no replacement text holds `{` or `$`. Without the first condition a replacement can complete a lone `{` into a new match that a later replace hits first; `PathSerialization.ReplacementCreatesMatch` shows this on `{{a}}/{x}`. Outside these conditions the model states only the loop itself (`DefaultPathSerializer`, `SinglePlaceholder`).
