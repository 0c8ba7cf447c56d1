# GridFS file adapter: upload preparation, versioning and lookup outcomes

This project models the decision logic of `FSAdapter`, a Moleculer file-storage
adapter over MongoDB GridFS (`index.js`). The logic covers:

- how `save` prepares an upload. It derives the logical name (`meta.id`, else
  `meta.filename`, else a fresh uuid, by JavaScript truthiness). It picks the
  content type and drops a truthy `$multipart` marker. It computes the next
  `version` string from the bucket's ordered lookup of that name. It then
  builds the `openUploadStream` call, which is tagged with `meta.filename`.
- that `updateById` is an alias of `save`.
- the three ways `findById` settles: a stream by name, `NotFound`
  (404, `ERR_NOT_FOUND`), or the lookup's own error.
- that `removeById` resolves with `{ id }` for the coerced id.

Everything is a pure function. Calls the adapter cannot see become parameters:

- the bucket query `find({filename}).sort({"metadata.version": -1}).toArray()`
  is a function from a name to an already ordered `Result`.
- `uuidv4()` is a `token` string.
- `mime.lookup` is a function on values.
- `new ObjectId(x)` is a function that may fail, because the constructor throws
  on malformed input.
- the unawaited `bucketFS.delete` outcome is a parameter that the settled value
  ignores.

JavaScript semantics the adapter depends on are written out:

- the falsy values `undefined`, `null`, `false`, `0`, `NaN` and `""`.
- `a || b`, and property reads of missing keys.
- `String(n)` for integers.
- `parseInt` with its radix omitted. This means leading white space, an
  optional sign, a `0x`/`0X` prefix switching to radix 16, the longest digit
  run, and NaN when that run is empty.

Files: `wrappers.dfy` (Option, Result), `js_number.dfy` (`String(n)`,
`parseInt`), `js.dfy` (values, truthiness, `||`, `String(v)`), `gridfs.dfy`
(driver and caller shapes), `versioning.dfy` (next version), `adapter.dfy`
(`save`, `updateById`, `findById`, `removeById`).

Behaviour of the code that is easy to miss:

- `$multipart` is deleted only when truthy, so a falsy `$multipart` property
  (`false`, `0`, `""`) is kept in the stored metadata.
- The next version is at least 1 only when the stored top version parses to a
  non-negative integer or to NaN. A stored `"-5"` is followed by `"-4"`.
- The upload tag and the versioned name also differ when neither `id` nor
  `filename` is truthy. The version is then looked up under the uuid while the
  upload is tagged with the falsy `filename`.
- `parseInt` reads `"0x1F"` as 31, so a hexadecimal stored version is
  followed by its decimal successor (`"32"`).
- `removeById` rejects when the ObjectId constructor throws. Otherwise it
  resolves with `{ id }` whatever the unawaited delete does, including when
  no file has that id.

## Model

| member | source | states |
|---|---|---|
| JsNumber.ParseInt | index.js:110 | `parseInt` of a string with no decimal digit is NaN, so the version computation falls back to 0; the result is negative only when the string holds a minus sign |
| JsNumber.ParseIntSkipsWhiteSpace | index.js:110 | leading white space does not change what `parseInt` reads |
| JsNumber.ParseIntStopsAtNonDigit | index.js:110 | a decimal digit run (not a `0x` prefix) is read up to the first non-digit and the rest of the string is ignored |
| JsNumber.IntToStringShape | index.js:110 | `String(n)` of an integer starts with a minus sign exactly when `n` is negative, and is decimal digits after it |
| JsNumber.IntToString | index.js:110 | `String(n)` of an integer is never empty |
| Js.ParseIntOrZero | index.js:110 | the result is JavaScript's `parseInt(v) \|\| 0` under the model's truthiness and `\|\|`: NaN and 0 both become 0, any other parsed integer is kept |
| JsNumber.ParseIntToString | index.js:110 | `parseInt(String(n))` is `n` for every integer, so the stored version string reads back as the number computed |
| Versioning.TopVersion | index.js:108-109 | the stored version is consulted exactly when the lookup succeeded, is non-empty, and its first record has metadata whose `version` is truthy; it is that record's `version` |
| Versioning.NextVersion | index.js:104-112 | the version is "1" when the lookup fails, is empty, the first record has no metadata or a falsy `metadata.version`; the remaining case, where it parses to `(parseInt(top) \|\| 0) + 1`, is stated by Versioning.NextVersionReadsBack |
| Versioning.NextVersionReadsBack | index.js:108-110 | when the top version is consulted, the new version string parses back to `(parseInt(top) \|\| 0) + 1` |
| Versioning.NextVersionAtLeastOne | index.js:108-110 | when the top version parses to a non-negative integer or NaN, the new version parses to an integer of at least 1 |
| Versioning.OnlyFirstRecordCounts | index.js:106-110 | the records after the first one of the ordered lookup have no effect on the new version |
| Versioning.ConsecutiveVersionsIncrease | index.js:105-110 | when the lookup returns the previous upload's record first, the new version is exactly one more than the previous one |
| Versioning.StringOrderRepeatsVersion | index.js:106-110 | with "9" and "10" stored and sorted as strings, the next version is "10" again, not one more than the numeric maximum |
| Versioning.UnparseableOrZeroRestarts | index.js:110 | a truthy top version that parses to NaN or 0 gives version "1" |
| Versioning.NegativeVersionStaysNegative | index.js:110 | a stored "-5" is followed by "-4" |
| Versioning.HexVersionIsReadInRadix16 | index.js:110 | a stored "0x1F" is read in radix 16 and followed by "32" |
| Adapter.LogicalName | index.js:96 | the name is a truthy `id`, else a truthy `filename`, else the uuid; it is truthy whenever the uuid is non-empty |
| Adapter.ContentType | index.js:97 | a truthy `contentType` is kept; otherwise the MIME lookup is applied to the logical name |
| Adapter.StripMultipart | index.js:99-101 | afterwards `$multipart` is not truthy; it is removed exactly when it was truthy; every other property is unchanged |
| Adapter.Save | index.js:92-117 | the upload is tagged with the caller's `filename`, carries the chosen content type and the version computed from the lookup under the logical name, drops `$multipart` exactly when it is truthy (a falsy one is kept), and keeps every other caller property unchanged |
| Adapter.UpdateById | index.js:130-132 | `updateById` makes exactly the upload call `save` makes |
| Adapter.FindById | index.js:73-85 | resolves with a stream by name exactly when the lookup finds a file; an empty lookup rejects with 404 `ERR_NOT_FOUND`; a failed lookup rejects with its own error |
| Adapter.RemoveById | index.js:138-142 | resolves with `{ id }` holding the coerced id, and rejects only when the coercion throws |
| Adapter.CallerVersionIsOverwritten | index.js:105-110 | whatever `version` the caller supplies, the upload call is the same |
| Adapter.TagDiffersFromVersionedName | index.js:96-117 | the upload tag differs from the versioned name exactly when a truthy `id` differs from `filename`, or neither is truthy and `filename` is not the uuid |
| Adapter.NoNameTagsWithFalsyFilename | index.js:96-114 | without a truthy `id` or `filename`, the version is looked up under the uuid but the upload tag is falsy |
| Adapter.UnknownNameStartsAtOne | index.js:104-112 | a name `findById` would reject (not found or failed lookup) is versioned "1" by `save` |
| Adapter.KnownNameIncrements | index.js:106-110 | when the top record under the logical name holds a version string parsing to `p`, `save` stores a version parsing to `p + 1` |
| Adapter.RemoveIgnoresDelete | index.js:139-141 | the result of `removeById` does not depend on the delete's outcome |

## Left out

- Adapter.RemoveById: covers only the value `removeById` settles with. `bucketFS.delete(_id)` at index.js:140 is called without a callback and never awaited. Called that way, the MongoDB driver returns a promise that rejects when no file has the id. So removing a missing id resolves with `{ id }` and then leaves an unhandled rejection, which ends the process by default on Node 15 and later. The driver's API is not part of this model.
- The non-stream check at index.js:94 calls `reject` but does not return, so the preparation runs anyway. The check, and what the promise does afterwards, are not modelled.
- Piping, backpressure and the `error`/`finish` events of the GridFS streams (index.js:119-126) are library stream I/O. The bytes stored, the completion descriptor and which upload a name streams are GridFS behaviour.
- `init`, `connect`, `disconnect` and the client/bucket setup and event logging (index.js:19-58) are configuration and I/O.
- `find` (index.js:60-66) passes its filters to the bucket query sorted by descending `metadata.version`. When the driver fails it resolves with the caught error instead of rejecting. It is a thin driver wrapper with no decision logic of its own, so it is not modelled.
- `findOne`, `count`, `removeMany` and `clear` (index.js:68-71, 87-90, 134-136, 144-147) are stubs that return `undefined`.
- A nullish `meta` cannot be expressed, because `Save` takes a property map. In the code, reading `meta.id` at index.js:96 then throws inside the async promise executor before `resolve` or `reject` runs, so `save(stream, undefined)` never settles, and the optional chaining `meta?.$multipart` at index.js:99 never sees a nullish `meta`.
- MongoDB's sort order, `uuidv4`, `mime.lookup` and the ObjectId constructor are foreign calls and are taken as inputs.
- Concurrent saves to one name interleave their lookup and upload. That race has no guard in the code, and the model describes one call at a time.
- `save` mutates the caller's `meta` object in place. The model returns the prepared metadata instead.
- Numbers are unbounded integers. Double rounding above 2^53, fractional values and the exponent form `String(1e21)` are not modelled. These only matter for versions no sequence of uploads reaches.
- Non-plain objects (arrays, functions, boxed values) are not modelled: `PlainObject` always renders as `[object Object]`. A stored `metadata` that is a non-object truthy value is read as absent.
- Strings are sequences of Unicode scalar values rather than UTF-16 code units.
