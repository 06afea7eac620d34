# Page tracker core, modelled in Dafny

A model of the snapshot-diff-and-persist engine of the page tracker
(`index.js`). One track cycle for a URL does the following:

1. It validates the URL.
2. It takes what the page collaborator yields (headings, HTML, optional text).
3. It builds a timestamped snapshot.
4. It reads the previously stored snapshot, turning every failure into "absent".
5. It overwrites the stored record with the new snapshot.
6. It diffs the two per field and normalises a diff that says nothing to `null`.

The batch runs cycles strictly in order. A failing URL becomes an
`{url, error}` entry and does not stop the batch. `changes` keeps the entries
that are not errors, not first visits, and carry a delta.

Modules, leaves first:

- `JsValues` (`js_values.dfy`): JSON-shaped JavaScript values, truthiness and
  property access.
- `Utf8` (`utf8.dfy`): a UTF-8 encoder over Unicode scalar values. It has two
  decoders:
  - a strict decoder, which follows the well-formed byte sequences of
    Table 3-7 of the Unicode Standard;
  - a replacing decoder, which follows the WHATWG Encoding Standard: each
    maximal subpart of a malformed sequence becomes U+FFFD. This is what
    `Buffer#toString("utf8")` does.
- `KeyDeriver` (`key_deriver.dfy`): `storageKey`.
- `TransportCodec` (`transport_codec.dfy`): `utf8ToBinary` and
  `binaryToUtf8`. This includes the percent-escape fallback and
  `decodeURIComponent`, which follows the Decode operation of ECMA-262.
- `SnapshotStore` (`snapshot_store.dfy`): the store as a class whose
  `records` map each storage key to its `dataBase64` payload, with
  `readPrevious` and `writeSnapshot`.
- `DeltaComputor` (`delta_computor.dfy`): the per-field raw delta, `hasDelta`
  and normalisation.
- `TrackOrchestrator` (`track_orchestrator.dfy`): `trackPage` and
  `trackPages`, each a method proved against a specification function, and
  the `changes` filter.

Collaborators become parameters:

- The page collaborator is a `Browser` function from URL and refresh flag to
  a `Fetch` outcome. `text` is `None` when the handle has no `getText`.
- The clock is a `now` string. A batch takes one browser and one timestamp
  per position.
- The diff library is `DiffLib`, two opaque function fields.
- base64 and JSON are function fields of `Codecs`. What the round trip needs
  of them (`LosslessBase64`, `LosslessJson`) is required only by the lemmas
  that rely on it.
- The storage namespace is the `Store` object the caller passes in.

Strings are sequences of Unicode scalar values. Where the source depends on
UTF-16 code units, the model spells them out:

- `split("")`, `charCodeAt` and latin1 `Buffer.from` see UTF-16 code units
  (`JsValues.Utf16Units`, `JsValues.CodeUnits`).
- The regular expression in `storageKey` turns a character outside the Basic
  Multilingual Plane into two underscores.

Two behaviours of the code are worth knowing:

- A failing `getHeaders`, `getHTML` or `getText` leaves the page handle open,
  because `close()` (`index.js:79`) is called only after all three reads and
  not in a `finally`. This one is outside the model, which has no page handle
  (see Left out).
- `!previous` (`index.js:92`) treats a stored `null`, `0`, `""` or `false` as
  a first visit, just like a missing or unreadable record. The model keeps
  this one.

## Model

| member | source | states |
|---|---|---|
| KeyDeriver.Sanitize | index.js:6 | the sanitised URL has exactly as many characters as the URL has UTF-16 code units, and holds only ASCII letters, digits and `_` |
| KeyDeriver.StorageKey | index.js:5-8 | the key is `tracker/`, then a sanitised string as long as the URL in UTF-16 code units, then `.json` |
| KeyDeriver.SanitizeAt | index.js:6 | for every URL, position i of the sanitised string is the URL's i-th UTF-16 code unit when that is an ASCII letter or digit, and `_` otherwise (surrogate halves included) |
| KeyDeriver.AstralCharacter | index.js:6 | a character outside the Basic Multilingual Plane becomes two underscores: `a😀b` gives `a__b` |
| KeyDeriver.SanitizeIdempotent | index.js:6 | sanitising a sanitised string changes nothing |
| KeyDeriver.StorageKeySameIff | index.js:5-8 | two URLs get the same `tracker/<s>.json` key if and only if they sanitise to the same string |
| KeyDeriver.StorageKeyCollision | index.js:6-7 | distinct URLs (`a.b`, `a/b`) collide on one key, `tracker/a_b.json` |
| Utf8.DecodeEncode | index.js:11 | strict UTF-8 decoding of the encoder's bytes gives the string back |
| Utf8.EncodeDecode | index.js:11 | every byte sequence the strict decoder accepts is the encoding of what it returns |
| Utf8.DecodeEncodeScalar | index.js:11 | each scalar value's 1 to 4 bytes decode to that scalar value, whatever bytes follow |
| Utf8.DecodeLenientEncode | index.js:22 | the replacing UTF-8 decoder behind `Buffer#toString` inverts the encoder |
| Utf8.LenientReplacesInvalidLead | index.js:22 | an invalid byte becomes one U+FFFD and the decoder resumes right after it |
| TransportCodec.Utf8ToBinary | index.js:10-17 | the loop yields one character per UTF-8 byte of the input, the i-th character's code being the i-th byte (0..255) |
| TransportCodec.BinaryToUtf8 | index.js:19-37 | on a byte string that is well-formed UTF-8 both paths give the strictly decoded text; on malformed UTF-8 the path without `Buffer` returns the input unchanged |
| TransportCodec.DecodeUriEscapedBytes | index.js:27-33 | `decodeURIComponent` of the `%hh` escapes of any byte sequence is strict UTF-8 decoding of it: the text when well-formed, a URIError otherwise |
| TransportCodec.BinaryToUtf8RoundTrip | index.js:19-37 | `binaryToUtf8(utf8ToBinary(s)) == s` for every string, on the Buffer path and on the percent-escape path |
| TransportCodec.Latin1ByteString | index.js:22 | `Buffer.from(bin, "binary")` of a byte string gives back its bytes |
| TransportCodec.EscapeUnitShape | index.js:31 | a unit below 256 is escaped as `%` and two lower-case hexadecimal digits; a larger one takes more than three characters |
| TransportCodec.DecodeUriEscapedEncode | index.js:28-33 | `decodeURIComponent` of the `%hh` escapes of a string's UTF-8 bytes gives the string back |
| TransportCodec.MalformedInput | index.js:20-36 | when `decodeURIComponent` throws, the input is returned unchanged (a lone byte FF); the Buffer path turns the same input into U+FFFD |
| SnapshotStore.ReadFrom | index.js:39-51 | a missing or empty record reads as null; a value is read only from a record under the URL's key whose base64 decodes |
| SnapshotStore.Store.ReadPrevious | index.js:39-51 | the result is the parsed record, or None (null) when there is no record, the payload is empty, or base64 decoding or JSON parsing fails; it never throws |
| SnapshotStore.Store.WriteSnapshot | index.js:53-60 | the record under the URL's key is overwritten with the payload of `snapshot \|\| {}`; every other key keeps its record |
| SnapshotStore.WriteThenRead | index.js:39-60 | with lossless base64 and JSON, reading after a write returns what was written (`snapshot \|\| {}`) |
| SnapshotStore.PayloadNonEmpty | index.js:44-58 | with lossless collaborators a written payload is never empty, so it is never taken for a missing record |
| SnapshotStore.WriteKeepsOtherReads | index.js:53-59 | a write for one URL does not change what is read for a URL with another key |
| SnapshotStore.CorruptRecordReadsAbsent | index.js:45-49 | a record whose payload base64 cannot decode reads as absent |
| SnapshotStore.Persisted | index.js:56 | what is serialised (`snapshot \|\| {}`) is always truthy |
| DeltaComputor.HasDelta | index.js:62-68 | only an object with a `headings`, `html` or `text` property can have a delta |
| DeltaComputor.ComputeDelta | index.js:96-108 | the reported delta is null, or a `{headings, html, text}` object that has a delta |
| DeltaComputor.HasDeltaFields | index.js:62-68 | `hasDelta(null)` is false; a delta object has a delta if and only if `headings` is truthy, or `html` or `text` is truthy and not an empty array |
| DeltaComputor.EmptyArrayAsymmetry | index.js:64-66 | an empty `headings` array counts as a delta; empty `html` and `text` arrays do not |
| DeltaComputor.NormalizeSound | index.js:108 | the normalised delta is null exactly when `hasDelta` fails; otherwise it is the delta itself; normalising twice changes nothing |
| DeltaComputor.ComputeDeltaFields | index.js:96-108 | the reported delta is null if and only if no field's diff counts; otherwise it is `{headings, html, text}` built from the raw diffs, with `html` and `text` post-processed by `applyTextDiff` when the library has it |
| DeltaComputor.ChangedHeadingsReported | index.js:96-108 | a truthy headings diff gives a populated delta whose `headings` is that diff |
| DeltaComputor.UnchangedContentNoDelta | index.js:96-108 | when the collaborator reports no change as falsy headings and falsy or empty html and text diffs, the delta is null |
| DeltaComputor.EmptyHeadingsDiffIsChange | index.js:64 | a headings diff that is an empty array always yields a populated delta |
| TrackOrchestrator.TrackPage | index.js:70-111 | the method returns, and leaves in the store, exactly what `TrackPageSpec` gives for the old records |
| TrackOrchestrator.TrackPageOutcome | index.js:70-110 | an invalid URL or a failing fetch throws and writes nothing; otherwise the snapshot is written under the URL's key and nothing else changes; `firstVisit` holds exactly when nothing truthy was read, and then `previous` is absent and `delta` is null; otherwise `previous` is what was read, and `delta` is null or satisfies `hasDelta` |
| TrackOrchestrator.CycleSnapshot | index.js:75-108 | a cycle for a valid URL whose fetch succeeds completes; its snapshot is `{url, headings, html, text, fetchedAt}` built from what the page yielded and the clock, and on a repeat visit its delta is the normalised per-field diff of the previous snapshot against it |
| TrackOrchestrator.SecondVisitSeesFirst | index.js:89-110 | with lossless collaborators, a valid URL and two fetches that succeed, both cycles complete, and the second is no first visit and its `previous` is the first cycle's snapshot |
| TrackOrchestrator.UnchangedSecondVisit | index.js:89-110 | fetching the same content twice reports no delta the second time, given a diff that reports no change as falsy or empty |
| TrackOrchestrator.CorruptRecordFirstVisit | index.js:89-93 | a stored record that cannot be decoded makes the cycle a first visit, and the cycle overwrites the record |
| TrackOrchestrator.UnparsableRecordFirstVisit | index.js:89-93 | a stored record that base64 decodes but whose text is no JSON also makes the cycle a first visit, and the cycle overwrites the record |
| TrackOrchestrator.TrackedIsChange | index.js:131-133 | a cycle's result passes the `changes` filter exactly when it is no first visit and its delta is non-null |
| TrackOrchestrator.TrackPages | index.js:113-136 | the method returns, and leaves in the store, exactly what `TrackPagesSpec` gives for the old records |
| TrackOrchestrator.TrackPagesOutcome | index.js:113-136 | a non-array or empty input throws and writes nothing; otherwise there is one entry per URL, the i-th for `urls[i]`, and `changes` is an in-order subsequence of the entries |
| TrackOrchestrator.TrackCaught | index.js:120-128 | one loop iteration: the entry it returns and the records it leaves are the cycle's, the error entry `{url, error}` when `trackPage` throws and the result otherwise |
| TrackOrchestrator.RunLength | index.js:118-129 | the loop pushes exactly one entry per URL |
| TrackOrchestrator.RunIndex | index.js:118-129 | the i-th entry of the loop is what iteration i makes of `urls[i]` and the records the first i iterations left |
| TrackOrchestrator.CycleUrl | index.js:121-127 | every entry, result or error, carries the URL it was made for |
| TrackOrchestrator.BatchAligned | index.js:118-129 | there are as many entries as URLs, and the i-th entry belongs to `urls[i]` |
| TrackOrchestrator.BatchItemIsCycle | index.js:119-128 | the i-th entry is the single-URL cycle run on the records the first i cycles left, whether or not earlier ones failed |
| TrackOrchestrator.CycleFailure | index.js:120-128 | an entry is `{url, error}` exactly when its own URL is invalid or its own fetch throws; the error is non-empty and nothing is written (the diff collaborator never throws here, see Left out) |
| TrackOrchestrator.BatchWritesOnlyTracked | index.js:119-122 | a batch changes the store only under the keys of the URLs it tracked successfully (the diff collaborator never throws here, see Left out) |
| TrackOrchestrator.FailedIsNoChange | index.js:131-133 | an error entry never passes the `changes` filter |
| TrackOrchestrator.Changes | index.js:131-133 | `changes` holds only entries of `results` that pass the filter, and is no longer than `results` |
| TrackOrchestrator.ChangesFilter | index.js:131-133 | `changes` holds exactly the entries that pass the filter, each as often as it occurs in `results`, as an in-order subsequence of `results` |
| TrackOrchestrator.BatchChanges | index.js:131-133 | the changes of a batch are exactly its entries that were tracked, are no first visit and carry a non-null delta, each as often as it occurs and in order |

## Left out

- Page fetching (`browser.page`, `getHeaders`, `getHTML`, `getText`, `close`, index.js:75-79) is foreign code. It is the `Browser` function parameter. The page handle and its release are not modelled.
- The diff algorithms (`diff.diff`, `diff.applyTextDiff`) are foreign code. They are opaque function fields of `DiffLib`.
- TrackOrchestrator.CycleFailure, TrackOrchestrator.BatchWritesOnlyTracked, TrackOrchestrator.CycleSnapshot and TrackOrchestrator.SecondVisitSeesFirst: in the model the diff collaborator never throws and `storage.save` never fails. In the source, `diff.diff` and `diff.applyTextDiff` (index.js:96-106) run after `writeSnapshot` (index.js:90). If one of them throws, `trackPage` throws with the new record already saved, and `trackPages` records `{url, error}` for a URL whose key was overwritten. A failing save (index.js:59) makes the cycle throw as well. These four lemmas, including "the cycle completes" in the last two, hold only for a diff collaborator that does not throw and a store whose saves succeed.
- TrackOrchestrator.ErrorText: only thrown `Error` objects are modelled, whose text is the message, or `Error` when the message is empty. A thrown non-`Error` gives `String(err)` in the source (index.js:126), and `throw null` gives the falsy value itself. So the non-empty error text in CycleFailure holds only for thrown `Error`s.
- `b64.encodeAscii` and `b64.decodeAscii`, and `JSON.stringify` and `JSON.parse`, are foreign code. They are function fields of `Codecs`. A `None` result stands for a throw. A falsy non-string result of `decodeAscii` (the source's `|| ""`) is not modelled.
- `b64.utf8Bytes` is replaced by the model's own UTF-8 encoder. JavaScript strings holding lone surrogates are outside the model: strings are sequences of scalar values.
- JSON values are `JsValues.Value`, with integer numbers only. Floating point, `NaN`, and the keys `JSON.stringify` drops for `undefined` are not modelled.
- `new Date().toISOString()` is the `now` parameter.
- The ambient `sys.storage.get("tracker", opts)` lookup is replaced by the `Store` the caller passes in. In `readPrevious` that lookup sits outside the `try`, so a failing lookup would propagate. The model has no lookup that can fail.
- Storage failures are not modelled. The store is a map, so a read of a missing key is "absent", and a save always succeeds. A failing `storage.save`, which would surface as an error entry in a batch, is not modelled.
- `String(url)` and `str || ""` coercions of non-string arguments are not modelled. `storageKey` and `utf8ToBinary` are only called with strings.
- The options bag passed through to storage is not modelled. Only `noRefresh` is kept.
- `async`/`await` scheduling and write races between runs are not modelled. The model is strictly sequential.
