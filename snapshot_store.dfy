/**
 * The snapshot store: one record per tracked URL, saved under the URL's
 * storage key as base64 of the UTF-8 byte string of the snapshot's JSON.
 *
 * The storage namespace is a `Store` object passed in by the caller, whose
 * `records` map a key to the record's `dataBase64` payload. The base64 and
 * JSON collaborators are the function fields of `Codecs`; what the round trip
 * needs of them is stated as `LosslessBase64` and `LosslessJson`, and only the
 * lemmas that need it require it.
 */
module SnapshotStore {
  import opened JsValues
  import opened KeyDeriver
  import opened Utf8
  import opened TransportCodec

  /** The host collaborators the store goes through. A `None` result is the
      collaborator throwing. */
  datatype Codecs = Codecs(
    hasBuffer: bool,                       // `typeof Buffer === "function" && Buffer.from`
    encodeAscii: string -> string,         // b64.encodeAscii
    decodeAscii: string -> Option<string>, // b64.decodeAscii
    stringify: Value -> string,            // JSON.stringify
    parse: string -> Option<Value>)        // JSON.parse

  /** Base64 as it behaves: nothing encodes to nothing, and every byte string
      decodes back from its encoding. */
  ghost predicate LosslessBase64(c: Codecs)
  {
    && c.encodeAscii([]) == []
    && forall bin :: IsByteString(bin) ==> c.decodeAscii(c.encodeAscii(bin)) == Some(bin)
  }

  /** JSON on the values modelled here: the empty text does not parse, and
      every value parses back from its serialisation. */
  ghost predicate LosslessJson(c: Codecs)
  {
    && c.parse([]) == None
    && forall v :: c.parse(c.stringify(v)) == Some(v)
  }

  /** `snapshot || {}`: what `writeSnapshot` serialises. */
  function Persisted(snapshot: Value): (v: Value)
    ensures Truthy(v)
  {
    if Truthy(snapshot) then snapshot else Obj(map[])
  }

  /** The `dataBase64` payload `writeSnapshot` saves. */
  function Payload(c: Codecs, snapshot: Value): string
  {
    c.encodeAscii(ToBinary(c.stringify(Persisted(snapshot))))
  }

  /** What `readPrevious` returns for the records in storage: None (null) when
      there is no record or its payload is empty, and when base64 decoding or
      JSON parsing throws; otherwise the parsed value. */
  function ReadFrom(c: Codecs, records: map<string, string>, url: string): (previous: Option<Value>)
    ensures StorageKey(url) !in records || records[StorageKey(url)] == [] ==> previous.None?
    ensures previous.Some? ==> StorageKey(url) in records && c.decodeAscii(records[StorageKey(url)]).Some?
  {
    var key := StorageKey(url);
    if key !in records || records[key] == [] then None
    else match c.decodeAscii(records[key])
      case None => None
      case Some(binary) => c.parse(BinaryToUtf8(c.hasBuffer, binary))
  }

  /** The storage namespace "tracker". */
  class Store {
    var records: map<string, string>

    constructor (records: map<string, string>)
      ensures this.records == records
    {
      this.records := records;
    }

    /** `readPrevious`: every failure becomes None; nothing is thrown. */
    method ReadPrevious(c: Codecs, url: string) returns (previous: Option<Value>)
      ensures previous == ReadFrom(c, records, url)
      ensures previous.Some? ==> StorageKey(url) in records && records[StorageKey(url)] != []
    {
      var key := StorageKey(url);
      if key !in records || records[key] == [] {
        return None;
      }
      var binary := c.decodeAscii(records[key]);
      if binary.None? {
        return None;
      }
      var jsonStr := BinaryToUtf8(c.hasBuffer, binary.value);
      previous := c.parse(jsonStr);
    }

    /** `writeSnapshot`: overwrites the record under the URL's key and touches
        no other key. */
    method WriteSnapshot(c: Codecs, url: string, snapshot: Value)
      modifies this
      ensures records == old(records)[StorageKey(url) := Payload(c, snapshot)]
      ensures forall k :: k != StorageKey(url) ==> (k in records <==> k in old(records))
      ensures forall k :: k != StorageKey(url) && k in records ==> records[k] == old(records)[k]
    {
      var key := StorageKey(url);
      var serialized := c.stringify(Persisted(snapshot));
      var binary := Utf8ToBinary(serialized);
      var payload := c.encodeAscii(binary);
      records := records[key := payload];
    }
  }

  // ---------------------------------------------------------------------------
  // Lemmas

  lemma {:induction false} EncodeNonEmpty(s: string)
    requires s != []
    ensures Encode(s) != []
  {
    assert |EncodeScalar(s[0])| >= 1;
  }

  /** With lossless collaborators the payload of a snapshot is never empty, so
      `readPrevious` does not mistake it for a missing record. */
  lemma PayloadNonEmpty(c: Codecs, snapshot: Value)
    requires LosslessBase64(c) && LosslessJson(c)
    ensures Payload(c, snapshot) != []
  {
    var text := c.stringify(Persisted(snapshot));
    assert c.parse(text) == Some(Persisted(snapshot));
    assert text != [];
    EncodeNonEmpty(text);
    var bin := ToBinary(text);
    assert IsByteString(bin) && IsByteString([]);
    assert c.decodeAscii(c.encodeAscii(bin)) == Some(bin);
    assert c.decodeAscii(c.encodeAscii([])) == Some([]);
  }

  /** A read after a write returns what was written (`snapshot || {}`). */
  lemma WriteThenRead(c: Codecs, records: map<string, string>, url: string, snapshot: Value)
    requires LosslessBase64(c) && LosslessJson(c)
    ensures ReadFrom(c, records[StorageKey(url) := Payload(c, snapshot)], url) == Some(Persisted(snapshot))
  {
    PayloadNonEmpty(c, snapshot);
    var text := c.stringify(Persisted(snapshot));
    var bin := ToBinary(text);
    assert IsByteString(bin);
    assert c.decodeAscii(Payload(c, snapshot)) == Some(bin);
    BinaryToUtf8RoundTrip(c.hasBuffer, text);
  }

  /** A write for one URL leaves what is read for a URL with another key as it
      was. */
  lemma WriteKeepsOtherReads(c: Codecs, records: map<string, string>, url: string, snapshot: Value, other: string)
    requires StorageKey(other) != StorageKey(url)
    ensures ReadFrom(c, records[StorageKey(url) := Payload(c, snapshot)], other) == ReadFrom(c, records, other)
  {
  }

  /** A record whose payload base64 cannot decode reads as absent. */
  lemma CorruptRecordReadsAbsent(c: Codecs, records: map<string, string>, url: string)
    requires StorageKey(url) in records && c.decodeAscii(records[StorageKey(url)]).None?
    ensures ReadFrom(c, records, url) == None
  {
  }
}
