/** The validated event and the two decoding steps that produce it from a raw stream entry. */
module Events {
  import opened Wrappers

  datatype EventType = PageView | ProductClick | AddToCart | Purchase | CheckoutError

  datatype TrafficPhase = Slow | Normal | Burst

  /** `occurredAt` counts microseconds since the epoch, `amountCents` is the stored NUMERIC(12, 2). */
  datatype WebEvent = WebEvent(
    eventId: string,
    eventType: EventType,
    occurredAt: int,
    userId: string,
    trafficPhase: TrafficPhase,
    producerId: string,
    pagePath: Option<string>,
    categoryId: Option<string>,
    productId: Option<string>,
    amountCents: Option<int>,
    currency: Option<string>,
    errorCode: Option<string>,
    errorMessage: Option<string>)

  datatype Json =
    | JNull
    | JBool(flag: bool)
    | JNumber(literal: string)
    | JString(text: string)
    | JArray(items: seq<Json>)
    | JObject(fields: map<string, Json>)

  type JsonObject = map<string, Json>

  /** Redis hands back bytes or text, depending on the client configuration. */
  datatype RedisText = Bytes(bytes: seq<bv8>) | Text(text: string)

  type RawFields = map<RedisText, RedisText>

  /**
    The library calls the decoder relies on. Each is a deterministic partial function:
    UTF-8 decoding, `json.loads`, and the Pydantic schema of `web_event.v1`.
  */
  datatype Codec = Codec(
    utf8: seq<bv8> -> Option<string>,
    loads: string -> Option<Json>,
    validate: JsonObject -> Option<WebEvent>)

  const PAYLOAD_BYTES_KEY := Bytes([0x70, 0x61, 0x79, 0x6c, 0x6f, 0x61, 0x64])
  const PAYLOAD_TEXT_KEY := Text("payload")

  /** Python truth of a Redis value: an empty value counts as absent for `or`. */
  predicate IsEmpty(value: RedisText) {
    match value
    case Bytes(b) => b == []
    case Text(t) => t == ""
  }

  function Get(raw: RawFields, key: RedisText): Option<RedisText> {
    if key in raw then Some(raw[key]) else None
  }

  function PayloadValue(raw: RawFields): Option<RedisText> {
    match Get(raw, PAYLOAD_BYTES_KEY)
    case Some(value) => if IsEmpty(value) then Get(raw, PAYLOAD_TEXT_KEY) else Some(value)
    case None => Get(raw, PAYLOAD_TEXT_KEY)
  }

  function DecodeText(codec: Codec, value: RedisText): Option<string> {
    match value
    case Bytes(b) => codec.utf8(b)
    case Text(t) => Some(t)
  }

  /** Total: anything that is not a JSON object decodes to the empty object. */
  function DecodePayload(codec: Codec, raw: RawFields): JsonObject {
    match PayloadValue(raw)
    case None => map[]
    case Some(value) =>
      match DecodeText(codec, value)
      case None => map[]
      case Some(text) =>
        match codec.loads(text)
        case Some(JObject(fields)) => fields
        case _ => map[]
  }

  // ---------------------------------------------------------------- what an entry holds

  /** The value that counts: the one under the bytes key, or the text key's where that is absent or empty. */
  ghost predicate Selects(raw: RawFields, value: RedisText) {
    || (PAYLOAD_BYTES_KEY in raw && raw[PAYLOAD_BYTES_KEY] == value && value != Bytes([]) && value != Text(""))
    || (&& (PAYLOAD_BYTES_KEY in raw ==> raw[PAYLOAD_BYTES_KEY] == Bytes([]) || raw[PAYLOAD_BYTES_KEY] == Text(""))
        && Text("payload") in raw && raw[Text("payload")] == value)
  }

  ghost predicate Spells(codec: Codec, value: RedisText, text: string) {
    (value.Text? && value.text == text) || (value.Bytes? && codec.utf8(value.bytes) == Some(text))
  }

  /** The entry carries the JSON object `fields`. */
  ghost predicate Holds(codec: Codec, raw: RawFields, fields: JsonObject) {
    exists value, text :: Selects(raw, value) && Spells(codec, value, text) && codec.loads(text) == Some(JObject(fields))
  }

  /** The object an entry holds, or the empty one where it holds none. */
  ghost predicate IsDecoded(codec: Codec, raw: RawFields, payload: JsonObject) {
    Holds(codec, raw, payload) || (payload == map[] && forall fields :: !Holds(codec, raw, fields))
  }

  /** Decoding yields the one object that the entry holds, and the empty object exactly otherwise. */
  lemma DecodingMeaning(codec: Codec, raw: RawFields)
    ensures forall payload :: IsDecoded(codec, raw, payload) <==> payload == DecodePayload(codec, raw)
  {
    var decoded := DecodePayload(codec, raw);
    forall fields | Holds(codec, raw, fields) ensures fields == decoded {
      var value, text :| Selects(raw, value) && Spells(codec, value, text) && codec.loads(text) == Some(JObject(fields));
      assert PayloadValue(raw) == Some(value);
    }
    var value := PayloadValue(raw);
    if value.Some? && DecodeText(codec, value.value).Some? {
      var text := DecodeText(codec, value.value).value;
      assert Selects(raw, value.value) && Spells(codec, value.value, text);
      if codec.loads(text).Some? && codec.loads(text).value.JObject? {
        assert Holds(codec, raw, codec.loads(text).value.fields);
      }
    }
  }

  /** The bytes key spells the text key. */
  lemma KeysAgree()
    ensures |PAYLOAD_BYTES_KEY.bytes| == |"payload"|
    ensures forall i :: 0 <= i < |"payload"| ==> PAYLOAD_BYTES_KEY.bytes[i] as int == "payload"[i] as int
  {
  }

  /** An entry becomes the event the schema makes of the object it holds, and is invalid where the schema refuses that. */
  lemma CoerceMeaning(codec: Codec, raw: RawFields, payload: JsonObject)
    requires IsDecoded(codec, raw, payload)
    ensures Coerce(codec, raw) == codec.validate(payload)
  {
    DecodingMeaning(codec, raw);
  }

  /** A stream entry becomes an event, or is dropped as invalid. */
  function Coerce(codec: Codec, raw: RawFields): Option<WebEvent> {
    codec.validate(DecodePayload(codec, raw))
  }
}
