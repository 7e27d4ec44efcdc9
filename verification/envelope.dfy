/**
  The message envelope: the mediation map (`billingmediation`), the payload
  text and the date tag, with the two conversions between an envelope and the
  single JSON object that the script engine sees.

  `Display` parses the payload and stores the mediation map under the key
  "billingmediation"; `FromWithBm` takes that member back out and re-renders
  the remaining members as the payload. Text parsing and rendering belong to
  `serde_json` and are parameters here (`parse`, `render`), so the two
  conversions and their round trip are stated at the level of JSON objects.
*/
module Envelope {
  import opened Wrappers
  import opened JsonValue

  newtype byte = x: int | 0 <= x < 256

  /** The payload: JSON text, as bytes. */
  type Payload = seq<byte>

  datatype MessageInner = MessageInner(billingmediation: Object, payload: Payload)

  datatype Message = Message(inner: MessageInner, date: string)

  const BmKey: string := "billingmediation"

  /** `From<T> for MessageInner`: a fresh envelope around a payload. */
  function FromPayload(p: Payload): (r: MessageInner)
    ensures r.billingmediation == map[]
    ensures r.payload == p
  {
    MessageInner(map[], p)
  }

  /** `Display for MessageInner`: the payload object with "billingmediation"
      set to the mediation map, overwriting a member of that name. Fails
      unless the payload parses to an object. */
  function Display(m: MessageInner, parse: Payload -> Option<Json>): (r: Result<Object>)
    ensures r.Ok? <==> parse(m.payload).Some? && parse(m.payload).value.JObj?
    ensures r.Err? ==> r.fault == NotAnObject
    ensures r.Ok? ==> BmKey in r.value && r.value[BmKey] == JObj(m.billingmediation)
    ensures r.Ok? ==> forall k :: k != BmKey ==>
      (k in r.value <==> k in parse(m.payload).value.fields)
      && (k in r.value ==> r.value[k] == parse(m.payload).value.fields[k])
  {
    match parse(m.payload)
    case Some(JObj(base)) => Ok(base[BmKey := JObj(m.billingmediation)])
    case _ => Err(NotAnObject)
  }

  /** `MessageInner::from_with_bm`: the mediation map is the "billingmediation"
      member (empty when absent, a failure when it is not an object) and the
      payload is every other member, rendered. */
  function FromWithBm(v: Json, render: Object -> Payload): (r: Result<MessageInner>)
    ensures r.Ok? <==> v.JObj? && (BmKey in v.fields ==> v.fields[BmKey].JObj?)
    ensures r.Err? ==> r.fault == NotAnObject
    ensures r.Ok? && BmKey in v.fields ==> JObj(r.value.billingmediation) == v.fields[BmKey]
    ensures r.Ok? && BmKey !in v.fields ==> r.value.billingmediation == map[]
    ensures r.Ok? ==> r.value.payload == render(map k | k in v.fields && k != BmKey :: v.fields[k])
  {
    match v
    case JObj(fields) =>
      var rest := fields - {BmKey};
      assert rest == map k | k in fields && k != BmKey :: fields[k];
      if BmKey !in fields then Ok(MessageInner(map[], render(rest)))
      else if fields[BmKey].JObj? then Ok(MessageInner(fields[BmKey].fields, render(rest)))
      else Err(NotAnObject)
    case _ => Err(NotAnObject)
  }

  /** Rendering an envelope and reading it back returns its mediation map, and
      as payload the payload object without any "billingmediation" member. */
  lemma DisplayThenFromWithBm(m: MessageInner, parse: Payload -> Option<Json>, render: Object -> Payload, base: Object)
    requires parse(m.payload) == Some(JObj(base))
    ensures Display(m, parse).Ok?
    ensures FromWithBm(JObj(Display(m, parse).value), render)
         == Ok(MessageInner(m.billingmediation, render(base - {BmKey})))
  {
    var o := Display(m, parse).value;
    assert o - {BmKey} == base - {BmKey};
  }

  /** Reading an object into an envelope and rendering it again gives the
      object back, with an empty "billingmediation" member added when it had
      none, provided that the payload renderer and parser agree. */
  lemma FromWithBmThenDisplay(fields: Object, parse: Payload -> Option<Json>, render: Object -> Payload)
    requires BmKey in fields ==> fields[BmKey].JObj?
    requires parse(render(fields - {BmKey})) == Some(JObj(fields - {BmKey}))
    ensures FromWithBm(JObj(fields), render).Ok?
    ensures Display(FromWithBm(JObj(fields), render).value, parse)
         == Ok(if BmKey in fields then fields else fields[BmKey := JObj(map[])])
  {
    var m := FromWithBm(JObj(fields), render).value;
    assert m.payload == render(fields - {BmKey});
    if BmKey in fields {
      assert (fields - {BmKey})[BmKey := fields[BmKey]] == fields;
    } else {
      assert fields - {BmKey} == fields;
    }
  }

  /** A freshly wrapped payload object renders with an empty mediation map. */
  lemma FromPayloadDisplay(p: Payload, parse: Payload -> Option<Json>, base: Object)
    requires parse(p) == Some(JObj(base))
    ensures Display(FromPayload(p), parse) == Ok(base[BmKey := JObj(map[])])
  {
  }
}
