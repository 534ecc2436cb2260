/**
 * The values that travel over the message bus, as the driver station sees them
 * after the bridge has decoded a JSON message: null, booleans, numbers,
 * strings, lists and records. Integers and floats share one numeric
 * constructor, so that `1 == 1.0` holds as it does in Python.
 */
module Values {

  datatype Option<+T> = None | Some(value: T)

  datatype Value =
    | Null
    | Bool(b: bool)
    | Num(x: real)
    | Str(s: string)
    | List(items: seq<Value>)
    | Dict(fields: Message)

  /** A message as delivered by the bridge: a record of named fields. */
  type Message = map<string, Value>

  /** The single-field envelope `{"data": v}` of a scalar topic. */
  function DataMessage(v: Value): (m: Message)
    ensures m.Keys == {"data"} && m["data"] == v
  {
    map["data" := v]
  }

  /**
   * The value a topic caches for an inbound message: the `data` field when
   * the message has one, otherwise the whole record.
   */
  function Extract(message: Message): (v: Value)
    ensures "data" in message ==> v == message["data"]
    ensures "data" !in message ==> v == Dict(message)
  {
    if "data" in message then message["data"] else Dict(message)
  }

  /** A value sent in the scalar envelope is the value a receiver caches for it. */
  lemma ExtractEnvelope(v: Value)
    ensures Extract(DataMessage(v)) == v
  {
  }
}
