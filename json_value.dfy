/** A parsed JSON value, as `json.load` hands it over: the value kinds of
    section 3 of RFC 8259. Objects keep their members in insertion order as an
    association list, so the order and overwrite behaviour of a Python `dict`
    can be stated; numbers are kept opaque, as their literal text, since the
    normaliser never looks into them. */
module JsonValue {

  datatype Json =
    | JNull
    | JBool(b: bool)
    | JNum(literal: string)
    | JStr(s: string)
    | JArr(items: seq<Json>)
    | JObj(fields: seq<(string, Json)>)
}
