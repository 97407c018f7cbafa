/** A JSON document after `json.load` has decoded it. Decoding itself is not modelled:
    both scripts receive the decoded value. Objects are Python dicts, looked up by key,
    so they are maps.
 */
module Json {

  datatype JsonValue =
    | JNull
    | JBool(b: bool)
    | JNumber(literal: string)
    | JString(s: string)
    | JArray(items: seq<JsonValue>)
    | JObject(fields: map<string, JsonValue>)
}
