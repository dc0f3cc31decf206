/** Decoded JSON values, as `json.load` and `response.json()` hand them to the views. */
module JsonData {

  /** `JNull` stands for Python's `None`; JSON objects keep their key order, as Python dicts do. */
  datatype Json =
    | JNull
    | JBool(b: bool)
    | JNum(n: real)
    | JStr(s: string)
    | JArray(items: seq<Json>)
    | JObject(entries: seq<(string, Json)>)
}
