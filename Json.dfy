/**
 * An already-parsed JSON document, as the `org.json` library hands it over.
 * The library itself (its parser and the way `getString` turns a non-string
 * value into text) is not modelled; it is passed in as a `JsonLib`.
 */
module Json {
  import opened Wrappers

  /**
   * A JSON value. `JOther` stands for numbers, booleans and JSON `null`,
   * none of which the news reader inspects.
   */
  datatype Json =
    | JObject(members: map<string, Json>)
    | JArray(elements: seq<Json>)
    | JString(text: string)
    | JOther

  /**
   * The library as seen by the news reader. `parse` is the `JSONObject(String)`
   * parser's view of a text (`None` when the text is not JSON at all);
   * `toText` is what `getString` returns for a value that is not a string.
   */
  datatype JsonLib = JsonLib(parse: string -> Option<Json>, toText: Json -> string)

  /** `getJSONObject(key)`: the member under `key` when it is an object; otherwise the call throws. */
  function GetObject(obj: map<string, Json>, key: string): (r: Option<map<string, Json>>)
    ensures r.Some? <==> key in obj && obj[key].JObject?
    ensures r.Some? ==> obj[key] == JObject(r.value)
  {
    if key in obj && obj[key].JObject? then Some(obj[key].members) else None
  }

  /** `getJSONArray(key)`: the member under `key` when it is an array; otherwise the call throws. */
  function GetArray(obj: map<string, Json>, key: string): (r: Option<seq<Json>>)
    ensures r.Some? <==> key in obj && obj[key].JArray?
    ensures r.Some? ==> obj[key] == JArray(r.value)
  {
    if key in obj && obj[key].JArray? then Some(obj[key].elements) else None
  }

  /**
   * `getString(key)`: throws only when `key` is absent; a string member is
   * returned as it is, any other member as the library renders it.
   */
  function GetString(obj: map<string, Json>, key: string, lib: JsonLib): (r: Option<string>)
    ensures r.Some? <==> key in obj
    ensures key in obj && obj[key].JString? ==> r == Some(obj[key].text)
  {
    if key !in obj then None
    else if obj[key].JString? then Some(obj[key].text)
    else Some(lib.toText(obj[key]))
  }
}
