/**
 * The part of `org.json` the settings store uses, on JSON values rather than JSON text:
 * a destination list is stored as the text of a `JSONArray`, stood for here by the tree
 * that text denotes. An object is its list of members in text order.
 */
module Json {
  import opened Wrappers
  import opened JavaInt

  datatype JValue =
    | JString(str: string)
    | JInt(num: int)
    | JObject(members: seq<(string, JValue)>)
    | JArray(items: seq<JValue>)
    | JOther   // booleans, null, fractions: nothing this app writes or accepts

  /** The value of the member named `key`, if there is one. */
  function Lookup(members: seq<(string, JValue)>, key: string): Option<JValue>
  {
    if members == [] then None
    else if members[0].0 == key then Some(members[0].1)
    else Lookup(members[1..], key)
  }

  /** `obj.getString(key)`: None where `JSONException` is thrown. */
  function GetString(members: seq<(string, JValue)>, key: string): Option<string>
  {
    match Lookup(members, key)
    case Some(JString(s)) => Some(s)
    case _ => None
  }

  /** `obj.getInt(key)`: None where `JSONException` is thrown. */
  function GetInt(members: seq<(string, JValue)>, key: string): Option<Int32>
  {
    match Lookup(members, key)
    case Some(JInt(n)) => if INT_MIN <= n <= INT_MAX then Some(n) else None
    case _ => None
  }
}
