/** The bot's memory of one post it has dealt with, and the JSON values it is stored as. */
module HandledPosts {

  /** The values of json-simple: JSONObject is a map from keys to values, JSONArray a list.
      Numbers are kept as reals, whether the parser read them as Long or as Double. */
  datatype Json =
    | JNull
    | JBool(b: bool)
    | JNumber(n: real)
    | JString(s: string)
    | JArray(items: seq<Json>)
    | JObject(fields: map<string, Json>)

  /** The field names of a stored record. */
  const FullIdKey: string := "full_id"
  const TimestampKey: string := "timestamp"

  /** A post the bot has dealt with: its full name ("t3_…") and its creation time, in
      seconds since the epoch. */
  datatype HandledPost = HandledPost(fullId: string, timestamp: real)

  /** The record that is written for a post: an object with exactly the two fields,
      the name as a string and the creation time as a number. */
  function AsObject(hp: HandledPost): (j: Json)
    ensures j.JObject? && j.fields.Keys == {FullIdKey, TimestampKey}
    ensures j.fields[FullIdKey] == JString(hp.fullId)
    ensures j.fields[TimestampKey] == JNumber(hp.timestamp)
  {
    JObject(map[FullIdKey := JString(hp.fullId), TimestampKey := JNumber(hp.timestamp)])
  }
}
