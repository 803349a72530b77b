/**
 * The parsed JSON document the rqlite client walks (gason's `JsonValue`).
 * Numbers are non-negative integers here; the client only reads counts, ids
 * and versions.
 */
module Json {

  datatype Json =
    | JNull
    | JBool(b: bool)
    | JNumber(n: nat)
    | JString(s: string)
    | JArray(elems: seq<Json>)
    | JObject(members: seq<Member>)

  datatype Member = Member(key: string, value: Json)

  /** `toNumber()`; a node of another kind reads as 0. */
  function ToNumber(j: Json): nat
  {
    if j.JNumber? then j.n else 0
  }

  /** `toString()`; a node of another kind reads as the empty string. */
  function ToStr(j: Json): string
  {
    if j.JString? then j.s else []
  }

  /** The values a range-for over a node visits (`n->value` of each child node). */
  function Children(j: Json): (cs: seq<Json>)
    ensures j.JArray? ==> cs == j.elems
    ensures j.JObject? ==> |cs| == |j.members|
  {
    match j
    case JArray(es) => es
    case JObject(ms) => seq(|ms|, i requires 0 <= i < |ms| => ms[i].value)
    case _ => []
  }

  /** The key/value children of an object node; other nodes have none. */
  function Members(j: Json): seq<Member>
  {
    if j.JObject? then j.members else []
  }
}
