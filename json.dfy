/** JSON values as JSON.parse produces them; object members keep their iteration order. */
module JsonValues {

  datatype Json =
    | JNull
    | JBool(b: bool)
    | JNumber(n: int)
    | JString(s: string)
    | JArray(items: seq<Json>)
    | JObject(members: seq<(string, Json)>)

  /** Object.values: the member values in iteration order. */
  function Values(members: seq<(string, Json)>): (vs: seq<Json>)
    ensures |vs| == |members|
    ensures forall i :: 0 <= i < |members| ==> vs[i] == members[i].1
  {
    if members == [] then [] else [members[0].1] + Values(members[1..])
  }
}
