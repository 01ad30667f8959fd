/** JSON values as they appear in the `metadata` column and in tool
    parameters. An object is the sequence of its members in property order. */
module Json {

  datatype Json =
    | JNull
    | JBool(b: bool)
    | JNumber(n: real)
    | JString(s: string)
    | JArray(items: seq<Json>)
    | JObject(members: seq<Member>)

  datatype Member = Member(key: string, value: Json)

  /** Property names of a member list, in order (`Object.keys`). */
  function Keys(m: seq<Member>): (ks: seq<string>)
    ensures |ks| == |m|
    ensures forall i :: 0 <= i < |m| ==> ks[i] == m[i].key
  {
    if m == [] then [] else [m[0].key] + Keys(m[1..])
  }

  /** An object never holds the same property twice. */
  predicate UniqueKeys(m: seq<Member>) {
    forall i, j :: 0 <= i < j < |m| ==> m[i].key != m[j].key
  }

  /** A metadata document: a JSON object's members. */
  type Metadata = m: seq<Member> | UniqueKeys(m) witness []

  /** The empty object `{}`, the default metadata everywhere. */
  const EmptyMetadata: Metadata := []
}
