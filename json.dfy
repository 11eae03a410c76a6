/** The JSON values of RFC 8259, as the JSON text writes them. An object keeps its members
    in text order, duplicates included, because a derived `Deserialize` reading the text
    sees every member and rejects a field that occurs twice. */
module Json {

  datatype Value =
    | Null
    | Bool(b: bool)
    | Number(n: real)
    | Str(s: string)
    | Array(items: seq<Value>)
    | Object(members: seq<Member>)

  datatype Member = Member(key: string, value: Value)

  /** The values of the members named `key`, in text order. */
  function ValuesOf(members: seq<Member>, key: string): (vs: seq<Value>)
    ensures |vs| <= |members|
    ensures forall v :: v in vs ==> Member(key, v) in members
  {
    if members == [] then []
    else (if members[0].key == key then [members[0].value] else []) + ValuesOf(members[1..], key)
  }
}
