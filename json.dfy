/**
 * A parsed JSON document element: the value kinds `JsonElement.ValueKind`
 * distinguishes, with object properties kept in source order and numbers
 * kept as their raw source text.
 */
module Json {

  datatype Property = Property(name: string, value: Json)

  datatype Json =
    | Object(properties: seq<Property>)
    | Array(items: seq<Json>)
    | String(text: string)
    | Number(rawText: string)
    | Bool(truth: bool)
    | Null
    | Undefined
}
