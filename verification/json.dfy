/** The value a JSON parser hands back: the untyped, dictionary-shaped data
    the sanitiser and the error filter work on. Numbers are kept as integers;
    the filter never inspects them. */
module Json {

  datatype Json =
    | JNull
    | JBool(b: bool)
    | JNumber(n: int)
    | JString(s: string)
    | JArray(items: seq<Json>)
    | JObject(fields: map<string, Json>)
}
