/** Decoded JSON values, as the parser hands them over. Object members are
    kept in textual order, repeated keys included; turning them into a Hash is
    `RubyHash.FromPairs`. */
module Json {

  datatype Value =
    | Null
    | Bool(b: bool)
    | Number(n: int)
    | Str(s: string)
    | Array(items: seq<Value>)
    | Object(members: seq<(string, Value)>)
}
