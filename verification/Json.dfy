/** JSON values as the repository's JSON library holds them. */
module Json {
  import opened Common

  type u64 = n: int | 0 <= n <= U64_MAX
  type negative = n: int | I64_MIN <= n < 0 witness -1

  /** A parsed number keeps which of three forms it had; a float is finite. */
  datatype Number = PosInt(n: u64) | NegInt(i: negative) | Float(f: real)

  datatype Json =
    | Null
    | Bool(b: bool)
    | Num(n: Number)
    | Str(s: string)
    | Arr(items: seq<Json>)
    | Obj(fields: map<string, Json>)

  function NumberFromI64(i: int): Number
    requires FitsI64(i)
  {
    if i >= 0 then PosInt(i) else NegInt(i)
  }
}
