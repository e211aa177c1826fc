/** JSON values as nbformat hands them to the rewrite: the values of an
    output's `data` (mime bundle) and `metadata` dictionaries. */
module Json {

  /** A JSON value. Objects keep their members in order, as Python dicts do.
      Numbers are integers only: floating point is not modelled. */
  datatype Json =
    | Null
    | Bool(b: bool)
    | Num(n: int)
    | Str(s: string)
    | Arr(items: seq<Json>)
    | Obj(members: seq<(string, Json)>)
}
