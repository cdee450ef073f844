/** Crawled records: dictionaries from field name to a scalar JSON value. */
module Records {
  import opened Base
  import opened PyText

  /** A scalar field value; `Null` is Python's `None`. */
  datatype Value = Null | Str(s: string) | Int(i: int)

  /** One crawled row. A key that is absent differs from a key whose value is `Null`. */
  type Record = map<string, Value>

  /** `r.get(key)`: `Null` both when the key is absent and when it holds `None`. */
  function Get(r: Record, key: string): Value {
    if key in r then r[key] else Null
  }

  /** `r.get(key, default)` */
  function GetOr(r: Record, key: string, default: Value): Value {
    if key in r then r[key] else default
  }

  /** `bool(v)` */
  predicate Truthy(v: Value) {
    match v
    case Null => false
    case Str(s) => s != []
    case Int(i) => i != 0
  }

  /** `str(v)`, as an f-string prints the value: an integer prints as the
      text `int()` reads back, with a sign exactly when it is negative. */
  function Show(v: Value): (s: string)
    ensures v.Int? ==> s != [] && (s[0] == '-' <==> v.i < 0)
    ensures v.Int? && |NatToString(if v.i < 0 then -v.i else v.i)| <= MaxStrDigits ==> ParseInt(s) == Some(v.i)
  {
    match v
    case Null => "None"
    case Str(s) => s
    case Int(i) =>
      if |NatToString(if i < 0 then -i else i)| <= MaxStrDigits then
        ParseIntToString(i);
        IntToString(i)
      else IntToString(i)
  }

  /** `r.get('id', '?')`: how a condition names a record in its message. A
      record is named by its id whenever it has one; only an explicit `None`
      id gives `None`, and a record without the key is named `?`. */
  function IdLabel(r: Record): (name: Value)
    ensures Get(r, "id") != Null ==> name == Get(r, "id")
    ensures name == Null <==> "id" in r && r["id"] == Null
    ensures "id" !in r ==> name == Str("?")
  {
    GetOr(r, "id", Str("?"))
  }
}
