/** The values `json.loads` produces, with the Python operations the
    scheduler applies to them: `dict.get`, `key in dict`, truthiness and `str()`. */
module JsonValue {
  import opened Wrappers
  import opened Text

  /** A decoded JSON value. Floats are not modelled. */
  datatype Json =
    | Null
    | Bool(b: bool)
    | Int(n: int)
    | Str(s: string)
    | List(items: seq<Json>)
    | Obj(fields: seq<Field>)

  /** One entry of a decoded object, in insertion order. A dict built by
      `json.loads` keeps only the last value of a repeated key, so a faithful
      `loads` yields distinct keys, each with its last value. `Lookup` below
      finds the first entry, which agrees with Python only on distinct keys. */
  datatype Field = Field(key: string, value: Json)

  /** `d[key]`, which raises `KeyError` (here: `None`) when the key is absent. */
  function Lookup(fields: seq<Field>, key: string): (r: Option<Json>)
    ensures r.Some? <==> exists i :: 0 <= i < |fields| && fields[i].key == key
    ensures r.Some? ==> exists i :: 0 <= i < |fields| && fields[i] == Field(key, r.value)
  {
    if fields == [] then None
    else if fields[0].key == key then Some(fields[0].value)
    else
      var r := Lookup(fields[1..], key);
      assert r.Some? ==> exists i :: 1 <= i < |fields| && fields[i] == Field(key, r.value) by {
        if r.Some? {
          var i :| 0 <= i < |fields[1..]| && fields[1..][i] == Field(key, r.value);
          assert fields[i + 1] == Field(key, r.value);
        }
      }
      r
  }

  /** `key in d` */
  predicate HasKey(fields: seq<Field>, key: string) {
    Lookup(fields, key).Some?
  }

  /** `d.get(key)`: the value, or `None` when the key is absent. */
  function Get(fields: seq<Field>, key: string): Json {
    Lookup(fields, key).GetOr(Null)
  }

  /** `bool(v)`: `None`, `False`, `0` and empty strings, lists and dicts are false. */
  predicate Truthy(v: Json) {
    match v
    case Null => false
    case Bool(b) => b
    case Int(n) => n != 0
    case Str(s) => s != []
    case List(items) => items != []
    case Obj(fields) => fields != []
  }

  /** `str(v)`. Strings nested in a list or dict are shown between single
      quotes; the escaping `repr` applies to quotes, backslashes and
      unprintable characters is not modelled. */
  function PyStr(v: Json): string
    decreases v, 0
  {
    match v
    case Null => "None"
    case Bool(b) => if b then "True" else "False"
    case Int(n) => IntToDecimal(n)
    case Str(s) => s
    case List(items) =>
      "[" + Join(seq(|items|, i requires 0 <= i < |items| => Repr(items[i])), ", ") + "]"
    case Obj(fields) =>
      "{" + Join(seq(|fields|, i requires 0 <= i < |fields| =>
                       "'" + fields[i].key + "': " + Repr(fields[i].value)), ", ") + "}"
  }

  /** `repr(v)`, as used for the elements of a list or dict. */
  function Repr(v: Json): string
    decreases v, 1
  {
    if v.Str? then "'" + v.s + "'" else PyStr(v)
  }

  /** Only `None` and strings can have a `str()` that is blank or reads
      "null"/"none": every other value prints with a first and last character
      that are not whitespace, and a first character that is not an `n`. */
  lemma PyStrOfNonText(v: Json)
    requires !v.Null? && !v.Str?
    ensures PyStr(v) != []
    ensures !IsSpace(PyStr(v)[0]) && !IsSpace(PyStr(v)[|PyStr(v)| - 1])
    ensures LowerChar(PyStr(v)[0]) != 'n'
  {
  }
}
