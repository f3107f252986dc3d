// JSON values as Python's json module hands them over.

module Json {
  datatype Json =
    | Null
    | Bool(b: bool)
    | Int(i: int)
    | Float(f: real)
    | Str(s: string)
    | List(items: seq<Json>)
    | OtherObject

  // Python's `value == n` for an integer n: true equals 1 and 1.0 equals 1.
  predicate EqualsInt(v: Json, n: int) {
    match v
    case Int(i) => i == n
    case Float(f) => f == n as real
    case Bool(b) => n == if b then 1 else 0
    case _ => false
  }

  // A parsed document: an object whose keys are the names a reader knows
  // about (and any others), or a value that is no object.
  datatype Document<!K> = Document(fields: map<K, Json>) | NotObject

  // dict.get
  function Field<K>(m: map<K, Json>, key: K): Json {
    if key in m then m[key] else Null
  }

  function StringList(items: seq<string>): Json {
    List(seq(|items|, i requires 0 <= i < |items| => Str(items[i])))
  }

  predicate IsStringList(v: Json) {
    v.List? && forall i :: 0 <= i < |v.items| ==> v.items[i].Str?
  }

  function Strings(v: Json): seq<string>
    requires IsStringList(v)
  {
    seq(|v.items|, i requires 0 <= i < |v.items| => v.items[i].s)
  }

  lemma StringListRoundTrip(items: seq<string>)
    ensures IsStringList(StringList(items)) && Strings(StringList(items)) == items
  {
  }
}
