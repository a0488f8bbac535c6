/** Decoded JSON values as the crawler sees them after `json.loads`, with the
    Python idioms applied to them: `dict.get`, truthiness and `a or b`. */
module Json {
  import opened Text

  /** A decoded JSON value. Objects are Python dicts (one value per key). */
  datatype Json =
    | JNull
    | JBool(b: bool)
    | JInt(i: int)
    | JStr(s: string)
    | JArr(items: seq<Json>)
    | JObj(fields: map<string, Json>)

  type Obj = map<string, Json>

  /** Python truthiness: None, False, 0, "", [] and {} are false. */
  predicate Truthy(j: Json)
  {
    match j
    case JNull => false
    case JBool(b) => b
    case JInt(i) => i != 0
    case JStr(s) => s != []
    case JArr(a) => a != []
    case JObj(m) => m != map[]
  }

  /** Truthiness of a value that may be Python's None. */
  predicate TruthyOpt(v: Option<Json>)
  {
    v.Some? && Truthy(v.value)
  }

  /** `d.get(k)`: a missing key and a JSON null both give None. */
  function Get(m: Obj, k: string): Option<Json>
  {
    if k in m && m[k] != JNull then Some(m[k]) else None
  }

  /** Python's `a or b`: `a` when it is truthy, otherwise `b` (whatever it is). */
  function Or(a: Option<Json>, b: Option<Json>): (r: Option<Json>)
    ensures TruthyOpt(r) <==> TruthyOpt(a) || TruthyOpt(b)
    ensures TruthyOpt(a) ==> r == a
  {
    if TruthyOpt(a) then a else b
  }

  /** `isinstance(v, dict)`, giving the dict. */
  function AsDict(v: Option<Json>): Option<Obj>
  {
    if v.Some? && v.value.JObj? then Some(v.value.fields) else None
  }

  /** A reply of a JSON endpoint: the HTTP status and the decoded JSON body, None
      when the body is not JSON. */
  datatype HttpResponse = HttpResponse(status: int, body: Option<Json>)

  /** The digits of `str(v or "")`. */
  function StrDigits(v: Option<Json>): (r: string)
    ensures AllDigits(r)
  {
    if !TruthyOpt(v) then []
    else match v.value
      case JStr(s) => DigitsOnly(s)
      case JInt(i) => Decimal(if i < 0 then -i else i)
      case _ => []
  }
}
