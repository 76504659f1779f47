/** Request-body validation in the manner of `z.object({...}).parse`: a body
    passes when it is an object whose every required field has the required
    kind; extra fields are ignored. */
module Schema {

  /** A decoded JSON request body. */
  datatype Json =
    | JNull
    | JBool(b: bool)
    | JNumber(n: int)
    | JString(s: string)
    | JArray(items: seq<Json>)
    | JObject(fields: map<string, Json>)

  /** The field kinds the handlers ask for: `z.string()` and `z.boolean()`. */
  datatype Kind = KString | KBoolean

  /** The fields of a `z.object({...})` schema, in declaration order. */
  type Shape = seq<(string, Kind)>

  /** A tagged parse result: the extracted value, or the paths of every field
      that failed. */
  datatype Parsed<+T> = Valid(value: T) | Invalid(issues: seq<string>)

  /** The path reported when the body is not an object at all. */
  const RootPath: string := ""

  predicate HasKind(v: Json, k: Kind) {
    match k
    case KString => v.JString?
    case KBoolean => v.JBool?
  }

  predicate FieldOk(fields: map<string, Json>, field: (string, Kind)) {
    field.0 in fields && HasKind(fields[field.0], field.1)
  }

  /** The body satisfies the shape: it is an object and every field is present
      with its kind. */
  ghost predicate Conforms(body: Json, shape: Shape) {
    body.JObject? && forall i :: 0 <= i < |shape| ==> FieldOk(body.fields, shape[i])
  }

  /** The issue paths for an object body: exactly the names of the failing fields. */
  function FieldIssues(fields: map<string, Json>, shape: Shape): (r: seq<string>)
    ensures forall k :: k in r <==> exists i :: 0 <= i < |shape| && shape[i].0 == k && !FieldOk(fields, shape[i])
    ensures r == [] <==> forall i :: 0 <= i < |shape| ==> FieldOk(fields, shape[i])
  {
    if shape == [] then []
    else
      var rest := FieldIssues(fields, shape[1..]);
      assert forall i :: 1 <= i < |shape| ==> shape[i] == shape[1..][i - 1];
      (if FieldOk(fields, shape[0]) then [] else [shape[0].0]) + rest
  }

  /** All issues of a body against a shape; empty exactly when it conforms. */
  function Issues(body: Json, shape: Shape): (r: seq<string>)
    ensures r == [] <==> Conforms(body, shape)
    ensures !body.JObject? ==> r == [RootPath]
  {
    if !body.JObject? then [RootPath] else FieldIssues(body.fields, shape)
  }

  predicate IsHexDigit(c: char) {
    '0' <= c <= '9' || 'a' <= c <= 'f' || 'A' <= c <= 'F'
  }

  /** `z.string().uuid()`: five groups of 8-4-4-4-12 hexadecimal digits
      separated by hyphens. */
  predicate IsUuid(s: string) {
    |s| == 36 &&
    forall i :: 0 <= i < |s| ==> if i in {8, 13, 18, 23} then s[i] == '-' else IsHexDigit(s[i])
  }

  /** The `{ id: z.string().uuid() }` route-parameter schema of the meal routes. */
  function ParseIdParam(id: string): (r: Parsed<string>)
    ensures r.Valid? <==> IsUuid(id)
    ensures r.Valid? ==> r.value == id
    ensures r.Invalid? ==> r.issues == ["id"]
  {
    if IsUuid(id) then Valid(id) else Invalid(["id"])
  }
}
