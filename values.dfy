/** Form values as the handler receives them, and the few JavaScript
    conversions it applies to them. */
module Values {

  datatype Option<+T> = None | Some(value: T)

  /** A url-encoded request body: field name to submitted text. */
  type Body = map<string, string>

  /** `body[key]`: the submitted text, None when the field was not sent. */
  function Field(body: Body, key: string): (v: Option<string>)
    ensures v.Some? <==> key in body
    ensures v.Some? ==> v.value == body[key]
  {
    if key in body then Some(body[key]) else None
  }

  /** `v || ""`: a missing field becomes the empty string, any other text
      (the empty string included) is kept. */
  function OrEmpty(v: Option<string>): string
  {
    match v
    case Some(s) => s
    case None => ""
  }

  /** JavaScript truthiness of a form field: sent and not the empty string. */
  predicate Filled(v: Option<string>)
  {
    v.Some? && v.value != ""
  }

  /** `${v}` in a template literal: a missing value prints as "undefined". */
  function Interpolated(v: Option<string>): string
  {
    match v
    case Some(s) => s
    case None => "undefined"
  }

  /** `xs.filter(Boolean)` over an array whose skipped entries are null. */
  function Present<T>(xs: seq<Option<T>>): seq<T>
  {
    if xs == [] then []
    else (if xs[0].Some? then [xs[0].value] else []) + Present(xs[1..])
  }
}
