/** Request validation errors, reduced to two of the entries pydantic
    reports for each (`exc.errors()`): where the bad value was (`loc`) and
    which rule it broke (`type`). The `msg`, `input` and `ctx` entries are
    not modelled. */
module Validation {
  import opened Json

  datatype FieldError = FieldError(loc: seq<string>, errorType: string)

  function LocJson(loc: seq<string>): (j: Json)
    ensures j.JArr? && |j.items| == |loc|
  {
    if |loc| == 0 then JArr([])
    else JArr([JStr(loc[0])] + LocJson(loc[1..]).items)
  }

  function ErrorJson(e: FieldError): Json {
    JObj([("type", JStr(e.errorType)), ("loc", LocJson(e.loc))])
  }

  /** `exc.errors()` as the JSON list it is serialised to. */
  function ErrorsJson(es: seq<FieldError>): (j: Json)
    ensures j.JArr? && |j.items| == |es|
  {
    if |es| == 0 then JArr([])
    else JArr([ErrorJson(es[0])] + ErrorsJson(es[1..]).items)
  }

  /** Some error is reported at `loc`. */
  predicate HasErrorAt(es: seq<FieldError>, loc: seq<string>) {
    exists e :: e in es && e.loc == loc
  }

  lemma HasErrorAtAppend(a: seq<FieldError>, b: seq<FieldError>, loc: seq<string>)
    ensures HasErrorAt(a + b, loc) <==> HasErrorAt(a, loc) || HasErrorAt(b, loc)
  {
    if HasErrorAt(a + b, loc) {
      var e :| e in a + b && e.loc == loc;
      assert e in a || e in b;
    }
    if HasErrorAt(a, loc) {
      var e :| e in a && e.loc == loc;
      assert e in a + b;
    }
    if HasErrorAt(b, loc) {
      var e :| e in b && e.loc == loc;
      assert e in a + b;
    }
  }
}
