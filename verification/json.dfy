/**
  The JSON values a request body field or a stored record field can hold,
  with the two JavaScript coercions the service depends on.
 */
module Json {
  import opened Decimal

  /** A primitive JSON value; numbers are integer-valued. */
  datatype Value = Null | Str(s: string) | Num(n: int) | Bool(b: bool)

  /**
    JavaScript loose `value == ''` for a primitive: the empty string, and also
    the number 0 and `false`, which both coerce to 0 as the empty string does.
    `null` is loosely equal only to `null` and `undefined`.
   */
  predicate LooseEmpty(v: Value) {
    v == Str("") || v == Num(0) || v == Bool(false)
  }

  /**
    Loose equality with the empty string, step by step as section 7.2.14 of
    ECMA-262 (IsLooselyEqual) takes it: a string compares strictly; `null` is
    loosely equal only to `null` and `undefined`; a number is compared with
    the empty string converted to a number, which is 0; a boolean is first
    converted to the number 1 or 0.
   */
  function LooselyEqualsEmptyString(v: Value): bool
    decreases if v.Bool? then 1 else 0
  {
    match v
    case Str(s) => s == ""
    case Null => false
    case Num(n) => n == 0
    case Bool(b) => LooselyEqualsEmptyString(Num(if b then 1 else 0))
  }

  lemma LooseEmptyIsLooseEquality(v: Value)
    ensures LooseEmpty(v) <==> LooselyEqualsEmptyString(v)
  {
  }

  /**
    `String(v)`: the text a value turns into as a property key or in a
    template. A number's text scans back to the number.
   */
  function JsString(v: Value): (r: string)
    ensures v.Null? ==> r == "null"
    ensures v.Str? ==> r == v.s
    ensures v.Num? ==> ParseLeadingInt(r) == Some(v.n)
    ensures v.Bool? ==> (r == "true" <==> v.b) && (r == "false" <==> !v.b)
  {
    match v
    case Null => "null"
    case Str(s) => s
    case Num(n) =>
      ParseIntToString(n, "");
      assert IntToString(n) + "" == IntToString(n);
      IntToString(n)
    case Bool(b) => if b then "true" else "false"
  }
}
