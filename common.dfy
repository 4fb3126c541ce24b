/** Shared value types: optional values, results, the two debate sides,
    JavaScript numbers read from a request, request-body fields and the
    outcome of an Express middleware or handler. */
module Common {

  datatype Option<+T> = None | Some(value: T)

  datatype Result<+T, +E> = Ok(value: T) | Err(error: E)

  /** A debate side. */
  datatype Side = A | B

  /** The value of `Number(x)` for a request parameter: NaN, or a finite
      number (integral or not). */
  datatype Num = NaN | Finite(value: real)

  /** JavaScript truthiness of such a number: NaN and 0 are falsy. */
  predicate NumTruthy(n: Num) {
    n.Finite? && n.value != 0.0
  }

  /** A value read from a JSON request body, as express-validator sees it:
      missing, `null`, or a string.  (Other JSON values are not modelled.) */
  datatype Field = Absent | Null | Str(s: string)

  /** express-validator converts a value to a string before running a
      standard validator on it; `undefined` and `null` become "". */
  function FieldText(f: Field): string
  {
    match f
    case Str(s) => s
    case _ => []
  }

  /** JavaScript truthiness of such a value: only a non-empty string. */
  predicate FieldTruthy(f: Field) {
    f.Str? && f.s != []
  }

  /** What a middleware does with the request: pass it on with `next()`,
      or answer it with a status code and a message. */
  datatype Outcome = Next | Respond(status: int, message: string)

  /** The first row a `SELECT ... WHERE ... LIMIT 1` returns: the index of
      the first element, from `i` on, that satisfies `p`. */
  function FirstWhere<T>(s: seq<T>, p: T -> bool, i: nat): (r: Option<nat>)
    requires i <= |s|
    ensures r.None? <==> forall j :: i <= j < |s| ==> !p(s[j])
    ensures r.Some? ==> i <= r.value < |s| && p(s[r.value]) && forall j :: i <= j < r.value ==> !p(s[j])
    decreases |s| - i
  {
    if i == |s| then None
    else if p(s[i]) then Some(i)
    else FirstWhere(s, p, i + 1)
  }
}
