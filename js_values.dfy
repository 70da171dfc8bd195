/**
  The vocabulary of JavaScript values that the library's results are made of:
  the two "absent" markers (`undefined` and `null`), a thrown `Error` with its
  message, and the decimal text that template literals give to an integer.
 */
module JsValues {

  /** An optional argument or a map lookup: present or not given. */
  datatype Option<T> = None | Some(value: T) {
    function GetOr(default: T): T {
      match this
      case Some(v) => v
      case None => default
    }
  }

  /** A result that may be `undefined`, `null` or an actual value. */
  datatype Nullish<T> = Undefined | Null | Value(value: T)

  /** A value returned normally, or an `Error` thrown with its message. */
  datatype Result<T> = Ok(value: T) | Err(message: string)

  /** A `void` operation that returns normally or throws an `Error`. */
  datatype Outcome = Pass | Fail(message: string)

  /** JavaScript truthiness of a result, given which values are falsy. */
  predicate Truthy<T>(v: Nullish<T>, falsy: T -> bool) {
    v.Value? && !falsy(v.value)
  }

  /** `v || null` */
  function OrNull<T>(v: Nullish<T>, falsy: T -> bool): (r: Nullish<T>)
    ensures r.Null? || r.Value?
    ensures Truthy(v, falsy) ==> r == v
    ensures !Truthy(v, falsy) ==> r == Null
  {
    if Truthy(v, falsy) then v else Null
  }

  /** `v || undefined` */
  function OrUndefined<T>(v: Nullish<T>, falsy: T -> bool): (r: Nullish<T>)
    ensures r.Undefined? || r.Value?
    ensures Truthy(v, falsy) ==> r == v
    ensures !Truthy(v, falsy) ==> r == Undefined
  {
    if Truthy(v, falsy) then v else Undefined
  }

  /** The decimal digits of a natural number, most significant first. */
  function NatToString(n: nat): (r: string)
    ensures |r| >= 1
    ensures forall i :: 0 <= i < |r| ==> '0' <= r[i] <= '9'
    decreases n
  {
    var digit := [(48 + n % 10) as char];
    if n < 10 then digit else NatToString(n / 10) + digit
  }

  /** How `${n}` renders an integer inside a template literal. */
  function IntToString(n: int): (r: string)
    ensures |r| >= 1
    ensures (r[0] == '-') <==> n < 0
  {
    if n < 0 then "-" + NatToString(-n) else NatToString(n)
  }
}
