/**
 * `signum` (solvers/greedy/common.hpp): the sign of a number as -1, 0 or
 * +1, computed as `(0 < x) - (x < 0)` for signed types and as `0 < x` for
 * unsigned ones, the overload chosen by `std::is_signed`.
 */
module Common {

  /** A number of a signed or an unsigned type; the latter holds no negative value. */
  datatype Number = Signed(s: int) | Unsigned(u: nat)

  /** C++'s conversion of a comparison result to `int`. */
  function BoolToInt(b: bool): int
  {
    if b then 1 else 0
  }

  /** The unsigned overload: 1 for a positive value, 0 for zero. */
  function SignumUnsigned(x: nat): (r: int)
    ensures r == 0 || r == 1
    ensures r == 0 <==> x == 0
  {
    BoolToInt(0 < x)
  }

  /** The signed overload. */
  function SignumSigned(x: int): (r: int)
    ensures r == -1 <==> x < 0
    ensures r == 0 <==> x == 0
    ensures r == 1 <==> x > 0
    ensures -1 <= r <= 1
  {
    BoolToInt(0 < x) - BoolToInt(x < 0)
  }

  /** The value a Number stands for. */
  function Value(x: Number): int
  {
    match x
    case Signed(s) => s
    case Unsigned(u) => u
  }

  /**
   * `signum(x)`: dispatch on the signedness of x's type. Whatever the type,
   * the result is the documented one: 0 for zero, -1 below, +1 above.
   */
  function Signum(x: Number): (r: int)
    ensures r == (if Value(x) < 0 then -1 else if Value(x) == 0 then 0 else 1)
  {
    match x
    case Signed(s) => SignumSigned(s)
    case Unsigned(u) => SignumUnsigned(u)
  }

  /** The two overloads agree on the values both types can hold. */
  lemma OverloadsAgree(x: nat)
    ensures Signum(Unsigned(x)) == Signum(Signed(x))
  {
  }
}
