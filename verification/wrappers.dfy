/** Optional values: the model's rendering of TypeScript's `x | null`,
    `x | undefined` and of a map lookup that may miss. */
module Wrappers {

  datatype Option<+T> = None | Some(value: T) {

    /** The wrapped value, or `default` when there is none (TypeScript's `x ?? d`). */
    function GetOr(default: T): T {
      match this
      case Some(v) => v
      case None => default
    }
  }

  /** How many entries of `xs` hold a value. */
  function CountSome<T>(xs: seq<Option<T>>): (n: nat)
    ensures n <= |xs|
  {
    if |xs| == 0 then 0
    else (if xs[0].Some? then 1 else 0) + CountSome(xs[1..])
  }

  /** How many entries of `xs` hold exactly `y`. */
  function CountOf<T(==)>(xs: seq<Option<T>>, y: T): (n: nat)
    ensures n <= CountSome(xs)
  {
    if |xs| == 0 then 0
    else (if xs[0] == Some(y) then 1 else 0) + CountOf(xs[1..], y)
  }

  /** The present values of `xs`: one element per entry that holds a value,
      so each value occurs as often as the entries holding it. */
  function Somes<T(==,!new)>(xs: seq<Option<T>>): (r: seq<T>)
    ensures |r| == CountSome(xs)
    ensures forall y :: multiset(r)[y] == CountOf(xs, y)
    ensures forall i :: 0 <= i < |xs| && xs[i].Some? ==> xs[i].value in r
    ensures forall y :: y in r ==> Some(y) in xs
  {
    if |xs| == 0 then []
    else (if xs[0].Some? then [xs[0].value] else []) + Somes(xs[1..])
  }
}
