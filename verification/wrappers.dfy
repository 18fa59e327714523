/** Option and Result values used for the Rust `Option` and `Result` types of the model. */
module Wrappers {

  datatype Option<+T> = None | Some(value: T)

  /** `Result<T, E>` of Rust: `Success` is `Ok`, `Failure` is `Err`. */
  datatype Result<+T, +E> = Success(value: T) | Failure(error: E)

  /** `Ok(xs ++ ys)` when `r` is `Ok(ys)`; an error passes through unchanged. */
  function Prepend<T, E>(xs: seq<T>, r: Result<seq<T>, E>): (s: Result<seq<T>, E>)
    ensures r.Failure? ==> s == r
    ensures r.Success? ==> s.Success? && |s.value| == |xs| + |r.value| && s.value[..|xs|] == xs && s.value[|xs|..] == r.value
  {
    match r
    case Success(ys) => Success(xs + ys)
    case Failure(e) => Failure(e)
  }

  lemma PrependTwice<T, E>(xs: seq<T>, ys: seq<T>, r: Result<seq<T>, E>)
    ensures Prepend(xs, Prepend(ys, r)) == Prepend(xs + ys, r)
  {
    if r.Success? {
      assert xs + (ys + r.value) == (xs + ys) + r.value;
    }
  }
}
