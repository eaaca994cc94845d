/** Optional values, results that may be the bundle library's one exception, and a fact on sets. */
module Basics {

  datatype Option<T> = None | Some(value: T)

  datatype Result<T> = Ok(value: T) | BundleError {
    predicate IsFailure() { BundleError? }

    function PropagateFailure<U>(): Result<U>
      requires BundleError?
    {
      BundleError
    }

    function Extract(): T
      requires Ok?
    {
      value
    }
  }

  lemma NonEmptyHasMember(s: set<int>)
    ensures s == {} || exists t :: t in s
  {
    assert (forall t :: t !in s) ==> s == {};
  }
}
