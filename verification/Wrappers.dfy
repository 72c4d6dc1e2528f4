/** Optional values, the outcome of operations that may raise an error, and what
    is said of sequences everywhere.

    In this project a predicate with the body `true <==> ( ... )` is one that is
    proved and used as a whole: the equivalence keeps the verifier from splitting
    it into its conjuncts wherever it is a precondition. */
module Wrappers {

  datatype Option<+T> = None | Some(value: T)

  ghost predicate Distinct<T>(s: seq<T>) {
    forall i, j :: 0 <= i < j < |s| ==> s[i] != s[j]
  }

  ghost function SetOf<T>(s: seq<T>): set<T> {
    set x | x in s
  }

  datatype Status = Okay | Error(message: string) {
    predicate IsFailure() {
      Error?
    }

    function PropagateFailure(): Status
      requires IsFailure()
    {
      this
    }
  }
}
