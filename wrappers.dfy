/** Failure-carrying results and the ordering relations shared by every module. */
module Wrappers {

  /**
   * The exceptions the library throws, as values. `THROW_LENGTH_ERROR_IF` is defined twice and the
   * definition in force throws `std::out_of_range`, so every size-limit check yields `OutOfRange`.
   */
  datatype Error = OutOfRange | ConstructionFailed

  datatype Result<T> = Ok(value: T) | Fail(error: Error)

  datatype Outcome = Pass | Failure(error: Error)

  /** A value, or none: also what a step that would dereference a null pointer yields. */
  datatype Option<T> = None | Some(value: T)

  /** `lt` is a strict weak order: irreflexive, transitive, and incomparability is transitive. */
  ghost predicate StrictWeakOrder<T(!new)>(lt: (T, T) -> bool) {
    && (forall a :: !lt(a, a))
    && (forall a, b, c :: lt(a, b) && lt(b, c) ==> lt(a, c))
    && (forall a, b, c :: !lt(a, b) && !lt(b, c) ==> !lt(a, c))
  }

  /** `lt` is a strict total order on values: a strict weak order whose incomparable values are equal. */
  ghost predicate StrictTotalOrder<T(!new)>(lt: (T, T) -> bool) {
    && StrictWeakOrder(lt)
    && (forall a, b :: lt(a, b) || a == b || lt(b, a))
  }

  lemma Asymmetric<T(!new)>(lt: (T, T) -> bool, a: T, b: T)
    requires StrictWeakOrder(lt)
    ensures lt(a, b) ==> !lt(b, a)
  {
  }

  /** C++ integer division, which truncates toward zero (Dafny's `/` is Euclidean). */
  function CDiv(a: int, b: int): int
    requires b > 0
  {
    if a >= 0 then a / b else -((-a) / b)
  }
}
