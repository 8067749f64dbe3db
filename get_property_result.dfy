/** GetPropertyResult: whether a property lookup located a value. */
module PropertyResult {
  import opened Notations

  /**
   * `Found` wraps any value, Java's null (`Null`) included; `NotFound` is
   * the one result that carries no value.
   */
  datatype GetPropertyResult = Found(value: Value) | NotFound {

    /** `isFound()`: false only for the `NotFound` instance. */
    predicate IsFound()
      ensures IsFound() <==> this != NotFound
    {
      Found?
    }

    /** Reading the value of `NotFound` is an invalid-state error, so callers must check first. */
    function GetValue(): (v: Value)
      requires IsFound()
      ensures this == Found(v)
    {
      value
    }
  }

  /** `GetPropertyResult.found(value)`. */
  function FoundResult(value: Value): (r: GetPropertyResult)
    ensures r.IsFound()
    ensures r.GetValue() == value
  {
    Found(value)
  }

  /** `GetPropertyResult.notFound()`, the shared `NotFound.INSTANCE`. */
  function NotFoundResult(): (r: GetPropertyResult)
    ensures !r.IsFound()
  {
    NotFound
  }

  /** A null value is still found, and reads back as null. */
  lemma FoundNullIsFound()
    ensures FoundResult(Null).IsFound() && FoundResult(Null).GetValue() == Null
  {
  }

  /** Every result that is not found is the singleton `notFound()` returns. */
  lemma NotFoundIsSingleton(r: GetPropertyResult)
    ensures !r.IsFound() <==> r == NotFoundResult()
  {
  }

  /**
   * `FoundResult(v)` determines `v`: the wrapped value is recoverable from
   * the result. (Java's `Found` has no `equals`, so this is a fact about
   * the values, not about object identity.)
   */
  lemma FoundIsInjective(v: Value, w: Value)
    ensures FoundResult(v) == FoundResult(w) <==> v == w
  {
    if FoundResult(v) == FoundResult(w) {
      assert FoundResult(v).GetValue() == FoundResult(w).GetValue();
    }
  }
}
