/** Outcomes of the repository's validators and fallible conversions.
    An `FC_ASSERT` or `FC_THROW_EXCEPTION` that fires becomes `Fail` / `Err`
    carrying the name of the check that fired. */
module Results {

  /** Result of a `validate()` routine: it returns normally or throws. */
  datatype Outcome = Pass | Fail(reason: string)
  {
    /** Runs `check` only when this outcome passed, the way consecutive
        assertions do. */
    function Then(check: Outcome): (r: Outcome)
      ensures r.Pass? <==> Pass? && check.Pass?
      ensures Fail? ==> r == this
    {
      if Fail? then this else check
    }
  }

  /** Result of an operation that produces a value or throws. */
  datatype Result<+T> = Ok(value: T) | Err(reason: string)

  /** One `FC_ASSERT( cond )`. */
  function Assert(cond: bool, reason: string): (r: Outcome)
    ensures r.Pass? <==> cond
  {
    if cond then Pass else Fail(reason)
  }
}
