/** Identifiers, optional values and the typed failures of the leave core.
    The exception classes ResourceNotFoundException, BadRequestException and
    UnauthorizedException become the three constructors of Error. */
module Common {

  type EmployeeId = nat

  /** Surrogate key of a leave request: its position in the request store. */
  type RequestId = nat

  /** An opaque clock reading (the `now` of a creation or a decision). */
  type Instant = int

  datatype Option<T> = None | Some(value: T)

  /** What a NotFound failure could not find. */
  datatype Missing = EmployeeMissing | AdminMissing | RequestMissing | BalanceMissing(year: int)

  /** Why a BadRequest failure was raised, one constructor per message of the services. */
  datatype Problem =
    | EndBeforeStart
    | OverlapsApprovedLeave
    | InsufficientBalance(remaining: int, requested: int)
    | NotPendingForApproval
    | EmployeeBalanceInsufficient
    | RejectionReasonRequired
    | NotPendingForRejection

  datatype Error = NotFound(missing: Missing) | BadRequest(problem: Problem) | Unauthorized

  datatype Result<T> = Success(value: T) | Failure(error: Error)

  /** The result of an operation that returns nothing (a Java `void` method). */
  datatype Outcome = Pass | Fail(error: Error)
}

/** java.lang.String.trim, as used to test a rejection reason for blankness. */
module JavaStrings {

  /** trim() strips every code unit at or below U+0020 from both ends. */
  predicate IsStrippedByTrim(c: char) {
    c <= ' '
  }

  predicate IsBlank(s: string) {
    forall i :: 0 <= i < |s| ==> IsStrippedByTrim(s[i])
  }

  function TrimLeading(s: string): (r: string)
    ensures r == [] <==> IsBlank(s)
    ensures r != [] ==> !IsStrippedByTrim(r[0])
  {
    if |s| > 0 && IsStrippedByTrim(s[0]) then TrimLeading(s[1..]) else s
  }

  function TrimTrailing(s: string): (r: string)
    ensures r == [] <==> IsBlank(s)
    ensures |r| <= |s| && r == s[..|r|]
  {
    if |s| > 0 && IsStrippedByTrim(s[|s| - 1]) then TrimTrailing(s[..|s| - 1]) else s
  }

  /** `s.trim().isEmpty()` holds exactly of the strings made only of such characters. */
  function Trim(s: string): (r: string)
    ensures r == [] <==> IsBlank(s)
  {
    TrimTrailing(TrimLeading(s))
  }
}
