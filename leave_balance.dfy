/** The LeaveBalance entity: one record per (employee, year). */
module LeaveBalances {
  import opened Common

  type BalanceKey = (EmployeeId, int)

  /** Field default of `entitlement` in a freshly constructed record. */
  const DefaultEntitlement: int := 12

  datatype LeaveBalance = LeaveBalance(
    employeeId: EmployeeId,
    year: int,
    entitlement: int,
    carriedOver: int,
    used: int)
  {
    /** getRemaining: derived from the stored fields, never stored itself.
        Nothing remains below zero exactly when the record is not overdrawn. */
    function Remaining(): (r: int)
      ensures r >= 0 <==> WithinEntitlement()
    {
      entitlement + carriedOver - used
    }

    /** The ledger invariant: usage does not exceed what the year grants. */
    predicate WithinEntitlement() {
      used <= entitlement + carriedOver
    }

    function Key(): BalanceKey {
      (employeeId, year)
    }

    /** `setUsed(getUsed() + days)`: moves exactly `days` from remaining to used. */
    function AddUsed(days: int): (b: LeaveBalance)
      ensures b.Remaining() == Remaining() - days
      ensures b.used == used + days
      ensures b.entitlement == entitlement && b.carriedOver == carriedOver && b.Key() == Key()
      ensures WithinEntitlement() && days <= Remaining() ==> b.WithinEntitlement()
    {
      this.(used := used + days)
    }
  }

  /** `new LeaveBalance()` with its employee and year set: the field defaults. */
  function DefaultLeaveBalance(employeeId: EmployeeId, year: int): (b: LeaveBalance)
    ensures b.Key() == (employeeId, year)
    ensures b.entitlement == DefaultEntitlement && b.carriedOver == 0 && b.used == 0
    ensures b.Remaining() == DefaultEntitlement
  {
    LeaveBalance(employeeId, year, DefaultEntitlement, 0, 0)
  }

  /** The record the ledger creates lazily: entitlement copied from the
      employee, nothing carried over, nothing used, so everything remains. */
  function NewBalance(employeeId: EmployeeId, year: int, entitlement: int): (b: LeaveBalance)
    ensures b.Key() == (employeeId, year)
    ensures b.entitlement == entitlement && b.carriedOver == 0 && b.used == 0
    ensures b.Remaining() == entitlement
    ensures b.WithinEntitlement() <==> entitlement >= 0
  {
    LeaveBalance(employeeId, year, entitlement, 0, 0)
  }
}
