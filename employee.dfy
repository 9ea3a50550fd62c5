/** The employee directory the core reads: role and annual entitlement per
    employee. The directory itself is never changed by the leave core. */
module Employees {
  import opened Common

  datatype UserRole = EmployeeRole | AdminRole

  datatype Employee = Employee(role: UserRole, annualLeaveEntitlement: int)

  type Directory = map<EmployeeId, Employee>

  /** Defaults of a new employee: role EMPLOYEE, 12 days a year. */
  const DefaultAnnualLeaveEntitlement: int := 12

  function DefaultEmployee(): (e: Employee)
    ensures e.role != AdminRole && e.annualLeaveEntitlement == DefaultAnnualLeaveEntitlement
  {
    Employee(EmployeeRole, DefaultAnnualLeaveEntitlement)
  }
}
