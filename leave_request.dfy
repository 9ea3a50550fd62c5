/** The LeaveRequest entity and its two derived values. */
module LeaveRequests {
  import opened Common
  import opened Calendar

  datatype RequestStatus = Pending | Approved | Rejected

  /** A stored request. The date columns are NOT NULL, so stored dates are
      plain days; `approvedBy` names the admin who decided, for either decision. */
  datatype LeaveRequest = LeaveRequest(
    id: RequestId,
    employeeId: EmployeeId,
    startDate: Day,
    endDate: Day,
    reason: Option<string>,
    status: RequestStatus,
    rejectionReason: Option<string>,
    approvedBy: Option<EmployeeId>,
    decidedAt: Option<Instant>,
    createdAt: Instant)
  {
    /** getTotalDays on a stored request: the number of calendar days it covers. */
    function TotalDays(): (r: int)
      ensures startDate <= endDate ==> r >= 1 && r == |DayRange(startDate, endDate)|
      ensures endDate < startDate ==> r <= 0
    {
      TotalDaysOf(Some(startDate), Some(endDate)).value
    }

    /** getBalanceYear on a stored request: the year its start date falls in. */
    function BalanceYear(): (r: int)
      ensures InYear(startDate, r)
    {
      BalanceYearOf(Some(startDate)).value
    }

    /** The decision fields agree with the status: a pending request carries no
        decision, a decided one names its admin and time, and only a rejected
        one has a rejection reason. */
    predicate DecisionConsistent() {
      match status
      case Pending => approvedBy.None? && decidedAt.None? && rejectionReason.None?
      case Approved => approvedBy.Some? && decidedAt.Some? && rejectionReason.None?
      case Rejected => approvedBy.Some? && decidedAt.Some? && rejectionReason.Some?
    }
  }

  /** getTotalDays with nullable dates: the inclusive day count, or null when a date is missing. */
  function TotalDaysOf(start: Option<Day>, end: Option<Day>): (r: Option<int>)
    ensures r.Some? <==> start.Some? && end.Some?
    ensures r.Some? && start.value <= end.value ==> r.value >= 1 && r.value == |DayRange(start.value, end.value)|
    ensures r.Some? && start.value == end.value ==> r.value == 1
    ensures r.Some? && end.value < start.value ==> r.value <= 0
  {
    if start.Some? && end.Some? then Some(InclusiveDayCount(start.value, end.value)) else None
  }

  /** getBalanceYear with a nullable start date: the year the start date falls in, or null. */
  function BalanceYearOf(start: Option<Day>): (r: Option<int>)
    ensures r.Some? <==> start.Some?
    ensures r.Some? ==> InYear(start.value, r.value)
  {
    if start.Some? then Some(YearOf(start.value)) else None
  }

  /** A request as the service first persists it: status PENDING (also the
      field default) and no decision recorded. */
  function NewLeaveRequest(id: RequestId, employeeId: EmployeeId, start: Day, end: Day,
                           reason: Option<string>, createdAt: Instant): (q: LeaveRequest)
    ensures q.status == Pending && q.DecisionConsistent()
    ensures q.id == id && q.employeeId == employeeId && q.reason == reason && q.createdAt == createdAt
    ensures q.startDate == start && q.endDate == end
  {
    LeaveRequest(id, employeeId, start, end, reason, Pending, None, None, None, createdAt)
  }

  /** A request from 2024-12-31 to 2025-01-02 counts three days, all charged to 2024. */
  lemma BalanceYearIsStartYear()
    ensures var q := NewLeaveRequest(0, 0, EpochDay(2024, 12, 31), EpochDay(2025, 1, 2), None, 0);
            && q.TotalDays() == 3
            && q.BalanceYear() == 2024
            && YearOf(q.endDate) == 2025
  {
    var q := NewLeaveRequest(0, 0, EpochDay(2024, 12, 31), EpochDay(2025, 1, 2), None, 0);
    assert q.endDate - q.startDate == 2;
  }
}
