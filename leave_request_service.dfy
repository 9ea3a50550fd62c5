/** LeaveRequestService: the request workflow. A request is created PENDING
    after a chain of guards, and an admin then moves it to APPROVED (debiting
    the ledger) or to REJECTED (leaving the ledger alone); both are final.

    Each operation runs in one transaction: when it fails, neither store keeps
    any of its writes, including a balance record created lazily on the way.
    The step functions state each operation's effect on the two stores; the
    class performs it in place and is proved to agree with them. */
module RequestWorkflow {
  import opened Common
  import opened JavaStrings
  import opened Calendar
  import opened Employees
  import opened LeaveBalances
  import opened BalanceLedger
  import opened LeaveRequests
  import opened RequestRepository

  /** Both stores as one value: requests by id, balances by (employee, year). */
  datatype Store = Store(requests: seq<LeaveRequest>, balances: Balances)

  /** What an operation returns and the stores it leaves behind. */
  datatype Step = Step(result: Result<LeaveRequest>, after: Store)

  predicate IsAdmin(dir: Directory, id: EmployeeId) {
    id in dir && dir[id].role == AdminRole
  }

  /** Every stored request sits at its own id, has its dates in order, and has
      decision fields that agree with its status. */
  ghost predicate RequestsWellFormed(requests: seq<LeaveRequest>) {
    forall i | 0 <= i < |requests| ::
      requests[i].id == i && requests[i].startDate <= requests[i].endDate && requests[i].DecisionConsistent()
  }

  /** createLeaveRequest. */
  function CreateStep(s: Store, dir: Directory, employeeId: EmployeeId, start: Day, end: Day,
                      reason: Option<string>, now: Instant): (step: Step)
    ensures step.result.Failure? ==> step.after == s
    ensures employeeId !in dir ==> step.result == Failure(NotFound(EmployeeMissing))
    ensures employeeId in dir && end < start ==> step.result == Failure(BadRequest(EndBeforeStart))
    ensures employeeId in dir && start <= end && (exists q :: q in s.requests && IsOverlappingApproved(q, employeeId, start, end)) ==>
                  step.result == Failure(BadRequest(OverlapsApprovedLeave))
    ensures employeeId in dir && start <= end && (forall q | q in s.requests :: !IsOverlappingApproved(q, employeeId, start, end)) ==>
                  var available := CurrentBalance(s.balances, dir, employeeId, YearOf(start)).Remaining();
                  var requested := InclusiveDayCount(start, end);
                  if available < requested then step.result == Failure(BadRequest(InsufficientBalance(available, requested)))
                  else step.result.Success?
    ensures step.result.Success? ==>
              && step.result.value == NewLeaveRequest(|s.requests|, employeeId, start, end, reason, now)
              && step.after.requests == s.requests + [step.result.value]
              && step.after.balances == GetOrCreate(s.balances, dir, employeeId, YearOf(start)).1
    ensures forall k | k in s.balances :: k in step.after.balances && step.after.balances[k] == s.balances[k]
    ensures NoOverdraft(s.balances) ==> NoOverdraft(step.after.balances)
    ensures RequestsWellFormed(s.requests) ==> RequestsWellFormed(step.after.requests)
  {
    if employeeId !in dir then Step(Failure(NotFound(EmployeeMissing)), s)
    else if end < start then Step(Failure(BadRequest(EndBeforeStart)), s)
    else if FindOverlappingApproved(s.requests, employeeId, start, end) != [] then
      Step(Failure(BadRequest(OverlapsApprovedLeave)), s)
    else
      var totalDays := InclusiveDayCount(start, end);
      var year := YearOf(start);
      var got := GetOrCreate(s.balances, dir, employeeId, year);
      var remaining := got.0.value.Remaining();
      if remaining < totalDays then Step(Failure(BadRequest(InsufficientBalance(remaining, totalDays))), s)
      else
        var request := NewLeaveRequest(|s.requests|, employeeId, start, end, reason, now);
        Step(Success(request), Store(s.requests + [request], got.1))
  }

  /** approveRequest. */
  function ApproveStep(s: Store, dir: Directory, requestId: RequestId, adminId: EmployeeId, now: Instant): (step: Step)
    ensures step.result.Failure? ==> step.after == s
    ensures adminId !in dir ==> step.result == Failure(NotFound(AdminMissing))
    ensures adminId in dir && !IsAdmin(dir, adminId) ==> step.result == Failure(Unauthorized)
    ensures IsAdmin(dir, adminId) && requestId >= |s.requests| ==> step.result == Failure(NotFound(RequestMissing))
    ensures IsAdmin(dir, adminId) && requestId < |s.requests| && s.requests[requestId].status != Pending ==>
                  step.result == Failure(BadRequest(NotPendingForApproval))
    ensures IsAdmin(dir, adminId) && requestId < |s.requests| && s.requests[requestId].status == Pending ==>
                  var q := s.requests[requestId];
                  if q.employeeId !in dir then step.result == Failure(NotFound(EmployeeMissing))
                  else if CurrentBalance(s.balances, dir, q.employeeId, q.BalanceYear()).Remaining() < q.TotalDays()
                  then step.result == Failure(BadRequest(EmployeeBalanceInsufficient))
                  else step.result.Success?
    ensures step.result.Success? ==>
              var q := s.requests[requestId];
              var key := (q.employeeId, q.BalanceYear());
              var before := CurrentBalance(s.balances, dir, q.employeeId, q.BalanceYear());
              && step.result.value == q.(status := Approved, approvedBy := Some(adminId), decidedAt := Some(now))
              && step.after.requests == s.requests[requestId := step.result.value]
              && step.after.balances.Keys == s.balances.Keys + {key}
              && step.after.balances[key] == before.AddUsed(q.TotalDays())
              && step.after.balances[key].used == before.used + q.TotalDays()
              && (forall k | k in s.balances && k != key :: step.after.balances[k] == s.balances[k])
    ensures NoOverdraft(s.balances) ==> NoOverdraft(step.after.balances)
    ensures RequestsWellFormed(s.requests) ==> RequestsWellFormed(step.after.requests)
    ensures RequestsWellFormed(s.requests) ==>
              forall k | k in s.balances :: k in step.after.balances && step.after.balances[k].used >= s.balances[k].used
  {
    if adminId !in dir then Step(Failure(NotFound(AdminMissing)), s)
    else if dir[adminId].role != AdminRole then Step(Failure(Unauthorized), s)
    else if requestId >= |s.requests| then Step(Failure(NotFound(RequestMissing)), s)
    else
      var request := s.requests[requestId];
      if request.status != Pending then Step(Failure(BadRequest(NotPendingForApproval)), s)
      else
        var year := request.BalanceYear();
        var got := GetOrCreate(s.balances, dir, request.employeeId, year);
        if got.0.Failure? then Step(Failure(got.0.error), s)
        else
          var totalDays := request.TotalDays();
          if got.0.value.Remaining() < totalDays then Step(Failure(BadRequest(EmployeeBalanceInsufficient)), s)
          else
            var approved := request.(status := Approved, approvedBy := Some(adminId), decidedAt := Some(now));
            var debited := UpdateUsed(got.1, request.employeeId, year, totalDays);
            CoveredDebitKeepsNoOverdraftAfterCreate(s.balances, dir, request.employeeId, year, totalDays);
            Step(Success(approved), Store(s.requests[requestId := approved], debited.1))
  }

  /** Creating the record on the way and then debiting what it covers keeps
      every balance within its entitlement. */
  lemma CoveredDebitKeepsNoOverdraftAfterCreate(store: Balances, dir: Directory, employeeId: EmployeeId,
                                                year: int, days: int)
    requires employeeId in dir
    requires days <= CurrentBalance(store, dir, employeeId, year).Remaining()
    ensures NoOverdraft(store) ==> NoOverdraft(UpdateUsed(GetOrCreate(store, dir, employeeId, year).1, employeeId, year, days).1)
  {
    if !NoOverdraft(store) {
      return;
    }
    var created := GetOrCreate(store, dir, employeeId, year).1;
    var debited := UpdateUsed(created, employeeId, year, days).1;
    forall k | k in debited
      ensures debited[k].WithinEntitlement()
    {
      if k != (employeeId, year) {
        assert k in store;
      }
    }
  }

  /** rejectRequest. */
  function RejectStep(s: Store, dir: Directory, requestId: RequestId, adminId: EmployeeId,
                      rejectionReason: Option<string>, now: Instant): (step: Step)
    ensures step.after.balances == s.balances
    ensures step.result.Failure? ==> step.after == s
    ensures adminId !in dir ==> step.result == Failure(NotFound(AdminMissing))
    ensures adminId in dir && !IsAdmin(dir, adminId) ==> step.result == Failure(Unauthorized)
    ensures IsAdmin(dir, adminId) && (rejectionReason.None? || IsBlank(rejectionReason.value)) ==>
                  step.result == Failure(BadRequest(RejectionReasonRequired))
    ensures IsAdmin(dir, adminId) && rejectionReason.Some? && !IsBlank(rejectionReason.value) ==>
                  if requestId >= |s.requests| then step.result == Failure(NotFound(RequestMissing))
                  else if s.requests[requestId].status != Pending then step.result == Failure(BadRequest(NotPendingForRejection))
                  else step.result.Success?
    ensures step.result.Success? ==>
              && step.result.value == s.requests[requestId].(status := Rejected, rejectionReason := rejectionReason,
                                                              approvedBy := Some(adminId), decidedAt := Some(now))
              && step.after.requests == s.requests[requestId := step.result.value]
    ensures RequestsWellFormed(s.requests) ==> RequestsWellFormed(step.after.requests)
  {
    if adminId !in dir then Step(Failure(NotFound(AdminMissing)), s)
    else if dir[adminId].role != AdminRole then Step(Failure(Unauthorized), s)
    else if rejectionReason.None? || Trim(rejectionReason.value) == [] then
      Step(Failure(BadRequest(RejectionReasonRequired)), s)
    else if requestId >= |s.requests| then Step(Failure(NotFound(RequestMissing)), s)
    else
      var request := s.requests[requestId];
      if request.status != Pending then Step(Failure(BadRequest(NotPendingForRejection)), s)
      else
        var rejected := request.(status := Rejected, rejectionReason := rejectionReason,
                                 approvedBy := Some(adminId), decidedAt := Some(now));
        Step(Success(rejected), Store(s.requests[requestId := rejected], s.balances))
  }

  /** The service over the request store, with the ledger as collaborator. */
  class LeaveRequestService {
    const employees: Directory
    const ledger: LeaveBalanceService
    var requests: seq<LeaveRequest>

    ghost predicate Valid()
      reads this, ledger
    {
      ledger.Valid() && ledger.employees == employees && RequestsWellFormed(requests)
    }

    ghost function State(): Store
      reads this, ledger
    {
      Store(requests, ledger.balances)
    }

    constructor (ledger: LeaveBalanceService)
      requires ledger.Valid()
      ensures Valid() && this.ledger == ledger && employees == ledger.employees && requests == []
    {
      this.ledger := ledger;
      employees := ledger.employees;
      requests := [];
    }

    method CreateLeaveRequest(employeeId: EmployeeId, start: Day, end: Day, reason: Option<string>, now: Instant)
      returns (r: Result<LeaveRequest>)
      requires Valid()
      modifies this, ledger
      ensures Valid()
      ensures var step := CreateStep(old(State()), employees, employeeId, start, end, reason, now);
              r == step.result && State() == step.after
    {
      if employeeId !in employees {
        return Failure(NotFound(EmployeeMissing));
      }
      if end < start {
        return Failure(BadRequest(EndBeforeStart));
      }
      var overlapping := FindOverlappingApproved(requests, employeeId, start, end);
      if overlapping != [] {
        return Failure(BadRequest(OverlapsApprovedLeave));
      }
      var totalDays := InclusiveDayCount(start, end);
      var year := YearOf(start);
      var snapshot := ledger.balances;
      var got := ledger.GetOrCreateBalance(employeeId, year);
      var remaining := got.value.Remaining();
      if remaining < totalDays {
        ledger.Rollback(snapshot);
        return Failure(BadRequest(InsufficientBalance(remaining, totalDays)));
      }
      var request := NewLeaveRequest(|requests|, employeeId, start, end, reason, now);
      requests := requests + [request];
      r := Success(request);
    }

    method ApproveRequest(requestId: RequestId, adminId: EmployeeId, now: Instant) returns (r: Result<LeaveRequest>)
      requires Valid()
      modifies this, ledger
      ensures Valid()
      ensures var step := ApproveStep(old(State()), employees, requestId, adminId, now);
              r == step.result && State() == step.after
      ensures old(NoOverdraft(ledger.balances)) ==> NoOverdraft(ledger.balances)
    {
      if adminId !in employees {
        return Failure(NotFound(AdminMissing));
      }
      if employees[adminId].role != AdminRole {
        return Failure(Unauthorized);
      }
      if requestId >= |requests| {
        return Failure(NotFound(RequestMissing));
      }
      var request := requests[requestId];
      if request.status != Pending {
        return Failure(BadRequest(NotPendingForApproval));
      }
      var year := request.BalanceYear();
      var snapshot := ledger.balances;
      var got := ledger.GetOrCreateBalance(request.employeeId, year);
      if got.Failure? {
        return Failure(got.error);
      }
      var totalDays := request.TotalDays();
      if got.value.Remaining() < totalDays {
        ledger.Rollback(snapshot);
        return Failure(BadRequest(EmployeeBalanceInsufficient));
      }
      request := request.(status := Approved, approvedBy := Some(adminId), decidedAt := Some(now));
      var debited := ledger.UpdateUsedDays(request.employeeId, year, totalDays);
      assert debited.Pass?;
      requests := requests[requestId := request];
      r := Success(request);
    }

    method RejectRequest(requestId: RequestId, adminId: EmployeeId, rejectionReason: Option<string>, now: Instant)
      returns (r: Result<LeaveRequest>)
      requires Valid()
      modifies this
      ensures Valid()
      ensures var step := RejectStep(old(State()), employees, requestId, adminId, rejectionReason, now);
              r == step.result && State() == step.after
      ensures ledger.balances == old(ledger.balances)
    {
      if adminId !in employees {
        return Failure(NotFound(AdminMissing));
      }
      if employees[adminId].role != AdminRole {
        return Failure(Unauthorized);
      }
      if rejectionReason.None? || Trim(rejectionReason.value) == [] {
        return Failure(BadRequest(RejectionReasonRequired));
      }
      if requestId >= |requests| {
        return Failure(NotFound(RequestMissing));
      }
      var request := requests[requestId];
      if request.status != Pending {
        return Failure(BadRequest(NotPendingForRejection));
      }
      request := request.(status := Rejected, rejectionReason := rejectionReason,
                          approvedBy := Some(adminId), decidedAt := Some(now));
      requests := requests[requestId := request];
      r := Success(request);
    }

    /** getEmployeeRequests: NotFound for an unknown employee, else all and only
        that employee's requests, newest first. */
    function EmployeeRequests(employeeId: EmployeeId): (r: Result<seq<LeaveRequest>>)
      reads this
      ensures r.Success? <==> employeeId in employees
      ensures r.Failure? ==> r.error == NotFound(EmployeeMissing)
      ensures r.Success? ==> NewestFirst(r.value)
      ensures r.Success? ==>
                forall q :: multiset(r.value)[q] == if q.employeeId == employeeId then multiset(requests)[q] else 0
    {
      if employeeId !in employees then Failure(NotFound(EmployeeMissing))
      else Success(FindByEmployeeNewestFirst(requests, employeeId))
    }

    /** getAllRequests: every request, newest first. */
    function AllRequests(): (r: seq<LeaveRequest>)
      reads this
      ensures NewestFirst(r) && multiset(r) == multiset(requests)
    {
      FindAllNewestFirst(requests)
    }
  }
}
