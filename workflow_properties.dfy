/** Properties of the request workflow that relate several operations:
    decisions are final, and over any history of operations no balance is
    overdrawn, `used` never decreases and the stored requests stay well formed;
    then a few worked cases, computed on the model. */
module WorkflowProperties {
  import opened Common
  import opened Calendar
  import opened Employees
  import opened LeaveBalances
  import opened BalanceLedger
  import opened LeaveRequests
  import opened RequestRepository
  import opened RequestWorkflow

  /** A decided request can be neither approved nor rejected again, and the
      attempt changes neither store. */
  lemma DecisionsAreFinal(s: Store, dir: Directory, requestId: RequestId, adminId: EmployeeId,
                          rejectionReason: Option<string>, now: Instant)
    requires requestId < |s.requests| && s.requests[requestId].status != Pending
    ensures ApproveStep(s, dir, requestId, adminId, now).result.Failure?
    ensures ApproveStep(s, dir, requestId, adminId, now).after == s
    ensures RejectStep(s, dir, requestId, adminId, rejectionReason, now).result.Failure?
    ensures RejectStep(s, dir, requestId, adminId, rejectionReason, now).after == s
  {
  }

  /** After a successful approval, a second approval of the same request by any
      admin fails with BadRequest and changes nothing: no double debit. */
  lemma NoDoubleApproval(s: Store, dir: Directory, requestId: RequestId, adminId: EmployeeId, now: Instant,
                         secondAdmin: EmployeeId, later: Instant)
    requires ApproveStep(s, dir, requestId, adminId, now).result.Success?
    requires IsAdmin(dir, secondAdmin)
    ensures var first := ApproveStep(s, dir, requestId, adminId, now);
            var second := ApproveStep(first.after, dir, requestId, secondAdmin, later);
            second.result == Failure(BadRequest(NotPendingForApproval)) && second.after == first.after
  {
  }

  /** The operations a caller can issue against the two stores: the three
      workflow operations and the balance lookup (getEmployeeBalance), which
      may create a balance. The used-days update is reached only through
      approval. */
  datatype Operation =
    | Create(employeeId: EmployeeId, start: Day, end: Day, reason: Option<string>, now: Instant)
    | Approve(requestId: RequestId, adminId: EmployeeId, now: Instant)
    | Reject(requestId: RequestId, adminId: EmployeeId, rejectionReason: Option<string>, now: Instant)
    | Lookup(employeeId: EmployeeId, year: int)

  /** Every employee is granted a non-negative number of days a year. */
  predicate EntitlementsNonNegative(dir: Directory) {
    forall id | id in dir :: dir[id].annualLeaveEntitlement >= 0
  }

  /** A lazily created balance is within its entitlement only when that
      entitlement is non-negative, so a lookup needs that of the directory;
      the workflow operations need nothing, since they refuse a request the
      new balance cannot cover and roll the balance back. */
  predicate Admissible(dir: Directory, op: Operation) {
    op.Lookup? ==> EntitlementsNonNegative(dir)
  }

  function Apply(s: Store, dir: Directory, op: Operation): Store {
    match op
    case Create(e, start, end, reason, now) => CreateStep(s, dir, e, start, end, reason, now).after
    case Approve(id, admin, now) => ApproveStep(s, dir, id, admin, now).after
    case Reject(id, admin, reason, now) => RejectStep(s, dir, id, admin, reason, now).after
    case Lookup(e, year) => Store(s.requests, GetOrCreate(s.balances, dir, e, year).1)
  }

  /** The stores after the operations run one after another, each atomically. */
  function Run(s: Store, dir: Directory, ops: seq<Operation>): Store
    decreases |ops|
  {
    if ops == [] then s else Run(Apply(s, dir, ops[0]), dir, ops[1..])
  }

  /** Every request decided in `before` is still there, exactly as it was, in `after`. */
  predicate DecidedRequestsKept(before: seq<LeaveRequest>, after: seq<LeaveRequest>) {
    forall i | 0 <= i < |before| && before[i].status != Pending :: i < |after| && after[i] == before[i]
  }

  /** One operation keeps the invariants, never lowers a `used` count and
      never touches a decided request. */
  lemma ApplyKeepsInvariants(s: Store, dir: Directory, op: Operation)
    requires RequestsWellFormed(s.requests) && NoOverdraft(s.balances)
    requires Admissible(dir, op)
    ensures var t := Apply(s, dir, op);
            && RequestsWellFormed(t.requests) && NoOverdraft(t.balances)
            && (forall k | k in s.balances :: k in t.balances && t.balances[k].used >= s.balances[k].used)
            && DecidedRequestsKept(s.requests, t.requests)
  {
  }

  /** Over any history, starting from well-formed stores: the requests stay well
      formed, no balance ever uses more than its entitlement plus carried-over
      days, balance records are never removed nor their `used` lowered, and a
      decided request stays decided, unchanged. */
  lemma {:induction false} RunKeepsInvariants(s: Store, dir: Directory, ops: seq<Operation>)
    requires RequestsWellFormed(s.requests) && NoOverdraft(s.balances)
    requires forall i | 0 <= i < |ops| :: Admissible(dir, ops[i])
    ensures var t := Run(s, dir, ops);
            && RequestsWellFormed(t.requests) && NoOverdraft(t.balances)
            && (forall k | k in s.balances :: k in t.balances && t.balances[k].used >= s.balances[k].used)
            && DecidedRequestsKept(s.requests, t.requests)
    decreases |ops|
  {
    if ops != [] {
      var next := Apply(s, dir, ops[0]);
      ApplyKeepsInvariants(s, dir, ops[0]);
      assert forall i | 0 <= i < |ops[1..]| :: Admissible(dir, ops[1..][i]) by {
        forall i | 0 <= i < |ops[1..]|
          ensures Admissible(dir, ops[1..][i])
        {
          assert ops[1..][i] == ops[i + 1];
        }
      }
      RunKeepsInvariants(next, dir, ops[1..]);
    }
  }

  /** From empty stores, whatever the history, no balance is overdrawn, provided
      lookups only happen against a directory of non-negative entitlements. */
  lemma NeverOverdrawnFromEmpty(dir: Directory, ops: seq<Operation>)
    requires forall i | 0 <= i < |ops| :: Admissible(dir, ops[i])
    ensures NoOverdraft(Run(Store([], map[]), dir, ops).balances)
  {
    RunKeepsInvariants(Store([], map[]), dir, ops);
  }

  /** Why lookups need the directory condition: looking up the balance of an
      employee whose entitlement is negative stores an overdrawn record. */
  lemma NegativeEntitlementLookupOverdraws(year: int)
    ensures var dir := map[0 := Employee(EmployeeRole, -1)];
            && !Admissible(dir, Lookup(0, year))
            && !NoOverdraft(Apply(Store([], map[]), dir, Lookup(0, year)).balances)
  {
    var dir := map[0 := Employee(EmployeeRole, -1)];
    var after := Apply(Store([], map[]), dir, Lookup(0, year)).balances;
    assert !after[(0, year)].WithinEntitlement();
  }

  /** Employee 0 holds the default twelve days; employee 1 is an admin. */
  function SampleDirectory(): Directory {
    map[0 := DefaultEmployee(), 1 := Employee(AdminRole, DefaultAnnualLeaveEntitlement)]
  }

  /** A five-day request (2024-03-01 to 2024-03-05, say) against a fresh twelve-day balance leaves used 5 and remaining 7. */
  lemma FiveDayRequestApproved(start: Day)
    ensures var created := CreateStep(Store([], map[]), SampleDirectory(), 0, start, start + 4, None, 10);
            var approved := ApproveStep(created.after, SampleDirectory(), 0, 1, 20);
            var key := (0, YearOf(start));
            && created.result.Success? && created.result.value.status == Pending
            && created.result.value.TotalDays() == 5
            && created.after.balances[key].used == 0
            && approved.result.Success? && approved.result.value.status == Approved
            && approved.result.value.approvedBy == Some(1)
            && approved.after.balances[key].used == 5
            && approved.after.balances[key].Remaining() == 7
  {
    var dir := SampleDirectory();
    var created := CreateStep(Store([], map[]), dir, 0, start, start + 4, None, 10);
    assert CurrentBalance(map[], dir, 0, YearOf(start)).Remaining() == 12;
    assert created.result.Success?;
    var approved := ApproveStep(created.after, dir, 0, 1, 20);
    assert CurrentBalance(created.after.balances, dir, 0, YearOf(start)).Remaining() == 12;
  }

  /** The dated instance: 2024-03-05 is four days after 2024-03-01, both in 2024. */
  lemma March2024Example()
    ensures EpochDay(2024, 3, 5) == EpochDay(2024, 3, 1) + 4 && YearOf(EpochDay(2024, 3, 1)) == 2024
  {
  }

  /** With 3 days remaining, a five-day request fails and reports both counts. */
  lemma InsufficientBalanceReportsCounts(start: Day)
    ensures var s := Store([], map[(0, YearOf(start)) := LeaveBalance(0, YearOf(start), 12, 0, 9)]);
            var created := CreateStep(s, SampleDirectory(), 0, start, start + 4, None, 10);
            created.result == Failure(BadRequest(InsufficientBalance(3, 5))) && created.after == s
  {
  }

  /** Two pending requests of eight days each, for overlapping dates, are both
      accepted, since only approved leave blocks; approving the first leaves 4
      of 12 days, so approving the second fails and changes nothing. */
  lemma CompetingPendingRequests(start: Day)
    requires YearOf(start + 3) == YearOf(start)
    ensures var dir := SampleDirectory();
            var first := CreateStep(Store([], map[]), dir, 0, start, start + 7, None, 10);
            var second := CreateStep(first.after, dir, 0, start + 3, start + 10, None, 11);
            var approveFirst := ApproveStep(second.after, dir, 0, 1, 20);
            var approveSecond := ApproveStep(approveFirst.after, dir, 1, 1, 21);
            && first.result.Success? && second.result.Success?
            && approveFirst.result.Success?
            && approveFirst.after.balances[(0, YearOf(start))].Remaining() == 4
            && approveSecond.result == Failure(BadRequest(EmployeeBalanceInsufficient))
            && approveSecond.after == approveFirst.after
  {
    var dir := SampleDirectory();
    var key := (0, YearOf(start));
    var first := CreateStep(Store([], map[]), dir, 0, start, start + 7, None, 10);
    assert CurrentBalance(map[], dir, 0, YearOf(start)).Remaining() == 12;
    assert first.result.Success?;
    assert first.after.balances[key].Remaining() == 12;
    var second := CreateStep(first.after, dir, 0, start + 3, start + 10, None, 11);
    assert !IsOverlappingApproved(first.after.requests[0], 0, start + 3, start + 10);
    assert second.result.Success?;
    assert second.after.balances == first.after.balances;
    var approveFirst := ApproveStep(second.after, dir, 0, 1, 20);
    assert approveFirst.result.Success?;
    assert approveFirst.after.balances[key].Remaining() == 4;
    assert approveFirst.after.requests[1] == second.after.requests[1];
  }

  /** Once an eight-day request is approved, a new request sharing only its
      last day is refused as overlapping, not for its shortfall (13 days asked,
      at most 12 available in whichever year it is charged to): the overlap
      test comes first. */
  lemma SharedBoundaryDayBlocks(start: Day)
    ensures var dir := SampleDirectory();
            var first := CreateStep(Store([], map[]), dir, 0, start, start + 7, None, 10);
            var approved := ApproveStep(first.after, dir, 0, 1, 20);
            var clash := CreateStep(approved.after, dir, 0, start + 7, start + 19, None, 30);
            clash.result == Failure(BadRequest(OverlapsApprovedLeave)) && clash.after == approved.after
  {
    var dir := SampleDirectory();
    var first := CreateStep(Store([], map[]), dir, 0, start, start + 7, None, 10);
    assert CurrentBalance(map[], dir, 0, YearOf(start)).Remaining() == 12;
    assert first.result.Success?;
    var approved := ApproveStep(first.after, dir, 0, 1, 20);
    assert CurrentBalance(first.after.balances, dir, 0, YearOf(start)).Remaining() == 12;
    assert approved.result.Success?;
    assert IsOverlappingApproved(approved.after.requests[0], 0, start + 7, start + 19);
  }
}
