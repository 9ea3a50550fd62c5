/** The queries of LeaveRequestRepository over the request store: the
    overlapping-approved-leave predicate and the newest-first listings. */
module RequestRepository {
  import opened Common
  import opened Calendar
  import opened LeaveRequests

  /** `a.start <= b.end AND a.end >= b.start`: two inclusive ranges intersect. */
  predicate RangesOverlap(aStart: Day, aEnd: Day, bStart: Day, bEnd: Day) {
    aStart <= bEnd && aEnd >= bStart
  }

  /** The inclusive test is the same as sharing at least one calendar day (a
      shared boundary day included), and it does not depend on which range is
      the stored one. */
  lemma RangesOverlapIffSharedDay(aStart: Day, aEnd: Day, bStart: Day, bEnd: Day)
    requires aStart <= aEnd && bStart <= bEnd
    ensures RangesOverlap(aStart, aEnd, bStart, bEnd) <==> DayRange(aStart, aEnd) * DayRange(bStart, bEnd) != {}
    ensures RangesOverlap(aStart, aEnd, bStart, bEnd) == RangesOverlap(bStart, bEnd, aStart, aEnd)
  {
    if RangesOverlap(aStart, aEnd, bStart, bEnd) {
      var d := if aStart <= bStart then bStart else aStart;
      assert d in DayRange(aStart, aEnd) * DayRange(bStart, bEnd);
    }
  }

  /** The WHERE clause of findOverlappingApprovedRequests: for ordered ranges,
      an approved request of the employee that shares a calendar day with the
      asked-for range. */
  predicate IsOverlappingApproved(q: LeaveRequest, employeeId: EmployeeId, start: Day, end: Day): (r: bool)
    ensures r ==> q.employeeId == employeeId && q.status == Approved
    ensures q.startDate <= q.endDate && start <= end ==>
              (r <==> q.employeeId == employeeId && q.status == Approved &&
                      DayRange(q.startDate, q.endDate) * DayRange(start, end) != {})
  {
    var matches := q.employeeId == employeeId && q.status == Approved && RangesOverlap(q.startDate, q.endDate, start, end);
    if q.startDate <= q.endDate && start <= end then
      RangesOverlapIffSharedDay(q.startDate, q.endDate, start, end);
      matches
    else matches
  }

  /** findOverlappingApprovedRequests: every stored row matching the clause, and only those. */
  function FindOverlappingApproved(rows: seq<LeaveRequest>, employeeId: EmployeeId, start: Day, end: Day)
    : (r: seq<LeaveRequest>)
    ensures forall q :: multiset(r)[q] == if IsOverlappingApproved(q, employeeId, start, end) then multiset(rows)[q] else 0
    ensures forall q | q in r :: q.employeeId == employeeId && q.status == Approved
    ensures r == [] <==> forall q | q in rows :: !IsOverlappingApproved(q, employeeId, start, end)
  {
    if rows == [] then []
    else
      var rest := FindOverlappingApproved(rows[1..], employeeId, start, end);
      assert rows == [rows[0]] + rows[1..];
      if IsOverlappingApproved(rows[0], employeeId, start, end) then [rows[0]] + rest else rest
  }

  /** findByEmployee...: the rows of one employee. */
  function FindByEmployee(rows: seq<LeaveRequest>, employeeId: EmployeeId): (r: seq<LeaveRequest>)
    ensures forall q :: multiset(r)[q] == if q.employeeId == employeeId then multiset(rows)[q] else 0
  {
    if rows == [] then []
    else
      var rest := FindByEmployee(rows[1..], employeeId);
      assert rows == [rows[0]] + rows[1..];
      if rows[0].employeeId == employeeId then [rows[0]] + rest else rest
  }

  /** ORDER BY createdAt DESC. */
  predicate NewestFirst(rows: seq<LeaveRequest>) {
    forall i, j | 0 <= i < j < |rows| :: rows[i].createdAt >= rows[j].createdAt
  }

  /** No row was created after `t`. */
  predicate NoneNewerThan(t: Instant, rows: seq<LeaveRequest>) {
    forall x | x in rows :: x.createdAt <= t
  }

  lemma NewestFirstCons(head: LeaveRequest, rows: seq<LeaveRequest>)
    requires NewestFirst(rows) && NoneNewerThan(head.createdAt, rows)
    ensures NewestFirst([head] + rows)
  {
    var s := [head] + rows;
    forall i, j | 0 <= i < j < |s|
      ensures s[i].createdAt >= s[j].createdAt
    {
      if i > 0 {
        assert s[i] == rows[i - 1] && s[j] == rows[j - 1];
      } else {
        assert s[j] in rows;
      }
    }
  }

  function InsertNewestFirst(q: LeaveRequest, rows: seq<LeaveRequest>): (r: seq<LeaveRequest>)
    requires NewestFirst(rows)
    ensures NewestFirst(r)
    ensures multiset(r) == multiset(rows) + multiset{q}
  {
    if rows == [] || q.createdAt >= rows[0].createdAt then
      NewestFirstCons(q, rows);
      [q] + rows
    else
      var head, tail := rows[0], rows[1..];
      assert rows == [head] + tail;
      var rest := InsertNewestFirst(q, tail);
      assert NoneNewerThan(head.createdAt, rest) by {
        forall x | x in rest
          ensures x.createdAt <= head.createdAt
        {
          assert x in multiset(rest);
          if x != q {
            assert x in multiset(tail);
            var k :| 0 <= k < |tail| && tail[k] == x;
            assert rows[k + 1] == x;
          }
        }
      }
      NewestFirstCons(head, rest);
      [head] + rest
  }

  /** The rows, ordered newest first. Rows with equal timestamps may come in either order. */
  function SortNewestFirst(rows: seq<LeaveRequest>): (r: seq<LeaveRequest>)
    ensures NewestFirst(r)
    ensures multiset(r) == multiset(rows)
  {
    if rows == [] then []
    else
      assert rows == [rows[0]] + rows[1..];
      InsertNewestFirst(rows[0], SortNewestFirst(rows[1..]))
  }

  /** findByEmployeeOrderByCreatedAtDesc. */
  function FindByEmployeeNewestFirst(rows: seq<LeaveRequest>, employeeId: EmployeeId): (r: seq<LeaveRequest>)
    ensures NewestFirst(r)
    ensures forall q :: multiset(r)[q] == if q.employeeId == employeeId then multiset(rows)[q] else 0
  {
    SortNewestFirst(FindByEmployee(rows, employeeId))
  }

  /** findAllByOrderByCreatedAtDesc. */
  function FindAllNewestFirst(rows: seq<LeaveRequest>): (r: seq<LeaveRequest>)
    ensures NewestFirst(r)
    ensures multiset(r) == multiset(rows)
  {
    SortNewestFirst(rows)
  }
}
