# Leave adjudication core of be_elms, in Dafny

be_elms is an employee leave management service. An employee files a leave
request for an inclusive range of calendar dates. An admin approves or rejects
it. Each employee has one balance per year: an entitlement, carried-over
days, and the days used so far.

This project models:

- **Creating a request.** Dates must be ordered. The request must not overlap
  the employee's approved leave. The balance of the start date's year,
  created on first use, must cover the number of days. The request is then
  stored as PENDING.
- **Approving a request.** Only an admin may approve, and only a pending
  request. The balance is checked again before approval. Approval then
  records who decided and when, and debits the balance.
- **Rejecting a request.** Only an admin may reject. A non-blank reason is
  required. The balance is never touched.
- **Listing requests.** Listings come newest first, ordered by creation time.
- **Balance lookups.** Lookups create a missing balance on demand. The
  used-days update and the per-year listing are included.

Modules, one per core source file, plus `Calendar`, `Common`, `JavaStrings` and
`WorkflowProperties`, which stand for no single file:

- `Calendar`: dates as epoch days, the ISO year of a date, and the inclusive
  day count.
- `Common` and `JavaStrings`: identifiers, the error kinds, and Java's
  `trim().isEmpty()`.
- `Employees`: the employee record, as far as the core reads it.
- `LeaveBalances`: the `LeaveBalance` entity.
- `BalanceLedger`: `LeaveBalanceService`. Its pure functions say what each
  operation does to the store. The class holds the store and performs the
  operations in place; each method is proved equal to its function.
- `LeaveRequests`: the `LeaveRequest` entity.
- `RequestRepository`: the queries of `LeaveRequestRepository`.
- `RequestWorkflow`: `LeaveRequestService`, with one step function per
  operation and a class that runs the operations against the request store
  and the ledger.
- `WorkflowProperties`: properties that span operations, and worked cases.

A service method is `@Transactional`. When it fails, it leaves both stores
exactly as they were, including a balance it had just created lazily. Each
step function states this. The request service performs it by taking a
snapshot of the ledger just before the lazy balance lookup and restoring it
when a later check fails.

The invariants proved over any sequence of creations, approvals, rejections
and balance lookups (lookups provided that every employee's entitlement is
non-negative; the used-days update is reached only through approval):

- no balance uses more than `entitlement + carriedOver`;
- `used` never decreases, and no balance record is removed;
- every stored request has `startDate <= endDate`;
- a request's decision fields agree with its status;
- a decided request stays decided.

## Model

| member | source | states |
|---|---|---|
| Calendar.YearOf | src/main/java/org/example/be_elms/model/entity/LeaveRequest.java:59 | `LocalDate.getYear`: the result is the year whose January 1 is at or before the day, and whose next January 1 is after it |
| Calendar.YearOfUnique | src/main/java/org/example/be_elms/model/entity/LeaveRequest.java:59 | a day lies in exactly one year, so any year that contains the day is the year `YearOf` gives |
| Calendar.EpochDay | src/main/java/org/example/be_elms/model/entity/LeaveRequest.java:32-36 | `LocalDate.of(y, m, d)` as an epoch day, for any valid month and day of month, lies in year `y` |
| Calendar.DaysBeforeNextYear | src/main/java/org/example/be_elms/model/entity/LeaveRequest.java:59 | January 1 of the next year follows January 1 of this year by 365 days, or by 366 in a leap year |
| Calendar.DayRangeSize | src/main/java/org/example/be_elms/model/entity/LeaveRequest.java:65 | an ordered inclusive range covers exactly `end - start + 1` distinct days |
| Calendar.InclusiveDayCount | src/main/java/org/example/be_elms/service/LeaveRequestService.java:53-54 | `DAYS.between(start, end) + 1` is at least 1 and equals the number of days covered when the dates are ordered; it is never positive when the range is reversed |
| JavaStrings.Trim | src/main/java/org/example/be_elms/service/LeaveRequestService.java:143 | `trim()` gives the empty string exactly when every character of the input is at most U+0020 |
| Employees.DefaultEmployee | src/main/java/org/example/be_elms/model/entity/Employee.java:40-43 | a new employee has the EMPLOYEE role and an entitlement of 12 days |
| LeaveBalances.LeaveBalance.AddUsed | src/main/java/org/example/be_elms/service/LeaveBalanceService.java:66 | adding `days` to `used` lowers `getRemaining()` by exactly `days` and changes nothing else; a balance within its entitlement stays within it when `days` is at most what remains |
| LeaveBalances.LeaveBalance.Remaining | src/main/java/org/example/be_elms/model/entity/LeaveBalance.java:48-51 | `getRemaining()` is derived from the stored fields on every call and never stored; it is non-negative exactly when `used` does not exceed `entitlement + carriedOver`. `AddUsed` and `NewBalance` state how it moves and where it starts |
| LeaveBalances.DefaultLeaveBalance | src/main/java/org/example/be_elms/model/entity/LeaveBalance.java:30-51 | the field defaults are entitlement 12, carriedOver 0 and used 0, so 12 days remain |
| LeaveBalances.NewBalance | src/main/java/org/example/be_elms/service/LeaveBalanceService.java:76-83 | a lazily created balance takes the employee's entitlement, with carriedOver 0 and used 0, so its remaining days equal the entitlement |
| BalanceLedger.GetOrCreate | src/main/java/org/example/be_elms/service/LeaveBalanceService.java:71-85 | succeeds exactly when the employee exists, and fails with NotFound otherwise, leaving the store as it was; an existing record is returned unchanged; otherwise one new record is inserted under the pair with the employee's entitlement, 0 carried over and 0 used; no other record changes |
| BalanceLedger.GetOrCreateIdempotent | src/main/java/org/example/be_elms/service/LeaveBalanceService.java:71-85 | a second lookup of the same pair returns the same record and leaves the store as the first lookup left it: at most one record per (employee, year) |
| BalanceLedger.CurrentBalance | src/main/java/org/example/be_elms/service/LeaveBalanceService.java:75-84 | the balance a check reads is the stored record of the pair, under its own key when the store is consistent, or else exactly the record `NewBalance` builds: the employee's entitlement, 0 carried over and nothing used |
| BalanceLedger.UpdateUsed | src/main/java/org/example/be_elms/service/LeaveBalanceService.java:62-68 | with a record for the pair, only that record's `used` grows by `days`, and its remaining days fall by `days`; without a record, NotFound naming the year, and nothing is created |
| BalanceLedger.CoveredDebitKeepsNoOverdraft | src/main/java/org/example/be_elms/service/LeaveRequestService.java:117-128 | a debit that the remaining days cover keeps every balance within its entitlement plus carried-over days |
| BalanceLedger.BalancesOfYear | src/main/java/org/example/be_elms/service/LeaveBalanceService.java:51-59 | a balance is listed exactly when it is stored and belongs to the year |
| BalanceLedger.LeaveBalanceService.GetOrCreateBalance | src/main/java/org/example/be_elms/service/LeaveBalanceService.java:71-85 | the in-place lookup returns what `GetOrCreate` returns and leaves the store `GetOrCreate` gives, keeping each record under its own key |
| BalanceLedger.LeaveBalanceService.GetEmployeeBalance | src/main/java/org/example/be_elms/service/LeaveBalanceService.java:25-42 | the same lookup, with the same lazy creation and the same NotFound |
| BalanceLedger.LeaveBalanceService.UpdateUsedDays | src/main/java/org/example/be_elms/service/LeaveBalanceService.java:62-68 | the in-place update is the one `UpdateUsed` specifies |
| BalanceLedger.LeaveBalanceService.AllBalances | src/main/java/org/example/be_elms/service/LeaveBalanceService.java:51-59 | exactly the stored balances of the year |
| BalanceLedger.LeaveBalanceService.Rollback | src/main/java/org/example/be_elms/service/LeaveRequestService.java:33 | the ledger returns to the snapshot taken just before the lazy balance lookup, so a failed operation leaves it as it was |
| LeaveRequests.TotalDaysOf | src/main/java/org/example/be_elms/model/entity/LeaveRequest.java:62-68 | null exactly when a date is missing; otherwise at least 1 and equal to the number of days covered for ordered dates, 1 for a single-day request, and never positive for reversed dates |
| LeaveRequests.BalanceYearOf | src/main/java/org/example/be_elms/model/entity/LeaveRequest.java:57-60 | null exactly when the start date is missing; otherwise the year that contains the start date |
| LeaveRequests.LeaveRequest.TotalDays | src/main/java/org/example/be_elms/service/LeaveRequestService.java:117 | `getTotalDays()` on a stored request, whose dates are never null: at least 1 and equal to the number of calendar days covered when the dates are ordered, never positive when reversed |
| LeaveRequests.LeaveRequest.BalanceYear | src/main/java/org/example/be_elms/service/LeaveRequestService.java:113 | the year an approval charges: the year that contains the request's start date |
| LeaveRequests.NewLeaveRequest | src/main/java/org/example/be_elms/service/LeaveRequestService.java:69-76 | a new request carries the employee, the dates and the reason, is PENDING (the default of LeaveRequest.java:43), and has no decision fields |
| LeaveRequests.BalanceYearIsStartYear | src/main/java/org/example/be_elms/model/entity/LeaveRequest.java:57-68 | 2024-12-31 to 2025-01-02 is 3 days charged to year 2024, though it ends in 2025 |
| RequestRepository.RangesOverlapIffSharedDay | src/main/java/org/example/be_elms/repository/LeaveRequestRepository.java:22-24 | for ordered ranges, `start <= :endDate AND end >= :startDate` holds exactly when the ranges share a calendar day, a boundary day included; the test is symmetric |
| RequestRepository.IsOverlappingApproved | src/main/java/org/example/be_elms/repository/LeaveRequestRepository.java:22-24 | a row matches only if it is the employee's and APPROVED; for ordered ranges, it matches exactly when it is the employee's, APPROVED, and shares at least one calendar day with the asked-for range |
| RequestRepository.FindOverlappingApproved | src/main/java/org/example/be_elms/repository/LeaveRequestRepository.java:22-29 | returns each stored row that is the employee's, APPROVED and overlapping, as often as it is stored, and no other row; the result is empty exactly when no stored row matches |
| RequestRepository.SortNewestFirst | src/main/java/org/example/be_elms/repository/LeaveRequestRepository.java:16-19 | `ORDER BY createdAt DESC`: the result is ordered newest first and is a permutation of the input |
| RequestRepository.FindByEmployeeNewestFirst | src/main/java/org/example/be_elms/repository/LeaveRequestRepository.java:16 | the employee's rows, each as often as stored, newest first |
| RequestRepository.FindAllNewestFirst | src/main/java/org/example/be_elms/repository/LeaveRequestRepository.java:19 | all rows, newest first, as a permutation of the store |
| RequestWorkflow.CreateStep | src/main/java/org/example/be_elms/service/LeaveRequestService.java:33-78 | the checks in source order. An unknown employee gives NotFound. A reversed range gives BadRequest. An overlap with approved leave gives BadRequest. Too few remaining days gives BadRequest with the remaining and requested counts. Any failure leaves both stores unchanged. Success appends one PENDING request with a fresh id; the balance of the start year then exists and no existing balance changes. The invariants are kept |
| RequestWorkflow.ApproveStep | src/main/java/org/example/be_elms/service/LeaveRequestService.java:95-132 | the checks in source order. An unknown admin or request gives NotFound. A non-admin gives Unauthorized. A decided request gives BadRequest. Remaining days below the request's total give BadRequest. Any failure leaves both stores unchanged. Success marks only that request APPROVED by the admin at `now`, and adds exactly its total days to the start year's `used`, leaving every other field of that record as it was; no other balance changes, and no balance is overdrawn |
| RequestWorkflow.CoveredDebitKeepsNoOverdraftAfterCreate | src/main/java/org/example/be_elms/service/LeaveRequestService.java:113-128 | after the lazy creation, a debit the remaining days cover keeps every balance within its entitlement |
| RequestWorkflow.RejectStep | src/main/java/org/example/be_elms/service/LeaveRequestService.java:134-165 | the checks in source order. An unknown admin gives NotFound, a non-admin gives Unauthorized, and a null or blank reason gives BadRequest, all before the request is looked up. An unknown request gives NotFound, and a decided one gives BadRequest. Success marks only that request REJECTED, with the reason, the deciding admin and `now`. Balances never change |
| RequestWorkflow.LeaveRequestService.CreateLeaveRequest | src/main/java/org/example/be_elms/service/LeaveRequestService.java:33-78 | the in-place operation returns what `CreateStep` returns, and leaves both stores as `CreateStep` gives them, rolling back a lazily created balance on failure |
| RequestWorkflow.LeaveRequestService.ApproveRequest | src/main/java/org/example/be_elms/service/LeaveRequestService.java:95-132 | the in-place operation agrees with `ApproveStep` on the result and on both stores, and never overdraws a balance |
| RequestWorkflow.LeaveRequestService.RejectRequest | src/main/java/org/example/be_elms/service/LeaveRequestService.java:134-165 | the in-place operation agrees with `RejectStep` and leaves the ledger untouched |
| RequestWorkflow.LeaveRequestService.EmployeeRequests | src/main/java/org/example/be_elms/service/LeaveRequestService.java:80-87 | NotFound exactly when the employee is unknown; otherwise the employee's requests, each as often as it is stored, newest first |
| RequestWorkflow.LeaveRequestService.AllRequests | src/main/java/org/example/be_elms/service/LeaveRequestService.java:89-93 | every stored request, newest first |
| WorkflowProperties.DecisionsAreFinal | src/main/java/org/example/be_elms/service/LeaveRequestService.java:107-153 | an approved or rejected request can be neither approved nor rejected again, and the attempt changes neither store |
| WorkflowProperties.NoDoubleApproval | src/main/java/org/example/be_elms/service/LeaveRequestService.java:107-110 | approving a request a second time fails with BadRequest and leaves the stores as the first approval left them: no double debit |
| WorkflowProperties.ApplyKeepsInvariants | src/main/java/org/example/be_elms/service/LeaveRequestService.java:95-165 | each creation, approval, rejection or balance lookup (the lookup against a directory of non-negative entitlements) keeps the requests well formed and every balance within its entitlement, never lowers a `used` count or removes a balance, and leaves every decided request in place and unchanged |
| WorkflowProperties.RunKeepsInvariants | src/main/java/org/example/be_elms/service/LeaveRequestService.java:95-165 | the same over any sequence of creations, approvals, rejections and such lookups: in particular a decided request stays decided, with the same decision |
| WorkflowProperties.NeverOverdrawnFromEmpty | src/main/java/org/example/be_elms/service/LeaveRequestService.java:112-128 | from empty stores, no history of workflow operations and balance lookups ever overdraws a balance, as long as lookups run against non-negative entitlements |
| WorkflowProperties.NegativeEntitlementLookupOverdraws | src/main/java/org/example/be_elms/service/LeaveBalanceService.java:25-42 | the lookup condition cannot be dropped: looking up the balance of an employee with entitlement -1 stores a record that is overdrawn from the start |
| WorkflowProperties.FiveDayRequestApproved | src/main/java/org/example/be_elms/service/LeaveRequestService.java:52-130 | a five-day request against a fresh 12-day balance is PENDING and debits nothing; once approved, used is 5 and 7 days remain |
| WorkflowProperties.March2024Example | src/main/java/org/example/be_elms/service/LeaveRequestService.java:53-57 | 2024-03-05 is four days after 2024-03-01, and both fall in 2024 |
| WorkflowProperties.InsufficientBalanceReportsCounts | src/main/java/org/example/be_elms/service/LeaveRequestService.java:60-66 | with 3 days remaining, a five-day request fails with both counts, 3 and 5, and changes nothing |
| WorkflowProperties.CompetingPendingRequests | src/main/java/org/example/be_elms/service/LeaveRequestService.java:112-120 | two overlapping eight-day pending requests are both accepted, since only approved leave blocks. Approving one leaves 4 days, and approving the other then fails without change |
| WorkflowProperties.SharedBoundaryDayBlocks | src/main/java/org/example/be_elms/service/LeaveRequestService.java:44-50 | a request that shares only its first day with approved leave is refused as overlapping, before its balance is considered |

## Left out

- Controllers, AuthService, UserContext and the DTO conversions (`convertToDto`, including the balance DTO's `fullName`): these are outside the adjudication core. Results are the entities themselves.
- Timestamps: `OffsetDateTime.now()` and the `@CreationTimestamp`/`@UpdateTimestamp` columns are not read from a clock. Each operation takes the instant as its `now` parameter, and a new request's `createdAt` is that instant.
- `getCurrentYearBalance`: it only reads the wall clock and then calls `getEmployeeBalance`, which is modelled with the year as a parameter.
- Persistence: database ids are modelled by the request's index in the store, and a balance is identified by its (employee, year) key. JPA flushing, lazy loading and the generated `balance_year`/`total_days` columns are not modelled.
- Concurrency and isolation: two transactions running at once can both pass the balance check, and that race is not modelled. Each operation is atomic here. `getOrCreateBalance` and `getEmployeeBalance` save a new balance inside a `readOnly = true` transaction; whether the database accepts that write depends on the driver, and the model ignores the flag and lets the save happen.
- Employee identity: `createLeaveRequest` and `getEmployeeRequests` find the employee by `employeeIdCode`, while `approveRequest`, `rejectRequest` and the balance operations use the numeric id. The model uses a single employee key.
- Calendar.InclusiveDayCount: the `(int)` cast of the day count and 32-bit `Integer` arithmetic are not modelled. Integers are unbounded, so ranges longer than 2^31 days, and `used` overflowing, are out of scope.
- BalanceLedger.BalancesOfYear: `getAllBalances` returns a list in repository order; the model returns a set, without that order.
- RequestRepository.SortNewestFirst: the relative order of requests with equal `createdAt` is not specified, and the model does not fix it.
- `findByEmployeeIdOrderByCreatedAtDesc` and `findByStatusOrderByCreatedAtDesc`: the core never calls them.
- `updateUsedDays` as a standalone call: it accepts any `days`, and a negative value lowers `used`. `UpdateUsed` states exactly that. The invariant that `used` never decreases is proved only for the path the core takes, approval, which passes a total of at least 1.
- Null handling: the stored dates of a request are never null, because creation always sets them, so `TotalDays` and `BalanceYear` on a stored request take dates. The null branches of `getTotalDays` and `getBalanceYear` are modelled in `TotalDaysOf` and `BalanceYearOf`. Null DTO dates are not modelled: the DTO's `@NotNull` validation (dto/CreateLeaveRequestDto.java:10-14) refuses them before the service runs.
