/** LeaveBalanceService: the balance ledger. The store is a map from
    (employee, year) to the one balance record of that pair; the functions
    below say what each operation does to it, and the class holds the store
    and performs the operations in place. */
module BalanceLedger {
  import opened Common
  import opened Employees
  import opened LeaveBalances

  type Balances = map<BalanceKey, LeaveBalance>

  /** Each record sits under its own (employee, year) key, so the pair is unique. */
  ghost predicate KeysConsistent(store: Balances) {
    forall k | k in store :: store[k].Key() == k
  }

  /** No balance has used more than its entitlement plus carried-over days. */
  ghost predicate NoOverdraft(store: Balances) {
    forall k | k in store :: store[k].WithinEntitlement()
  }

  /** getOrCreateBalance: the existing record of the pair, or a new one with the
      employee's entitlement inserted; NotFound when the employee does not exist. */
  function GetOrCreate(store: Balances, dir: Directory, employeeId: EmployeeId, year: int)
    : (r: (Result<LeaveBalance>, Balances))
    ensures r.0.Success? <==> employeeId in dir
    ensures r.0.Failure? ==> r.0.error == NotFound(EmployeeMissing) && r.1 == store
    ensures r.0.Success? ==> (employeeId, year) in r.1 && r.1[(employeeId, year)] == r.0.value
    ensures (employeeId, year) in store ==> r.1 == store
    ensures r.1.Keys <= store.Keys + {(employeeId, year)}
    ensures forall k | k in store :: k in r.1 && r.1[k] == store[k]
    ensures r.0.Success? && (employeeId, year) !in store ==>
              && r.0.value.Key() == (employeeId, year)
              && r.0.value.entitlement == dir[employeeId].annualLeaveEntitlement
              && r.0.value.carriedOver == 0 && r.0.value.used == 0
  {
    if employeeId !in dir then (Failure(NotFound(EmployeeMissing)), store)
    else if (employeeId, year) in store then (Success(store[(employeeId, year)]), store)
    else
      var created := NewBalance(employeeId, year, dir[employeeId].annualLeaveEntitlement);
      (Success(created), store[(employeeId, year) := created])
  }

  /** The balance an operation on (employee, year) reads: the stored one, or the
      one GetOrCreate would insert. */
  function CurrentBalance(store: Balances, dir: Directory, employeeId: EmployeeId, year: int): (b: LeaveBalance)
    requires employeeId in dir
    ensures KeysConsistent(store) ==> b.Key() == (employeeId, year)
    ensures (employeeId, year) in store ==> b == store[(employeeId, year)]
    ensures (employeeId, year) !in store ==> b == NewBalance(employeeId, year, dir[employeeId].annualLeaveEntitlement)
  {
    GetOrCreate(store, dir, employeeId, year).0.value
  }

  /** updateUsedDays: `used := used + days` on the pair's record and nothing
      else; NotFound, creating nothing, when the pair has no record. */
  function UpdateUsed(store: Balances, employeeId: EmployeeId, year: int, days: int)
    : (r: (Outcome, Balances))
    ensures r.0.Pass? <==> (employeeId, year) in store
    ensures r.0.Fail? ==> r.0.error == NotFound(BalanceMissing(year)) && r.1 == store
    ensures r.1.Keys == store.Keys
    ensures forall k | k in store && k != (employeeId, year) :: r.1[k] == store[k]
    ensures r.0.Pass? ==>
              var before, after := store[(employeeId, year)], r.1[(employeeId, year)];
              && after.used == before.used + days
              && after.entitlement == before.entitlement
              && after.carriedOver == before.carriedOver
              && after.Key() == before.Key()
              && after.Remaining() == before.Remaining() - days
  {
    if (employeeId, year) !in store then (Fail(NotFound(BalanceMissing(year))), store)
    else (Pass, store[(employeeId, year) := store[(employeeId, year)].AddUsed(days)])
  }

  /** getAllBalances(year): exactly the stored records of that year. */
  function BalancesOfYear(store: Balances, year: int): (r: set<LeaveBalance>)
    requires KeysConsistent(store)
    ensures forall b :: b in r <==> b in store.Values && b.year == year
  {
    set k | k in store && k.1 == year :: store[k]
  }

  /** Asking twice for the same pair gives the same record and leaves one record. */
  lemma GetOrCreateIdempotent(store: Balances, dir: Directory, employeeId: EmployeeId, year: int)
    ensures var first := GetOrCreate(store, dir, employeeId, year);
            GetOrCreate(first.1, dir, employeeId, year) == first
  {
  }

  /** A debit the remaining days cover keeps the ledger free of overdrafts. */
  lemma CoveredDebitKeepsNoOverdraft(store: Balances, employeeId: EmployeeId, year: int, days: int)
    requires NoOverdraft(store)
    requires (employeeId, year) in store && days <= store[(employeeId, year)].Remaining()
    ensures NoOverdraft(UpdateUsed(store, employeeId, year, days).1)
  {
  }

  /** The ledger service over its store. */
  class LeaveBalanceService {
    const employees: Directory
    var balances: Balances

    ghost predicate Valid()
      reads this
    {
      KeysConsistent(balances)
    }

    constructor (directory: Directory)
      ensures Valid() && employees == directory && balances == map[]
    {
      employees := directory;
      balances := map[];
    }

    method GetOrCreateBalance(employeeId: EmployeeId, year: int) returns (r: Result<LeaveBalance>)
      requires Valid()
      modifies this
      ensures Valid()
      ensures (r, balances) == GetOrCreate(old(balances), employees, employeeId, year)
    {
      if employeeId !in employees {
        return Failure(NotFound(EmployeeMissing));
      }
      if (employeeId, year) in balances {
        return Success(balances[(employeeId, year)]);
      }
      var created := NewBalance(employeeId, year, employees[employeeId].annualLeaveEntitlement);
      balances := balances[(employeeId, year) := created];
      r := Success(created);
    }

    /** getEmployeeBalance: the same lookup with the same lazy creation. */
    method GetEmployeeBalance(employeeId: EmployeeId, year: int) returns (r: Result<LeaveBalance>)
      requires Valid()
      modifies this
      ensures Valid()
      ensures (r, balances) == GetOrCreate(old(balances), employees, employeeId, year)
    {
      r := GetOrCreateBalance(employeeId, year);
    }

    method UpdateUsedDays(employeeId: EmployeeId, year: int, days: int) returns (r: Outcome)
      requires Valid()
      modifies this
      ensures Valid()
      ensures (r, balances) == UpdateUsed(old(balances), employeeId, year, days)
    {
      if (employeeId, year) !in balances {
        return Fail(NotFound(BalanceMissing(year)));
      }
      var balance := balances[(employeeId, year)];
      balances := balances[(employeeId, year) := balance.AddUsed(days)];
      r := Pass;
    }

    function AllBalances(year: int): (r: set<LeaveBalance>)
      requires Valid()
      reads this
      ensures forall b :: b in r <==> b in balances.Values && b.year == year
    {
      BalancesOfYear(balances, year)
    }

    /** The rollback of an enclosing transaction: the store returns to `snapshot`. */
    method Rollback(snapshot: Balances)
      requires KeysConsistent(snapshot)
      modifies this
      ensures Valid() && balances == snapshot
    {
      balances := snapshot;
    }
  }
}
