/**
 * The employee service: creation, lookup and identity-preserving replacement
 * of employee records, the reporting-structure count, and attaching and
 * reading an employee's compensation. A null reference is `None`; a null id
 * is the empty string, which the source treats the same way.
 */
module Service {
  import opened Wrappers
  import opened Models
  import opened OrgChart
  import opened Repository

  class EmployeeService {
    const repository: EmployeeRepository

    constructor (repository: EmployeeRepository)
      ensures this.repository == repository
    {
      this.repository := repository;
    }

    /** Between requests the store is consistent and has nothing staged. */
    ghost predicate Ready()
      reads repository
    {
      repository.Valid() && repository.Clean()
    }

    /**
     * Stores `employee` under the store-generated id `freshId` and returns it;
     * an absent employee changes nothing and is returned as it came.
     */
    method Create(employee: Option<Employee>, freshId: Id) returns (r: Option<Employee>)
      requires Ready()
      requires employee.Some? ==> freshId != "" && freshId !in repository.employees
      modifies repository
      ensures Ready()
      ensures employee.None? ==> r.None? && unchanged(repository)
      ensures employee.Some? ==> r == Some(employee.value.(id := freshId))
      ensures employee.Some? ==> repository.employees == old(repository.employees)[freshId := r.value]
      ensures repository.compensations == old(repository.compensations)
      ensures repository.reports == old(repository.reports)
      ensures r.Some? ==> GetById(freshId) == r && GetCompensationById(freshId).None?
    {
      r := employee;
      if employee.Some? {
        WithoutUnlisted(repository.reports, {});
        var stored := repository.Add(employee.value, freshId);
        repository.Save();
        r := Some(stored);
      }
    }

    /** The employee stored under `id`; an empty id is not looked up. */
    function GetById(id: Id): (r: Option<Employee>)
      reads repository
      requires repository.Valid()
      ensures id == "" ==> r.None?
      ensures r.Some? <==> id != "" && id in repository.employees
      ensures r.Some? ==> r.value.id == id && r.value == repository.employees[id]
    {
      if id != "" then repository.GetById(id) else None
    }

    /**
     * Replaces `original` by `replacement`, keeping the original's id: the
     * removal is committed before the replacement is inserted and given that
     * id, and the insertion is committed after. With no replacement only the
     * removal is committed; with no original nothing happens. The caller has
     * checked that the original exists.
     */
    method Replace(original: Option<Employee>, replacement: Option<Employee>, freshId: Id)
      returns (r: Option<Employee>)
      requires Ready()
      requires original.Some? ==> original.value.id in repository.employees
      requires original.Some? && replacement.Some? ==> freshId != "" && freshId !in repository.employees
      modifies repository
      ensures Ready()
      ensures original.None? ==> r == replacement && unchanged(repository)
      ensures original.Some? ==>
                repository.reports == WithoutReports(old(repository.reports), {original.value.id})
      ensures original.Some? ==>
                repository.compensations == old(repository.compensations) - {original.value.id}
      ensures original.Some? && replacement.None? ==>
                r.None? && repository.employees == old(repository.employees) - {original.value.id}
      ensures original.Some? && replacement.Some? ==>
                && r == Some(replacement.value.(id := original.value.id))
                && repository.employees == old(repository.employees)[original.value.id := r.value]
    {
      r := replacement;
      if original.Some? {
        repository.Remove(original.value);
        if replacement.Some? {
          var stored := InsertUnder(original.value.id, replacement.value, freshId);
          r := Some(stored);
        } else {
          CommitRemoval(original.value.id);
        }
      }
    }

    /** Commits the staged removal of `oid`, the only staged change. */
    method CommitRemoval(oid: Id)
      requires repository.Valid() && repository.removed == {oid}
      requires repository.added == map[] && repository.addedCompensations == map[]
      modifies repository
      ensures Ready()
      ensures repository.employees == old(repository.employees) - {oid}
      ensures repository.reports == WithoutReports(old(repository.reports), {oid})
      ensures repository.compensations == old(repository.compensations) - {oid}
    {
      repository.Save();
    }

    /**
     * The second half of a replacement: commits the staged removal of `oid`,
     * stages `e` under `freshId`, re-keys it to `oid` and commits again.
     */
    method InsertUnder(oid: Id, e: Employee, freshId: Id) returns (stored: Employee)
      requires repository.Valid() && repository.removed == {oid}
      requires repository.added == map[] && repository.addedCompensations == map[]
      requires freshId != "" && freshId !in repository.employees
      modifies repository
      ensures Ready()
      ensures stored == e.(id := oid)
      ensures repository.employees == old(repository.employees)[oid := stored]
      ensures repository.reports == WithoutReports(old(repository.reports), {oid})
      ensures repository.compensations == old(repository.compensations) - {oid}
    {
      // The removal must be committed first: until then `oid` is still tracked.
      CommitRemoval(oid);
      var staged := repository.Add(e, freshId);
      repository.ChangeStagedId(freshId, oid);
      stored := staged.(id := oid);
      CommitInsert(oid, stored);
    }

    /** Commits the staged insert of `e` under `oid`, the only staged change. */
    method CommitInsert(oid: Id, e: Employee)
      requires repository.Valid() && repository.added == map[oid := e]
      requires repository.removed == {} && repository.addedCompensations == map[]
      modifies repository
      ensures Ready()
      ensures repository.employees == old(repository.employees)[oid := e]
      ensures repository.reports == old(repository.reports)
      ensures repository.compensations == old(repository.compensations)
    {
      WithoutUnlisted(repository.reports, {});
      repository.Save();
    }

    /**
     * The employee stored under `id` paired with the number of employees below
     * it; absent when `id` does not resolve. `rank` witnesses that the
     * reporting chart has no cycle.
     */
    function ReportingStructure(id: Id, ghost rank: map<Id, nat>): (r: Option<Models.ReportingStructure>)
      reads repository
      requires repository.Valid() && Ranked(repository.reports, rank)
      ensures r.Some? <==> GetById(id).Some?
      ensures r.Some? ==> r.value.employee == GetById(id).value
      ensures r.Some? ==> (r.value.numberOfReports == 0 <==> repository.GetDirectReportsById(id) == [])
      ensures r.Some? ==> Below(repository.reports, rank, id) <= repository.employees.Keys
      ensures r.Some? && IsForest(repository.reports) ==>
                r.value.numberOfReports == |Below(repository.reports, rank, id)|
    {
      var employee := GetById(id);
      if employee.None? then
        None
      else
        var count := CountReports(repository.reports, rank, employee.value.id, 0);
        assert Below(repository.reports, rank, id) <= repository.employees.Keys by {
          BelowWithin(repository.reports, rank, id, repository.employees.Keys);
        }
        assert IsForest(repository.reports) ==> count == |Below(repository.reports, rank, id)| by {
          if IsForest(repository.reports) {
            CountIsSubtreeSize(repository.reports, rank, id);
          }
        }
        Some(Structure(employee.value, count))
    }

    /**
     * Attaches `compensation` to the employee stored under `employeeId` and
     * returns the employee with the salary and date; absent, with no write,
     * when the id does not resolve. A resolved employee needs a compensation.
     */
    method CreateCompensation(employeeId: Id, compensation: Option<Compensation>)
      returns (r: Option<CompensationResponse>)
      requires Ready()
      requires employeeId in repository.employees ==> compensation.Some?
      modifies repository
      ensures Ready()
      ensures repository.employees == old(repository.employees)
      ensures repository.reports == old(repository.reports)
      ensures employeeId !in old(repository.employees) ==> r.None? && unchanged(repository)
      ensures employeeId in old(repository.employees) ==>
                && r == Some(CompensationResponse(old(repository.employees[employeeId]),
                                                  compensation.value.salary,
                                                  compensation.value.effectiveDate))
                && repository.compensations
                   == old(repository.compensations)[employeeId := compensation.value]
      ensures r.Some? && employeeId != "" ==> GetCompensationById(employeeId) == r
    {
      var employee := repository.GetById(employeeId);
      if employee.None? {
        return None;
      }
      if compensation.Some? {
        WithoutUnlisted(repository.reports, {});
        repository.AddCompensation(employee.value, compensation.value);
        repository.Save();
      }
      r := Some(CompensationResponse(employee.value, compensation.value.salary,
                                     compensation.value.effectiveDate));
    }

    /**
     * The pay record of the employee stored under `id`. An empty id, an
     * unknown employee and an employee without a pay record all give `None`.
     */
    function GetCompensationById(id: Id): (r: Option<CompensationResponse>)
      reads repository
      requires repository.Valid()
      ensures r.Some? <==> id != "" && id in repository.compensations
      ensures r.Some? ==>
                && r.value.employee == repository.employees[id]
                && r.value.employee.id == id
                && r.value.salary == repository.compensations[id].salary
                && r.value.effectiveDate == repository.compensations[id].effectiveDate
    {
      if id == "" then
        None
      else
        match repository.GetByIdWithCompensation(id)
        case None => None
        case Some((_, None)) => None
        case Some((employee, Some(c))) => Some(CompensationResponse(employee, c.salary, c.effectiveDate))
    }
  }
}
