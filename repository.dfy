/**
 * The store the employee service talks to, reduced to what the service can
 * observe. Its own implementation is not part of this model: reads see the
 * committed rows; writes are staged and only `Save` applies them, in the way
 * a change-tracking persistence layer does.
 */
module Repository {
  import opened Wrappers
  import opened Models
  import opened OrgChart

  class EmployeeRepository {
    /** Committed employee rows, keyed by id. */
    var employees: map<Id, Employee>
    /** Committed direct-report edges, keyed by manager id. */
    var reports: Chart
    /** Committed pay records, keyed by the owning employee's id. */
    var compensations: map<Id, Compensation>

    /** Staged inserts; they are tracked but not yet committed. */
    var added: map<Id, Employee>
    /** Ids of committed rows staged for deletion; they stay tracked until `Save`. */
    var removed: set<Id>
    /** Staged pay records, keyed by the owning employee's id. */
    var addedCompensations: map<Id, Compensation>

    ghost predicate Valid()
      reads this
    {
      && (forall id :: id in employees ==> employees[id].id == id)
      && (forall id :: id in added ==> added[id].id == id)
      && compensations.Keys <= employees.Keys
      && addedCompensations.Keys <= employees.Keys
      && removed <= employees.Keys
      && ReportsResolve()
      && NoDuplicateIds()
    }

    /** Every listed direct report is a committed employee row. */
    ghost predicate ReportsResolve()
      reads this
    {
      forall m, x :: x in DirectReports(reports, m) ==> x in employees
    }

    /**
     * No staged insert shares its id with a tracked row. A commit that would
     * see two records with one id is rejected, so `Save` relies on this.
     */
    ghost predicate NoDuplicateIds()
      reads this
    {
      added.Keys !! employees.Keys
    }

    /** Nothing is staged: every earlier write has been committed. */
    predicate Clean()
      reads this
    {
      added == map[] && removed == {} && addedCompensations == map[]
    }

    /** The id belongs to a row the store is tracking, committed or staged. */
    predicate Tracked(id: Id)
      reads this
    {
      id in employees || id in added
    }

    constructor (employees: map<Id, Employee>, reports: Chart, compensations: map<Id, Compensation>)
      requires forall id :: id in employees ==> employees[id].id == id
      requires compensations.Keys <= employees.Keys
      requires forall m, x :: x in DirectReports(reports, m) ==> x in employees
      ensures Valid() && Clean()
      ensures this.employees == employees && this.reports == reports
      ensures this.compensations == compensations
    {
      this.employees := employees;
      this.reports := reports;
      this.compensations := compensations;
      added := map[];
      removed := {};
      addedCompensations := map[];
    }

    /** The committed employee row stored under `id`, if any. */
    function GetById(id: Id): (r: Option<Employee>)
      reads this
      requires Valid()
      ensures r.Some? <==> id in employees
      ensures r.Some? ==> r.value == employees[id] && r.value.id == id
    {
      if id in employees then Some(employees[id]) else None
    }

    /** The ids listed under `id`; each one resolves to a committed employee. */
    function GetDirectReportsById(id: Id): (r: seq<Id>)
      reads this
      requires Valid()
      ensures id !in reports ==> r == []
      ensures forall x :: x in r ==> x in employees && GetById(x) == Some(employees[x])
    {
      DirectReports(reports, id)
    }

    /** The employee together with its pay record, if it has one. */
    function GetByIdWithCompensation(id: Id): (r: Option<(Employee, Option<Compensation>)>)
      reads this
      requires Valid()
      ensures r.Some? <==> id in employees
      ensures r.Some? ==> r.value.0 == employees[id] && r.value.0.id == id
      ensures r.Some? ==> (r.value.1.Some? <==> id in compensations)
      ensures r.Some? && r.value.1.Some? ==> r.value.1.value == compensations[id]
    {
      if id !in employees then None
      else if id in compensations then Some((employees[id], Some(compensations[id])))
      else Some((employees[id], None))
    }

    /** Stages an insert of `e` under the store-generated id `freshId`, and returns the tracked record. */
    method Add(e: Employee, freshId: Id) returns (stored: Employee)
      requires Valid() && !Tracked(freshId)
      modifies this`added
      ensures Valid()
      ensures stored == e.(id := freshId)
      ensures added == old(added)[freshId := stored]
    {
      stored := e.(id := freshId);
      added := added[freshId := stored];
    }

    /**
     * Overwrites the id of the staged insert `from` with `to`. The new id must
     * not be tracked, or the next commit would see two records with one id.
     */
    method ChangeStagedId(from: Id, to: Id)
      requires Valid() && from in added && !Tracked(to)
      modifies this`added
      ensures Valid()
      ensures added == (old(added) - {from})[to := old(added)[from].(id := to)]
    {
      var e := added[from];
      added := (added - {from})[to := e.(id := to)];
    }

    /** Stages `c` as the pay record of `e`, replacing any staged one. */
    method AddCompensation(e: Employee, c: Compensation)
      requires Valid() && e.id in employees
      modifies this`addedCompensations
      ensures Valid()
      ensures addedCompensations == old(addedCompensations)[e.id := c]
    {
      addedCompensations := addedCompensations[e.id := c];
    }

    /** Stages the deletion of the committed row of `e`; the row stays tracked until `Save`. */
    method Remove(e: Employee)
      requires Valid() && e.id in employees
      modifies this`removed
      ensures Valid() && Tracked(e.id)
      ensures removed == old(removed) + {e.id}
    {
      removed := removed + {e.id};
    }

    /**
     * Commits every staged change: staged pay records, then deletions (which
     * cascade to the deleted employees' pay records and take each deleted
     * employee out of its manager's list), then inserts.
     */
    method Save()
      requires Valid()
      modifies this`employees, this`reports, this`compensations, this`added, this`removed,
               this`addedCompensations
      ensures Valid() && Clean()
      ensures employees == (old(employees) - old(removed)) + old(added)
      ensures reports == WithoutReports(old(reports), old(removed))
      ensures compensations == (old(compensations) + old(addedCompensations)) - old(removed)
    {
      forall m, x | x in DirectReports(WithoutReports(reports, removed), m)
        ensures x in (employees - removed) + added
      {
        WithoutReportsEdges(reports, removed, m, x);
      }
      employees := (employees - removed) + added;
      reports := WithoutReports(reports, removed);
      compensations := (compensations + addedCompensations) - removed;
      added, removed, addedCompensations := map[], {}, map[];
    }
  }
}
