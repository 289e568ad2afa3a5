# Employee service — a Dafny model

This project models the domain layer of an employee-directory service
(`EmployeeService`). The layer does three things:

- It creates, looks up and replaces employee records. Replacement keeps the
  original record's identifier.
- It computes an employee's reporting structure: the employee, together with
  the number of employees below it in the org chart.
- It attaches a compensation record (salary, effective date) to an employee and
  reads it back.

Layout:

- `models.dfy`: module `Wrappers` (`Option`, used for every null reference and
  every "not found") and module `Models` (`Employee`, `Compensation`,
  `CompensationResponse`, `ReportingStructure`).
- `org_chart.dfy`: module `OrgChart`. It holds the pure, recursive report count
  (`CountReports` and `SumReports`, the source's recursion and its `Sum` over
  direct reports). It also holds a reference definition of "everybody below an
  employee" (`Below`), both as a set and as reachability along chains of
  command (`IsPath`), and the proof that on a tree-shaped chart the count is the
  number of distinct employees below the root.
- `repository.dfy`: module `Repository`. Class `EmployeeRepository` is the store
  behind the service. It holds committed maps (employees by id, direct-report
  edges by manager id, compensations by employee id) and the changes staged
  for the next commit. `Save` commits those changes. `Valid()` includes
  `NoDuplicateIds()`: no staged insert shares an id with a tracked row, so a
  commit never sees two records with the same id. It also includes
  `ReportsResolve()`: every listed direct report is a stored employee. A
  direct-report edge sits on the report's own row, so deleting an employee
  takes it out of its manager's list (`OrgChart.WithoutReports`).
- `employee_service.dfy`: module `Service`. Class `EmployeeService` has the
  writers (`Create`, `Replace`, `CreateCompensation`) as methods that change the
  repository. The readers (`GetById`, `ReportingStructure`,
  `GetCompensationById`) are functions that read it.
- `scenarios.dfy`: a client method that replays the integration tests'
  compensation and replacement flows using only the service's contracts.

Acyclicity of the org chart is a precondition of the count, because the source
recursion has no cycle guard. A ghost `rank: map<Id, nat>` witnesses it: every
direct report ranks strictly below its manager (`Ranked`). The same rank is
the termination measure. `NoCycle` shows that a ranked chart has no chain of
command that leads back to its start. The count is guaranteed to equal the
number of distinct employees below the root on a forest, where nobody has two
managers and no list repeats an entry (`IsForest`). If an employee below the
root can be reached along two chains of command, or a list repeats an entry,
the source counts each chain, and the count exceeds that number.

## Model

| member | source | states |
|---|---|---|
| OrgChart.CountReports | CodeChallenge/Services/EmployeeService.cs:81-94 | with the accumulator at 0 or above, the count is at least the number of direct reports, and it is 0 exactly when the employee has no direct reports (the exit case) |
| OrgChart.SumReports | CodeChallenge/Services/EmployeeService.cs:93 | the sum of the recursive counts over a list of direct reports is never negative |
| OrgChart.CountIsSubtreeSize | CodeChallenge/Services/EmployeeService.cs:72-94 | on a forest, the count started with accumulator 0 equals the number of distinct ids below the root, root excluded |
| OrgChart.SumIsSubtreesSize | CodeChallenge/Services/EmployeeService.cs:91-93 | for distinct direct reports of one manager, the list length plus the summed counts equals the size of the union of their subtrees |
| OrgChart.SiblingSubtreesDisjoint | CodeChallenge/Services/EmployeeService.cs:91-93 | on a forest, the subtrees under two different direct reports of one manager do not overlap, so the sum counts nobody twice |
| OrgChart.Below | CodeChallenge/Services/EmployeeService.cs:80-94 | everybody below an employee ranks strictly below it (so nobody is below themselves), and every direct report is below it |
| OrgChart.BelowIsReachable | CodeChallenge/Services/EmployeeService.cs:80-94 | an employee is below `a` exactly when some chain of command of length at least 2 leads from `a` to it |
| OrgChart.NoCycle | CodeChallenge/Services/EmployeeService.cs:81-94 | on a ranked chart, no chain of command leads from an employee back to itself, so the unguarded recursion terminates |
| OrgChart.BelowWithin | CodeChallenge/Services/EmployeeService.cs:83 | when every listed direct report is in a set of ids, so is everybody below any employee, so the count only reaches stored employees |
| OrgChart.DistinctWithout | CodeChallenge/Services/EmployeeService.cs:47 | deleting employees from a direct-report list without repeats leaves a list without repeats |
| OrgChart.WithoutUnlisted | CodeChallenge/Services/EmployeeService.cs:26-27 | a commit that deletes nobody listed as a report leaves the chart unchanged |
| OrgChart.WithoutKeepsShape | CodeChallenge/Services/EmployeeService.cs:47-57 | deleting employees keeps the chart acyclic under the same rank, and keeps a forest a forest, so the count stays defined after a replacement |
| OrgChart.BeatlesBelow | CodeChallenge.Tests/EmployeeControllerTests.cs:153-189 | with John over Paul and Ringo and Ringo over Pete and George, the employees below John are exactly Paul, Ringo, Pete and George |
| OrgChart.BeatlesCount | CodeChallenge.Tests/EmployeeControllerTests.cs:155 | on that chart, the count for John is 4, obtained from the forest theorem and the four employees below John |
| Repository.EmployeeRepository.Add | CodeChallenge/Services/EmployeeService.cs:26-53 | inserting an employee (line 26 in `Create`, line 53 in `Replace`) only stages it, under the store-generated id, with its other fields unchanged; it needs an untracked id |
| Repository.EmployeeRepository.AddCompensation | CodeChallenge/Services/EmployeeService.cs:107 | attaching a compensation to a stored employee only stages it, replacing any staged one for that employee |
| Repository.EmployeeRepository.GetById | CodeChallenge/Services/EmployeeService.cs:37-99 | the store's point lookup (line 37 in `GetById`, line 99 in the compensation `Create`, which has no empty-id guard): present exactly when the id is stored, and then the stored record, which carries that id |
| Repository.EmployeeRepository.GetByIdWithCompensation | CodeChallenge/Services/EmployeeService.cs:124-126 | absent exactly when the id is not stored; otherwise the stored employee with that id, with a compensation exactly when one is stored for it, and that one |
| Repository.EmployeeRepository.GetDirectReportsById | CodeChallenge/Services/EmployeeService.cs:83-86 | an employee with no list has no direct reports, and every listed direct report resolves to a stored employee |
| Repository.EmployeeRepository.Remove | CodeChallenge/Services/EmployeeService.cs:47 | deleting a row only stages the deletion, and the row stays tracked until the next commit |
| Repository.EmployeeRepository.ChangeStagedId | CodeChallenge/Services/EmployeeService.cs:50-55 | giving the staged replacement the original's id requires that id to be untracked, which holds only after the removal has been committed; only that staged entry changes |
| Repository.EmployeeRepository.Save | CodeChallenge/Services/EmployeeService.cs:51-57 | a commit adds the staged compensations, then applies the staged deletions, which remove the deleted employees' compensations (a compensation staged for a deleted employee is dropped too) and take them out of every direct-report list, then applies the staged inserts; nothing stays staged and every listed report still resolves |
| Service.EmployeeService.Create | CodeChallenge/Services/EmployeeService.cs:22-31 | a present employee is stored under the newly generated id and returned with that id and its other fields unchanged; afterwards it resolves by that id and has no compensation; compensations and direct-report lists are unchanged; an absent employee changes nothing and comes back absent |
| Service.EmployeeService.GetById | CodeChallenge/Services/EmployeeService.cs:33-41 | an empty id gives absent; otherwise the result is present exactly when the id is stored, and it is the record stored under that id |
| Service.EmployeeService.Replace | CodeChallenge/Services/EmployeeService.cs:43-61 | with both present: the stored record under the original's id has the replacement's fields, no other record changes, and the replacement, carrying the original's id, is returned; with no replacement: the employee is deleted; with no original: nothing changes and the replacement is returned; the original's compensation is dropped by the cascade, and the original's id leaves its manager's direct-report list |
| Service.EmployeeService.CommitRemoval | CodeChallenge/Services/EmployeeService.cs:57 | committing the single staged removal deletes that employee, its compensation and its place in its manager's list |
| Service.EmployeeService.InsertUnder | CodeChallenge/Services/EmployeeService.cs:50-57 | with the original's removal staged, the replacement ends up stored under the original's id, with the original's compensation and direct-report edge gone |
| Service.EmployeeService.CommitInsert | CodeChallenge/Services/EmployeeService.cs:57 | committing the single staged insert under the original's id stores it there and leaves every other employee, the compensations and the direct-report lists unchanged |
| Service.EmployeeService.ReportingStructure | CodeChallenge/Services/EmployeeService.cs:63-78 | absent exactly when the id does not resolve; otherwise pairs the resolved employee with a count that is 0 exactly for a leaf; everybody below it is a stored employee and, on a forest, the count equals the number of distinct employees below it |
| Service.EmployeeService.CreateCompensation | CodeChallenge/Services/EmployeeService.cs:96-117 | an unresolved id gives absent and no write; otherwise the compensation is attached to that employee, no employee record changes, the response carries the resolved employee and the given salary and date, and a later lookup returns that same response |
| Service.EmployeeService.GetCompensationById | CodeChallenge/Services/EmployeeService.cs:119-137 | present exactly when the id is non-empty and has a compensation, so an empty id, an unknown employee and an employee without a compensation give the same absent result; a present result carries that employee's stored salary and date |

## Left out

- Service.EmployeeService.CreateCompensation: when the employee resolves and
  the compensation is null, the source dereferences null at line 114 and
  throws. The model requires a compensation in that case.
- Service.EmployeeService.Replace: the caller must pass an original that is
  stored. The controller checks this before calling, and the repository's
  removal needs it.
- Service.EmployeeService.Create: the store generates the new id (a GUID). The
  model takes it as the parameter `freshId`, which must be non-empty and not
  stored already. `Replace` takes one the same way.
- A null id is modelled by the empty string. `String.IsNullOrEmpty` treats both
  the same way.
- The overwrite `newEmployee.EmployeeId = ...` changes a field of an object the
  change tracker shares with the caller. The model re-keys the staged insert
  (`ChangeStagedId`) and returns the re-keyed value. Object identity and
  aliasing are not modelled.
- The repository's implementation is not part of this model. Reads see
  committed rows only. Deleting an employee takes its id out of its manager's
  list. A deleted manager's own list stays under its id, so it becomes
  unreachable. After a replacement it belongs to the employee stored under
  that id again. The model assumes the store neither clears that link nor
  sets it to null. The replacement does not regain a place in its former
  manager's list, because the replacing record carries no manager. Other
  navigation-property fix-ups, and the `DirectReports` list loaded onto the
  returned employee, are not modelled.
- Deleting an employee also deletes its compensation. That cascade belongs to
  the store, whose code is not part of this model; `Save` assumes it. As a
  result, `Replace` drops the original's compensation.
- A second compensation attached to the same employee overwrites the first
  (`map` update). The source leaves this to the store's uniqueness rules.
- `Compensation.CompensationId` is not modelled: the service never reads it.
- 32-bit `int` limits: counts and salaries are unbounded integers. Salaries
  are only copied. On a forest the report count is at most the number of
  stored employees, so it fits in 32 bits unless there are more than
  2^31 - 1 of them.
- OrgChart.CountReports: on a ranked chart that is not a forest, the count
  counts paths, and it can exceed 2^31 - 1 with few employees. A ladder of 32
  levels with two edges between each pair of neighbouring levels is enough.
  There, the checked `Sum` at line 93 throws an overflow exception at the
  root. On other charts the unchecked outer `+` at lines 91-92 can wrap around
  instead, and the source returns a wrong count. The model computes the
  unbounded value instead.
- `EffectiveDate` is an opaque string. Its formatting and parsing are not
  modelled.
- Logging, async commits (`SaveAsync().Wait()`), concurrency between requests,
  and failures of a commit are not modelled.
- The HTTP controller (routing, status codes) and the integration-test harness
  are not part of this model. The tests' expected values appear as the
  `Beatles*` lemmas and the `Scenarios` client.
