/** The optional value used for every nullable reference and "not found" result. */
module Wrappers {
  datatype Option<+T> = None | Some(value: T)
}

/** The records the employee service reads and returns. */
module Models {
  /** An employee identifier: an opaque string (a GUID in practice). */
  type Id = string

  /** An employee record. The direct-report relation is held by the store, not here. */
  datatype Employee = Employee(
    id: Id,
    firstName: string,
    lastName: string,
    department: string,
    position: string)

  /** A pay record; the effective date is kept as an opaque string. */
  datatype Compensation = Compensation(salary: int, effectiveDate: string)

  /** The view returned by the compensation operations. */
  datatype CompensationResponse = CompensationResponse(
    employee: Employee,
    salary: int,
    effectiveDate: string)

  /** An employee paired with the number of employees below it. */
  datatype ReportingStructure = Structure(employee: Employee, numberOfReports: int)
}
