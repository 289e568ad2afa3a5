/**
 * What a client of the service can conclude from the contracts alone, on the
 * flows the integration tests exercise.
 */
module Scenarios {
  import opened Wrappers
  import opened Models
  import opened Repository
  import opened Service

  method CompensationLifecycle(guid: Id, otherGuid: Id)
    requires guid != "" && otherGuid != "" && guid != otherGuid
  {
    var repository := new EmployeeRepository(map[], map[], map[]);
    var service := new EmployeeService(repository);
    var debbie := Employee("", "Debbie", "Downer", "Complaints", "Receiver");
    var created := service.Create(Some(debbie), guid);
    assert created == Some(debbie.(id := guid));
    assert service.GetCompensationById(guid).None?;

    var missing := service.CreateCompensation(otherGuid, Some(Compensation(32767, "1/1/0001")));
    assert missing.None?;

    var attached := service.CreateCompensation(guid, Some(Compensation(32767, "1/1/0001")));
    var read := service.GetCompensationById(guid);
    assert read == attached && read.value.salary == 32767 && read.value.employee.id == guid;

    var pete := Employee(guid, "Pete", "Best", "Engineering", "Developer VI");
    var replaced := service.Replace(created, Some(pete), otherGuid);
    assert service.GetById(guid) == Some(pete) && replaced == Some(pete);
    assert service.GetCompensationById(guid).None?;
  }
}
