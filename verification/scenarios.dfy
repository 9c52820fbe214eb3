/** One employee, one task: assign, fail to assign, then edit, checking
    the links after each step. */
module Scenarios {
  import opened Wrappers
  import opened Entities
  import opened Model
  import opened Commands
  import AssignTaskCommand
  import EditCommand

  function Alex(): Employee
  {
    Employee(1, Name("Alex"), Phone("123"), Email("alex@example.com"), Address("Street 1"), map[], {})
  }

  function Design(): Task
  {
    Task(1, "Design", map[])
  }

  function Start(): Store
  {
    Store([Alex()], [Design()], ShowAll, ShowAll)
  }

  /** The store after task 1 is assigned to employee 1. */
  function Linked(): Store
  {
    Store([AssignTask(Alex(), Design())], [AssignEmployee(Design(), Alex())], ShowAll, ShowAll)
  }

  function NewPhone(): EditCommand.EditEmployeeDescriptor
  {
    EditCommand.EditEmployeeDescriptor(None, Some(Phone("999")), None, None, None, None)
  }

  /** Assigning task 1 to employee 1 succeeds and links both sides;
      assigning the missing task 99 afterwards fails and changes nothing. */
  lemma AssignScenario()
    ensures AssignTaskCommand.Execute(Start(), 1, 1) == Outcome(Ok(Confirmation("Assign task success")), Linked())
    ensures 1 in Linked().employees[0].tasks && 1 in Linked().tasks[0].employees
    ensures AssignTaskCommand.Execute(Linked(), 99, 1) == Outcome(Err(InvalidTaskId), Linked())
  {
    assert FirstEmployeeWithId(Start().employees, 0, 1) && FirstTaskWithId(Start().tasks, 0, 1);
    assert TaskPosition(Linked().tasks, 99).None?;
  }

  /** Editing the linked employee's phone reaches the task's back-reference. */
  lemma EditScenario(shows: (string, Employee) -> bool, same: (Employee, Employee) -> bool, has: (seq<Employee>, Employee) -> bool)
    requires same(Linked().employees[0], EditCommand.CreateEditedEmployee(Linked().employees[0], NewPhone()))
    ensures EditCommand.Execute(Linked(), 1, NewPhone(), shows, same, has).result.Ok?
    ensures EditCommand.Execute(Linked(), 1, NewPhone(), shows, same, has).store.tasks[0].employees[1].phone == Phone("999")
  {
    var s := Linked();
    assert EditCommand.FirstShownWithId(s, 0, 1, shows);
    EditCommand.EditRelinksAssignedTasks(s, 1, NewPhone(), shows, same, has);
    assert FirstTaskWithId(s.tasks, 0, 1);
  }
}
