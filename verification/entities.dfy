/** Employees and tasks: value snapshots that each carry an index of the
    other side, keyed by that side's ID. */
module Entities {

  /** Descriptive fields; their validation rules are not part of this model. */
  datatype Name = Name(value: string)
  datatype Phone = Phone(value: string)
  datatype Email = Email(value: string)
  datatype Address = Address(value: string)
  datatype Tag = Tag(name: string)

  /** An employee: its ID, descriptive fields, tags and the `AssignedTasks`
      index from task ID to the task snapshot last known to this employee. */
  datatype Employee = Employee(
    id: int,
    name: Name,
    phone: Phone,
    email: Email,
    address: Address,
    tasks: map<int, Task>,
    tags: set<Tag>)

  /** A task: its ID, its (opaque) description and the `AssignedEmployees`
      index from employee ID to the employee snapshot last known to it. */
  datatype Task = Task(
    id: int,
    description: string,
    employees: map<int, Employee>)

  /** `Employee.assignTask`: a new employee whose index also holds `t` under
      `t.id`, overwriting an earlier snapshot of the same task. */
  function AssignTask(e: Employee, t: Task): (r: Employee)
    ensures r.tasks.Keys == e.tasks.Keys + {t.id} && r.tasks[t.id] == t
    ensures forall k :: k in e.tasks && k != t.id ==> r.tasks[k] == e.tasks[k]
    ensures r.(tasks := e.tasks) == e
  {
    e.(tasks := e.tasks[t.id := t])
  }

  /** `Task.assignEmployee` (and `AssignedEmployees.assignEmployee`): a new
      task whose index also holds `e` under `e.id`. */
  function AssignEmployee(t: Task, e: Employee): (r: Task)
    ensures r.employees.Keys == t.employees.Keys + {e.id} && r.employees[e.id] == e
    ensures forall k :: k in t.employees && k != e.id ==> r.employees[k] == t.employees[k]
    ensures r.(employees := t.employees) == t
  {
    t.(employees := t.employees[e.id := e])
  }

  /** `AssignedEmployees.unassignEmployee`: drops the key `id`; a no-op
      when the key is absent. */
  function UnassignEmployee(t: Task, id: int): (r: Task)
    ensures r.employees.Keys == t.employees.Keys - {id}
    ensures forall k :: k in r.employees ==> r.employees[k] == t.employees[k]
    ensures id !in t.employees ==> r == t
    ensures r.(employees := t.employees) == t
  {
    t.(employees := t.employees - {id})
  }

  /** The back-reference swap the edit command performs on one task:
      unassign the employee's ID, then assign the edited employee. */
  function Relink(t: Task, e: Employee): (r: Task)
    ensures r == AssignEmployee(t, e)
  {
    AssignEmployee(UnassignEmployee(t, e.id), e)
  }
}
