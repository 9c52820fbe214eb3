/** The collection store the commands run against: the full employee and
    task lists plus the filter behind each list's "currently shown" view. */
module Model {
  import opened Wrappers
  import opened Sequences
  import opened Entities

  /** A filter: show everything, or show what an opaque criterion (for
      instance the keywords of a find command) selects. */
  datatype Filter = ShowAll | Where(criterion: string)

  datatype Store = Store(
    employees: seq<Employee>,
    tasks: seq<Task>,
    employeeFilter: Filter,
    taskFilter: Filter)

  /** What a command sees through a filter. The meaning of a criterion is
      supplied by the caller as `shows`. */
  predicate Shown(f: Filter, e: Employee, shows: (string, Employee) -> bool)
  {
    f.ShowAll? || shows(f.criterion, e)
  }

  /** `Shown` as the predicate object a filtered list is built from. */
  function EmployeeView(f: Filter, shows: (string, Employee) -> bool): Employee -> bool
  {
    (e: Employee) => Shown(f, e, shows)
  }

  /** `getFilteredEmployeeList`: the employees the current filter shows, in order. */
  function FilteredEmployees(s: Store, shows: (string, Employee) -> bool): (r: seq<Employee>)
    ensures forall k :: 0 <= k < |r| ==> r[k] in s.employees && Shown(s.employeeFilter, r[k], shows)
    ensures forall k :: 0 <= k < |s.employees| && Shown(s.employeeFilter, s.employees[k], shows) ==> s.employees[k] in r
    ensures s.employeeFilter.ShowAll? ==> r == s.employees
  {
    Keep(s.employees, EmployeeView(s.employeeFilter, shows))
  }

  /** The shown list is in store order: of two shown employees, the earlier
      one comes first in the full list too. */
  lemma FilteredEmployeesInStoreOrder(s: Store, shows: (string, Employee) -> bool, a: int, b: int)
    requires 0 <= a < b < |FilteredEmployees(s, shows)|
    ensures var r := FilteredEmployees(s, shows);
            exists i, j :: 0 <= i < j < |s.employees| && s.employees[i] == r[a] && s.employees[j] == r[b]
  {
    var i, j := KeepKeepsOrder(s.employees, EmployeeView(s.employeeFilter, shows), a, b);
  }

  /** `updateFilteredEmployeeList(PREDICATE_SHOW_ALL_EMPLOYEES)` together
      with `updateFilteredTaskList(PREDICATE_SHOW_ALL_TASKS)`. */
  function ShowEverything(s: Store): (r: Store)
    ensures r.employees == s.employees && r.tasks == s.tasks
    ensures r.employeeFilter == ShowAll && r.taskFilter == ShowAll
  {
    s.(employeeFilter := ShowAll, taskFilter := ShowAll)
  }

  /** `i` is the first position in `es` holding an employee with ID `id`. */
  predicate FirstEmployeeWithId(es: seq<Employee>, i: int, id: int)
  {
    0 <= i < |es| && es[i].id == id && forall k :: 0 <= k < i ==> es[k].id != id
  }

  /** `j` is the first position in `ts` holding a task with ID `id`. */
  predicate FirstTaskWithId(ts: seq<Task>, j: int, id: int)
  {
    0 <= j < |ts| && ts[j].id == id && forall k :: 0 <= k < j ==> ts[k].id != id
  }

  /** "Has employee ID `id`" as the predicate object a scan tests. */
  function EmployeeHasId(id: int): Employee -> bool
  {
    (e: Employee) => e.id == id
  }

  /** The linear scan over an employee list that stops at the first
      employee whose ID is `id`. */
  function EmployeePosition(es: seq<Employee>, id: int): (r: Option<nat>)
    ensures r.Some? ==> FirstEmployeeWithId(es, r.value, id)
    ensures r.None? <==> forall k :: 0 <= k < |es| ==> es[k].id != id
  {
    FindFirst(es, EmployeeHasId(id))
  }

  /** The linear scan over a task list that stops at the first task whose
      ID is `id`. */
  function TaskPosition(ts: seq<Task>, id: int): (r: Option<nat>)
    ensures r.Some? ==> FirstTaskWithId(ts, r.value, id)
    ensures r.None? <==> forall k :: 0 <= k < |ts| ==> ts[k].id != id
  {
    FindFirst(ts, (t: Task) => t.id == id)
  }

  /** `setEmployee(target, edited)`: swaps the first employee equal to
      `target` for `edited`; the filters and the tasks are untouched. */
  function SetEmployee(s: Store, target: Employee, edited: Employee): (r: Store)
    requires target in s.employees
    ensures r.tasks == s.tasks && r.employeeFilter == s.employeeFilter && r.taskFilter == s.taskFilter
    ensures exists i :: 0 <= i < |s.employees| && s.employees[i] == target && target !in s.employees[..i]
                        && r.employees == s.employees[i := edited]
  {
    s.(employees := ReplaceFirst(s.employees, target, edited))
  }

  /** `setTask(target, edited)`: swaps the first task equal to `target` for `edited`. */
  function SetTask(s: Store, target: Task, edited: Task): (r: Store)
    requires target in s.tasks
    ensures r.employees == s.employees && r.employeeFilter == s.employeeFilter && r.taskFilter == s.taskFilter
    ensures exists j :: 0 <= j < |s.tasks| && s.tasks[j] == target && target !in s.tasks[..j]
                        && r.tasks == s.tasks[j := edited]
  {
    s.(tasks := ReplaceFirst(s.tasks, target, edited))
  }

  /** Within each collection no two entities share an ID. */
  ghost predicate UniqueIds(s: Store)
  {
    && (forall a, b :: 0 <= a < b < |s.employees| ==> s.employees[a].id != s.employees[b].id)
    && (forall a, b :: 0 <= a < b < |s.tasks| ==> s.tasks[a].id != s.tasks[b].id)
  }

  /** Bidirectional consistency: a task's ID is in an employee's index
      exactly when that employee's ID is in the task's index. */
  ghost predicate Consistent(s: Store)
  {
    forall i, j :: 0 <= i < |s.employees| && 0 <= j < |s.tasks| ==>
      (s.tasks[j].id in s.employees[i].tasks <==> s.employees[i].id in s.tasks[j].employees)
  }

  /** Two stores hold the same link structure: same IDs at the same
      positions and the same index keys, whatever the snapshots stored. */
  ghost predicate SameLinks(s: Store, s': Store)
  {
    && |s'.employees| == |s.employees| && |s'.tasks| == |s.tasks|
    && (forall i :: 0 <= i < |s.employees| ==>
          s'.employees[i].id == s.employees[i].id && s'.employees[i].tasks.Keys == s.employees[i].tasks.Keys)
    && (forall j :: 0 <= j < |s.tasks| ==>
          s'.tasks[j].id == s.tasks[j].id && s'.tasks[j].employees.Keys == s.tasks[j].employees.Keys)
  }

  /** Consistency and unique IDs depend on the link structure alone. */
  lemma SameLinksPreserve(s: Store, s': Store)
    requires SameLinks(s, s')
    ensures Consistent(s) ==> Consistent(s')
    ensures UniqueIds(s) ==> UniqueIds(s')
  {
    if Consistent(s) {
      forall i, j | 0 <= i < |s'.employees| && 0 <= j < |s'.tasks|
        ensures s'.tasks[j].id in s'.employees[i].tasks <==> s'.employees[i].id in s'.tasks[j].employees
      {
        assert s.tasks[j].id in s.employees[i].tasks <==> s.employees[i].id in s.tasks[j].employees;
      }
    }
  }
}
