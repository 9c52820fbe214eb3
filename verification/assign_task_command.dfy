/** `assigntask TASK_ID EMPLOYEE_ID`: links one task and one employee, both
    sides at once or not at all. */
module AssignTaskCommand {
  import opened Wrappers
  import opened Entities
  import opened Model
  import opened Commands

  const SuccessMessage: string := "Assign task success"

  /** Resets both filters, resolves the task and the employee by linear scan
      of the full lists, links them when both are found, and otherwise
      reports the task error before the employee error. */
  function Execute(s: Store, taskId: int, employeeId: int): (out: Outcome)
    ensures out.store.employeeFilter == ShowAll && out.store.taskFilter == ShowAll
    ensures out.result == Err(InvalidTaskId) <==> TaskPosition(s.tasks, taskId).None?
    ensures out.result == Err(InvalidEmployeeId) <==> TaskPosition(s.tasks, taskId).Some? && EmployeePosition(s.employees, employeeId).None?
    ensures out.result.Ok? <==> TaskPosition(s.tasks, taskId).Some? && EmployeePosition(s.employees, employeeId).Some?
    ensures out.result.Ok? ==> out.result.value == Confirmation(SuccessMessage)
    ensures out.result.Err? ==> out.store.employees == s.employees && out.store.tasks == s.tasks
    ensures forall i, j :: FirstEmployeeWithId(s.employees, i, employeeId) && FirstTaskWithId(s.tasks, j, taskId) ==>
              && out.store.employees == s.employees[i := AssignTask(s.employees[i], s.tasks[j])]
              && out.store.tasks == s.tasks[j := AssignEmployee(s.tasks[j], s.employees[i])]
  {
    var shown := ShowEverything(s);
    var taskAt := TaskPosition(shown.tasks, taskId);
    var employeeAt := EmployeePosition(shown.employees, employeeId);
    var updated :=
      if taskAt.Some? && employeeAt.Some? then
        var task := shown.tasks[taskAt.value];
        var employee := shown.employees[employeeAt.value];
        var withEmployee := SetEmployee(shown, employee, AssignTask(employee, task));
        SetTask(withEmployee, task, AssignEmployee(task, employee))
      else
        shown;
    if taskAt.None? then Outcome(Err(InvalidTaskId), updated)
    else if employeeAt.None? then Outcome(Err(InvalidEmployeeId), updated)
    else Outcome(Ok(Confirmation(SuccessMessage)), updated)
  }

  /** When the task at `j` and the employee at `i` are the first with their
      IDs, the command succeeds; the employee then holds the task under
      `taskId`, and the task holds, under `employeeId`, the employee as it
      was BEFORE the assignment; no other entity changes. */
  lemma SuccessLinksBothSides(s: Store, taskId: int, employeeId: int, i: int, j: int)
    requires FirstEmployeeWithId(s.employees, i, employeeId) && FirstTaskWithId(s.tasks, j, taskId)
    ensures Execute(s, taskId, employeeId).result.Ok?
    ensures var s' := Execute(s, taskId, employeeId).store;
            && taskId in s'.employees[i].tasks && s'.employees[i].tasks[taskId] == s.tasks[j]
            && employeeId in s'.tasks[j].employees && s'.tasks[j].employees[employeeId] == s.employees[i]
            && (forall k :: 0 <= k < |s.employees| && k != i ==> s'.employees[k] == s.employees[k])
            && (forall k :: 0 <= k < |s.tasks| && k != j ==> s'.tasks[k] == s.tasks[k])
  {
    var out := Execute(s, taskId, employeeId);
    assert TaskPosition(s.tasks, taskId).Some? && EmployeePosition(s.employees, employeeId).Some?;
    assert out.store.employees == s.employees[i := AssignTask(s.employees[i], s.tasks[j])];
    assert out.store.tasks == s.tasks[j := AssignEmployee(s.tasks[j], s.employees[i])];
  }

  /** Linking the employee at `i` with the task at `j` on both sides keeps
      a store with unique IDs consistent. */
  lemma LinkPreservesConsistency(s: Store, s': Store, i: int, j: int)
    requires UniqueIds(s) && Consistent(s)
    requires 0 <= i < |s.employees| && 0 <= j < |s.tasks|
    requires s'.employees == s.employees[i := AssignTask(s.employees[i], s.tasks[j])]
    requires s'.tasks == s.tasks[j := AssignEmployee(s.tasks[j], s.employees[i])]
    ensures UniqueIds(s') && Consistent(s')
  {
  }

  /** With unique IDs, assigning keeps the two indices mutually consistent. */
  lemma AssignPreservesConsistency(s: Store, taskId: int, employeeId: int)
    requires UniqueIds(s) && Consistent(s)
    ensures UniqueIds(Execute(s, taskId, employeeId).store)
    ensures Consistent(Execute(s, taskId, employeeId).store)
  {
    var out := Execute(s, taskId, employeeId);
    if out.result.Ok? {
      var i := EmployeePosition(s.employees, employeeId).value;
      var j := TaskPosition(s.tasks, taskId).value;
      LinkPreservesConsistency(s, out.store, i, j);
    } else {
      assert SameLinks(s, out.store);
      SameLinksPreserve(s, out.store);
    }
  }

  /** Linking an already linked pair again changes snapshots only. */
  lemma RelinkKeepsLinks(s: Store, s': Store, i: int, j: int)
    requires 0 <= i < |s.employees| && 0 <= j < |s.tasks|
    requires s.tasks[j].id in s.employees[i].tasks && s.employees[i].id in s.tasks[j].employees
    requires s'.employees == s.employees[i := AssignTask(s.employees[i], s.tasks[j])]
    requires s'.tasks == s.tasks[j := AssignEmployee(s.tasks[j], s.employees[i])]
    ensures SameLinks(s, s')
  {
  }

  /** Assigning a pair that is already linked succeeds and changes
      snapshots only. */
  lemma AssignLinkedPair(s: Store, taskId: int, employeeId: int, i: int, j: int)
    requires FirstEmployeeWithId(s.employees, i, employeeId) && FirstTaskWithId(s.tasks, j, taskId)
    requires taskId in s.employees[i].tasks && employeeId in s.tasks[j].employees
    ensures Execute(s, taskId, employeeId).result == Ok(Confirmation(SuccessMessage))
    ensures SameLinks(s, Execute(s, taskId, employeeId).store)
  {
    RelinkKeepsLinks(s, Execute(s, taskId, employeeId).store, i, j);
  }

  /** Repeating a successful assignment changes snapshots only. */
  lemma ReassignAfterSuccess(s: Store, taskId: int, employeeId: int)
    ensures var once := Execute(s, taskId, employeeId);
            var twice := Execute(once.store, taskId, employeeId);
            once.result.Ok? ==> twice.result == once.result && SameLinks(once.store, twice.store)
  {
    var once := Execute(s, taskId, employeeId);
    if once.result.Ok? {
      var i := EmployeePosition(s.employees, employeeId).value;
      var j := TaskPosition(s.tasks, taskId).value;
      assert once.store.employees[i] == AssignTask(s.employees[i], s.tasks[j]);
      assert once.store.tasks[j] == AssignEmployee(s.tasks[j], s.employees[i]);
      AssignLinkedPair(once.store, taskId, employeeId, i, j);
    }
  }

  /** Repeating a failed assignment fails the same way on the same lists. */
  lemma ReassignAfterFailure(s: Store, taskId: int, employeeId: int)
    ensures var once := Execute(s, taskId, employeeId);
            var twice := Execute(once.store, taskId, employeeId);
            once.result.Err? ==> twice.result == once.result && twice.store == once.store
  {
    var once := Execute(s, taskId, employeeId);
    if once.result.Err? {
      assert once.store.employees == s.employees && once.store.tasks == s.tasks;
    }
  }

  /** Assigning the same task to the same employee a second time reports
      the same result and leaves the same links as assigning once. */
  lemma ReassignIsIdempotent(s: Store, taskId: int, employeeId: int)
    ensures var once := Execute(s, taskId, employeeId);
            var twice := Execute(once.store, taskId, employeeId);
            twice.result == once.result && SameLinks(once.store, twice.store)
  {
    ReassignAfterSuccess(s, taskId, employeeId);
    ReassignAfterFailure(s, taskId, employeeId);
  }
}
