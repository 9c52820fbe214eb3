/** `edit EMPLOYEE_ID [fields]`: replaces an employee with an edited copy
    and re-points the back-references of its assigned tasks to that copy. */
module EditCommand {
  import opened Wrappers
  import opened Sequences
  import opened Entities
  import opened Model
  import opened Commands

  /** The fields to change; `None` stands for a field left `null` (not edited). */
  datatype EditEmployeeDescriptor = EditEmployeeDescriptor(
    name: Option<Name>,
    phone: Option<Phone>,
    email: Option<Email>,
    address: Option<Address>,
    tasks: Option<map<int, Task>>,
    tags: Option<set<Tag>>)

  /** `new EditEmployeeDescriptor()`: a descriptor with no field set. */
  function NoEdits(): (r: EditEmployeeDescriptor)
    ensures forall e :: CreateEditedEmployee(e, r) == e
  {
    EditEmployeeDescriptor(None, None, None, None, None, None)
  }

  /** `equals`: field-wise `Objects.equals`, null equal only to null. */
  function Equals(a: EditEmployeeDescriptor, b: EditEmployeeDescriptor): (r: bool)
    ensures r <==> a == b
  {
    && a.name == b.name
    && a.phone == b.phone
    && a.email == b.email
    && a.address == b.address
    && a.tasks == b.tasks
    && a.tags == b.tags
  }

  /** The copy constructor, with its defensive copy of the tag set. */
  function Copy(d: EditEmployeeDescriptor): (r: EditEmployeeDescriptor)
    ensures Equals(r, d)
  {
    EditEmployeeDescriptor(
      d.name, d.phone, d.email, d.address, d.tasks,
      match d.tags
      case None => None
      case Some(tags) =>
        var copied := set t | t in tags;
        assert copied == tags;
        Some(copied))
  }

  /** `isAnyFieldEdited`: some field is set. */
  function AnyFieldEdited(d: EditEmployeeDescriptor): (r: bool)
    ensures r <==> d != NoEdits()
  {
    d.name.Some? || d.phone.Some? || d.email.Some? || d.address.Some? || d.tasks.Some? || d.tags.Some?
  }

  /** `result` holds the edit when there is one and `original` otherwise. */
  ghost predicate TakesEdit<T>(edit: Option<T>, original: T, result: T)
  {
    match edit
    case Some(v) => result == v
    case None => result == original
  }

  /** `createEditedEmployee`: every field from the descriptor when present,
      from the original otherwise; the ID always from the original. */
  function CreateEditedEmployee(e: Employee, d: EditEmployeeDescriptor): (r: Employee)
    ensures r.id == e.id
    ensures TakesEdit(d.name, e.name, r.name) && TakesEdit(d.phone, e.phone, r.phone)
    ensures TakesEdit(d.email, e.email, r.email) && TakesEdit(d.address, e.address, r.address)
    ensures TakesEdit(d.tasks, e.tasks, r.tasks) && TakesEdit(d.tags, e.tags, r.tags)
  {
    Employee(
      e.id,
      match d.name case Some(v) => v case None => e.name,
      match d.phone case Some(v) => v case None => e.phone,
      match d.email case Some(v) => v case None => e.email,
      match d.address case Some(v) => v case None => e.address,
      match d.tasks case Some(v) => v case None => e.tasks,
      match d.tags case Some(v) => v case None => e.tags)
  }

  /** A descriptor that edits nothing gives back an equal employee, and
      applying a descriptor a second time changes nothing more. */
  lemma EditedEmployeeProperties(e: Employee, d: EditEmployeeDescriptor)
    ensures !AnyFieldEdited(d) ==> CreateEditedEmployee(e, d) == e
    ensures CreateEditedEmployee(CreateEditedEmployee(e, d), d) == CreateEditedEmployee(e, d)
  {
  }

  /** `i` is the first position whose employee the filter shows and whose ID is `id`. */
  ghost predicate FirstShownWithId(s: Store, i: int, id: int, shows: (string, Employee) -> bool)
  {
    && 0 <= i < |s.employees| && s.employees[i].id == id && Shown(s.employeeFilter, s.employees[i], shows)
    && forall k :: 0 <= k < i && Shown(s.employeeFilter, s.employees[k], shows) ==> s.employees[k].id != id
  }

  /** `findEmployee`: the first employee of the FILTERED list whose ID is
      the one-based index, or `None` where the Java method returns `null`. */
  function FindEmployee(s: Store, id: int, shows: (string, Employee) -> bool): (r: Option<Employee>)
    ensures r.None? <==>
              forall k :: 0 <= k < |s.employees| && Shown(s.employeeFilter, s.employees[k], shows) ==> s.employees[k].id != id
    ensures r.Some? ==> exists i :: FirstShownWithId(s, i, id, shows) && s.employees[i] == r.value
  {
    var view := EmployeeView(s.employeeFilter, shows);
    var shown := FilteredEmployees(s, shows);
    var q := (e: Employee) => Shown(s.employeeFilter, e, shows) && e.id == id;
    FindFirstInKept(s.employees, view, EmployeeHasId(id), q);
    match EmployeePosition(shown, id)
    case None => None
    case Some(k) =>
      var i := FindFirst(s.employees, q).value;
      assert FirstShownWithId(s, i, id, shows);
      Some(shown[k])
  }

  /** The reference meaning of the repropagation loop: the FIRST task with
      each ID that is a key of `keys` swaps its back-reference for `e`;
      every other task is left alone. */
  function Repropagated(tasks: seq<Task>, keys: set<int>, e: Employee): (r: seq<Task>)
    ensures |r| == |tasks|
    ensures forall j :: 0 <= j < |tasks| ==> r[j] == tasks[j] || r[j] == AssignEmployee(tasks[j], e)
    ensures forall j :: 0 <= j < |tasks| ==> r[j].id == tasks[j].id
  {
    seq(|tasks|, j requires 0 <= j < |tasks| =>
      if tasks[j].id in keys && FirstTaskWithId(tasks, j, tasks[j].id) then Relink(tasks[j], e) else tasks[j])
  }

  /** Handling a key that the task at `j` is the first to carry relinks
      exactly that task. */
  lemma RepropagatedStepFound(tasks: seq<Task>, done: set<int>, key: int, e: Employee, j: int)
    requires key !in done && FirstTaskWithId(tasks, j, key)
    ensures Repropagated(tasks, done + {key}, e) == Repropagated(tasks, done, e)[j := Relink(tasks[j], e)]
  {
    var before := Repropagated(tasks, done, e);
    var goal := Repropagated(tasks, done + {key}, e);
    forall k | 0 <= k < |tasks|
      ensures goal[k] == before[j := Relink(tasks[j], e)][k]
    {
      if k != j && tasks[k].id == key {
        assert !FirstTaskWithId(tasks, k, key);
      }
    }
  }

  /** Handling a key that no task carries changes nothing. */
  lemma RepropagatedStepMissing(tasks: seq<Task>, done: set<int>, key: int, e: Employee)
    requires forall j :: 0 <= j < |tasks| ==> tasks[j].id != key
    ensures Repropagated(tasks, done + {key}, e) == Repropagated(tasks, done, e)
  {
    var before := Repropagated(tasks, done, e);
    var goal := Repropagated(tasks, done + {key}, e);
    assert forall k :: 0 <= k < |tasks| ==> goal[k] == before[k];
  }

  /** Handling one more key relinks at most the first task carrying it:
      the step the loop below takes, stated against the reference meaning. */
  lemma RepropagatedStep(tasks: seq<Task>, done: set<int>, key: int, e: Employee, before: seq<Task>, after: seq<Task>)
    requires key !in done
    requires before == Repropagated(tasks, done, e)
    requires forall j :: FirstTaskWithId(before, j, key) ==> after == before[j := Relink(before[j], e)]
    requires (forall j :: 0 <= j < |before| ==> before[j].id != key) ==> after == before
    ensures after == Repropagated(tasks, done + {key}, e)
  {
    match TaskPosition(tasks, key)
    case Some(j) =>
      assert FirstTaskWithId(before, j, key);
      assert before[j] == tasks[j];
      RepropagatedStepFound(tasks, done, key, e, j);
    case None =>
      RepropagatedStepMissing(tasks, done, key, e);
  }

  /** The inner loop of the edit command: scan the task list for the first task
      with ID `key`, swap its back-reference for `e` and stop; a key no task
      carries is skipped silently. */
  method RelinkFirstWithId(ts: seq<Task>, key: int, e: Employee) returns (r: seq<Task>)
    ensures forall j :: FirstTaskWithId(ts, j, key) ==> r == ts[j := Relink(ts[j], e)]
    ensures (forall j :: 0 <= j < |ts| ==> ts[j].id != key) ==> r == ts
  {
    r := ts;
    var j := 0;
    while j < |ts| && ts[j].id != key
      invariant 0 <= j <= |ts|
      invariant forall k :: 0 <= k < j ==> ts[k].id != key
    {
      j := j + 1;
    }
    if j < |ts| {
      assert FirstTaskWithId(ts, j, key);
      r := ts[j := Relink(ts[j], e)];
    }
  }

  /** The outer loop of the edit command: for each key of the edited employee's task
      index, in whatever order the hash table yields them, relink the first
      task with that ID. */
  method RepropagateBackReferences(tasks: seq<Task>, edited: Employee) returns (r: seq<Task>)
    ensures r == Repropagated(tasks, edited.tasks.Keys, edited)
  {
    r := tasks;
    var pending := edited.tasks.Keys;
    assert r == Repropagated(tasks, {}, edited);
    while pending != {}
      invariant pending <= edited.tasks.Keys
      invariant r == Repropagated(tasks, edited.tasks.Keys - pending, edited)
      decreases pending
    {
      NonEmptyHasKey(pending);
      var key :| key in pending;
      var done := edited.tasks.Keys - pending;
      var next := RelinkFirstWithId(r, key, edited);
      RepropagatedStep(tasks, done, key, edited, r, next);
      r := next;
      assert done + {key} == edited.tasks.Keys - (pending - {key});
      pending := pending - {key};
    }
  }

  /** A non-empty key set has a key to pick. */
  lemma NonEmptyHasKey(keys: set<int>)
    requires keys != {}
    ensures exists k :: k in keys
  {
    if forall k :: k !in keys {
      assert false;  // by extensionality `keys` would be empty
    }
  }

  /** The loop's effect task by task: the first task with each key of the
      edited employee's index now holds the edited employee under its ID,
      with the same keys as before when that ID was already linked; every
      other task is unchanged, so keys no task carries leave no trace. */
  lemma RepropagationTouchesExactlyLinkedTasks(tasks: seq<Task>, e: Employee)
    ensures var r := Repropagated(tasks, e.tasks.Keys, e);
            && (forall j :: 0 <= j < |tasks| && tasks[j].id in e.tasks && FirstTaskWithId(tasks, j, tasks[j].id) ==>
                  && e.id in r[j].employees && r[j].employees[e.id] == e
                  && r[j].employees.Keys == tasks[j].employees.Keys + {e.id}
                  && (forall k :: k in tasks[j].employees && k != e.id ==> r[j].employees[k] == tasks[j].employees[k]))
            && (forall j :: 0 <= j < |tasks| && tasks[j].id !in e.tasks ==> r[j] == tasks[j])
            && (forall j :: 0 <= j < |tasks| && !FirstTaskWithId(tasks, j, tasks[j].id) ==> r[j] == tasks[j])
  {
  }

  /** `execute`: resolve the employee in the filtered list, build the edited
      copy, reject a clash with a different existing employee, then swap the
      employee, show everything and relink the edited employee's tasks.
      `same` is `isSameEmployee` and `has` is `hasEmployee`, both left
      uninterpreted. */
  function Execute(
    s: Store, id: int, d: EditEmployeeDescriptor,
    shows: (string, Employee) -> bool,
    same: (Employee, Employee) -> bool,
    has: (seq<Employee>, Employee) -> bool): (out: Outcome)
    ensures out.result == Err(InvalidEmployeeId) <==>
              forall k :: 0 <= k < |s.employees| && Shown(s.employeeFilter, s.employees[k], shows) ==> s.employees[k].id != id
    ensures out.result.Err? ==> out.store == s
    ensures out.result.Ok? ==> out.result.value.EmployeeEdited?
    ensures out.result.Ok? <==>
              && FindEmployee(s, id, shows).Some?
              && var target := FindEmployee(s, id, shows).value;
                 var edited := CreateEditedEmployee(target, d);
                 same(target, edited) || !has(s.employees, edited)
    ensures FindEmployee(s, id, shows).Some? ==>
              var target := FindEmployee(s, id, shows).value;
              var edited := CreateEditedEmployee(target, d);
              && (out.result == Err(DuplicateEmployee) <==> !same(target, edited) && has(s.employees, edited))
              && (out.result.Ok? ==>
                    && out.result.value.employee == edited
                    && out.store.employeeFilter == ShowAll && out.store.taskFilter == ShowAll
                    && (exists i :: 0 <= i < |s.employees| && s.employees[i] == target && target !in s.employees[..i]
                                    && out.store.employees == s.employees[i := edited])
                    && out.store.tasks == Repropagated(s.tasks, edited.tasks.Keys, edited))
  {
    match FindEmployee(s, id, shows)
    case None => Outcome(Err(InvalidEmployeeId), s)
    case Some(target) =>
      var edited := CreateEditedEmployee(target, d);
      if !same(target, edited) && has(s.employees, edited) then
        Outcome(Err(DuplicateEmployee), s)
      else
        var swapped := ShowEverything(SetEmployee(s, target, edited));
        Outcome(Ok(EmployeeEdited(edited)), swapped.(tasks := Repropagated(swapped.tasks, edited.tasks.Keys, edited)))
  }

  /** After a successful edit, the first task with each ID in the edited
      employee's index holds the edited employee under that employee's ID,
      and every task that is not such a first linked task is unchanged. */
  lemma EditRelinksAssignedTasks(
    s: Store, id: int, d: EditEmployeeDescriptor,
    shows: (string, Employee) -> bool,
    same: (Employee, Employee) -> bool,
    has: (seq<Employee>, Employee) -> bool)
    ensures var out := Execute(s, id, d, shows, same, has);
            out.result.Ok? ==>
            var edited := out.result.value.employee;
            && edited.id == id && |out.store.tasks| == |s.tasks|
            && (forall j :: 0 <= j < |s.tasks| && FirstTaskWithId(s.tasks, j, s.tasks[j].id) && s.tasks[j].id in edited.tasks ==>
                  id in out.store.tasks[j].employees && out.store.tasks[j].employees[id] == edited)
            && (forall j :: 0 <= j < |s.tasks| && s.tasks[j].id !in edited.tasks ==> out.store.tasks[j] == s.tasks[j])
  {
  }

  /** Swapping the employee at `i` for a copy with the same ID and task
      keys, and relinking its tasks, keeps the link structure of a
      consistent store. */
  lemma SwapAndRelinkKeepLinks(s: Store, s': Store, i: int, edited: Employee)
    requires Consistent(s)
    requires 0 <= i < |s.employees| && edited.id == s.employees[i].id
    requires edited.tasks.Keys == s.employees[i].tasks.Keys
    requires s'.employees == s.employees[i := edited]
    requires s'.tasks == Repropagated(s.tasks, edited.tasks.Keys, edited)
    ensures SameLinks(s, s')
  {
  }

  /** With unique IDs, an edit that leaves the task index alone keeps the
      two sides mutually consistent: the relinked tasks already held the
      employee's ID, so only snapshots change. */
  lemma EditPreservesConsistency(
    s: Store, id: int, d: EditEmployeeDescriptor,
    shows: (string, Employee) -> bool,
    same: (Employee, Employee) -> bool,
    has: (seq<Employee>, Employee) -> bool)
    requires UniqueIds(s) && Consistent(s) && d.tasks.None?
    ensures UniqueIds(Execute(s, id, d, shows, same, has).store)
    ensures Consistent(Execute(s, id, d, shows, same, has).store)
  {
    var out := Execute(s, id, d, shows, same, has);
    if out.result.Ok? {
      var target := FindEmployee(s, id, shows).value;
      var edited := CreateEditedEmployee(target, d);
      var i :| 0 <= i < |s.employees| && s.employees[i] == target && out.store.employees == s.employees[i := edited];
      SwapAndRelinkKeepLinks(s, out.store, i, edited);
    } else {
      assert SameLinks(s, out.store);
    }
    SameLinksPreserve(s, out.store);
  }
}
