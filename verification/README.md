# Task assignment and employee editing in TaskMasterPro

This project models the two commands of TaskMasterPro that keep the employee
list and the task list linked to each other: `assigntask`, which links one task
and one employee, and `edit`, which replaces an employee with an edited copy and
re-points the back-references its tasks hold.

The store (`Model.Store`) holds three things:

- the full, ordered employee list;
- the full, ordered task list;
- one filter per list, which decides the "currently shown" view.

An employee (`Entities.Employee`) carries its assigned-task index, a map from
task ID to a `Task` snapshot. A task (`Entities.Task`) carries its
assigned-employee index, a map from employee ID to an `Employee` snapshot.
Entities are values. A change produces a new value, and the store swaps it in
for the old one by position.

Each command is a pure function from a store to an `Outcome`. An outcome is a
result plus the store the command leaves behind. A result is either feedback
or one of the command errors `InvalidTaskId`, `InvalidEmployeeId` and
`DuplicateEmployee`. The edit command's loop over the edited employee's task
keys is also written as a method, `EditCommand.RepropagateBackReferences`. It
visits the keys in any order, like a hash table, and is proved to compute the
order-independent meaning `EditCommand.Repropagated`.

The modules follow the program:

- `Sequences`: the linear scans and by-value replacement used by both commands.
- `Entities`: employees, tasks, and the index operations `assignTask`, `assignEmployee` and `unassignEmployee`.
- `Model`: the store, its filters, `setEmployee`/`setTask`, and the consistency invariant.
- `Commands`: results and errors.
- `AssignTaskCommand` and `EditCommand`: the two commands.
- `Scenarios`: one worked example, start to finish.

Some collaborators are parameters of the commands, so every contract holds
whatever they do:

- `isSameEmployee` is the parameter `same`.
- `hasEmployee` is the parameter `has`.
- The meaning of a filter criterion is the parameter `shows`.

Three behaviours of the code worth knowing:

- The edit command resolves the employee in the *filtered* list, not the full
  one. An employee hidden by the current filter gives `InvalidEmployeeId`.
- The edit command does not reject a descriptor with no field set. That check
  belongs to the parser.
- The assign command resets both filters before it scans, and it does so even
  when it then fails.

## Model

| member | source | states |
|---|---|---|
| `Model.ShowEverything` | src/main/java/seedu/address/logic/commands/AssignTaskCommand.java:47-48 | both filters become show-all and neither list changes |
| `Model.TaskPosition` | src/main/java/seedu/address/logic/commands/AssignTaskCommand.java:55-60 | the scan returns the first position whose task has the ID, and nothing exactly when no task has it |
| `Model.EmployeePosition` | src/main/java/seedu/address/logic/commands/AssignTaskCommand.java:61-66 | the scan returns the first position whose employee has the ID, and nothing exactly when no employee has it |
| `Model.FilteredEmployees` | src/main/java/seedu/address/logic/commands/EditCommand.java:81 | the shown list holds exactly the store's employees that the current filter shows; with the show-all filter it is the whole store list |
| `Model.FilteredEmployeesInStoreOrder` | src/main/java/seedu/address/logic/commands/EditCommand.java:81 | the shown list keeps store order: of two shown employees, the earlier one also comes first in the store |
| `Model.SetEmployee` | src/main/java/seedu/address/logic/commands/EditCommand.java:105 | the first employee equal to the target is swapped for the new value; tasks and filters are unchanged |
| `Model.SetTask` | src/main/java/seedu/address/logic/commands/AssignTaskCommand.java:73 | the first task equal to the target is swapped for the new value; employees and filters are unchanged |
| `Entities.AssignTask` | src/main/java/seedu/address/logic/commands/AssignTaskCommand.java:69 | the employee's index gains the task's ID, mapped to that task; other entries and all other fields are kept |
| `Entities.AssignEmployee` | src/main/java/seedu/address/logic/commands/AssignTaskCommand.java:72 | the task's index gains the employee's ID, mapped to that employee; other entries and all other fields are kept |
| `Entities.UnassignEmployee` | src/main/java/seedu/address/logic/commands/EditCommand.java:115 | the key is dropped, the other entries are kept, and an absent key is a no-op |
| `Entities.Relink` | src/main/java/seedu/address/logic/commands/EditCommand.java:115-116 | unassigning and then reassigning the employee gives the same task as overwriting its entry |
| `AssignTaskCommand.Execute` | src/main/java/seedu/address/logic/commands/AssignTaskCommand.java:46-85 | see the list after this table |
| `AssignTaskCommand.SuccessLinksBothSides` | src/main/java/seedu/address/logic/commands/AssignTaskCommand.java:68-74 | see the list after this table |
| `AssignTaskCommand.LinkPreservesConsistency` | src/main/java/seedu/address/logic/commands/AssignTaskCommand.java:68-74 | in a consistent store with unique IDs, linking one employee/task pair on both sides keeps the store consistent |
| `AssignTaskCommand.AssignPreservesConsistency` | src/main/java/seedu/address/logic/commands/AssignTaskCommand.java:46-85 | from a consistent store with unique IDs, the command leaves a consistent store with unique IDs, whether it succeeds or fails |
| `AssignTaskCommand.AssignLinkedPair` | src/main/java/seedu/address/logic/commands/AssignTaskCommand.java:68-74 | assigning a pair that is already linked on both sides succeeds and changes only snapshots, not links |
| `AssignTaskCommand.ReassignAfterSuccess` | src/main/java/seedu/address/logic/commands/AssignTaskCommand.java:68-74 | after a successful assignment, the same assignment again succeeds the same way and keeps the links |
| `AssignTaskCommand.ReassignAfterFailure` | src/main/java/seedu/address/logic/commands/AssignTaskCommand.java:46-85 | after a failed assignment, the same assignment again fails with the same error and leaves the lists alone |
| `AssignTaskCommand.ReassignIsIdempotent` | src/main/java/seedu/address/logic/commands/AssignTaskCommand.java:68-74 | a second, identical assignment gives the same result and the same links as the first; only snapshots differ |
| `EditCommand.NoEdits` | src/main/java/seedu/address/logic/commands/EditCommand.java:181 | the descriptor with no field set edits nothing: applying it to any employee returns that employee |
| `EditCommand.Equals` | src/main/java/seedu/address/logic/commands/EditCommand.java:264-282 | two descriptors are equal exactly when they agree on all six fields, with absent equal only to absent |
| `EditCommand.Copy` | src/main/java/seedu/address/logic/commands/EditCommand.java:189-196 | the copy is `Equals` to its source, including the defensively copied tag set |
| `EditCommand.AnyFieldEdited` | src/main/java/seedu/address/logic/commands/EditCommand.java:203-205 | true exactly when the descriptor differs from the one with no field set |
| `EditCommand.CreateEditedEmployee` | src/main/java/seedu/address/logic/commands/EditCommand.java:130-143 | each of the six fields comes from the descriptor when present and from the original otherwise; the ID is always the original's |
| `EditCommand.EditedEmployeeProperties` | src/main/java/seedu/address/logic/commands/EditCommand.java:130-143 | a descriptor that edits nothing returns an employee equal to the original, and applying a descriptor twice equals applying it once |
| `EditCommand.FindEmployee` | src/main/java/seedu/address/logic/commands/EditCommand.java:80-89 | the result is the first employee that the filter shows and that has the ID; there is none exactly when no shown employee has it, so a hidden employee is never found |
| `EditCommand.Repropagated` | src/main/java/seedu/address/logic/commands/EditCommand.java:111-119 | the relinked task list has the same length and the same IDs; each task is either unchanged or has the edited employee assigned |
| `EditCommand.RepropagatedStepFound` | src/main/java/seedu/address/logic/commands/EditCommand.java:113-119 | handling a key that the task at a given position is the first to carry relinks exactly that task |
| `EditCommand.RepropagatedStepMissing` | src/main/java/seedu/address/logic/commands/EditCommand.java:113-119 | handling a key that no task carries changes nothing |
| `EditCommand.RepropagatedStep` | src/main/java/seedu/address/logic/commands/EditCommand.java:112-120 | handling one more key relinks exactly the first task with that ID, or nothing when no task has it |
| `EditCommand.RelinkFirstWithId` | src/main/java/seedu/address/logic/commands/EditCommand.java:113-119 | the first task with the key is relinked and the rest of the list is kept; with no such task the list is returned unchanged |
| `EditCommand.RepropagateBackReferences` | src/main/java/seedu/address/logic/commands/EditCommand.java:108-120 | visiting the keys in any order yields the same list, namely the order-independent reference `Repropagated` |
| `EditCommand.RepropagationTouchesExactlyLinkedTasks` | src/main/java/seedu/address/logic/commands/EditCommand.java:111-119 | see the list after this table |
| `EditCommand.Execute` | src/main/java/seedu/address/logic/commands/EditCommand.java:91-124 | see the list after this table |
| `EditCommand.EditRelinksAssignedTasks` | src/main/java/seedu/address/logic/commands/EditCommand.java:105-120 | after a successful edit, every first task with an ID in the edited index holds the edited employee under its ID, and tasks outside the index are unchanged |
| `EditCommand.SwapAndRelinkKeepLinks` | src/main/java/seedu/address/logic/commands/EditCommand.java:105-120 | in a consistent store, swapping in a copy with the same ID and task keys and then relinking changes no IDs and no index keys |
| `EditCommand.EditPreservesConsistency` | src/main/java/seedu/address/logic/commands/EditCommand.java:91-124 | in a consistent store with unique IDs, an edit that leaves the task index alone keeps the store consistent with unique IDs |
| `Scenarios.AssignScenario` | src/main/java/seedu/address/logic/commands/AssignTaskCommand.java:46-85 | with one employee and one task, `assigntask 1 1` links both sides and returns "Assign task success"; then `assigntask 99 1` fails with the task error and changes nothing |
| `Scenarios.EditScenario` | src/main/java/seedu/address/logic/commands/EditCommand.java:91-124 | after that assignment, editing the employee's phone to 999 succeeds, and the task's back-reference then carries phone 999 |

Details for the rows marked "see the list after this table":

- `AssignTaskCommand.Execute`:
  - The command always resets both filters.
  - It fails with `InvalidTaskId` exactly when no task has the ID. This holds even when the employee is also missing.
  - It fails with `InvalidEmployeeId` exactly when the task exists but no employee has the ID.
  - It succeeds exactly when both exist, with the message "Assign task success".
  - A failure changes neither list.
  - On success, the first employee with the ID gets `assignTask(task)` and the first task with the ID gets `assignEmployee(employee)`. Nothing else changes.
- `AssignTaskCommand.SuccessLinksBothSides`:
  - The command succeeds.
  - The employee's index holds the task under its ID.
  - The task's index holds, under the employee's ID, the employee snapshot from *before* the assignment.
  - Every other employee and task is unchanged.
- `EditCommand.RepropagationTouchesExactlyLinkedTasks`:
  - The first task with each key holds the edited employee under its ID. Its other entries are kept, and its keys gain only that ID.
  - Tasks whose IDs are not keys are unchanged.
  - Later tasks that repeat an ID are unchanged.
- `EditCommand.Execute`:
  - It fails with `InvalidEmployeeId` exactly when no shown employee has the ID.
  - It fails with `DuplicateEmployee` exactly when the edited copy is not the same employee as the target and the store already has it.
  - It succeeds exactly when a shown employee has the ID and the edited copy is either the same employee as the target or not already in the store.
  - On success, the result carries the edited copy.
  - Any failure returns the store unchanged.
  - On success, the edited copy replaces the target and both filters show all.
  - On success, the task list becomes `Repropagated` over the edited copy's task keys.

## Left out

- Parsing and presentation are not modelled: usage strings, `toString`, `Messages.format`, the `CommandResult` display flags and the command-level `equals`. The edit command's success carries the edited employee; the text formatted from it is not modelled.
- `MESSAGE_NOT_EDITED` is left out. `execute` never checks it; the parser does.
- Validation of `Name`, `Phone`, `Email`, `Address` and `Tag` is left out. They are opaque string wrappers. A task's descriptive fields are one opaque `description`.
- `isSameEmployee`, `hasEmployee` and the filter predicates are not defined. Their definitions are not part of this model, so they are parameters.
- The exceptions `setEmployee`/`setTask` raise for a missing target or a duplicate are left out. The commands only pass targets taken from the list. The edit command checks duplicates itself first.
- The assign command (AssignTaskCommand.java:70 and :73) makes no such duplicate check. The model assumes that swapping in `assignTask(task)` and `assignEmployee(employee)` never raises the duplicate exception. Only the assigned-index field changes, so the lists' identity checks are expected to treat the new value as the same entity as the old one. Those checks are not part of this model.
- Java aliasing is not modelled. Line 115 changes a task's index in place. In Java, every other holder of that same `Task` object sees the change, including task snapshots inside employees' indices. The model replaces the task in the task list only.
- Hash table iteration order is left open. The loop method picks keys in any order, and its result is proved not to depend on that order.
- Integer width is not modelled. IDs are Java `int`s that are only compared, never computed with, so unbounded integers behave the same. The model assumes `Task.getTaskId()` returns a primitive `int`, so line 114 compares values.
- Unassign, delete and add commands are outside this model.
- `AssignTaskCommand.AssignPreservesConsistency`: assumes unique IDs in each list. The store that guarantees them is not part of this model.
- `EditCommand.EditPreservesConsistency`: assumes unique IDs and a descriptor that does not replace the task index. The loop relinks only the keys of the new index, so a replaced index could leave other tasks pointing at the employee.
