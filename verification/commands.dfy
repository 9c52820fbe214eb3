/** What a command hands back: its result and the store it leaves behind. */
module Commands {
  import opened Wrappers
  import opened Entities
  import opened Model

  /** The failures the two commands report instead of throwing `CommandException`. */
  datatype CommandError = InvalidTaskId | InvalidEmployeeId | DuplicateEmployee

  /** A successful command's feedback: a fixed confirmation, or the edited
      employee that the edit command's message is formatted from. */
  datatype Feedback = Confirmation(message: string) | EmployeeEdited(employee: Employee)

  datatype Outcome = Outcome(result: Result<Feedback, CommandError>, store: Store)
}
