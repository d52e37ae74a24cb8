/** Results of commands: a value on success or the CommandException a command throws. */
module Commands {
  import opened AddressBook

  /** The failures a team command can raise, each carrying what its message is built from. */
  datatype CommandError =
    | InvalidPersonIndex                                // index past the end of the displayed list
    | NotInAnyTeam(message: string)                     // batch precondition of RemoveFromTeamCommand
    | TeamNotFound(teamName: string)                    // no team of that name in the model
    | PersonNotInTeam(person: Person, teamName: string) // the team does not list the person

  datatype Result<T> = Ok(value: T) | Err(error: CommandError)

  datatype Outcome = Pass | Fail(error: CommandError)
}
