/**
 * The team-remove command: takes the persons at the given displayed indices out of the
 * teams they are in. A first pass resolves every index and refuses the whole batch if any
 * of those persons is in no team; a second pass then removes the persons one by one.
 */
module RemoveFromTeam {
  import opened AddressBook
  import opened Commands
  import opened TeamCommandUtil

  const CommandWord: string := "team-remove"

  const MessageUsage: string :=
    CommandWord + ": Removes a person from a team. "
    + "Parameters: INDEX(one-based positive integer)\n"
    + "Example: " + CommandWord

  /** "Person %s removed from team %s" */
  function SuccessMessage(person: string, teamName: string): string {
    "Person " + person + " removed from team " + teamName
  }

  /** "Person %s is currently not in a team" */
  function CannotRemoveFromNoneMessage(email: string): string {
    "Person " + email + " is currently not in a team"
  }

  /** The person that replaces p once p has left its team. */
  function Unassigned(p: Person): Person {
    Person(p.name, p.phone, p.email, p.github, NoneTeamName)
  }

  /** What the validation pass has gathered: whether some target is in no team, and the messages. */
  datatype Scan = Scan(isInvalid: bool, failure: string)

  /** The validation pass over idx, one index at a time from the front; the book is only read. */
  function ValidationPass(b: Book, idx: seq<Index>): Result<Scan>
    decreases |idx|
  {
    if idx == [] then Ok(Scan(false, ""))
    else
      match ValidationPass(b, idx[..|idx| - 1])
      case Err(e) => Err(e)
      case Ok(s) =>
        match TargetPerson(b, idx[|idx| - 1])
        case Err(e) => Err(e)
        case Ok(p) =>
          if IsNoneTeamName(p.teamName) then Ok(Scan(true, s.failure + CannotRemoveFromNoneMessage(p.email)))
          else Ok(s)
  }

  /** Once a prefix of the indices fails to resolve, the whole validation pass fails with that error. */
  lemma {:induction false} ValidationPrefixFails(b: Book, idx: seq<Index>, k: nat)
    requires k <= |idx| && ValidationPass(b, idx[..k]).Err?
    ensures ValidationPass(b, idx) == ValidationPass(b, idx[..k])
    decreases |idx| - k
  {
    if k < |idx| {
      assert idx[..k + 1][..k] == idx[..k];
      ValidationPrefixFails(b, idx, k + 1);
    } else {
      assert idx[..k] == idx;
    }
  }

  /** A book after some removals, with the command's outcome so far. */
  datatype Run = Run(book: Book, outcome: Result<string>)

  /**
   * One iteration of the removal pass: resolve the index again, check the team and the
   * membership, then remove the person from the team, replace it by its unassigned copy
   * and display everyone. Gives the new book and the line of the success message.
   */
  function RemovalStep(b: Book, index: Index, format: Person -> string): Result<(Book, string)> {
    match TargetPerson(b, index)
    case Err(e) => Err(e)
    case Ok(p) =>
      match TeamExists(b, p.teamName)
      case Err(e) => Err(e)
      case Ok(teamName) =>
        match PersonMembership(b, teamName, p)
        case Fail(e) => Err(e)
        case Pass =>
          var updated := Unassigned(p);
          var teams := b.teams[teamName := b.teams[teamName] - {p}];
          var persons := b.persons[IndexOf(b.persons, p) := updated];
          Ok((Book(persons, teams, ShowAll), SuccessMessage(format(updated), teamName) + "\n"))
  }

  /**
   * The removal pass over idx with success text acc so far. A failing step ends the run
   * with the book as the earlier steps left it.
   */
  function RemovalPass(b: Book, idx: seq<Index>, format: Person -> string, acc: string): Run
    decreases |idx|
  {
    if idx == [] then Run(b, Ok(acc))
    else
      match RemovalStep(b, idx[0], format)
      case Err(e) => Run(b, Err(e))
      case Ok((b', line)) => RemovalPass(b', idx[1..], format, acc + line)
  }

  /** After a successful step for idx[k], the pass from k goes on from k + 1 on the new book. */
  lemma RemovalPassUnfold(b: Book, idx: seq<Index>, k: nat, format: Person -> string, acc: string,
                          b': Book, line: string)
    requires k < |idx| && RemovalStep(b, idx[k], format) == Ok((b', line))
    ensures RemovalPass(b, idx[k..], format, acc) == RemovalPass(b', idx[k + 1..], format, acc + line)
  {
    assert idx[k..][0] == idx[k] && idx[k..][1..] == idx[k + 1..];
  }

  /** A failing step for idx[k] ends the pass from k with that error and the book unchanged. */
  lemma RemovalPassStops(b: Book, idx: seq<Index>, k: nat, format: Person -> string, acc: string)
    requires k < |idx| && RemovalStep(b, idx[k], format).Err?
    ensures RemovalPass(b, idx[k..], format, acc) == Run(b, Err(RemovalStep(b, idx[k], format).error))
  {
    assert idx[k..][0] == idx[k];
  }

  /** What executing team-remove on idx does to book b. */
  function Execution(b: Book, idx: seq<Index>, format: Person -> string): Run {
    match ValidationPass(b, idx)
    case Err(e) => Run(b, Err(e))
    case Ok(scan) =>
      if scan.isInvalid then Run(b, Err(NotInAnyTeam(scan.failure)))
      else RemovalPass(b, idx, format, "")
  }

  class RemoveFromTeamCommand {
    const studentIndices: seq<Index>

    constructor (studentIndices: seq<Index>)
      ensures this.studentIndices == studentIndices
    {
      this.studentIndices := studentIndices;
    }

    /**
     * Runs the command on model; format renders a person for the success message.
     * The new state and the result are those of Execution.
     */
    method Execute(model: Model, format: Person -> string) returns (r: Result<string>)
      modifies model
      ensures Run(model.Snapshot(), r) == Execution(old(model.Snapshot()), studentIndices, format)
    {
      var scan := CheckTargets(model);
      if scan.Err? {
        return Err(scan.error);
      }
      if scan.value.isInvalid {
        return Err(NotInAnyTeam(scan.value.failure));
      }
      r := RemoveTargets(model, format);
    }

    /**
     * The first loop of execute: resolves every index and collects one "not in a team"
     * message per target that is in no team. Reads the model and changes nothing.
     */
    method CheckTargets(model: Model) returns (r: Result<Scan>)
      ensures r == ValidationPass(model.Snapshot(), studentIndices)
    {
      var idx := studentIndices;
      var failureBuilder := "";
      var isInvalid := false;

      for k := 0 to |idx|
        invariant ValidationPass(model.Snapshot(), idx[..k]) == Ok(Scan(isInvalid, failureBuilder))
      {
        assert idx[..k + 1][..k] == idx[..k];
        var target := GetTargetPerson(model, idx[k]);
        if target.Err? {
          ValidationPrefixFails(model.Snapshot(), idx, k + 1);
          return Err(target.error);
        }
        var targetPerson := target.value;
        if IsNoneTeamName(targetPerson.teamName) {
          isInvalid := true;
          failureBuilder := failureBuilder + CannotRemoveFromNoneMessage(targetPerson.email);
        }
      }
      assert idx[..|idx|] == idx;
      r := Ok(Scan(isInvalid, failureBuilder));
    }

    /**
     * The second loop of execute: removes the target of each index in turn, resolving
     * every index against the displayed list as the earlier removals left it.
     */
    method RemoveTargets(model: Model, format: Person -> string) returns (r: Result<string>)
      modifies model
      ensures Run(model.Snapshot(), r) == RemovalPass(old(model.Snapshot()), studentIndices, format, "")
    {
      var idx := studentIndices;
      var successMessage := "";
      for k := 0 to |idx|
        invariant RemovalPass(model.Snapshot(), idx[k..], format, successMessage)
                  == RemovalPass(old(model.Snapshot()), idx, format, "")
      {
        ghost var before, accBefore := model.Snapshot(), successMessage;
        var target := GetTargetPerson(model, idx[k]);
        if target.Err? {
          RemovalPassStops(before, idx, k, format, accBefore);
          return Err(target.error);
        }
        var targetPerson := target.value;
        var teamName := targetPerson.teamName;
        var team := ValidateTeamExists(model, teamName);
        if team.Err? {
          RemovalPassStops(before, idx, k, format, accBefore);
          return Err(team.error);
        }
        var membership := ValidatePersonMembership(model, teamName, targetPerson);
        if membership.Fail? {
          RemovalPassStops(before, idx, k, format, accBefore);
          return Err(membership.error);
        }

        model.RemovePersonFromTeam(targetPerson, teamName);
        var updatedPerson := Person(targetPerson.name, targetPerson.phone, targetPerson.email,
                                    targetPerson.github, NoneTeamName);
        model.SetPerson(targetPerson, updatedPerson);
        model.UpdateFilteredPersonList(ShowAll);
        var line := SuccessMessage(format(updatedPerson), teamName) + "\n";
        successMessage := successMessage + line;

        ghost var after := model.Snapshot();
        assert after == Book(before.persons[IndexOf(before.persons, targetPerson) := updatedPerson],
                             before.teams[teamName := before.teams[teamName] - {targetPerson}], ShowAll);
        assert RemovalStep(before, idx[k], format) == Ok((after, line));
        RemovalPassUnfold(before, idx, k, format, accBefore, after, line);
      }
      assert idx[|idx|..] == [];
      r := Ok(successMessage);
    }

    /** Another object equals this command iff it is a team-remove command with the same indices. */
    predicate Equals(other: object?) {
      other == this
      || (other != null && other is RemoveFromTeamCommand
          && (other as RemoveFromTeamCommand).studentIndices == studentIndices)
    }
  }
}
