/**
 * The checks that team commands share: resolving a displayed index to a person, finding
 * a team by name, and confirming that a team lists a person.
 */
module TeamCommandUtil {
  import opened AddressBook
  import opened Commands

  /** The person displayed at a one-based index, or InvalidPersonIndex past the end. */
  function TargetPerson(b: Book, index: Index): Result<Person> {
    if index <= |View(b)| then Ok(View(b)[index - 1]) else Err(InvalidPersonIndex)
  }

  /** The name of the team, or TeamNotFound if the model has no team of that name. */
  function TeamExists(b: Book, teamName: string): Result<string> {
    if teamName in b.teams then Ok(teamName) else Err(TeamNotFound(teamName))
  }

  /** Pass if the team lists the person, PersonNotInTeam otherwise. */
  function PersonMembership(b: Book, teamName: string, person: Person): Outcome
    requires teamName in b.teams
  {
    if person in b.teams[teamName] then Pass else Fail(PersonNotInTeam(person, teamName))
  }

  method GetTargetPerson(model: Model, index: Index) returns (r: Result<Person>)
    ensures r == TargetPerson(model.Snapshot(), index)
    ensures r.Ok? <==> index <= |model.FilteredPersonList()|
    ensures r.Ok? ==> r.value == model.FilteredPersonList()[index - 1] && r.value in model.persons
    ensures r.Err? ==> r.error == InvalidPersonIndex
  {
    r := TargetPerson(model.Snapshot(), index);
  }

  method ValidateTeamExists(model: Model, teamName: string) returns (r: Result<string>)
    ensures r == TeamExists(model.Snapshot(), teamName)
    ensures r.Ok? <==> teamName in model.teams
    ensures r.Ok? ==> r.value == teamName
    ensures r.Err? ==> r.error == TeamNotFound(teamName)
  {
    r := TeamExists(model.Snapshot(), teamName);
  }

  method ValidatePersonMembership(model: Model, teamName: string, person: Person) returns (r: Outcome)
    requires teamName in model.teams
    ensures r == PersonMembership(model.Snapshot(), teamName, person)
    ensures r.Pass? <==> person in model.teams[teamName]
    ensures r.Fail? ==> r.error == PersonNotInTeam(person, teamName)
  {
    r := PersonMembership(model.Snapshot(), teamName, person);
  }
}
