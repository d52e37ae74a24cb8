/**
 * The address book the team commands work on: persons as immutable values, teams as
 * named member sets, and the filter that decides which persons are displayed.
 */
module AddressBook {

  /** A one-based index into the displayed person list. */
  type Index = i: nat | 1 <= i witness 1

  /** The reserved team name meaning "not in any team" (Team.NONE). */
  const NoneTeamName: string := "NONE"

  predicate IsNoneTeamName(teamName: string) {
    teamName == NoneTeamName
  }

  /** An immutable person record; equality is on all fields. */
  datatype Person = Person(name: string, phone: string, email: string, github: string, teamName: string)

  /** Everything about a person except the team they are in. */
  function Identity(p: Person): (string, string, string, string) {
    (p.name, p.phone, p.email, p.github)
  }

  /** The filter that displays every person (PREDICATE_SHOW_ALL_PERSONS). */
  const ShowAll: Person -> bool := _ => true

  /** A snapshot of the model's state. */
  datatype Book = Book(persons: seq<Person>, teams: map<string, set<Person>>, filter: Person -> bool)

  /** The persons of s that f accepts, in their order in s. */
  function Filter(s: seq<Person>, f: Person -> bool): (r: seq<Person>)
    ensures |r| <= |s|
    ensures forall x :: x in r ==> x in s && f(x)
  {
    if s == [] then [] else (if f(s[0]) then [s[0]] else []) + Filter(s[1..], f)
  }

  /** The displayed person list, against which one-based indices are resolved. */
  function View(b: Book): seq<Person> {
    Filter(b.persons, b.filter)
  }

  /** The position of the first occurrence of x in s. */
  function IndexOf(s: seq<Person>, x: Person): (r: nat)
    requires x in s
    ensures r < |s| && s[r] == x
    ensures forall j :: 0 <= j < r ==> s[j] != x
  {
    if s[0] == x then 0 else 1 + IndexOf(s[1..], x)
  }

  predicate DistinctIdentities(s: seq<Person>) {
    forall i, j :: 0 <= i < j < |s| ==> Identity(s[i]) != Identity(s[j])
  }

  /**
   * The model's consistency: no two persons differ only in their team, a person with a
   * team is a member of that team, and every member of a team is a person of the book
   * whose team name is that team.
   */
  ghost predicate Valid(b: Book) {
    && DistinctIdentities(b.persons)
    && (forall i :: 0 <= i < |b.persons| && !IsNoneTeamName(b.persons[i].teamName) ==>
          b.persons[i].teamName in b.teams && b.persons[i] in b.teams[b.persons[i].teamName])
    && (forall t, q :: t in b.teams && q in b.teams[t] ==> q in b.persons && q.teamName == t)
  }

  /** The mutable model a command receives. */
  class Model {
    var persons: seq<Person>
    var teams: map<string, set<Person>>
    var filter: Person -> bool

    function Snapshot(): Book
      reads this
    {
      Book(persons, teams, filter)
    }

    constructor (b: Book)
      ensures Snapshot() == b
    {
      persons, teams, filter := b.persons, b.teams, b.filter;
    }

    /** The displayed persons. */
    function FilteredPersonList(): seq<Person>
      reads this
    {
      View(Snapshot())
    }

    /** Replaces target, which must be in the book, by edited at the same position. */
    method SetPerson(target: Person, edited: Person)
      requires target in persons
      modifies this
      ensures persons == old(persons)[IndexOf(old(persons), target) := edited]
      ensures |persons| == |old(persons)|
      ensures persons[IndexOf(old(persons), target)] == edited
      ensures forall j :: 0 <= j < |persons| && j != IndexOf(old(persons), target) ==>
                persons[j] == old(persons)[j]
      ensures teams == old(teams) && filter == old(filter)
    {
      persons := persons[IndexOf(persons, target) := edited];
    }

    /** Removes p from the member set of the team named teamName, and from no other. */
    method RemovePersonFromTeam(p: Person, teamName: string)
      requires teamName in teams
      modifies this
      ensures teams == old(teams)[teamName := old(teams)[teamName] - {p}]
      ensures teams.Keys == old(teams).Keys
      ensures teams[teamName] == old(teams)[teamName] - {p}
      ensures forall t :: t in teams && t != teamName ==> teams[t] == old(teams)[t]
      ensures persons == old(persons) && filter == old(filter)
    {
      teams := teams[teamName := teams[teamName] - {p}];
    }

    /** Changes which persons are displayed. */
    method UpdateFilteredPersonList(shown: Person -> bool)
      modifies this
      ensures filter == shown
      ensures persons == old(persons) && teams == old(teams)
    {
      filter := shown;
    }
  }
}
