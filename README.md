# Team removal in the address book

A Dafny model of the `team-remove` command of a command-driven address book. The
command takes an ordered list of one-based indices into the displayed person list.
For each index it takes the displayed person out of the team that person is in.

The command works in two passes over the indices:

1. The validation pass resolves every index and collects one
   "Person <email> is currently not in a team" message for each target whose team name
   is the "none" sentinel. If any such target exists, the whole command fails with the
   messages joined with no separator, and nothing has been changed.
2. The removal pass resolves each index again, then checks that the team exists and
   that it lists the person. It removes the person from the team's member set and
   replaces the person by a copy whose team is the sentinel. It displays every person
   again and appends the line "Person <formatted person> removed from team <team>\n".
   A failed check here ends the command, and the removals already made stay.

Layout:

- `commands.dfy` (module `Commands`): the command's errors and the `Result`/`Outcome` wrappers.
- `address_book.dfy` (module `AddressBook`): the `Person` record and the "none" team name.
  It also holds the `Book` state (persons, teams as name → member set, display filter),
  the displayed list `View` and the consistency predicate `Valid`. The mutable `Model`
  class has the three mutators the command calls.
- `team_command_util.dfy` (module `TeamCommandUtil`): the shared checks. These are index
  resolution, team existence and membership, each as a specification function and as a
  read-only method on the model.
- `remove_from_team.dfy` (module `RemoveFromTeam`): the message texts and the
  specification functions of the two passes (`ValidationPass`, `RemovalStep`,
  `RemovalPass`, `Execution`). It also holds the class `RemoveFromTeamCommand`, whose
  `Execute` runs the two loops on a `Model` and is proved equal to `Execution`, and its
  `Equals`.
- `remove_from_team_lemmas.dfy` (module `RemoveFromTeamLemmas`): the properties of the
  command, proved over the specification functions.

The `Model`, `TeamCommandUtil`, `Team`, `Person`, `Index` and `Messages` classes are not
part of this model. Only their use in the command is modelled. Their behaviour is
specified by the contracts below:

- resolving an index fails past the end of the displayed list;
- the team lookup fails when no team has that name;
- the membership check fails when the team does not list the person;
- `setPerson` replaces the first occurrence of the person, in place;
- removing a person from a team changes that one member set.

`Messages.format` is a parameter `format: Person -> string`. `Team.NONE` is taken to be
the string "NONE", and `Team.isNoneTeamName` to be equality with it.

## Model

| member | source | states |
|---|---|---|
| AddressBook.Filter | src/main/java/seedu/address/logic/commands/RemoveFromTeamCommand.java:51 | The displayed list is no longer than the person list and holds only persons of the book that the filter accepts |
| AddressBook.IndexOf | src/main/java/seedu/address/logic/commands/RemoveFromTeamCommand.java:79 | The position `setPerson` replaces is the first occurrence of the target |
| AddressBook.Model.SetPerson | src/main/java/seedu/address/logic/commands/RemoveFromTeamCommand.java:79 | Replaces the first occurrence of the target by the edited person. Every other position, the teams and the filter are unchanged |
| AddressBook.Model.RemovePersonFromTeam | src/main/java/seedu/address/logic/commands/RemoveFromTeamCommand.java:70 | The named team's member set loses the person. Every other team, the persons and the filter are unchanged |
| AddressBook.Model.UpdateFilteredPersonList | src/main/java/seedu/address/logic/commands/RemoveFromTeamCommand.java:80 | The filter becomes the given one, and persons and teams are unchanged |
| TeamCommandUtil.GetTargetPerson | src/main/java/seedu/address/logic/commands/RemoveFromTeamCommand.java:51 | Succeeds exactly when the index is within the displayed list, giving the displayed person there (a person of the book); fails with InvalidPersonIndex otherwise |
| TeamCommandUtil.ValidateTeamExists | src/main/java/seedu/address/logic/commands/RemoveFromTeamCommand.java:67 | Succeeds exactly when the model has a team of that name; fails with TeamNotFound otherwise |
| TeamCommandUtil.ValidatePersonMembership | src/main/java/seedu/address/logic/commands/RemoveFromTeamCommand.java:68 | Passes exactly when the team lists the person; fails with PersonNotInTeam otherwise |
| RemoveFromTeam.RemoveFromTeamCommand.constructor | src/main/java/seedu/address/logic/commands/RemoveFromTeamCommand.java:37-40 | The command keeps the index list it is given |
| RemoveFromTeam.RemoveFromTeamCommand.CheckTargets | src/main/java/seedu/address/logic/commands/RemoveFromTeamCommand.java:50-58 | The first loop only reads the model and yields the validation pass's verdict: the invalid flag and the "not in a team" messages |
| RemoveFromTeam.RemoveFromTeamCommand.RemoveTargets | src/main/java/seedu/address/logic/commands/RemoveFromTeamCommand.java:64-85 | The second loop leaves the model, and returns the result, that the removal pass gives from the model it started on |
| RemoveFromTeam.RemoveFromTeamCommand.Execute | src/main/java/seedu/address/logic/commands/RemoveFromTeamCommand.java:43-86 | The model's new state and the result are exactly those of `Execution` on the old state |
| RemoveFromTeam.ValidationPrefixFails | src/main/java/seedu/address/logic/commands/RemoveFromTeamCommand.java:50-51 | Once an index fails to resolve, the validation pass fails with that error whatever follows |
| RemoveFromTeam.RemovalPassUnfold | src/main/java/seedu/address/logic/commands/RemoveFromTeamCommand.java:64-83 | After a successful step the removal pass continues with the next index on the new book, with the line appended |
| RemoveFromTeam.RemovalPassStops | src/main/java/seedu/address/logic/commands/RemoveFromTeamCommand.java:65-68 | A failing step ends the removal pass with its error and the book as it is |
| RemoveFromTeamLemmas.FilterShowAll | src/main/java/seedu/address/logic/commands/RemoveFromTeamCommand.java:80 | With the show-all filter the displayed list is the whole person list, in order |
| RemoveFromTeamLemmas.FilterKeepsAccepted | src/main/java/seedu/address/logic/commands/RemoveFromTeamCommand.java:51 | Every person the filter accepts is displayed |
| RemoveFromTeamLemmas.IndexOfDistinct | src/main/java/seedu/address/logic/commands/RemoveFromTeamCommand.java:79 | In a consistent book `setPerson` replaces the target at its own position |
| RemoveFromTeamLemmas.NotInTeamMessagesAppend | src/main/java/seedu/address/logic/commands/RemoveFromTeamCommand.java:56 | The failure text of x + y is that of x followed directly by that of y (no separator) |
| RemoveFromTeamLemmas.NotInTeamMessagesEmpty | src/main/java/seedu/address/logic/commands/RemoveFromTeamCommand.java:54-57 | The failure text is empty exactly when no target is in the "none" team |
| RemoveFromTeamLemmas.ValidationPassCharacterized | src/main/java/seedu/address/logic/commands/RemoveFromTeamCommand.java:50-58 | The validation pass fails (InvalidPersonIndex) iff some index is past the displayed list. Otherwise its flag is "some target is unassigned" and its text is one message per unassigned target, in index order |
| RemoveFromTeamLemmas.RemovalStepFailures | src/main/java/seedu/address/logic/commands/RemoveFromTeamCommand.java:65-68 | A removal step fails exactly for a bad index, a missing team, or a team that does not list the person, with the matching error |
| RemoveFromTeamLemmas.RemovalStepEffect | src/main/java/seedu/address/logic/commands/RemoveFromTeamCommand.java:65-82 | A successful step replaces only the target, by a copy with the same name, phone, email and github and the "none" team. It removes the target from its own team's members only, displays everyone, and yields "Person <format(copy)> removed from team <old team>\n" |
| RemoveFromTeamLemmas.StepPreservesValid | src/main/java/seedu/address/logic/commands/RemoveFromTeamCommand.java:70-80 | A successful step keeps the book consistent (identities distinct, assigned persons listed by their team, members carry their team's name) |
| RemoveFromTeamLemmas.RemovalPassSplit | src/main/java/seedu/address/logic/commands/RemoveFromTeamCommand.java:64-83 | The removal pass over x + y is the pass over x followed, if it succeeded, by the pass over y on the resulting book |
| RemoveFromTeamLemmas.RemovalPassKeepsEarlierRemovals | src/main/java/seedu/address/logic/commands/RemoveFromTeamCommand.java:64-70 | When a step fails after earlier steps succeeded, the command fails and the book keeps the earlier removals |
| RemoveFromTeamLemmas.RemovalPassIndicesResolve | src/main/java/seedu/address/logic/commands/RemoveFromTeamCommand.java:65-80 | If every index resolved in the validation pass, the removal pass can only fail with TeamNotFound or PersonNotInTeam, because each removal displays everyone and the list keeps its length |
| RemoveFromTeamLemmas.RemovalPassPreservesValid | src/main/java/seedu/address/logic/commands/RemoveFromTeamCommand.java:64-83 | The removal pass keeps the book consistent, whether it succeeds or stops early |
| RemoveFromTeamLemmas.ExecutionRefusesBatch | src/main/java/seedu/address/logic/commands/RemoveFromTeamCommand.java:50-64 | A bad index gives InvalidPersonIndex with the book unchanged. Any unassigned target gives NotInAnyTeam with the concatenated messages and the book unchanged (persons, teams and filter). Otherwise the command is the removal pass |
| RemoveFromTeamLemmas.ExecutionNotInAnyTeamIff | src/main/java/seedu/address/logic/commands/RemoveFromTeamCommand.java:54-62 | The command fails with NotInAnyTeam exactly when every index resolves and some target is unassigned |
| RemoveFromTeamLemmas.ExecutionInvalidIndexIff | src/main/java/seedu/address/logic/commands/RemoveFromTeamCommand.java:50-65 | The command fails with InvalidPersonIndex exactly when some index is past the displayed list |
| RemoveFromTeamLemmas.ExecutionPreservesValid | src/main/java/seedu/address/logic/commands/RemoveFromTeamCommand.java:43-86 | The command keeps a consistent book consistent, on every outcome |
| RemoveFromTeamLemmas.RemovalStepOfAssigned | src/main/java/seedu/address/logic/commands/RemoveFromTeamCommand.java:65-82 | With everyone displayed, the step for an assigned person of a consistent book succeeds and replaces that person at its own position |
| RemoveFromTeamLemmas.RemovalPassRemovesAll | src/main/java/seedu/address/logic/commands/RemoveFromTeamCommand.java:64-85 | With everyone displayed and distinct assigned targets, the pass succeeds. It unassigns exactly the targets, takes each out of its team, and yields one success line per index in order |
| RemoveFromTeamLemmas.BatchRemovalSucceeds | src/main/java/seedu/address/logic/commands/RemoveFromTeamCommand.java:43-86 | With everyone displayed and distinct assigned targets, a successful batch replaces each target by its unassigned copy and every other person stays. The list keeps its length, each target leaves its old team, the book stays consistent, and the result has one line per index in order |
| RemoveFromTeamLemmas.RemovalPassLines | src/main/java/seedu/address/logic/commands/RemoveFromTeamCommand.java:64-83 | A pass that succeeds removes one person per index and its text is the success line of each removed person, in index order, after the text so far |
| RemoveFromTeamLemmas.RemovalPassOnlyShrinks | src/main/java/seedu/address/logic/commands/RemoveFromTeamCommand.java:64-83 | Whatever its outcome, the pass keeps the list length, every person already in no team, and the team names, and member sets only lose members |
| RemoveFromTeamLemmas.RemovalPassRemovedFacts | src/main/java/seedu/address/logic/commands/RemoveFromTeamCommand.java:64-83 | Every person a successful pass removed was a member of its team at the start, is not one at the end, and its unassigned copy is in the list |
| RemoveFromTeamLemmas.FilteredBatchIsPass | src/main/java/seedu/address/logic/commands/RemoveFromTeamCommand.java:50-62 | A batch that succeeds had every index on the displayed list and no target in the "none" team, so validation changed nothing and the removals ran |
| RemoveFromTeamLemmas.FilteredBatchFirstStep | src/main/java/seedu/address/logic/commands/RemoveFromTeamCommand.java:64-80 | In a successful pass the first person removed is the displayed person at the first index, and the view ends showing everyone |
| RemoveFromTeamLemmas.RemovalPassTeams | src/main/java/seedu/address/logic/commands/RemoveFromTeamCommand.java:67-70 | After a successful pass, each team has lost exactly the removed persons whose team it is, and no team changed otherwise |
| RemoveFromTeamLemmas.RemovalPassPersons | src/main/java/seedu/address/logic/commands/RemoveFromTeamCommand.java:72-79 | After a successful pass, each list entry holds its former person or that person's unassigned copy, and the former person wherever that person was not removed |
| RemoveFromTeamLemmas.FilteredBatchSucceeds | src/main/java/seedu/address/logic/commands/RemoveFromTeamCommand.java:43-86 | Under any filter, a successful batch on a consistent book removes one person per index, the first being the displayed person at the first index. The text is one success line per index in order. Each removed person was in its team and no longer is, and its unassigned copy is listed. Each team loses exactly its removed members, every other team member stays, and every list entry whose person was not removed is unchanged. The list keeps its length, the view shows everyone, and the book stays consistent |
| RemoveFromTeamLemmas.HiddenUnassignedBookValid | src/main/java/seedu/address/logic/commands/RemoveFromTeamCommand.java:51 | The example book (Ann unassigned and hidden, Ben and Cy in team T) is consistent and displays Ben, Cy |
| RemoveFromTeamLemmas.ReResolutionAfterReset | src/main/java/seedu/address/logic/commands/RemoveFromTeamCommand.java:64-80 | Removing displayed 1 and 2 passes validation. After the first removal the view shows everyone, so index 2 names Ben's unassigned copy: TeamNotFound, with Ben already removed and Cy untouched |
| RemoveFromTeamLemmas.RepeatedIndexFailsAfterRemoval | src/main/java/seedu/address/logic/commands/RemoveFromTeamCommand.java:64-70 | The same index twice: the first removal is made, then the second fails with TeamNotFound and the first stays |
| RemoveFromTeamLemmas.EqualsIffSameIndices | src/main/java/seedu/address/logic/commands/RemoveFromTeamCommand.java:88-101 | Two commands are equal exactly when their index lists are equal |
| RemoveFromTeamLemmas.EqualsNullAndSelf | src/main/java/seedu/address/logic/commands/RemoveFromTeamCommand.java:90-97 | A command equals itself and never equals null |
| RemoveFromTeamLemmas.EqualsIsOrderSensitive | src/main/java/seedu/address/logic/commands/RemoveFromTeamCommand.java:100 | Index lists [1, 2] and [2, 1] give unequal commands: equality depends on order |

## Left out

- The export command: it writes the address book to a file, which is file-system I/O with nothing to state beyond the operating system.
- `toString` (RemoveFromTeamCommand.java:103-108) and `Messages.format`: the formatted person is an opaque parameter `format`.
- `MESSAGE_USAGE` and `COMMAND_WORD` are modelled as constants only. `MESSAGE_PERSON_NOT_IN_TEAM` is not modelled: the membership check that formats it is not part of this model, so the PersonNotInTeam error carries the person and the team name rather than the final text.
- The internals of `Model`, `TeamCommandUtil`, `Index`, `Team` and `CommandResult` are not part of this model. They are specified only by the contracts above. A `Team` is its member set in the `teams` map, and `CommandResult` is the success string.
- BatchRemovalSucceeds: states the result position by position, in terms of the indices themselves, only when everyone is displayed and the targets are distinct assigned persons. Under a filter, later indices name positions in the list the earlier removals left, so FilteredBatchSucceeds states the same frame in terms of the removed persons instead: the exact team sets and every entry not removed kept as it was.
- `requireNonNull`: Dafny references here are non-null.
- The whole-command equality `Equals` also accepts `other == this`. That case is the same as equal index lists here, because a command's indices never change.
- Java's `List<Index>` is a sequence of one-based positive naturals. The constructor (RemoveFromTeamCommand.java:37-40) keeps the caller's list by reference; the model stores an immutable copy, so the aliasing is dropped: a caller that changed the list after construction would change the Java command's indices but not the model's. Index arithmetic is unbounded; the source's `int` indices cannot overflow at address-book sizes.
