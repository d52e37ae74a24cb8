/** Properties of the team-remove command, stated over the specification functions. */
module RemoveFromTeamLemmas {
  import opened AddressBook
  import opened Commands
  import opened TeamCommandUtil
  import opened RemoveFromTeam

  // ---------------------------------------------------------------------------
  // The displayed list
  // ---------------------------------------------------------------------------

  /** With the show-all filter the displayed list is the whole person list. */
  lemma {:induction false} FilterShowAll(s: seq<Person>)
    ensures Filter(s, ShowAll) == s
  {
    if s != [] {
      FilterShowAll(s[1..]);
      assert s == [s[0]] + s[1..];
    }
  }

  /** The displayed list holds every person the filter accepts. */
  lemma {:induction false} FilterKeepsAccepted(s: seq<Person>, f: Person -> bool)
    ensures forall x :: x in s && f(x) ==> x in Filter(s, f)
  {
    if s != [] {
      FilterKeepsAccepted(s[1..], f);
      assert s == [s[0]] + s[1..];
    }
  }

  /** In a book whose persons differ in identity, each person's first position is its position. */
  lemma IndexOfDistinct(s: seq<Person>, j: nat)
    requires DistinctIdentities(s) && j < |s|
    ensures IndexOf(s, s[j]) == j
  {
    var r := IndexOf(s, s[j]);
    assert Identity(s[r]) == Identity(s[j]);
    assert !(r < j);
  }

  // ---------------------------------------------------------------------------
  // The validation pass
  // ---------------------------------------------------------------------------

  /** Every index falls within the displayed list. */
  ghost predicate Resolves(b: Book, idx: seq<Index>) {
    forall k :: 0 <= k < |idx| ==> idx[k] <= |View(b)|
  }

  /** The displayed person at index i is in no team. */
  ghost predicate UnassignedAt(b: Book, i: Index) {
    i <= |View(b)| && IsNoneTeamName(View(b)[i - 1].teamName)
  }

  ghost predicate AnyUnassigned(b: Book, idx: seq<Index>) {
    exists k :: 0 <= k < |idx| && UnassignedAt(b, idx[k])
  }

  /** The "not in a team" message contributed by one index. */
  ghost function MessageFor(b: Book, i: Index): string {
    if UnassignedAt(b, i) then CannotRemoveFromNoneMessage(View(b)[i - 1].email) else ""
  }

  /** Reference definition of the failure text: one message per unassigned target, in index order. */
  ghost function NotInTeamMessages(b: Book, idx: seq<Index>): string
    decreases |idx|
  {
    if idx == [] then "" else MessageFor(b, idx[0]) + NotInTeamMessages(b, idx[1..])
  }

  /** The failure text of two batches run back to back is the two texts joined with no separator. */
  lemma {:induction false} NotInTeamMessagesAppend(b: Book, x: seq<Index>, y: seq<Index>)
    ensures NotInTeamMessages(b, x + y) == NotInTeamMessages(b, x) + NotInTeamMessages(b, y)
    decreases |x|
  {
    if x != [] {
      assert (x + y)[0] == x[0] && (x + y)[1..] == x[1..] + y;
      NotInTeamMessagesAppend(b, x[1..], y);
    } else {
      assert x + y == y;
    }
  }

  /** The failure text is empty exactly when no target is unassigned. */
  lemma {:induction false} NotInTeamMessagesEmpty(b: Book, idx: seq<Index>)
    ensures NotInTeamMessages(b, idx) == "" <==> !AnyUnassigned(b, idx)
    decreases |idx|
  {
    if idx != [] {
      NotInTeamMessagesEmpty(b, idx[1..]);
      if UnassignedAt(b, idx[0]) {
        assert |CannotRemoveFromNoneMessage(View(b)[idx[0] - 1].email)| > 0;
      }
      if AnyUnassigned(b, idx) {
        var k :| 0 <= k < |idx| && UnassignedAt(b, idx[k]);
        if k > 0 {
          assert idx[1..][k - 1] == idx[k];
        }
      }
      if AnyUnassigned(b, idx[1..]) {
        var k :| 0 <= k < |idx[1..]| && UnassignedAt(b, idx[1..][k]);
        assert idx[k + 1] == idx[1..][k];
      }
    }
  }

  lemma ResolvesSnoc(b: Book, front: seq<Index>, i: Index)
    ensures Resolves(b, front + [i]) <==> Resolves(b, front) && i <= |View(b)|
  {
    var idx := front + [i];
    assert idx[|front|] == i;
    assert forall k :: 0 <= k < |front| ==> idx[k] == front[k];
  }

  lemma AnyUnassignedSnoc(b: Book, front: seq<Index>, i: Index)
    ensures AnyUnassigned(b, front + [i]) <==> AnyUnassigned(b, front) || UnassignedAt(b, i)
  {
    var idx := front + [i];
    assert idx[|front|] == i;
    if AnyUnassigned(b, idx) && !UnassignedAt(b, i) {
      var k :| 0 <= k < |idx| && UnassignedAt(b, idx[k]);
      assert idx[k] == front[k];
    }
    if AnyUnassigned(b, front) {
      var k :| 0 <= k < |front| && UnassignedAt(b, front[k]);
      assert idx[k] == front[k];
    }
  }

  /** The validation pass over front + [i] is the pass over front followed by the check of i. */
  lemma ValidationPassSnoc(b: Book, front: seq<Index>, i: Index)
    ensures ValidationPass(b, front + [i]) ==
              match ValidationPass(b, front)
              case Err(e) => Err(e)
              case Ok(s) =>
                if i > |View(b)| then Err(InvalidPersonIndex)
                else if UnassignedAt(b, i) then Ok(Scan(true, s.failure + MessageFor(b, i)))
                else Ok(s)
  {
    assert (front + [i])[..|front|] == front;
  }

  /**
   * The validation pass fails, with InvalidPersonIndex, exactly when some index is past
   * the displayed list; otherwise it reports whether some target is unassigned and the
   * failure text in index order.
   */
  lemma {:induction false} ValidationPassCharacterized(b: Book, idx: seq<Index>)
    ensures ValidationPass(b, idx).Ok? <==> Resolves(b, idx)
    ensures ValidationPass(b, idx).Err? ==> ValidationPass(b, idx).error == InvalidPersonIndex
    ensures ValidationPass(b, idx).Ok? ==>
              ValidationPass(b, idx).value == Scan(AnyUnassigned(b, idx), NotInTeamMessages(b, idx))
    decreases |idx|
  {
    if idx != [] {
      var front, i := idx[..|idx| - 1], idx[|idx| - 1];
      assert idx == front + [i];
      ValidationPassCharacterized(b, front);
      ValidationPassSnoc(b, front, i);
      ResolvesSnoc(b, front, i);
      AnyUnassignedSnoc(b, front, i);
      NotInTeamMessagesAppend(b, front, [i]);
      assert NotInTeamMessages(b, [i]) == MessageFor(b, i) by {
        assert [i][1..] == [];
      }
    }
  }

  // ---------------------------------------------------------------------------
  // One step of the removal pass
  // ---------------------------------------------------------------------------

  /** A removal step fails exactly in the three ways the checks allow, and with their errors. */
  lemma RemovalStepFailures(b: Book, i: Index, format: Person -> string)
    ensures i > |View(b)| ==> RemovalStep(b, i, format) == Err(InvalidPersonIndex)
    ensures i <= |View(b)| && View(b)[i - 1].teamName !in b.teams ==>
              RemovalStep(b, i, format) == Err(TeamNotFound(View(b)[i - 1].teamName))
    ensures i <= |View(b)| && View(b)[i - 1].teamName in b.teams
            && View(b)[i - 1] !in b.teams[View(b)[i - 1].teamName] ==>
              RemovalStep(b, i, format) == Err(PersonNotInTeam(View(b)[i - 1], View(b)[i - 1].teamName))
    ensures RemovalStep(b, i, format).Ok? <==>
              i <= |View(b)| && View(b)[i - 1].teamName in b.teams
              && View(b)[i - 1] in b.teams[View(b)[i - 1].teamName]
  {
  }

  /**
   * A successful step replaces the target, and only it, by its unassigned copy, takes it
   * out of its own team's member set and no other, displays every person, and yields
   * the line "Person <formatted copy> removed from team <old team>" and a newline.
   */
  lemma RemovalStepEffect(b: Book, i: Index, format: Person -> string)
    requires RemovalStep(b, i, format).Ok?
    ensures i <= |View(b)|
    ensures var p := View(b)[i - 1];
            var t := p.teamName;
            var pos := IndexOf(b.persons, p);
            var (b', line) := RemovalStep(b, i, format).value;
            && |b'.persons| == |b.persons|
            && b'.persons[pos] == Unassigned(p)
            && Identity(b'.persons[pos]) == Identity(p) && IsNoneTeamName(b'.persons[pos].teamName)
            && (forall j :: 0 <= j < |b.persons| && j != pos ==> b'.persons[j] == b.persons[j])
            && t in b.teams && p in b.teams[t]
            && b'.teams.Keys == b.teams.Keys
            && b'.teams[t] == b.teams[t] - {p} && p !in b'.teams[t]
            && (forall u :: u in b.teams && u != t ==> b'.teams[u] == b.teams[u])
            && b'.filter == ShowAll && View(b') == b'.persons
            && line == SuccessMessage(format(Unassigned(p)), t) + "\n"
  {
    var b' := RemovalStep(b, i, format).value.0;
    FilterShowAll(b'.persons);
  }

  /** Replacing a member p of its team by its unassigned copy, and dropping it from that team. */
  ghost predicate IsRemoval(b: Book, pos: nat, b': Book)
  {
    && pos < |b.persons|
    && b.persons[pos].teamName in b.teams
    && b'.persons == b.persons[pos := Unassigned(b.persons[pos])]
    && b'.teams == b.teams[b.persons[pos].teamName := b.teams[b.persons[pos].teamName] - {b.persons[pos]}]
  }

  lemma RemovalKeepsIdentities(b: Book, pos: nat, b': Book)
    requires Valid(b) && IsRemoval(b, pos, b')
    ensures DistinctIdentities(b'.persons)
  {
    assert forall j :: 0 <= j < |b.persons| ==> Identity(b'.persons[j]) == Identity(b.persons[j]);
  }

  lemma RemovalKeepsAssignments(b: Book, pos: nat, b': Book)
    requires Valid(b) && IsRemoval(b, pos, b')
    ensures forall j :: 0 <= j < |b'.persons| && !IsNoneTeamName(b'.persons[j].teamName) ==>
              b'.persons[j].teamName in b'.teams && b'.persons[j] in b'.teams[b'.persons[j].teamName]
  {
    var p := b.persons[pos];
    forall j | 0 <= j < |b'.persons| && !IsNoneTeamName(b'.persons[j].teamName)
      ensures b'.persons[j].teamName in b'.teams && b'.persons[j] in b'.teams[b'.persons[j].teamName]
    {
      assert j != pos;
      assert Identity(b.persons[j]) != Identity(p);
    }
  }

  lemma RemovalKeepsMembers(b: Book, pos: nat, b': Book)
    requires Valid(b) && IsRemoval(b, pos, b')
    ensures forall t, q :: t in b'.teams && q in b'.teams[t] ==> q in b'.persons && q.teamName == t
  {
    var p := b.persons[pos];
    forall u, q | u in b'.teams && q in b'.teams[u]
      ensures q in b'.persons && q.teamName == u
    {
      assert q in b.teams[u] && q != p;
      var j :| 0 <= j < |b.persons| && b.persons[j] == q;
      assert j != pos && b'.persons[j] == q;
    }
  }

  /** A successful step keeps the model consistent. */
  lemma StepPreservesValid(b: Book, i: Index, format: Person -> string)
    requires Valid(b) && RemovalStep(b, i, format).Ok?
    ensures Valid(RemovalStep(b, i, format).value.0)
  {
    RemovalStepEffect(b, i, format);
    var b' := RemovalStep(b, i, format).value.0;
    var pos := IndexOf(b.persons, View(b)[i - 1]);
    assert IsRemoval(b, pos, b');
    RemovalKeepsIdentities(b, pos, b');
    RemovalKeepsAssignments(b, pos, b');
    RemovalKeepsMembers(b, pos, b');
  }

  // ---------------------------------------------------------------------------
  // The removal pass
  // ---------------------------------------------------------------------------

  /** Running the pass over x + y is running it over x and then, if that succeeded, over y. */
  lemma {:induction false} RemovalPassSplit(b: Book, x: seq<Index>, y: seq<Index>, format: Person -> string, acc: string)
    ensures var r := RemovalPass(b, x, format, acc);
            RemovalPass(b, x + y, format, acc)
              == if r.outcome.Ok? then RemovalPass(r.book, y, format, r.outcome.value) else r
    decreases |x|
  {
    if x == [] {
      assert x + y == y;
    } else {
      assert (x + y)[0] == x[0] && (x + y)[1..] == x[1..] + y;
      match RemovalStep(b, x[0], format)
      case Err(e) =>
      case Ok((b', line)) => RemovalPassSplit(b', x[1..], y, format, acc + line);
    }
  }

  /**
   * When the step for index i fails after the removals for x succeeded, the command
   * stops with that error and the book keeps the removals already made for x.
   */
  lemma RemovalPassKeepsEarlierRemovals(b: Book, x: seq<Index>, i: Index, y: seq<Index>,
                                        format: Person -> string, acc: string)
    requires RemovalPass(b, x, format, acc).outcome.Ok?
    requires RemovalStep(RemovalPass(b, x, format, acc).book, i, format).Err?
    ensures RemovalPass(b, x + [i] + y, format, acc)
            == Run(RemovalPass(b, x, format, acc).book,
                   Err(RemovalStep(RemovalPass(b, x, format, acc).book, i, format).error))
  {
    var r := RemovalPass(b, x, format, acc);
    RemovalPassSplit(b, x, [i] + y, format, acc);
    assert x + [i] + y == x + ([i] + y);
    assert ([i] + y)[0] == i;
  }

  /**
   * When every index resolved in the validation pass, the removal pass never fails on an
   * index: after each removal everyone is displayed, and nobody has left the list.
   */
  lemma {:induction false} RemovalPassIndicesResolve(b: Book, idx: seq<Index>, format: Person -> string, acc: string)
    requires Resolves(b, idx)
    ensures var r := RemovalPass(b, idx, format, acc);
            r.outcome.Err? ==> r.outcome.error.TeamNotFound? || r.outcome.error.PersonNotInTeam?
    decreases |idx|
  {
    if idx != [] {
      RemovalStepFailures(b, idx[0], format);
      match RemovalStep(b, idx[0], format)
      case Err(e) =>
      case Ok((b', line)) =>
        RemovalStepEffect(b, idx[0], format);
        assert |View(b)| <= |b.persons| == |View(b')|;
        assert Resolves(b', idx[1..]) by {
          forall k | 0 <= k < |idx[1..]| ensures idx[1..][k] <= |View(b')| {
            assert idx[1..][k] == idx[k + 1];
          }
        }
        RemovalPassIndicesResolve(b', idx[1..], format, acc + line);
    }
  }

  /** Whatever the pass does, it leaves the model consistent. */
  lemma {:induction false} RemovalPassPreservesValid(b: Book, idx: seq<Index>, format: Person -> string, acc: string)
    requires Valid(b)
    ensures Valid(RemovalPass(b, idx, format, acc).book)
    decreases |idx|
  {
    if idx != [] {
      match RemovalStep(b, idx[0], format)
      case Err(e) =>
      case Ok((b', line)) =>
        StepPreservesValid(b, idx[0], format);
        RemovalPassPreservesValid(b', idx[1..], format, acc + line);
    }
  }

  // ---------------------------------------------------------------------------
  // The whole command
  // ---------------------------------------------------------------------------

  /**
   * The command fails before changing anything when an index is past the displayed list
   * (InvalidPersonIndex) or when some target is in no team (NotInAnyTeam with one message
   * per such target, in index order); otherwise it is the removal pass.
   */
  lemma ExecutionRefusesBatch(b: Book, idx: seq<Index>, format: Person -> string)
    ensures !Resolves(b, idx) ==> Execution(b, idx, format) == Run(b, Err(InvalidPersonIndex))
    ensures Resolves(b, idx) && AnyUnassigned(b, idx) ==>
              Execution(b, idx, format) == Run(b, Err(NotInAnyTeam(NotInTeamMessages(b, idx))))
    ensures Resolves(b, idx) && !AnyUnassigned(b, idx) ==>
              Execution(b, idx, format) == RemovalPass(b, idx, format, "")
  {
    ValidationPassCharacterized(b, idx);
  }

  /** The command reports NotInAnyTeam exactly when every index resolves and some target is in no team. */
  lemma ExecutionNotInAnyTeamIff(b: Book, idx: seq<Index>, format: Person -> string)
    ensures var o := Execution(b, idx, format).outcome;
            (o.Err? && o.error.NotInAnyTeam?) <==> Resolves(b, idx) && AnyUnassigned(b, idx)
  {
    ExecutionRefusesBatch(b, idx, format);
    if Resolves(b, idx) && !AnyUnassigned(b, idx) {
      RemovalPassIndicesResolve(b, idx, format, "");
    }
  }

  /** The command reports InvalidPersonIndex exactly when some index is past the displayed list. */
  lemma ExecutionInvalidIndexIff(b: Book, idx: seq<Index>, format: Person -> string)
    ensures Execution(b, idx, format).outcome == Err(InvalidPersonIndex) <==> !Resolves(b, idx)
  {
    ExecutionRefusesBatch(b, idx, format);
    if Resolves(b, idx) && !AnyUnassigned(b, idx) {
      RemovalPassIndicesResolve(b, idx, format, "");
    }
  }

  /** The command keeps a consistent model consistent, whether it succeeds or fails. */
  lemma ExecutionPreservesValid(b: Book, idx: seq<Index>, format: Person -> string)
    requires Valid(b)
    ensures Valid(Execution(b, idx, format).book)
  {
    ValidationPassCharacterized(b, idx);
    RemovalPassPreservesValid(b, idx, format, "");
  }

  // ---------------------------------------------------------------------------
  // A batch that succeeds
  // ---------------------------------------------------------------------------

  /** The persons at the given one-based positions of the person list. */
  function Targets(s: seq<Person>, idx: seq<Index>): (r: seq<Person>)
    requires forall k :: 0 <= k < |idx| ==> idx[k] <= |s|
    ensures |r| == |idx| && forall k :: 0 <= k < |idx| ==> r[k] == s[idx[k] - 1]
  {
    seq(|idx|, k requires 0 <= k < |idx| => s[idx[k] - 1])
  }

  /** The success text: one line per target, in order. */
  function SuccessLines(ts: seq<Person>, format: Person -> string): string
    decreases |ts|
  {
    if ts == [] then ""
    else SuccessMessage(format(Unassigned(ts[0])), ts[0].teamName) + "\n" + SuccessLines(ts[1..], format)
  }

  /** The person list with the persons at positions idx (one-based) unassigned. */
  function ClearedAt(s: seq<Person>, idx: seq<Index>): (r: seq<Person>)
    ensures |r| == |s|
    ensures forall j :: 0 <= j < |s| ==> r[j] == if j + 1 in idx then Unassigned(s[j]) else s[j]
  {
    seq(|s|, j requires 0 <= j < |s| => if j + 1 in idx then Unassigned(s[j]) else s[j])
  }

  /** Every team without those of ts whose team name is that team. */
  function TeamsWithout(teams: map<string, set<Person>>, ts: seq<Person>): (r: map<string, set<Person>>)
    ensures r.Keys == teams.Keys
    ensures forall t :: t in teams ==> r[t] == teams[t] - set p | p in ts && p.teamName == t
  {
    map t | t in teams :: teams[t] - set p | p in ts && p.teamName == t
  }

  lemma ClearedAtStep(s: seq<Person>, i: Index, rest: seq<Index>)
    requires i <= |s| && i !in rest
    ensures ClearedAt(s[i - 1 := Unassigned(s[i - 1])], rest) == ClearedAt(s, [i] + rest)
  {
    var l := ClearedAt(s[i - 1 := Unassigned(s[i - 1])], rest);
    var r := ClearedAt(s, [i] + rest);
    forall j | 0 <= j < |s| ensures l[j] == r[j] {
      assert (j + 1 in [i] + rest) <==> (j + 1 == i || j + 1 in rest);
    }
  }

  lemma TeamsWithoutStep(teams: map<string, set<Person>>, p: Person, ts: seq<Person>)
    requires p.teamName in teams
    ensures TeamsWithout(teams[p.teamName := teams[p.teamName] - {p}], ts) == TeamsWithout(teams, [p] + ts)
  {
    var l := TeamsWithout(teams[p.teamName := teams[p.teamName] - {p}], ts);
    var r := TeamsWithout(teams, [p] + ts);
    forall t | t in teams ensures l[t] == r[t] {
      var s1 := set q | q in ts && q.teamName == t;
      var s2 := set q | q in [p] + ts && q.teamName == t;
      assert s2 == s1 + (if p.teamName == t then {p} else {});
    }
  }

  /** With everyone displayed, the step for an assigned person of a consistent model succeeds. */
  lemma RemovalStepOfAssigned(b: Book, i: Index, format: Person -> string)
    requires Valid(b) && View(b) == b.persons
    requires i <= |b.persons| && !IsNoneTeamName(b.persons[i - 1].teamName)
    ensures var p := b.persons[i - 1];
            var t := p.teamName;
            && t in b.teams
            && RemovalStep(b, i, format)
               == Ok((Book(b.persons[i - 1 := Unassigned(p)], b.teams[t := b.teams[t] - {p}], ShowAll),
                      SuccessMessage(format(Unassigned(p)), t) + "\n"))
            && Valid(RemovalStep(b, i, format).value.0)
            && View(RemovalStep(b, i, format).value.0) == RemovalStep(b, i, format).value.0.persons
  {
    var p := b.persons[i - 1];
    assert View(b)[i - 1] == p;
    IndexOfDistinct(b.persons, (i as int) - 1);
    RemovalStepFailures(b, i, format);
    StepPreservesValid(b, i, format);
    FilterShowAll(b.persons[i - 1 := Unassigned(p)]);
  }

  /**
   * The indices name distinct positions of the person list, and every person there is
   * in some team.
   */
  ghost predicate DistinctAssignedTargets(s: seq<Person>, idx: seq<Index>) {
    && (forall k :: 0 <= k < |idx| ==> idx[k] <= |s|)
    && (forall k, l :: 0 <= k < l < |idx| ==> idx[k] != idx[l])
    && (forall k :: 0 <= k < |idx| ==> !IsNoneTeamName(s[idx[k] - 1].teamName))
  }

  /** The book after unassigning the person at position i (one-based) and dropping it from its team. */
  function AfterFirst(b: Book, i: Index): (r: Book)
    requires i <= |b.persons| && b.persons[i - 1].teamName in b.teams
    ensures |r.persons| == |b.persons|
  {
    var p := b.persons[i - 1];
    Book(b.persons[i - 1 := Unassigned(p)], b.teams[p.teamName := b.teams[p.teamName] - {p}], ShowAll)
  }

  /** Unassigning the first target leaves the other targets where they were, still distinct and assigned. */
  lemma RestTargetsAfterFirst(s: seq<Person>, idx: seq<Index>)
    requires idx != [] && DistinctAssignedTargets(s, idx)
    ensures idx[0] !in idx[1..]
    ensures DistinctAssignedTargets(s[idx[0] - 1 := Unassigned(s[idx[0] - 1])], idx[1..])
    ensures Targets(s, idx) == [s[idx[0] - 1]] + Targets(s[idx[0] - 1 := Unassigned(s[idx[0] - 1])], idx[1..])
  {
    var s' := s[idx[0] - 1 := Unassigned(s[idx[0] - 1])];
    var rest := idx[1..];
    forall k | 0 <= k < |rest|
      ensures rest[k] <= |s| && rest[k] != idx[0] && s'[rest[k] - 1] == s[rest[k] - 1]
    {
      assert rest[k] == idx[k + 1];
    }
    forall k, l | 0 <= k < l < |rest| ensures rest[k] != rest[l] {
      assert rest[k] == idx[k + 1] && rest[l] == idx[l + 1];
    }
    forall k | 0 <= k < |rest| ensures !IsNoneTeamName(s'[rest[k] - 1].teamName) {
      assert rest[k] == idx[k + 1];
    }
    assert Targets(s, idx) == [s[idx[0] - 1]] + Targets(s', rest);
  }

  /** One more removal in front of a run of removals: the results of the two combine. */
  lemma CombineRemovals(s: seq<Person>, teams: map<string, set<Person>>, idx: seq<Index>,
                        ts: seq<Person>, format: Person -> string, acc: string, r: Run)
    requires idx != [] && idx[0] <= |s| && idx[0] !in idx[1..]
    requires s[idx[0] - 1].teamName in teams
    requires var p := s[idx[0] - 1];
             r.outcome == Ok(acc + (SuccessMessage(format(Unassigned(p)), p.teamName) + "\n") + SuccessLines(ts, format))
    requires r.book.persons == ClearedAt(s[idx[0] - 1 := Unassigned(s[idx[0] - 1])], idx[1..])
    requires r.book.teams == TeamsWithout(teams[s[idx[0] - 1].teamName := teams[s[idx[0] - 1].teamName] - {s[idx[0] - 1]}], ts)
    ensures r.outcome == Ok(acc + SuccessLines([s[idx[0] - 1]] + ts, format))
    ensures r.book.persons == ClearedAt(s, idx)
    ensures r.book.teams == TeamsWithout(teams, [s[idx[0] - 1]] + ts)
  {
    var p := s[idx[0] - 1];
    var line := SuccessMessage(format(Unassigned(p)), p.teamName) + "\n";
    assert SuccessLines([p] + ts, format) == line + SuccessLines(ts, format) by {
      assert ([p] + ts)[0] == p && ([p] + ts)[1..] == ts;
    }
    assert acc + line + SuccessLines(ts, format) == acc + (line + SuccessLines(ts, format));
    ClearedAtStep(s, idx[0], idx[1..]);
    assert [idx[0]] + idx[1..] == idx;
    TeamsWithoutStep(teams, p, ts);
  }

  lemma {:induction false} RemovalPassRemovesAll(b: Book, idx: seq<Index>, format: Person -> string, acc: string)
    requires Valid(b) && View(b) == b.persons
    requires DistinctAssignedTargets(b.persons, idx)
    ensures var r := RemovalPass(b, idx, format, acc);
            && r.outcome == Ok(acc + SuccessLines(Targets(b.persons, idx), format))
            && r.book.persons == ClearedAt(b.persons, idx)
            && r.book.teams == TeamsWithout(b.teams, Targets(b.persons, idx))
    decreases |idx|
  {
    if idx == [] {
      assert Targets(b.persons, idx) == [];
      assert acc + SuccessLines([], format) == acc;
      assert ClearedAt(b.persons, idx) == b.persons;
      forall t | t in b.teams ensures TeamsWithout(b.teams, [])[t] == b.teams[t] {
        assert (set q: Person | q in [] && q.teamName == t) == {};
      }
      assert TeamsWithout(b.teams, []) == b.teams;
    } else {
      var i := idx[0];
      var rest := idx[1..];
      var p := b.persons[i - 1];
      var t := p.teamName;
      assert !IsNoneTeamName(t);
      RemovalStepOfAssigned(b, i, format);
      var b' := AfterFirst(b, i);
      var line := SuccessMessage(format(Unassigned(p)), t) + "\n";
      assert RemovalPass(b, idx, format, acc) == RemovalPass(b', rest, format, acc + line);
      RestTargetsAfterFirst(b.persons, idx);
      RemovalPassRemovesAll(b', rest, format, acc + line);
      var r := RemovalPass(b, idx, format, acc);
      CombineRemovals(b.persons, b.teams, idx, Targets(b'.persons, rest), format, acc, r);
      assert Targets(b.persons, idx) == [p] + Targets(b'.persons, rest);
      assert r.outcome == Ok(acc + SuccessLines(Targets(b.persons, idx), format));
      assert r.book.teams == TeamsWithout(b.teams, Targets(b.persons, idx));
    }
  }

  /** With everyone displayed, assigned targets at valid positions get past the validation pass. */
  lemma AssignedTargetsPassValidation(b: Book, idx: seq<Index>, format: Person -> string)
    requires View(b) == b.persons && DistinctAssignedTargets(b.persons, idx)
    ensures Execution(b, idx, format) == RemovalPass(b, idx, format, "")
  {
    forall k | 0 <= k < |idx| ensures !UnassignedAt(b, idx[k]) {
      assert View(b)[idx[k] - 1] == b.persons[idx[k] - 1];
    }
    assert Resolves(b, idx);
    ExecutionRefusesBatch(b, idx, format);
  }

  /** In a consistent model, every assigned target's team exists. */
  lemma TargetTeamsExist(b: Book, idx: seq<Index>)
    requires Valid(b) && DistinctAssignedTargets(b.persons, idx)
    ensures forall k :: 0 <= k < |idx| ==> idx[k] <= |b.persons| && b.persons[idx[k] - 1].teamName in b.teams
  {
    forall k | 0 <= k < |idx| ensures idx[k] <= |b.persons| && b.persons[idx[k] - 1].teamName in b.teams {
      assert !IsNoneTeamName(b.persons[idx[k] - 1].teamName);
    }
  }

  /**
   * What a run with the cleared person list and the reduced teams says about each target:
   * its position now holds its unassigned copy, and its old team no longer lists it.
   */
  lemma BatchResultFacts(b: Book, idx: seq<Index>, format: Person -> string, r: Run)
    requires forall k :: 0 <= k < |idx| ==> idx[k] <= |b.persons| && b.persons[idx[k] - 1].teamName in b.teams
    requires r.outcome == Ok("" + SuccessLines(Targets(b.persons, idx), format))
    requires r.book.persons == ClearedAt(b.persons, idx)
    requires r.book.teams == TeamsWithout(b.teams, Targets(b.persons, idx))
    ensures r.outcome == Ok(SuccessLines(Targets(b.persons, idx), format))
    ensures |r.book.persons| == |b.persons|
    ensures forall j :: 0 <= j < |b.persons| ==>
              r.book.persons[j] == if j + 1 in idx then Unassigned(b.persons[j]) else b.persons[j]
    ensures forall k :: 0 <= k < |idx| ==>
              b.persons[idx[k] - 1].teamName in r.book.teams
              && b.persons[idx[k] - 1] !in r.book.teams[b.persons[idx[k] - 1].teamName]
  {
    var ts := Targets(b.persons, idx);
    assert "" + SuccessLines(ts, format) == SuccessLines(ts, format);
    forall k | 0 <= k < |idx|
      ensures b.persons[idx[k] - 1].teamName in r.book.teams
              && b.persons[idx[k] - 1] !in r.book.teams[b.persons[idx[k] - 1].teamName]
    {
      assert b.persons[idx[k] - 1] == ts[k];
    }
  }

  /**
   * When everyone is displayed and the distinct targets are all in teams of a consistent
   * model, the command succeeds: exactly the targets become unassigned (keeping name,
   * phone, email and github), each leaves its own team's member set, the person list
   * keeps its length, the model stays consistent, and the result has one success line
   * per index, in index order.
   */
  lemma BatchRemovalSucceeds(b: Book, idx: seq<Index>, format: Person -> string)
    requires Valid(b) && View(b) == b.persons
    requires DistinctAssignedTargets(b.persons, idx)
    ensures var r := Execution(b, idx, format);
            && r.outcome == Ok(SuccessLines(Targets(b.persons, idx), format))
            && |r.book.persons| == |b.persons|
            && (forall j :: 0 <= j < |b.persons| ==>
                  r.book.persons[j] == if j + 1 in idx then Unassigned(b.persons[j]) else b.persons[j])
            && (forall k :: 0 <= k < |idx| ==>
                  b.persons[idx[k] - 1].teamName in r.book.teams
                  && b.persons[idx[k] - 1] !in r.book.teams[b.persons[idx[k] - 1].teamName])
            && r.book.teams == TeamsWithout(b.teams, Targets(b.persons, idx))
            && Valid(r.book)
  {
    AssignedTargetsPassValidation(b, idx, format);
    RemovalPassRemovesAll(b, idx, format, "");
    RemovalPassPreservesValid(b, idx, format, "");
    TargetTeamsExist(b, idx);
    BatchResultFacts(b, idx, format, Execution(b, idx, format));
  }

  // ---------------------------------------------------------------------------
  // A batch that succeeds, whatever is displayed
  // ---------------------------------------------------------------------------

  /**
   * The persons the removal pass takes out of their teams, in order: each index resolved
   * against the displayed list of the book the earlier steps left, up to the first
   * failing step.
   */
  ghost function RemovedPersons(b: Book, idx: seq<Index>, format: Person -> string): seq<Person>
    decreases |idx|
  {
    if idx == [] then []
    else
      match RemovalStep(b, idx[0], format)
      case Err(_) => []
      case Ok((b', _)) => [TargetPerson(b, idx[0]).value] + RemovedPersons(b', idx[1..], format)
  }

  /** The line of one successful step is the success line of its target. */
  lemma StepLine(b: Book, i: Index, format: Person -> string)
    requires RemovalStep(b, i, format).Ok?
    ensures var p := TargetPerson(b, i).value;
            RemovalStep(b, i, format).value.1 == SuccessMessage(format(Unassigned(p)), p.teamName) + "\n"
  {
  }

  /** Success text accumulated so far, then the line for p, then the rest. */
  lemma SuccessLinesCons(acc: string, p: Person, rest: seq<Person>, format: Person -> string)
    ensures acc + (SuccessMessage(format(Unassigned(p)), p.teamName) + "\n") + SuccessLines(rest, format)
            == acc + SuccessLines([p] + rest, format)
  {
    assert ([p] + rest)[0] == p && ([p] + rest)[1..] == rest;
  }

  /** A pass that succeeds removes one person per index and yields one success line for each, in order. */
  lemma {:induction false} RemovalPassLines(b: Book, idx: seq<Index>, format: Person -> string, acc: string)
    requires RemovalPass(b, idx, format, acc).outcome.Ok?
    ensures |RemovedPersons(b, idx, format)| == |idx|
    ensures RemovalPass(b, idx, format, acc).outcome.value == acc + SuccessLines(RemovedPersons(b, idx, format), format)
    decreases |idx|
  {
    if idx == [] {
      assert acc + SuccessLines([], format) == acc;
    } else {
      match RemovalStep(b, idx[0], format)
      case Err(e) =>
      case Ok((b', line)) =>
        StepLine(b, idx[0], format);
        RemovalPassLines(b', idx[1..], format, acc + line);
        SuccessLinesCons(acc, TargetPerson(b, idx[0]).value, RemovedPersons(b', idx[1..], format), format);
    }
  }

  /**
   * From `before` to `after` the person list keeps its length and every person in no team,
   * the team names stay, and member sets only shrink.
   */
  ghost predicate Shrinks(before: Book, after: Book)
  {
    && |after.persons| == |before.persons|
    && (forall x :: x in before.persons && IsNoneTeamName(x.teamName) ==> x in after.persons)
    && after.teams.Keys == before.teams.Keys
    && (forall t :: t in before.teams ==> after.teams[t] <= before.teams[t])
  }

  lemma ShrinksReflexive(b: Book)
    ensures Shrinks(b, b)
  {
  }

  lemma ShrinksTransitive(b0: Book, b1: Book, b2: Book)
    requires Shrinks(b0, b1) && Shrinks(b1, b2)
    ensures Shrinks(b0, b2)
  {
    forall t | t in b0.teams ensures b2.teams[t] <= b0.teams[t] {
      assert b2.teams[t] <= b1.teams[t];
    }
  }

  /** One successful step shrinks the book. */
  lemma StepShrinks(b: Book, i: Index, format: Person -> string)
    requires RemovalStep(b, i, format).Ok?
    ensures Shrinks(b, RemovalStep(b, i, format).value.0)
  {
    RemovalStepEffect(b, i, format);
    var b' := RemovalStep(b, i, format).value.0;
    var p := View(b)[i - 1];
    var pos := IndexOf(b.persons, p);
    forall x | x in b.persons && IsNoneTeamName(x.teamName) ensures x in b'.persons {
      var j :| 0 <= j < |b.persons| && b.persons[j] == x;
      if j == pos {
        assert Unassigned(p) == x;
        assert b'.persons[pos] == x;
      } else {
        assert b'.persons[j] == x;
      }
    }
  }

  /** Whatever its outcome, the pass shrinks the book. */
  lemma {:induction false} RemovalPassOnlyShrinks(b: Book, idx: seq<Index>, format: Person -> string, acc: string)
    ensures Shrinks(b, RemovalPass(b, idx, format, acc).book)
    decreases |idx|
  {
    if idx != [] && RemovalStep(b, idx[0], format).Ok? {
      var (b', line) := RemovalStep(b, idx[0], format).value;
      StepShrinks(b, idx[0], format);
      RemovalPassOnlyShrinks(b', idx[1..], format, acc + line);
      ShrinksTransitive(b, b', RemovalPass(b', idx[1..], format, acc + line).book);
    }
  }

  /**
   * `p` was a member of its team in `before`, is no longer one in `after`, and its
   * unassigned copy is in the person list of `after`.
   */
  ghost predicate TakenOut(before: Book, after: Book, p: Person)
  {
    && p.teamName in before.teams && p in before.teams[p.teamName]
    && p.teamName in after.teams && p !in after.teams[p.teamName]
    && Unassigned(p) in after.persons
  }

  lemma TakenOutWiden(b0: Book, b1: Book, b2: Book, b3: Book, p: Person)
    requires TakenOut(b1, b2, p) && Shrinks(b0, b1) && Shrinks(b2, b3)
    ensures TakenOut(b0, b3, p)
  {
    assert Unassigned(p) in b2.persons && IsNoneTeamName(Unassigned(p).teamName);
  }

  /** The target of one successful step is taken out by it. */
  lemma StepTakesOut(b: Book, i: Index, format: Person -> string)
    requires RemovalStep(b, i, format).Ok?
    ensures TakenOut(b, RemovalStep(b, i, format).value.0, TargetPerson(b, i).value)
  {
    RemovalStepEffect(b, i, format);
    var b' := RemovalStep(b, i, format).value.0;
    var p := View(b)[i - 1];
    assert b'.persons[IndexOf(b.persons, p)] == Unassigned(p);
  }

  /** Every person in `rm` is taken out from `before` to `after`. */
  ghost predicate AllTakenOut(before: Book, after: Book, rm: seq<Person>)
  {
    forall k :: 0 <= k < |rm| ==> TakenOut(before, after, rm[k])
  }

  lemma AllTakenOutCons(b: Book, b': Book, final: Book, p: Person, rest: seq<Person>)
    requires TakenOut(b, b', p) && Shrinks(b', final)
    requires AllTakenOut(b', final, rest) && Shrinks(b, b')
    ensures AllTakenOut(b, final, [p] + rest)
  {
    var rm := [p] + rest;
    forall k | 0 <= k < |rm| ensures TakenOut(b, final, rm[k]) {
      if k == 0 {
        ShrinksReflexive(b);
        TakenOutWiden(b, b, b', final, p);
      } else {
        assert rm[k] == rest[k - 1];
        ShrinksReflexive(final);
        TakenOutWiden(b, b', final, final, rest[k - 1]);
      }
    }
  }

  /** Every person a successful pass removes is taken out, from the first book to the last. */
  lemma {:induction false} RemovalPassRemovedFacts(b: Book, idx: seq<Index>, format: Person -> string, acc: string)
    requires RemovalPass(b, idx, format, acc).outcome.Ok?
    ensures AllTakenOut(b, RemovalPass(b, idx, format, acc).book, RemovedPersons(b, idx, format))
    decreases |idx|
  {
    if idx != [] {
      match RemovalStep(b, idx[0], format)
      case Err(e) =>
      case Ok((b', line)) =>
        var final := RemovalPass(b', idx[1..], format, acc + line).book;
        RemovalPassRemovedFacts(b', idx[1..], format, acc + line);
        RemovalPassOnlyShrinks(b', idx[1..], format, acc + line);
        StepShrinks(b, idx[0], format);
        StepTakesOut(b, idx[0], format);
        AllTakenOutCons(b, b', final, TargetPerson(b, idx[0]).value, RemovedPersons(b', idx[1..], format));
    }
  }

  /** One successful step takes its target out of the target's own team and changes no other team. */
  lemma StepTeams(b: Book, i: Index, format: Person -> string)
    requires RemovalStep(b, i, format).Ok?
    ensures var p := TargetPerson(b, i).value;
            && p.teamName in b.teams
            && RemovalStep(b, i, format).value.0.teams == b.teams[p.teamName := b.teams[p.teamName] - {p}]
  {
  }

  /**
   * The teams after a successful pass are the starting teams with each removed person
   * taken out of its own team, and nothing else changed.
   */
  lemma {:induction false} RemovalPassTeams(b: Book, idx: seq<Index>, format: Person -> string, acc: string)
    requires RemovalPass(b, idx, format, acc).outcome.Ok?
    ensures RemovalPass(b, idx, format, acc).book.teams == TeamsWithout(b.teams, RemovedPersons(b, idx, format))
    decreases |idx|
  {
    if idx == [] {
      var none := TeamsWithout(b.teams, []);
      forall t | t in b.teams ensures none[t] == b.teams[t] {
        assert (set q: Person | q in [] && q.teamName == t) == {};
      }
    } else {
      match RemovalStep(b, idx[0], format)
      case Err(e) =>
      case Ok((b', line)) =>
        var p := TargetPerson(b, idx[0]).value;
        StepTeams(b, idx[0], format);
        RemovalPassTeams(b', idx[1..], format, acc + line);
        TeamsWithoutStep(b.teams, p, RemovedPersons(b', idx[1..], format));
    }
  }

  /**
   * Position by position, `after` holds the person of `before` or its unassigned copy, and
   * the person itself wherever it is not in `rm`.
   */
  ghost predicate KeptOrUnassigned(before: seq<Person>, after: seq<Person>, rm: seq<Person>)
  {
    && |after| == |before|
    && (forall j :: 0 <= j < |before| ==>
          && (after[j] == before[j] || after[j] == Unassigned(before[j]))
          && (before[j] !in rm ==> after[j] == before[j]))
  }

  lemma KeptOrUnassignedCons(s: seq<Person>, pos: nat, s': seq<Person>, final: seq<Person>, p: Person, rest: seq<Person>)
    requires pos < |s| && s[pos] == p && s' == s[pos := Unassigned(p)]
    requires KeptOrUnassigned(s', final, rest)
    ensures KeptOrUnassigned(s, final, [p] + rest)
  {
    forall j | 0 <= j < |s|
      ensures && (final[j] == s[j] || final[j] == Unassigned(s[j]))
              && (s[j] !in [p] + rest ==> final[j] == s[j])
    {
      if j == pos {
        assert Unassigned(Unassigned(p)) == Unassigned(p);
      } else {
        assert s'[j] == s[j];
      }
    }
  }

  /** The person list after a successful pass changes only at the removed persons, each into its unassigned copy. */
  lemma {:induction false} RemovalPassPersons(b: Book, idx: seq<Index>, format: Person -> string, acc: string)
    requires RemovalPass(b, idx, format, acc).outcome.Ok?
    ensures KeptOrUnassigned(b.persons, RemovalPass(b, idx, format, acc).book.persons, RemovedPersons(b, idx, format))
    decreases |idx|
  {
    if idx != [] {
      match RemovalStep(b, idx[0], format)
      case Err(e) =>
      case Ok((b', line)) =>
        var p := TargetPerson(b, idx[0]).value;
        RemovalPassPersons(b', idx[1..], format, acc + line);
        KeptOrUnassignedCons(b.persons, IndexOf(b.persons, p), b'.persons,
                             RemovalPass(b', idx[1..], format, acc + line).book.persons, p, RemovedPersons(b', idx[1..], format));
    }
  }

  /**
   * A batch that succeeds, with any filter: every index resolved and no target was in
   * the "none" team; the first target is the displayed person at the first index, and
   * later ones are resolved against the lists the earlier removals left, which display
   * everyone. The command removes one person per index and yields one success line per
   * index, in order; each removed person was a member of its team and no longer is, its
   * unassigned copy is in the list, the list keeps its length, every person already in
   * no team stays, and the model stays consistent. Each team loses exactly the removed
   * persons whose team it is, and each list entry whose person was not removed is unchanged.
   */
  lemma FilteredBatchSucceeds(b: Book, idx: seq<Index>, format: Person -> string)
    requires Valid(b) && Execution(b, idx, format).outcome.Ok?
    ensures Resolves(b, idx) && !AnyUnassigned(b, idx)
    ensures var r := Execution(b, idx, format);
            var rm := RemovedPersons(b, idx, format);
            && r == RemovalPass(b, idx, format, "")
            && |rm| == |idx|
            && (idx != [] ==> rm[0] == View(b)[idx[0] - 1] && r.book.filter == ShowAll)
            && r.outcome == Ok(SuccessLines(rm, format))
            && Shrinks(b, r.book)
            && AllTakenOut(b, r.book, rm)
            && r.book.teams == TeamsWithout(b.teams, rm)
            && KeptOrUnassigned(b.persons, r.book.persons, rm)
            && Valid(r.book)
  {
    FilteredBatchIsPass(b, idx, format);
    FilteredBatchOutcome(b, idx, format);
    RemovalPassOnlyShrinks(b, idx, format, "");
    RemovalPassRemovedFacts(b, idx, format, "");
    RemovalPassTeams(b, idx, format, "");
    RemovalPassPersons(b, idx, format, "");
    RemovalPassPreservesValid(b, idx, format, "");
    if idx != [] {
      FilteredBatchFirstStep(b, idx, format);
    }
  }

  /** A batch whose execution succeeds passed validation, so the execution is the removal pass. */
  lemma FilteredBatchIsPass(b: Book, idx: seq<Index>, format: Person -> string)
    requires Execution(b, idx, format).outcome.Ok?
    ensures Resolves(b, idx) && !AnyUnassigned(b, idx)
    ensures Execution(b, idx, format) == RemovalPass(b, idx, format, "")
  {
    ExecutionRefusesBatch(b, idx, format);
  }

  /** The first removal takes out the displayed person at the first index and resets the view for good. */
  lemma FilteredBatchFirstStep(b: Book, idx: seq<Index>, format: Person -> string)
    requires idx != [] && RemovalPass(b, idx, format, "").outcome.Ok?
    ensures RemovedPersons(b, idx, format)[0] == View(b)[idx[0] - 1]
    ensures RemovalPass(b, idx, format, "").book.filter == ShowAll
  {
    RemovalStepEffect(b, idx[0], format);
    var (b1, line) := RemovalStep(b, idx[0], format).value;
    FilterAfterPass(b1, idx[1..], format, "" + line);
  }

  lemma FilteredBatchOutcome(b: Book, idx: seq<Index>, format: Person -> string)
    requires RemovalPass(b, idx, format, "").outcome.Ok?
    ensures |RemovedPersons(b, idx, format)| == |idx|
    ensures RemovalPass(b, idx, format, "").outcome == Ok(SuccessLines(RemovedPersons(b, idx, format), format))
  {
    RemovalPassLines(b, idx, format, "");
    assert "" + SuccessLines(RemovedPersons(b, idx, format), format) == SuccessLines(RemovedPersons(b, idx, format), format);
  }

  /** A pass that starts on a book displaying everyone leaves one displaying everyone. */
  lemma {:induction false} FilterAfterPass(b: Book, idx: seq<Index>, format: Person -> string, acc: string)
    requires b.filter == ShowAll
    ensures RemovalPass(b, idx, format, acc).book.filter == ShowAll
    decreases |idx|
  {
    if idx != [] {
      match RemovalStep(b, idx[0], format)
      case Err(e) =>
      case Ok((b', line)) =>
        FilterAfterPass(b', idx[1..], format, acc + line);
    }
  }

  // ---------------------------------------------------------------------------
  // Indices are resolved again after the view was reset
  // ---------------------------------------------------------------------------

  const Ann := Person("A", "1", "a@u", "a", NoneTeamName)
  const Ben := Person("B", "2", "b@u", "b", "T")
  const Cy := Person("C", "3", "c@u", "c", "T")

  /** Ann is in no team, Ben and Cy are in team T, and only team T is displayed: Ben is 1, Cy is 2. */
  function HiddenUnassignedBook(): Book {
    Book([Ann, Ben, Cy], map["T" := {Ben, Cy}], (p: Person) => p.teamName == "T")
  }

  lemma HiddenUnassignedBookView()
    ensures View(HiddenUnassignedBook()) == [Ben, Cy]
  {
    var b := HiddenUnassignedBook();
    assert b.persons[1..] == [Ben, Cy] && b.persons[2..] == [Cy] && b.persons[3..] == [];
  }

  /** The example book is consistent, and displays Ben then Cy. */
  lemma HiddenUnassignedBookValid()
    ensures Valid(HiddenUnassignedBook())
    ensures View(HiddenUnassignedBook()) == [Ben, Cy]
  {
    HiddenUnassignedBookView();
    var b := HiddenUnassignedBook();
    assert DistinctIdentities(b.persons) by {
      assert Identity(Ann) != Identity(Ben) && Identity(Ann) != Identity(Cy) && Identity(Ben) != Identity(Cy);
    }
    assert forall t, q :: t in b.teams && q in b.teams[t] ==> q in b.persons && q.teamName == t by {
      assert b.teams.Keys == {"T"};
      assert b.persons[1] == Ben && b.persons[2] == Cy;
    }
  }

  /** The book after Ben has left team T, with everyone displayed. */
  function BenRemovedBook(): Book {
    Book([Ann, Unassigned(Ben), Cy], map["T" := {Cy}], ShowAll)
  }

  lemma BenRemovedFirst(format: Person -> string)
    ensures RemovalStep(HiddenUnassignedBook(), 1, format).Ok?
    ensures RemovalStep(HiddenUnassignedBook(), 1, format).value.0 == BenRemovedBook()
  {
    var b := HiddenUnassignedBook();
    var b1 := BenRemovedBook();
    HiddenUnassignedBookView();
    assert IndexOf(b.persons, Ben) == 1;
    assert b.persons[1 := Unassigned(Ben)] == b1.persons;
    assert {Ben, Cy} - {Ben} == {Cy} by {
      assert Ben.name != Cy.name;
    }
    assert map["T" := {Ben, Cy}]["T" := {Ben, Cy} - {Ben}] == b1.teams;
  }

  lemma HiddenUnassignedBookPassesValidation()
    ensures ValidationPass(HiddenUnassignedBook(), [1, 2]) == Ok(Scan(false, ""))
  {
    HiddenUnassignedBookView();
    assert [1, 2][..1] == [1] && [1][..0] == [];
  }

  /** Once everyone is displayed, index 2 names Ben's unassigned copy, whose team does not exist. */
  lemma SecondIndexNamesBensCopy(format: Person -> string)
    ensures RemovalStep(BenRemovedBook(), 2, format) == Err(TeamNotFound(NoneTeamName))
  {
    FilterShowAll(BenRemovedBook().persons);
    assert View(BenRemovedBook())[1] == Unassigned(Ben);
  }

  /**
   * Removing displayed persons 1 and 2 (Ben and Cy) passes the validation pass, but the
   * first removal displays everyone again, so index 2 then names Ben's unassigned copy:
   * the command fails with TeamNotFound for the "none" team name, and Ben stays removed
   * while Cy is untouched.
   */
  lemma ReResolutionAfterReset(format: Person -> string)
    ensures ValidationPass(HiddenUnassignedBook(), [1, 2]) == Ok(Scan(false, ""))
    ensures Execution(HiddenUnassignedBook(), [1, 2], format)
            == Run(BenRemovedBook(), Err(TeamNotFound(NoneTeamName)))
  {
    HiddenUnassignedBookPassesValidation();
    BenRemovedFirst(format);
    SecondIndexNamesBensCopy(format);
    assert [1, 2][1..] == [2] && [2][1..] == [];
  }

  /**
   * The same index twice: the first removal succeeds, the second finds the person's
   * unassigned copy and fails with TeamNotFound, keeping the first removal.
   */
  lemma RepeatedIndexFailsAfterRemoval(format: Person -> string)
    ensures var b := Book([Ben], map["T" := {Ben}], ShowAll);
            && Valid(b)
            && ValidationPass(b, [1, 1]) == Ok(Scan(false, ""))
            && Execution(b, [1, 1], format)
               == Run(Book([Unassigned(Ben)], map["T" := {}], ShowAll), Err(TeamNotFound(NoneTeamName)))
  {
    var b := Book([Ben], map["T" := {Ben}], ShowAll);
    FilterShowAll(b.persons);
    assert ValidationPass(b, [1, 1]) == Ok(Scan(false, "")) by {
      assert [1, 1][..1] == [1] && [1][..0] == [];
    }
    var b1 := Book([Unassigned(Ben)], map["T" := {}], ShowAll);
    assert [Ben][0 := Unassigned(Ben)] == b1.persons;
    assert {Ben} - {Ben} == {};
    assert map["T" := {Ben}]["T" := {Ben} - {Ben}] == b1.teams;
    assert RemovalStep(b, 1, format).Ok? && RemovalStep(b, 1, format).value.0 == b1;
    FilterShowAll(b1.persons);
    assert RemovalStep(b1, 1, format) == Err(TeamNotFound(NoneTeamName));
    assert [1, 1][1..] == [1] && [1][1..] == [];
  }

  // ---------------------------------------------------------------------------
  // Equality of commands
  // ---------------------------------------------------------------------------

  /** Two team-remove commands are equal exactly when their index lists are equal. */
  lemma EqualsIffSameIndices(c: RemoveFromTeamCommand, d: RemoveFromTeamCommand)
    ensures c.Equals(d) <==> c.studentIndices == d.studentIndices
  {
  }

  /** No command equals null, and every command equals itself. */
  lemma EqualsNullAndSelf(c: RemoveFromTeamCommand)
    ensures !c.Equals(null) && c.Equals(c)
  {
  }

  /** The order of the indices matters: [1, 2] and [2, 1] make different commands. */
  lemma EqualsIsOrderSensitive(c: RemoveFromTeamCommand, d: RemoveFromTeamCommand)
    requires c.studentIndices == [1, 2] && d.studentIndices == [2, 1]
    ensures !c.Equals(d) && !d.Equals(c)
  {
    assert c.studentIndices[0] != d.studentIndices[0];
  }
}
