/** What every role of a reachable state looks like: its name is valid and its own, and its keys come from a catalog. */
module TeamRoles {
  import opened Text
  import opened TeamTables
  import opened TeamRequests
  import opened TeamInvariant
  import opened TeamAuthorization

  /** One to sixty characters without white space around them, and no spelling of the owner's name. */
  predicate GoodName(name: string) {
    1 <= |name| <= 60 && Trim(name) == name && !EqualsIgnoringCase(name, "Owner")
  }

  ghost function Good(): iset<string> {
    iset name: string | GoodName(name)
  }

  ghost predicate AllGood(roles: map<nat, Role>, good: iset<string>) {
    forall r | r in roles && !roles[r].system :: roles[r].name in good
  }

  predicate OwnNames(roles: map<nat, Role>) {
    forall r, q | r in roles && q in roles && roles[r].team == roles[q].team && roles[r].name == roles[q].name :: r == q
  }

  ghost predicate GoodNames(db: Db, good: iset<string>) {
    AllGood(db.roles, good) && OwnNames(db.roles)
  }

  /** A request with a name that is past the check of its input. */
  predicate Checked(f: Flight) {
    (f.request.NewRole? || f.request.EditRole?) && Behind(f, InputOk)
  }

  ghost predicate NamesChecked(s: State, good: iset<string>) {
    forall k | k in s.flights && Checked(s.flights[k]) :: Trim(s.flights[k].request.name) in good
  }

  /** What the check of a name lets through is in the set. */
  ghost predicate Admits(good: iset<string>, name: string) {
    ValidateRoleName(name).Accepted? ==> Trim(name) in good
  }

  lemma AcceptedIsGood(name: string)
    requires ValidateRoleName(name).Accepted?
    ensures GoodName(Trim(name))
  {
    AcceptedNames(name);
    TrimTwice(name);
  }

  lemma NewNameGood(db: Db, team: nat, role: nat, name: string, keys: set<string>, good: iset<string>)
    requires GoodNames(db, good) && role !in db.roles && name in good
    ensures GoodNames(CreateRole(db, team, role, name, keys), good)
  {
  }

  lemma ChangedNameGood(db: Db, role: nat, name: string, keys: set<string>, good: iset<string>)
    requires GoodNames(db, good) && name in good
    ensures GoodNames(UpdateRole(db, role, name, keys), good)
  {
  }

  lemma DeletionsGood(db: Db, team: nat, role: nat, good: iset<string>)
    requires GoodNames(db, good)
    ensures GoodNames(DeleteRole(db, role), good) && GoodNames(DeleteTeam(db, team), good)
  {
  }

  /** The finished request on a role's name passed the check of its input. */
  lemma FinishedIsChecked(f: Flight)
    requires f.done == |Plan(f.request)| && (f.request.NewRole? || f.request.EditRole?)
    ensures Checked(f)
  {
    AllBehind(f, InputOk);
  }

  lemma WriteGood(s: State, e: Event, good: iset<string>)
    requires Invariant(s) && GoodNames(s.db, good) && NamesChecked(s, good) && e.Write? && Enabled(s, e)
    ensures GoodNames(Next(s, e).db, good)
  {
    var f := s.flights[e.flight];
    var q := f.request;
    match q
    case NewRole(team, name, keys) =>
      FinishedIsChecked(f);
      NewNameGood(s.db, team, e.id, Trim(name), Keys(keys), good);
    case EditRole(_, role, name, keys) =>
      FinishedIsChecked(f);
      ChangedNameGood(s.db, role, Trim(name), Keys(keys), good);
    case DropRole(_, role) => DeletionsGood(s.db, 0, role, good);
    case DropTeam(team) => DeletionsGood(s.db, team, 0, good);
    case _ => OthersSettled(s.db, q, e.id, e.rows);
  }

  lemma NewTeamGood(s: State, e: Event, good: iset<string>)
    requires Invariant(s) && GoodNames(s.db, good) && e.NewTeam? && Enabled(s, e)
    ensures GoodNames(Next(s, e).db, good)
  {
    assert forall r | r in s.db.roles :: s.db.roles[r].team in s.db.owners && s.db.roles[r].team != e.team;
  }

  lemma AskChecked(s: State, e: Event, good: iset<string>)
    requires NamesChecked(s, good) && e.Ask? && Enabled(s, e)
    requires var q := s.flights[e.flight].request; q.NewRole? || q.EditRole? ==> Admits(good, q.name)
    ensures NamesChecked(Next(s, e), good)
  {
    var f := s.flights[e.flight];
    var c := Plan(f.request)[f.done];
    if Passes(s.db, s.catalog, f, c) {
      BehindNext(f, Passed(s.db, f, c), InputOk);
    }
  }

  lemma StepGood(s: State, e: Event, good: iset<string>)
    requires Invariant(s) && GoodNames(s.db, good) && NamesChecked(s, good) && Enabled(s, e)
    requires forall name :: Admits(good, name)
    ensures GoodNames(Next(s, e).db, good) && NamesChecked(Next(s, e), good)
  {
    match e
    case Write(_, _, _) => WriteGood(s, e, good);
    case NewTeam(_, _, _) => NewTeamGood(s, e, good);
    case Ask(_) => AskChecked(s, e, good);
    case Boot(_) =>
    case Register(_) =>
    case Begin(_, _, _) =>
    case Abort(_) =>
  }

  lemma {:induction false} RunGood(s: State, events: seq<Event>, good: iset<string>)
    requires Invariant(s) && GoodNames(s.db, good) && NamesChecked(s, good) && Possible(s, events)
    requires forall name :: Admits(good, name)
    ensures GoodNames(After(s, events).db, good)
    decreases |events|
  {
    if events == [] {
    } else {
      StepGood(s, events[0], good);
      TeamInvariant.StepKeeps(s, events[0]);
      RunGood(Next(s, events[0]), events[1..], good);
    }
  }

  lemma GoodAdmits()
    ensures forall name :: Admits(Good(), name)
  {
    forall name
      ensures Admits(Good(), name)
    {
      if ValidateRoleName(name).Accepted? {
        AcceptedIsGood(name);
      }
    }
  }

  /** Over every run, a role that is not built in has a good name, and no two roles of a team have the same. */
  lemma NamesAreGood(events: seq<Event>, r: nat, q: nat)
    requires Possible(INITIAL, events) && r in After(INITIAL, events).db.roles && q in After(INITIAL, events).db.roles
    ensures var roles := After(INITIAL, events).db.roles;
            && (!roles[r].system ==> GoodName(roles[r].name))
            && (roles[r].team == roles[q].team && roles[r].name == roles[q].name ==> r == q)
  {
    GoodAdmits();
    RunGood(INITIAL, events, Good());
  }

  // --- Keys.

  /** No start of the run has the key in its catalog. */
  predicate NeverInCatalog(events: seq<Event>, key: string) {
    forall i | 0 <= i < |events| && events[i].Boot? :: key !in events[i].catalog
  }

  predicate NoKey(db: Db, key: string) {
    forall g | g in db.grants :: g.1 != key
  }

  predicate Unknown(s: State, key: string) {
    && key !in s.catalog && NoKey(s.db, key)
    && (forall k | k in s.flights && Checked(s.flights[k]) :: key !in Keys(s.flights[k].request.keys))
  }

  lemma ChangesHaveNoKey(db: Db, team: nat, role: nat, name: string, keys: set<string>, key: string)
    requires NoKey(db, key) && key !in keys
    ensures NoKey(CreateRole(db, team, role, name, keys), key) && NoKey(UpdateRole(db, role, name, keys), key)
  {
  }

  lemma DeletionsHaveNoKey(db: Db, team: nat, role: nat, key: string)
    requires NoKey(db, key)
    ensures NoKey(DeleteRole(db, role), key) && NoKey(DeleteTeam(db, team), key)
  {
  }

  lemma WriteUnknown(s: State, e: Event, key: string)
    requires Unknown(s, key) && e.Write? && Enabled(s, e)
    ensures Unknown(Next(s, e), key)
  {
    var f := s.flights[e.flight];
    var q := f.request;
    match q
    case NewRole(team, name, keys) =>
      FinishedIsChecked(f);
      ChangesHaveNoKey(s.db, team, e.id, Trim(name), Keys(keys), key);
    case EditRole(_, role, name, keys) =>
      FinishedIsChecked(f);
      ChangesHaveNoKey(s.db, 0, role, Trim(name), Keys(keys), key);
    case DropRole(_, role) => DeletionsHaveNoKey(s.db, 0, role, key);
    case DropTeam(team) => DeletionsHaveNoKey(s.db, team, 0, key);
    case _ => OthersLeaveRoles(s.db, q, e.id, e.rows);
  }

  lemma AskUnknown(s: State, e: Event, key: string)
    requires Unknown(s, key) && e.Ask? && Enabled(s, e)
    ensures Unknown(Next(s, e), key)
  {
    var f := s.flights[e.flight];
    var c := Plan(f.request)[f.done];
    if Passes(s.db, s.catalog, f, c) {
      BehindNext(f, Passed(s.db, f, c), InputOk);
    }
  }

  lemma StepUnknown(s: State, e: Event, key: string)
    requires Unknown(s, key) && Enabled(s, e) && (e.Boot? ==> key !in e.catalog)
    ensures Unknown(Next(s, e), key)
  {
    match e
    case Write(_, _, _) => WriteUnknown(s, e, key);
    case Ask(_) => AskUnknown(s, e, key);
    case NewTeam(_, _, _) =>
    case Boot(_) =>
    case Register(_) =>
    case Begin(_, _, _) =>
    case Abort(_) =>
  }

  lemma {:induction false} RunUnknown(s: State, events: seq<Event>, key: string)
    requires Unknown(s, key) && Possible(s, events) && NeverInCatalog(events, key)
    ensures Unknown(After(s, events), key)
    decreases |events|
  {
    if events == [] {
    } else {
      StepUnknown(s, events[0], key);
      RunUnknown(Next(s, events[0]), events[1..], key);
    }
  }

  /** Over every run, a role carries only keys that were in the catalog of some start. */
  lemma KeysComeFromCatalogs(events: seq<Event>, r: nat, key: string)
    requires Possible(INITIAL, events) && (r, key) in After(INITIAL, events).db.grants
    ensures exists i | 0 <= i < |events| :: events[i].Boot? && key in events[i].catalog
  {
    if NeverInCatalog(events, key) {
      RunUnknown(INITIAL, events, key);
    }
  }
}
