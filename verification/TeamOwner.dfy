/** The owner of a team can always act. */
module TeamOwner {
  import opened Text
  import opened TeamTables
  import opened TeamRequests
  import opened TeamInvariant

  /** `r` is the one built-in role of team `t`, carries the catalog, and the owner holds it. */
  ghost predicate OwnerRole(db: Db, catalog: set<string>, t: nat, r: nat) {
    && t in db.owners
    && RoleOfTeam(db, t, r) && db.roles[r].system
    && (forall q | RoleOfTeam(db, t, q) && db.roles[q].system :: q == r)
    && (forall key | key in catalog :: (r, key) in db.grants)
    && (t, db.owners[t]) in db.members
    && (t, db.owners[t], r) in db.memberRoles
  }

  ghost predicate OwnersAct(s: State) {
    forall t | t in s.db.owners :: exists r :: OwnerRole(s.db, s.catalog, t, r)
  }

  /** What the checks of a finished request leave open for team `t` and its role `r`. */
  predicate Spares(db: Db, q: Request, t: nat, r: nat)
    requires t in db.owners
  {
    && (q.EditRole? || q.DropRole? ==> q.role != r)
    && (q.TakeRole? ==> !(q.team == t && q.role == r && q.target == db.owners[t]))
    && (q.RemoveUser? ==> !(q.team == t && q.target == db.owners[t]))
  }

  lemma FinishedSpares(db: Db, issued: set<nat>, f: Flight, catalog: set<string>, t: nat, r: nat)
    requires Knows(db, issued, f) && f.done == |Plan(f.request)| && OwnerRole(db, catalog, t, r)
    ensures Spares(db, f.request, t, r)
  {
    var q := f.request;
    if q.EditRole? || q.DropRole? || q.TakeRole? {
      AllBehind(f, IsTeamRole);
    }
    if q.RemoveUser? {
      AllBehind(f, NotOwner);
    }
  }

  lemma CreateRoleKeeps(db: Db, catalog: set<string>, team: nat, role: nat, name: string, keys: set<string>,
                        t: nat, r: nat)
    requires OwnerRole(db, catalog, t, r) && role !in db.roles
    ensures OwnerRole(CreateRole(db, team, role, name, keys), catalog, t, r)
  {
  }

  lemma UpdateRoleKeeps(db: Db, catalog: set<string>, role: nat, name: string, keys: set<string>, t: nat, r: nat)
    requires OwnerRole(db, catalog, t, r) && role != r
    ensures OwnerRole(UpdateRole(db, role, name, keys), catalog, t, r)
  {
  }

  lemma DeleteRoleKeeps(db: Db, catalog: set<string>, role: nat, t: nat, r: nat)
    requires OwnerRole(db, catalog, t, r) && role != r
    ensures OwnerRole(DeleteRole(db, role), catalog, t, r)
  {
  }

  lemma AssignmentsKeep(db: Db, catalog: set<string>, team: nat, user: nat, role: nat, t: nat, r: nat)
    requires OwnerRole(db, catalog, t, r)
    ensures OwnerRole(AssignRole(db, team, user, role), catalog, t, r)
    ensures !(team == t && role == r && user == db.owners[t]) ==>
            OwnerRole(UnassignRole(db, team, user, role), catalog, t, r)
  {
  }

  lemma RoleWritesKeep(db: Db, catalog: set<string>, q: Request, id: nat, t: nat, r: nat)
    requires OwnerRole(db, catalog, t, r) && Spares(db, q, t, r) && id !in db.roles
    requires q.NewRole? || q.EditRole? || q.DropRole? || q.GiveRole? || q.TakeRole?
    ensures OwnerRole(Commit(db, q, id, map[]), catalog, t, r)
  {
    match q
    case NewRole(team, name, keys) => CreateRoleKeeps(db, catalog, team, id, Trim(name), Keys(keys), t, r);
    case EditRole(_, role, name, keys) => UpdateRoleKeeps(db, catalog, role, Trim(name), Keys(keys), t, r);
    case DropRole(_, role) => DeleteRoleKeeps(db, catalog, role, t, r);
    case GiveRole(team, target, role) => AssignmentsKeep(db, catalog, team, target, role, t, r);
    case TakeRole(team, target, role) => AssignmentsKeep(db, catalog, team, target, role, t, r);
  }

  lemma OtherWritesKeep(db: Db, catalog: set<string>, q: Request, id: nat, rows: map<nat, nat>, t: nat, r: nat)
    requires OwnerRole(db, catalog, t, r) && Spares(db, q, t, r)
    requires q.AddUser? || q.Provision? || q.RemoveUser? || q.NewServer? || q.DropServer? || q.Complete?
    ensures OwnerRole(Commit(db, q, id, rows), catalog, t, r)
  {
    match q
    case AddUser(_, _) =>
    case Provision(_, _) =>
    case RemoveUser(_, _) =>
    case NewServer(_) =>
    case DropServer(_, _) =>
    case Complete(_, _) =>
  }

  lemma DeleteTeamKeeps(db: Db, catalog: set<string>, team: nat, t: nat, r: nat)
    requires OwnerRole(db, catalog, t, r) && t != team
    ensures OwnerRole(DeleteTeam(db, team), catalog, t, r)
  {
  }

  lemma CommitKeeps(db: Db, catalog: set<string>, q: Request, id: nat, rows: map<nat, nat>, t: nat, r: nat)
    requires OwnerRole(db, catalog, t, r) && Spares(db, q, t, r) && id !in db.roles
    requires t in Commit(db, q, id, rows).owners
    ensures OwnerRole(Commit(db, q, id, rows), catalog, t, r)
  {
    if q.DropTeam? {
      DeleteTeamKeeps(db, catalog, q.team, t, r);
    } else if q.AddUser? || q.Provision? || q.RemoveUser? || q.NewServer? || q.DropServer? || q.Complete? {
      OtherWritesKeep(db, catalog, q, id, rows, t, r);
    } else {
      RoleWritesKeep(db, catalog, q, id, t, r);
    }
  }

  lemma OnlyOldTeams(db: Db, q: Request, id: nat, rows: map<nat, nat>)
    ensures Commit(db, q, id, rows).owners.Keys <= db.owners.Keys
  {
    if !TouchesRoles(q) {
      OthersSettled(db, q, id, rows);
    }
  }

  lemma WriteKeeps(s: State, e: Event)
    requires Invariant(s) && OwnersAct(s) && e.Write? && Enabled(s, e)
    ensures OwnersAct(Next(s, e))
  {
    var s', f := Next(s, e), s.flights[e.flight];
    forall t | t in s'.db.owners
      ensures exists r :: OwnerRole(s'.db, s'.catalog, t, r)
    {
      OnlyOldTeams(s.db, f.request, e.id, e.rows);
      var r :| OwnerRole(s.db, s.catalog, t, r);
      FinishedSpares(s.db, s.issued, f, s.catalog, t, r);
      CommitKeeps(s.db, s.catalog, f.request, e.id, e.rows, t, r);
    }
  }

  lemma CreateTeamSeeds(db: Db, catalog: set<string>, actor: nat, team: nat, role: nat)
    requires Linked(db) && team !in db.owners && role !in db.roles
    ensures OwnerRole(CreateTeam(db, catalog, actor, team, role), catalog, team, role)
  {
  }

  lemma CreateTeamKeeps(db: Db, catalog: set<string>, actor: nat, team: nat, role: nat, t: nat, r: nat)
    requires OwnerRole(db, catalog, t, r) && team !in db.owners && role !in db.roles
    ensures OwnerRole(CreateTeam(db, catalog, actor, team, role), catalog, t, r)
  {
  }

  lemma NewTeamKeeps(s: State, e: Event)
    requires Invariant(s) && OwnersAct(s) && e.NewTeam? && Enabled(s, e)
    ensures OwnersAct(Next(s, e))
  {
    var s' := Next(s, e);
    CreateTeamSeeds(s.db, s.catalog, e.actor, e.team, e.role);
    forall t | t in s.db.owners
      ensures exists r :: OwnerRole(s'.db, s'.catalog, t, r)
    {
      var r :| OwnerRole(s.db, s.catalog, t, r);
      CreateTeamKeeps(s.db, s.catalog, e.actor, e.team, e.role, t, r);
    }
  }

  lemma BootKeeps(s: State, e: Event)
    requires OwnersAct(s) && e.Boot?
    ensures OwnersAct(Next(s, e))
  {
    var s' := Next(s, e);
    forall t | t in s'.db.owners
      ensures exists r :: OwnerRole(s'.db, s'.catalog, t, r)
    {
      var r :| OwnerRole(s.db, s.catalog, t, r);
      assert OwnerRole(s'.db, s'.catalog, t, r);
    }
  }

  lemma RestKeeps(s: State, e: Event)
    requires OwnersAct(s) && Enabled(s, e) && (e.Register? || e.Begin? || e.Ask? || e.Abort?)
    ensures OwnersAct(Next(s, e))
  {
    var s' := Next(s, e);
    forall t | t in s'.db.owners
      ensures exists r :: OwnerRole(s'.db, s'.catalog, t, r)
    {
      var r :| OwnerRole(s.db, s.catalog, t, r);
      assert OwnerRole(s'.db, s'.catalog, t, r);
    }
  }

  lemma StepKeeps(s: State, e: Event)
    requires Invariant(s) && OwnersAct(s) && Enabled(s, e)
    ensures OwnersAct(Next(s, e))
  {
    match e
    case Write(_, _, _) => WriteKeeps(s, e);
    case NewTeam(_, _, _) => NewTeamKeeps(s, e);
    case Boot(_) => BootKeeps(s, e);
    case _ => RestKeeps(s, e);
  }

  lemma {:induction false} RunKeeps(s: State, events: seq<Event>)
    requires Invariant(s) && OwnersAct(s) && Possible(s, events)
    ensures OwnersAct(After(s, events))
    decreases |events|
  {
    if events == [] {
    } else {
      TeamInvariant.StepKeeps(s, events[0]);
      StepKeeps(s, events[0]);
      RunKeeps(Next(s, events[0]), events[1..]);
    }
  }

  /** In every reachable state each team has exactly one built-in role, with the whole catalog. */
  lemma OneBuiltInRole(events: seq<Event>, t: nat) returns (r: nat)
    requires Possible(INITIAL, events) && t in After(INITIAL, events).db.owners
    ensures OwnerRole(After(INITIAL, events).db, After(INITIAL, events).catalog, t, r)
  {
    RunKeeps(INITIAL, events);
    var s := After(INITIAL, events);
    r :| OwnerRole(s.db, s.catalog, t, r);
  }

  lemma HoldsTheCatalog(db: Db, catalog: set<string>, t: nat, r: nat, key: string)
    requires OwnerRole(db, catalog, t, r) && key in catalog
    ensures Holds(db, t, db.owners[t], key)
  {
    var a := (t, db.owners[t], r);
    assert a in db.memberRoles && (a.2, key) in db.grants;
  }

  /**
   In every reachable state the owner of every team is a member and passes
   every check: each catalog key for `authorize`, each validated set of keys
   for `ensure_can_grant`.
   */
  lemma OwnerPasses(events: seq<Event>, t: nat, key: string, desired: set<string>)
    requires Possible(INITIAL, events)
    requires var s := After(INITIAL, events); t in s.db.owners && key in s.catalog && desired <= s.catalog
    ensures var s := After(INITIAL, events);
            var owner := s.db.owners[t];
            && (t, owner) in s.db.members
            && Authorized(s.db, t, owner, {key})
            && CanGrant(s.db, t, owner, desired)
  {
    var r := OneBuiltInRole(events, t);
    var s := After(INITIAL, events);
    HoldsTheCatalog(s.db, s.catalog, t, r, key);
    forall k | k in desired
      ensures Holds(s.db, t, s.db.owners[t], k)
    {
      HoldsTheCatalog(s.db, s.catalog, t, r, k);
    }
  }
}
