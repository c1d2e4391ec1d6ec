/** What every reachable state of the team tables and requests satisfies. */
module TeamInvariant {
  import opened Text
  import opened TeamTables
  import opened TeamRequests

  /** Every reference between tables points at a row. */
  predicate Linked(db: Db) {
    && (forall t | t in db.owners :: db.owners[t] in db.users)
    && (forall m | m in db.members :: m.0 in db.owners && m.1 in db.users)
    && (forall r | r in db.roles :: db.roles[r].team in db.owners)
    && (forall g | g in db.grants :: g.0 in db.roles)
    && (forall a | a in db.memberRoles :: (a.0, a.1) in db.members && RoleOfTeam(db, a.0, a.2))
  }

  /** Revocations point at a server of their team. */
  predicate LedgerLinked(db: Db) {
    && (forall s | s in db.servers :: db.servers[s] in db.owners)
    && (forall r | r in db.revocations :: db.revocations[r].server in ServersOf(db, db.revocations[r].team))
    && (forall e | e in db.events :: db.events[e].team in db.owners)
  }

  predicate LedgerIssued(db: Db, issued: set<nat>) {
    && db.servers.Keys <= issued && db.revocations.Keys <= issued && db.events.Keys <= issued
    && (forall r | r in db.revocations :: db.revocations[r].user in issued)
    && (forall e | e in db.events :: db.events[e].revocation in issued)
  }

  /** Everything stored was issued, so a new identifier is new everywhere. */
  predicate AllIssued(db: Db, issued: set<nat>) {
    && db.users <= issued && db.owners.Keys <= issued && db.roles.Keys <= issued
    && LedgerIssued(db, issued)
  }

  // --- The references, transaction by transaction.

  lemma CreateTeamLinked(db: Db, catalog: set<string>, actor: nat, team: nat, role: nat)
    requires Linked(db) && actor in db.users && role !in db.roles
    ensures Linked(CreateTeam(db, catalog, actor, team, role))
  {
  }

  lemma DeleteTeamLinked(db: Db, team: nat)
    requires Linked(db)
    ensures Linked(DeleteTeam(db, team))
  {
  }

  lemma CreateRoleLinked(db: Db, team: nat, role: nat, name: string, keys: set<string>)
    requires Linked(db) && role !in db.roles
    ensures Linked(CreateRole(db, team, role, name, keys))
  {
  }

  lemma UpdateRoleLinked(db: Db, role: nat, name: string, keys: set<string>)
    requires Linked(db)
    ensures Linked(UpdateRole(db, role, name, keys))
  {
  }

  lemma DeleteRoleLinked(db: Db, role: nat)
    requires Linked(db)
    ensures Linked(DeleteRole(db, role))
  {
  }

  lemma AddMemberLinked(db: Db, team: nat, user: nat)
    requires Linked(db)
    ensures Linked(AddMember(db, team, user))
  {
  }

  lemma RemoveMemberLinked(db: Db, team: nat, user: nat, rows: map<nat, nat>)
    requires Linked(db)
    ensures Linked(RemoveMember(db, team, user, rows))
  {
  }

  lemma AssignRoleLinked(db: Db, team: nat, user: nat, role: nat)
    requires Linked(db) && (role in db.roles ==> RoleOfTeam(db, team, role))
    ensures Linked(AssignRole(db, team, user, role))
  {
  }

  lemma ProvisionLinked(db: Db, team: nat, user: nat, role: Option<nat>)
    requires Linked(db)
    ensures Linked(ProvisionMember(db, team, user, role))
  {
  }

  lemma CommitLinked(db: Db, q: Request, id: nat, rows: map<nat, nat>)
    requires Linked(db) && id !in db.roles
    requires q.GiveRole? && q.role in db.roles ==> RoleOfTeam(db, q.team, q.role)
    ensures Linked(Commit(db, q, id, rows))
  {
    match q
    case NewRole(team, name, keys) => CreateRoleLinked(db, team, id, Trim(name), Keys(keys));
    case EditRole(_, role, name, keys) => UpdateRoleLinked(db, role, Trim(name), Keys(keys));
    case DropRole(_, role) => DeleteRoleLinked(db, role);
    case GiveRole(team, target, role) => AssignRoleLinked(db, team, target, role);
    case AddUser(team, target) => AddMemberLinked(db, team, target);
    case Provision(team, grant) => ProvisionLinked(db, team, id, grant);
    case RemoveUser(team, target) => RemoveMemberLinked(db, team, target, rows);
    case DropTeam(team) => DeleteTeamLinked(db, team);
    case _ =>
  }

  lemma RemovalLedgerLinked(db: Db, team: nat, user: nat, rows: map<nat, nat>)
    requires LedgerLinked(db) && RowForEveryServer(db, team, rows)
    ensures LedgerLinked(RemoveMember(db, team, user, rows))
  {
  }

  lemma DeletionsLedgerLinked(db: Db, team: nat, user: nat)
    requires LedgerLinked(db)
    ensures LedgerLinked(DeleteTeam(db, team))
    ensures LedgerLinked(AddMember(db, team, user))
  {
  }

  lemma ServersLedgerLinked(db: Db, team: nat, server: nat, id: nat)
    requires LedgerLinked(db) && id !in db.servers
    ensures LedgerLinked(DeleteServer(db, team, server))
    ensures LedgerLinked(CreateServer(db, team, id))
  {
  }

  lemma CompletionLedgerLinked(db: Db, team: nat, revocation: nat, event: nat)
    requires LedgerLinked(db)
    ensures LedgerLinked(CompleteRevocation(db, team, revocation, event))
  {
  }

  predicate TouchesLedger(q: Request) {
    q.AddUser? || q.RemoveUser? || q.DropTeam? || q.NewServer? || q.DropServer? || q.Complete?
  }

  /** The two have the same teams, servers, revocations and events. */
  predicate SameLedger(db: Db, db': Db) {
    db'.owners == db.owners && db'.servers == db.servers && db'.revocations == db.revocations && db'.events == db.events
  }

  lemma RolesLeaveTheLedger(db: Db, team: nat, role: nat, name: string, keys: set<string>)
    ensures SameLedger(db, CreateRole(db, team, role, name, keys))
    ensures SameLedger(db, UpdateRole(db, role, name, keys))
    ensures SameLedger(db, DeleteRole(db, role))
  {
  }

  lemma AssignmentsLeaveTheLedger(db: Db, team: nat, user: nat, role: nat, grant: Option<nat>)
    ensures SameLedger(db, AssignRole(db, team, user, role))
    ensures SameLedger(db, UnassignRole(db, team, user, role))
    ensures SameLedger(db, ProvisionMember(db, team, user, grant))
  {
  }

  lemma OthersLeaveTheLedger(db: Db, q: Request, id: nat, rows: map<nat, nat>)
    requires !TouchesLedger(q)
    ensures SameLedger(db, Commit(db, q, id, rows))
  {
    match q
    case NewRole(team, name, keys) => RolesLeaveTheLedger(db, team, id, Trim(name), Keys(keys));
    case EditRole(_, role, name, keys) => RolesLeaveTheLedger(db, 0, role, Trim(name), Keys(keys));
    case DropRole(_, role) => RolesLeaveTheLedger(db, 0, role, "", {});
    case GiveRole(team, target, role) => AssignmentsLeaveTheLedger(db, team, target, role, None);
    case TakeRole(team, target, role) => AssignmentsLeaveTheLedger(db, team, target, role, None);
    case Provision(team, grant) => AssignmentsLeaveTheLedger(db, team, id, 0, grant);
  }

  lemma SameLedgerLinked(db: Db, db': Db)
    requires LedgerLinked(db) && SameLedger(db, db')
    ensures LedgerLinked(db')
  {
  }

  lemma SameLedgerIssued(db: Db, db': Db, issued: set<nat>)
    requires LedgerIssued(db, issued) && SameLedger(db, db')
    ensures LedgerIssued(db', issued)
  {
  }

  lemma CommitLedgerLinked(db: Db, q: Request, id: nat, rows: map<nat, nat>)
    requires LedgerLinked(db) && id !in db.servers
    requires q.RemoveUser? ==> RowForEveryServer(db, q.team, rows)
    ensures LedgerLinked(Commit(db, q, id, rows))
  {
    match q
    case AddUser(team, target) => DeletionsLedgerLinked(db, team, target);
    case RemoveUser(team, target) => RemovalLedgerLinked(db, team, target, rows);
    case DropTeam(team) => DeletionsLedgerLinked(db, team, 0);
    case NewServer(team) => ServersLedgerLinked(db, team, 0, id);
    case DropServer(team, server) => ServersLedgerLinked(db, team, server, id);
    case Complete(team, revocation) => CompletionLedgerLinked(db, team, revocation, id);
    case _ =>
      OthersLeaveTheLedger(db, q, id, rows);
      SameLedgerLinked(db, Commit(db, q, id, rows));
  }

  lemma RemovalIssued(db: Db, team: nat, user: nat, rows: map<nat, nat>, issued: set<nat>)
    requires Linked(db) && AllIssued(db, issued) && rows.Keys <= issued
    ensures LedgerIssued(RemoveMember(db, team, user, rows), issued)
  {
    assert OwedRows(db, team, user, rows).Keys <= rows.Keys;
  }

  lemma DeletionsIssued(db: Db, team: nat, user: nat, server: nat, issued: set<nat>)
    requires LedgerIssued(db, issued)
    ensures LedgerIssued(DeleteTeam(db, team), issued)
    ensures LedgerIssued(DeleteServer(db, team, server), issued)
    ensures LedgerIssued(AddMember(db, team, user), issued)
  {
  }

  lemma NewRowIssued(db: Db, team: nat, revocation: nat, id: nat, issued: set<nat>)
    requires LedgerIssued(db, issued) && id in issued
    ensures LedgerIssued(CreateServer(db, team, id), issued)
    ensures LedgerIssued(CompleteRevocation(db, team, revocation, id), issued)
  {
  }

  lemma CommitLedgerIssued(db: Db, q: Request, id: nat, rows: map<nat, nat>, issued: set<nat>)
    requires Linked(db) && AllIssued(db, issued) && id in issued && rows.Keys <= issued
    ensures LedgerIssued(Commit(db, q, id, rows), issued)
  {
    match q
    case AddUser(team, target) => DeletionsIssued(db, team, target, 0, issued);
    case RemoveUser(team, target) => RemovalIssued(db, team, target, rows, issued);
    case DropTeam(team) => DeletionsIssued(db, team, 0, 0, issued);
    case DropServer(team, server) => DeletionsIssued(db, team, 0, server, issued);
    case NewServer(team) => NewRowIssued(db, team, 0, id, issued);
    case Complete(team, revocation) => NewRowIssued(db, team, revocation, id, issued);
    case _ =>
      OthersLeaveTheLedger(db, q, id, rows);
      SameLedgerIssued(db, Commit(db, q, id, rows), issued);
  }

  predicate TeamsIssued(db: Db, issued: set<nat>) {
    db.users <= issued && db.owners.Keys <= issued && db.roles.Keys <= issued
  }

  lemma CommitTeamsIssued(db: Db, q: Request, id: nat, rows: map<nat, nat>, issued: set<nat>)
    requires TeamsIssued(db, issued) && id in issued
    ensures TeamsIssued(Commit(db, q, id, rows), issued)
  {
    match q
    case NewRole(_, _, _) =>
    case EditRole(_, _, _, _) =>
    case DropRole(_, _) =>
    case GiveRole(_, _, _) =>
    case TakeRole(_, _, _) =>
    case AddUser(_, _) =>
    case Provision(_, _) =>
    case RemoveUser(_, _) =>
    case DropTeam(_) =>
    case NewServer(_) =>
    case DropServer(_, _) =>
    case Complete(_, _) =>
  }

  lemma IssuedMore(db: Db, issued: set<nat>, more: set<nat>)
    requires AllIssued(db, issued) && issued <= more
    ensures AllIssued(db, more)
  {
  }

  lemma CommitIssued(db: Db, q: Request, id: nat, rows: map<nat, nat>, issued: set<nat>)
    requires Linked(db) && AllIssued(db, issued)
    ensures AllIssued(Commit(db, q, id, rows), issued + {id} + rows.Keys)
  {
    var more := issued + {id} + rows.Keys;
    IssuedMore(db, issued, more);
    CommitLedgerIssued(db, q, id, rows, more);
    CommitTeamsIssued(db, q, id, rows, more);
  }

  // --- What a request in flight knows stays true.

  predicate RoleFits(db: Db, f: Flight) {
    var q := f.request;
    (q.EditRole? || q.DropRole? || q.GiveRole? || q.TakeRole?) && q.role in db.roles ==>
      && db.roles[q.role].team == q.team
      && (q.EditRole? || q.DropRole? ==> !db.roles[q.role].system)
      && (q.TakeRole? ==> !(db.roles[q.role].system && q.target == f.owner))
  }

  predicate RoleIssued(issued: set<nat>, q: Request) {
    q.EditRole? || q.DropRole? || q.GiveRole? || q.TakeRole? ==> q.role in issued
  }

  predicate Knows(db: Db, issued: set<nat>, f: Flight) {
    && f.done <= |Plan(f.request)|
    && (0 < f.done ==>
          && f.request.team in issued
          && (f.request.team in db.owners ==> db.owners[f.request.team] == f.owner))
    && (Behind(f, IsTeamRole) ==> RoleIssued(issued, f.request) && RoleFits(db, f))
    && (Behind(f, NotOwner) ==> f.request.RemoveUser? && f.request.target != f.owner)
    && (f.request.NewRole? || f.request.EditRole? ==> f.read == Keys(f.request.keys))
  }

  /** Teams keep their owner, roles their team and kind, unless they are new or go. */
  predicate Settled(db: Db, db': Db, issued: set<nat>) {
    && (forall t | t in db'.owners && t in issued :: t in db.owners && db.owners[t] == db'.owners[t])
    && (forall r | r in db'.roles && r in issued ::
          r in db.roles && db.roles[r].team == db'.roles[r].team && db.roles[r].system == db'.roles[r].system)
  }

  predicate TouchesRoles(q: Request) {
    q.NewRole? || q.EditRole? || q.DropRole? || q.DropTeam?
  }

  predicate SameTeams(db: Db, db': Db) {
    db'.owners == db.owners && db'.roles == db.roles
  }

  lemma MembershipLeavesTheTeams(db: Db, team: nat, user: nat, role: nat, grant: Option<nat>, rows: map<nat, nat>)
    ensures SameTeams(db, AssignRole(db, team, user, role))
    ensures SameTeams(db, UnassignRole(db, team, user, role))
    ensures SameTeams(db, AddMember(db, team, user))
    ensures SameTeams(db, ProvisionMember(db, team, user, grant))
    ensures SameTeams(db, RemoveMember(db, team, user, rows))
  {
  }

  lemma ServersLeaveTheTeams(db: Db, team: nat, server: nat, event: nat)
    ensures SameTeams(db, CreateServer(db, team, server))
    ensures SameTeams(db, DeleteServer(db, team, server))
    ensures SameTeams(db, CompleteRevocation(db, team, server, event))
  {
  }

  lemma OthersSettled(db: Db, q: Request, id: nat, rows: map<nat, nat>)
    requires !TouchesRoles(q)
    ensures SameTeams(db, Commit(db, q, id, rows))
  {
    match q
    case GiveRole(team, target, role) => MembershipLeavesTheTeams(db, team, target, role, None, rows);
    case TakeRole(team, target, role) => MembershipLeavesTheTeams(db, team, target, role, None, rows);
    case AddUser(team, target) => MembershipLeavesTheTeams(db, team, target, 0, None, rows);
    case Provision(team, grant) => MembershipLeavesTheTeams(db, team, id, 0, grant, rows);
    case RemoveUser(team, target) => MembershipLeavesTheTeams(db, team, target, 0, None, rows);
    case NewServer(team) => ServersLeaveTheTeams(db, team, id, 0);
    case DropServer(team, server) => ServersLeaveTheTeams(db, team, server, 0);
    case Complete(team, revocation) => ServersLeaveTheTeams(db, team, revocation, id);
  }

  lemma SameSettled(db: Db, db': Db, issued: set<nat>)
    requires SameTeams(db, db')
    ensures Settled(db, db', issued)
  {
  }

  lemma CreateRoleSettled(db: Db, team: nat, role: nat, name: string, keys: set<string>, issued: set<nat>)
    requires role !in issued
    ensures Settled(db, CreateRole(db, team, role, name, keys), issued)
  {
  }

  lemma DeletionsSettled(db: Db, team: nat, role: nat, issued: set<nat>)
    ensures Settled(db, DeleteRole(db, role), issued)
    ensures Settled(db, DeleteTeam(db, team), issued)
  {
  }

  lemma UpdateRoleSettled(db: Db, role: nat, name: string, keys: set<string>, issued: set<nat>)
    ensures Settled(db, UpdateRole(db, role, name, keys), issued)
  {
  }

  lemma CommitSettled(db: Db, q: Request, id: nat, rows: map<nat, nat>, issued: set<nat>)
    requires id !in issued
    ensures Settled(db, Commit(db, q, id, rows), issued)
  {
    match q
    case NewRole(team, name, keys) => CreateRoleSettled(db, team, id, Trim(name), Keys(keys), issued);
    case EditRole(_, role, name, keys) => UpdateRoleSettled(db, role, Trim(name), Keys(keys), issued);
    case DropRole(_, role) => DeletionsSettled(db, 0, role, issued);
    case DropTeam(team) => DeletionsSettled(db, team, 0, issued);
    case _ =>
      OthersSettled(db, q, id, rows);
      SameSettled(db, Commit(db, q, id, rows), issued);
  }

  lemma KnowsStill(db: Db, db': Db, issued: set<nat>, issued': set<nat>, f: Flight)
    requires Knows(db, issued, f) && Settled(db, db', issued) && issued <= issued'
    ensures Knows(db', issued', f)
  {
  }

  lemma BehindNext(f: Flight, g: Flight, c: Check)
    requires g.request == f.request && g.done == f.done + 1 && f.done < |Plan(f.request)|
    ensures Behind(g, c) <==> Behind(f, c) || c == Plan(f.request)[f.done]
  {
    var plan := Plan(f.request);
    assert plan[..f.done + 1] == plan[..f.done] + [plan[f.done]];
  }

  lemma FirstCheck(q: Request)
    ensures Plan(q) != [] && Plan(q)[0] == IsMember
    ensures forall i | 0 < i < |Plan(q)| :: Plan(q)[i] != IsMember
  {
  }

  lemma KnowsMore(db: Db, catalog: set<string>, issued: set<nat>, f: Flight)
    requires Knows(db, issued, f) && AllIssued(db, issued) && f.done < |Plan(f.request)|
    requires Passes(db, catalog, f, Plan(f.request)[f.done])
    ensures Knows(db, issued, Passed(db, f, Plan(f.request)[f.done]))
  {
    var c := Plan(f.request)[f.done];
    var g := Passed(db, f, c);
    FirstCheck(f.request);
    BehindNext(f, g, IsTeamRole);
    BehindNext(f, g, NotOwner);
    assert 0 < f.done ==> g.owner == f.owner;
  }

  predicate Invariant(s: State) {
    && Linked(s.db) && LedgerLinked(s.db) && AllIssued(s.db, s.issued)
    && forall k | k in s.flights :: Knows(s.db, s.issued, s.flights[k])
  }

  /** Everything a finished request asked is behind it. */
  lemma AllBehind(f: Flight, c: Check)
    requires f.done == |Plan(f.request)| && c in Plan(f.request)
    ensures Behind(f, c)
  {
    assert Plan(f.request)[..f.done] == Plan(f.request);
  }

  lemma WriteKeeps(s: State, e: Event)
    requires Invariant(s) && e.Write? && Enabled(s, e)
    ensures Invariant(Next(s, e))
  {
    var f, s' := s.flights[e.flight], Next(s, e);
    var q := f.request;
    if q.GiveRole? {
      AllBehind(f, IsTeamRole);
    }
    CommitLinked(s.db, q, e.id, e.rows);
    CommitLedgerLinked(s.db, q, e.id, e.rows);
    CommitIssued(s.db, q, e.id, e.rows, s.issued);
    CommitSettled(s.db, q, e.id, e.rows, s.issued);
    forall k | k in s'.flights
      ensures Knows(s'.db, s'.issued, s'.flights[k])
    {
      KnowsStill(s.db, s'.db, s.issued, s'.issued, s.flights[k]);
    }
  }

  lemma NewTeamKeeps(s: State, e: Event)
    requires Invariant(s) && e.NewTeam? && Enabled(s, e)
    ensures Invariant(Next(s, e))
  {
    var s' := Next(s, e);
    CreateTeamLinked(s.db, s.catalog, e.actor, e.team, e.role);
    forall k | k in s'.flights
      ensures Knows(s'.db, s'.issued, s'.flights[k])
    {
      KnowsStill(s.db, s'.db, s.issued, s'.issued, s.flights[k]);
    }
  }

  lemma AskKeeps(s: State, e: Event)
    requires Invariant(s) && e.Ask? && Enabled(s, e)
    ensures Invariant(Next(s, e))
  {
    var f := s.flights[e.flight];
    if Passes(s.db, s.catalog, f, Plan(f.request)[f.done]) {
      KnowsMore(s.db, s.catalog, s.issued, f);
    }
  }

  lemma BootKeeps(s: State, e: Event)
    requires Invariant(s) && e.Boot?
    ensures Invariant(Next(s, e))
  {
  }

  lemma RegisterKeeps(s: State, e: Event)
    requires Invariant(s) && e.Register? && Enabled(s, e)
    ensures Invariant(Next(s, e))
  {
    var s' := Next(s, e);
    forall k | k in s'.flights
      ensures Knows(s'.db, s'.issued, s'.flights[k])
    {
      KnowsStill(s.db, s'.db, s.issued, s'.issued, s.flights[k]);
    }
  }

  lemma FlightsKeep(s: State, e: Event)
    requires Invariant(s) && Enabled(s, e) && (e.Begin? || e.Abort?)
    ensures Invariant(Next(s, e))
  {
  }

  lemma StepKeeps(s: State, e: Event)
    requires Invariant(s) && Enabled(s, e)
    ensures Invariant(Next(s, e))
  {
    match e
    case Write(_, _, _) => WriteKeeps(s, e);
    case NewTeam(_, _, _) => NewTeamKeeps(s, e);
    case Ask(_) => AskKeeps(s, e);
    case Boot(_) => BootKeeps(s, e);
    case Register(_) => RegisterKeeps(s, e);
    case _ => FlightsKeep(s, e);
  }

  /** The invariant holds all along every run. */
  lemma {:induction false} RunKeeps(s: State, events: seq<Event>)
    requires Invariant(s) && Possible(s, events)
    ensures Invariant(After(s, events))
    decreases |events|
  {
    if events == [] {
    } else {
      StepKeeps(s, events[0]);
      RunKeeps(Next(s, events[0]), events[1..]);
    }
  }
}
