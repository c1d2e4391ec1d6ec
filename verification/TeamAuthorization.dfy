/**
 What the checks of the handlers are worth: every write was authorized, and
 what belongs to a team changes only through people who held the key for it
 when they were asked.
 */
module TeamAuthorization {
  import opened Text
  import opened TeamTables
  import opened TeamRequests
  import opened TeamInvariant

  /** The keys one of which a request needs. */
  function Needed(q: Request): set<string> {
    match q
    case NewRole(_, _, _) => {"team.roles.manage"}
    case EditRole(_, _, _, _) => {"team.roles.manage"}
    case DropRole(_, _) => {"team.roles.manage"}
    case GiveRole(_, _, _) => {"team.roles.manage", "team.roles.assign"}
    case TakeRole(_, _, _) => {"team.roles.manage", "team.roles.assign"}
    case AddUser(_, _) => {"team.members.add"}
    case Provision(_, _) => {"team.members.add"}
    case RemoveUser(_, _) => {"team.members.remove"}
    case DropTeam(_) => {"team.delete"}
    case NewServer(_) => {"servers.manage"}
    case DropServer(_, _) => {"servers.manage"}
    case Complete(_, _) => {"servers.manage"}
  }

  // --- Every write was authorized.

  /** At this step the flight is asked, as a member of the team who holds one of the keys. */
  predicate Grants(s: State, e: Event, k: nat, actor: nat, q: Request) {
    && e == Ask(k) && k in s.flights && s.flights[k].actor == actor && s.flights[k].request == q
    && exists key | key in Needed(q) :: Holds(s.db, q.team, actor, key)
  }

  predicate SomeGrant(s: State, events: seq<Event>, k: nat, actor: nat, q: Request)
    requires Possible(s, events)
    decreases |events|
  {
    events != [] && (Grants(s, events[0], k, actor, q) || SomeGrant(Next(s, events[0]), events[1..], k, actor, q))
  }

  /** The second check of every handler is the one for its keys. */
  lemma SecondCheck(q: Request)
    ensures |Plan(q)| >= 2 && Plan(q)[1] == MayDo(Needed(q))
  {
  }

  /** The flight is behind its second check. */
  predicate PastKeys(s: State, k: nat, actor: nat, q: Request) {
    k in s.flights && s.flights[k].actor == actor && s.flights[k].request == q && s.flights[k].done > 1
  }

  lemma PastComesFrom(s: State, e: Event, k: nat, actor: nat, q: Request)
    requires Enabled(s, e) && PastKeys(Next(s, e), k, actor, q)
    ensures PastKeys(s, k, actor, q) || Grants(s, e, k, actor, q)
  {
    if !PastKeys(s, k, actor, q) {
      SecondCheck(q);
      assert e == Ask(k);
    }
  }

  lemma {:induction false} PastOrigin(s: State, events: seq<Event>, k: nat, actor: nat, q: Request)
    requires Possible(s, events) && PastKeys(After(s, events), k, actor, q)
    ensures PastKeys(s, k, actor, q) || SomeGrant(s, events, k, actor, q)
    decreases |events|
  {
    if events == [] {
    } else {
      PastOrigin(Next(s, events[0]), events[1..], k, actor, q);
      if PastKeys(Next(s, events[0]), k, actor, q) {
        PastComesFrom(s, events[0], k, actor, q);
      }
    }
  }

  /** Over every run, a request that comes to its write was asked while its actor held a key for it. */
  lemma WriteWasAuthorized(events: seq<Event>, k: nat, id: nat, rows: map<nat, nat>)
    requires Possible(INITIAL, events) && Enabled(After(INITIAL, events), Write(k, id, rows))
    ensures var f := After(INITIAL, events).flights[k]; SomeGrant(INITIAL, events, k, f.actor, f.request)
  {
    var f := After(INITIAL, events).flights[k];
    SecondCheck(f.request);
    PastOrigin(INITIAL, events, k, f.actor, f.request);
  }

  // --- What a run without a key leaves alone.

  /** The actor holds no key for the request. */
  predicate Refused(s: State, k: nat)
    requires k in s.flights
  {
    var f := s.flights[k];
    forall key | key in Needed(f.request) :: !Holds(s.db, f.request.team, f.actor, key)
  }

  /** The step asks about a request on the team that needs these keys. */
  predicate AsksFor(s: State, e: Event, team: nat, keys: set<string>) {
    && e.Ask? && e.flight in s.flights
    && s.flights[e.flight].request.team == team && Needed(s.flights[e.flight].request) <= keys
  }

  /** Nobody who is asked about such a request holds a key for it then. */
  predicate AskersLack(s: State, events: seq<Event>, team: nat, keys: set<string>)
    requires Possible(s, events)
    decreases |events|
  {
    events != [] ==>
      && (AsksFor(s, events[0], team, keys) ==> Refused(s, events[0].flight))
      && AskersLack(Next(s, events[0]), events[1..], team, keys)
  }

  predicate TeamStays(db: Db, db': Db, team: nat, keys: set<string>) {
    "team.delete" in keys && team in db.owners ==> team in db'.owners && db'.owners[team] == db.owners[team]
  }

  ghost predicate NoNewMember(db: Db, db': Db, team: nat, keys: set<string>) {
    "team.members.add" in keys ==> forall u: nat | (team, u) in db'.members :: (team, u) in db.members
  }

  ghost predicate NoMemberLost(db: Db, db': Db, team: nat, keys: set<string>) {
    {"team.members.remove", "team.delete"} <= keys ==>
      forall u: nat | (team, u) in db.members :: (team, u) in db'.members
  }

  /** Roles are as they were; a built-in one may get keys at a restart. */
  ghost predicate NoNewRole(db: Db, db': Db, team: nat, keys: set<string>) {
    "team.roles.manage" in keys ==>
      forall r | RoleOfTeam(db', team, r) ::
        && RoleOfTeam(db, team, r) && db'.roles[r] == db.roles[r]
        && (!db.roles[r].system ==> RolePermissions(db', r) <= RolePermissions(db, r))
  }

  ghost predicate NoRoleLost(db: Db, db': Db, team: nat, keys: set<string>) {
    {"team.roles.manage", "team.delete"} <= keys ==>
      forall r | RoleOfTeam(db, team, r) ::
        && RoleOfTeam(db', team, r) && db'.roles[r] == db.roles[r]
        && RolePermissions(db, r) <= RolePermissions(db', r)
  }

  /** Who had an account gets no role. */
  ghost predicate NoNewAssignment(db: Db, db': Db, team: nat, keys: set<string>) {
    {"team.roles.manage", "team.roles.assign"} <= keys ==>
      forall u: nat, r: nat | (team, u, r) in db'.memberRoles && u in db.users :: (team, u, r) in db.memberRoles
  }

  ghost predicate NoAssignmentLost(db: Db, db': Db, team: nat, keys: set<string>) {
    {"team.roles.manage", "team.roles.assign", "team.members.remove", "team.delete"} <= keys ==>
      forall u: nat, r: nat | (team, u, r) in db.memberRoles :: (team, u, r) in db'.memberRoles
  }

  ghost predicate NoNewServer(db: Db, db': Db, team: nat, keys: set<string>) {
    "servers.manage" in keys ==> forall s | s in ServersOf(db', team) :: s in ServersOf(db, team)
  }

  ghost predicate NoServerLost(db: Db, db': Db, team: nat, keys: set<string>) {
    {"servers.manage", "team.delete"} <= keys ==> forall s | s in ServersOf(db, team) :: s in ServersOf(db', team)
  }

  predicate CompletedFor(db: Db, team: nat, r: nat) {
    r in db.revocations && db.revocations[r].team == team && db.revocations[r].completed
  }

  ghost predicate NothingCompleted(db: Db, db': Db, team: nat, keys: set<string>) {
    "servers.manage" in keys ==>
      && (forall r | CompletedFor(db', team, r) :: CompletedFor(db, team, r))
      && (forall e | e in db'.events && db'.events[e].team == team :: e in db.events && db.events[e] == db'.events[e])
  }

  ghost predicate PeopleStay(db: Db, db': Db, team: nat, keys: set<string>) {
    && TeamStays(db, db', team, keys) && NoNewMember(db, db', team, keys) && NoMemberLost(db, db', team, keys)
  }

  ghost predicate RolesStay(db: Db, db': Db, team: nat, keys: set<string>) {
    && NoNewRole(db, db', team, keys) && NoRoleLost(db, db', team, keys)
  }

  ghost predicate AssignmentsStay(db: Db, db': Db, team: nat, keys: set<string>) {
    && db.users <= db'.users && NoNewAssignment(db, db', team, keys) && NoAssignmentLost(db, db', team, keys)
  }

  ghost predicate ServersStay(db: Db, db': Db, team: nat, keys: set<string>) {
    && NoNewServer(db, db', team, keys) && NoServerLost(db, db', team, keys) && NothingCompleted(db, db', team, keys)
  }

  ghost predicate Stays(db: Db, db': Db, team: nat, keys: set<string>) {
    && PeopleStay(db, db', team, keys) && RolesStay(db, db', team, keys)
    && AssignmentsStay(db, db', team, keys) && ServersStay(db, db', team, keys)
  }

  lemma RolesStayTwice(db: Db, db': Db, db'': Db, team: nat, keys: set<string>)
    requires RolesStay(db, db', team, keys) && RolesStay(db', db'', team, keys)
    ensures RolesStay(db, db'', team, keys)
  {
  }

  lemma ServersStayTwice(db: Db, db': Db, db'': Db, team: nat, keys: set<string>)
    requires ServersStay(db, db', team, keys) && ServersStay(db', db'', team, keys)
    ensures ServersStay(db, db'', team, keys)
  {
  }

  lemma StaysTwice(db: Db, db': Db, db'': Db, team: nat, keys: set<string>)
    requires Stays(db, db', team, keys) && Stays(db', db'', team, keys)
    ensures Stays(db, db'', team, keys)
  {
    RolesStayTwice(db, db', db'', team, keys);
    ServersStayTwice(db, db', db'', team, keys);
  }

  // --- Write by write.

  /** The request does not need more than the keys that nobody holds; on a role it knows the role's team. */
  predicate Allowed(db: Db, q: Request, team: nat, keys: set<string>) {
    && (q.team == team ==> !(Needed(q) <= keys))
    && (q.EditRole? || q.DropRole? ==> q.role in db.roles ==> db.roles[q.role].team == q.team)
  }

  predicate SamePeople(db: Db, db': Db) {
    db'.owners == db.owners && db'.members == db.members
  }

  lemma OthersLeavePeople(db: Db, q: Request, id: nat, rows: map<nat, nat>)
    requires !q.AddUser? && !q.Provision? && !q.RemoveUser? && !q.DropTeam?
    ensures SamePeople(db, Commit(db, q, id, rows))
  {
    match q
    case NewRole(_, _, _) =>
    case EditRole(_, _, _, _) =>
    case DropRole(_, _) =>
    case GiveRole(_, _, _) =>
    case TakeRole(_, _, _) =>
    case NewServer(_) =>
    case DropServer(_, _) =>
    case Complete(_, _) =>
  }

  lemma CommitPeople(db: Db, q: Request, id: nat, rows: map<nat, nat>, team: nat, keys: set<string>)
    requires Allowed(db, q, team, keys)
    ensures PeopleStay(db, Commit(db, q, id, rows), team, keys)
  {
    match q
    case AddUser(_, _) =>
    case Provision(_, _) =>
    case RemoveUser(_, _) =>
    case DropTeam(_) =>
    case _ => OthersLeavePeople(db, q, id, rows);
  }

  predicate SameRoles(db: Db, db': Db) {
    db'.roles == db.roles && db'.grants == db.grants
  }

  lemma OthersLeaveRoles(db: Db, q: Request, id: nat, rows: map<nat, nat>)
    requires !TouchesRoles(q)
    ensures SameRoles(db, Commit(db, q, id, rows))
  {
    match q
    case GiveRole(_, _, _) =>
    case TakeRole(_, _, _) =>
    case AddUser(_, _) =>
    case Provision(_, _) =>
    case RemoveUser(_, _) =>
    case NewServer(_) =>
    case DropServer(_, _) =>
    case Complete(_, _) =>
  }

  lemma SameRolesStay(db: Db, db': Db, team: nat, keys: set<string>)
    requires SameRoles(db, db')
    ensures RolesStay(db, db', team, keys)
  {
  }

  lemma NewRoleStays(db: Db, t: nat, role: nat, name: string, k: set<string>, team: nat, keys: set<string>)
    requires Linked(db) && role !in db.roles && (t == team ==> "team.roles.manage" !in keys)
    ensures RolesStay(db, CreateRole(db, t, role, name, k), team, keys)
  {
  }

  lemma EditRoleStays(db: Db, role: nat, name: string, k: set<string>, team: nat, keys: set<string>)
    requires RoleOfTeam(db, team, role) ==> "team.roles.manage" !in keys
    ensures RolesStay(db, UpdateRole(db, role, name, k), team, keys)
  {
  }

  lemma DropRoleStays(db: Db, role: nat, team: nat, keys: set<string>)
    requires RoleOfTeam(db, team, role) ==> "team.roles.manage" !in keys
    ensures RolesStay(db, DeleteRole(db, role), team, keys)
  {
  }

  lemma DropTeamLeavesRoles(db: Db, t: nat, team: nat, keys: set<string>)
    requires t == team ==> "team.delete" !in keys
    ensures RolesStay(db, DeleteTeam(db, t), team, keys)
  {
  }

  lemma CommitRoles(db: Db, q: Request, id: nat, rows: map<nat, nat>, team: nat, keys: set<string>)
    requires Linked(db) && id !in db.roles && Allowed(db, q, team, keys)
    ensures RolesStay(db, Commit(db, q, id, rows), team, keys)
  {
    match q
    case NewRole(t, name, k) => NewRoleStays(db, t, id, Trim(name), Keys(k), team, keys);
    case EditRole(_, role, name, k) => EditRoleStays(db, role, Trim(name), Keys(k), team, keys);
    case DropRole(_, role) => DropRoleStays(db, role, team, keys);
    case DropTeam(t) => DropTeamLeavesRoles(db, t, team, keys);
    case _ =>
      OthersLeaveRoles(db, q, id, rows);
      SameRolesStay(db, Commit(db, q, id, rows), team, keys);
  }

  lemma OthersLeaveAssignments(db: Db, q: Request, id: nat, rows: map<nat, nat>)
    requires !q.DropRole? && !q.GiveRole? && !q.TakeRole? && !q.Provision? && !q.RemoveUser? && !q.DropTeam?
    ensures Commit(db, q, id, rows).memberRoles == db.memberRoles && Commit(db, q, id, rows).users == db.users
  {
    match q
    case NewRole(_, _, _) =>
    case EditRole(_, _, _, _) =>
    case AddUser(_, _) =>
    case NewServer(_) =>
    case DropServer(_, _) =>
    case Complete(_, _) =>
  }

  lemma CommitAssignments(db: Db, q: Request, id: nat, rows: map<nat, nat>, team: nat, keys: set<string>)
    requires Linked(db) && id !in db.users && Allowed(db, q, team, keys)
    ensures AssignmentsStay(db, Commit(db, q, id, rows), team, keys)
  {
    match q
    case DropRole(_, _) =>
    case GiveRole(_, _, _) =>
    case TakeRole(_, _, _) =>
    case Provision(_, _) =>
    case RemoveUser(_, _) =>
    case DropTeam(_) =>
    case _ => OthersLeaveAssignments(db, q, id, rows);
  }

  lemma SameLedgerStays(db: Db, db': Db, team: nat, keys: set<string>)
    requires SameLedger(db, db')
    ensures ServersStay(db, db', team, keys)
  {
  }

  lemma CompletionStays(db: Db, t: nat, rev: nat, id: nat, team: nat, keys: set<string>)
    requires id !in db.events && (t == team ==> "servers.manage" !in keys)
    ensures ServersStay(db, CompleteRevocation(db, t, rev, id), team, keys)
  {
  }

  lemma RemovalStays(db: Db, t: nat, user: nat, rows: map<nat, nat>, team: nat, keys: set<string>)
    requires rows.Keys !! db.revocations.Keys
    ensures ServersStay(db, RemoveMember(db, t, user, rows), team, keys)
  {
  }

  lemma ReturnStays(db: Db, t: nat, user: nat, team: nat, keys: set<string>)
    ensures ServersStay(db, AddMember(db, t, user), team, keys)
  {
  }

  lemma DeletionStays(db: Db, t: nat, team: nat, keys: set<string>)
    requires LedgerLinked(db) && (t == team ==> "team.delete" !in keys)
    ensures ServersStay(db, DeleteTeam(db, t), team, keys)
  {
  }

  lemma CommitServers(db: Db, q: Request, id: nat, rows: map<nat, nat>, team: nat, keys: set<string>)
    requires LedgerLinked(db) && id !in db.servers && id !in db.events && rows.Keys !! db.revocations.Keys
    requires Allowed(db, q, team, keys)
    ensures ServersStay(db, Commit(db, q, id, rows), team, keys)
  {
    match q
    case AddUser(t, target) => ReturnStays(db, t, target, team, keys);
    case RemoveUser(t, target) => RemovalStays(db, t, target, rows, team, keys);
    case DropTeam(t) => DeletionStays(db, t, team, keys);
    case NewServer(_) =>
    case DropServer(_, _) =>
    case Complete(t, revocation) => CompletionStays(db, t, revocation, id, team, keys);
    case _ =>
      OthersLeaveTheLedger(db, q, id, rows);
      SameLedgerStays(db, Commit(db, q, id, rows), team, keys);
  }

  lemma CommitStays(db: Db, q: Request, id: nat, rows: map<nat, nat>, issued: set<nat>, team: nat, keys: set<string>)
    requires Linked(db) && LedgerLinked(db) && AllIssued(db, issued) && id !in issued && rows.Keys !! issued
    requires Allowed(db, q, team, keys)
    ensures Stays(db, Commit(db, q, id, rows), team, keys)
  {
    CommitPeople(db, q, id, rows, team, keys);
    CommitRoles(db, q, id, rows, team, keys);
    CommitAssignments(db, q, id, rows, team, keys);
    CommitServers(db, q, id, rows, team, keys);
  }

  lemma NewTeamStays(db: Db, catalog: set<string>, actor: nat, t: nat, role: nat, team: nat, keys: set<string>)
    requires t != team && role !in db.roles
    ensures Stays(db, CreateTeam(db, catalog, actor, t, role), team, keys)
  {
  }

  lemma BootStays(db: Db, catalog: set<string>, team: nat, keys: set<string>)
    ensures Stays(db, Backfill(db, catalog), team, keys)
  {
  }

  // --- Along runs.

  /** Of the requests on the team, none that needs the keys is behind its second check. */
  predicate Held(s: State, team: nat, keys: set<string>) {
    forall k | k in s.flights && s.flights[k].request.team == team && Needed(s.flights[k].request) <= keys ::
      s.flights[k].done <= 1
  }

  lemma WriteAllowed(s: State, e: Event, team: nat, keys: set<string>)
    requires Invariant(s) && Held(s, team, keys) && e.Write? && Enabled(s, e)
    ensures Allowed(s.db, s.flights[e.flight].request, team, keys)
  {
    var f := s.flights[e.flight];
    SecondCheck(f.request);
    if f.request.EditRole? || f.request.DropRole? {
      AllBehind(f, IsTeamRole);
    }
  }

  lemma AskHeld(s: State, e: Event, team: nat, keys: set<string>)
    requires Held(s, team, keys) && e.Ask? && Enabled(s, e)
    requires AsksFor(s, e, team, keys) ==> Refused(s, e.flight)
    ensures Held(Next(s, e), team, keys)
  {
    SecondCheck(s.flights[e.flight].request);
  }

  lemma StepStays(s: State, e: Event, team: nat, keys: set<string>)
    requires Invariant(s) && Held(s, team, keys) && team in s.issued && Enabled(s, e)
    requires AsksFor(s, e, team, keys) ==> Refused(s, e.flight)
    ensures Stays(s.db, Next(s, e).db, team, keys) && Held(Next(s, e), team, keys)
  {
    match e
    case Write(k, id, rows) =>
      WriteAllowed(s, e, team, keys);
      CommitStays(s.db, s.flights[k].request, id, rows, s.issued, team, keys);
    case NewTeam(actor, t, role) => NewTeamStays(s.db, s.catalog, actor, t, role, team, keys);
    case Boot(catalog) => BootStays(s.db, catalog, team, keys);
    case Ask(_) => AskHeld(s, e, team, keys);
    case Register(_) =>
    case Begin(_, _, _) =>
    case Abort(_) =>
  }

  lemma {:induction false} StaysAlong(s: State, events: seq<Event>, team: nat, keys: set<string>)
    requires Invariant(s) && Held(s, team, keys) && team in s.issued
    requires Possible(s, events) && AskersLack(s, events, team, keys)
    ensures Stays(s.db, After(s, events).db, team, keys)
    decreases |events|
  {
    if events == [] {
    } else {
      var s' := Next(s, events[0]);
      StepStays(s, events[0], team, keys);
      TeamInvariant.StepKeeps(s, events[0]);
      StaysAlong(s', events[1..], team, keys);
      StaysTwice(s.db, s'.db, After(s, events).db, team, keys);
    }
  }

  /**
   A reachable state with the team, in which no request that needs the keys is
   past the check for them; then a run in which nobody who is asked about such
   a request holds a key for it.
   */
  predicate RunWithout(before: seq<Event>, events: seq<Event>, team: nat, keys: set<string>) {
    && Possible(INITIAL, before)
    && var s := After(INITIAL, before);
    && team in s.db.owners && Held(s, team, keys)
    && Possible(s, events) && AskersLack(s, events, team, keys)
  }

  lemma RunStays(before: seq<Event>, events: seq<Event>, team: nat, keys: set<string>)
    requires RunWithout(before, events, team, keys)
    ensures Stays(After(INITIAL, before).db, After(After(INITIAL, before), events).db, team, keys)
  {
    TeamInvariant.RunKeeps(INITIAL, before);
    StaysAlong(After(INITIAL, before), events, team, keys);
  }

  /** Without `team.delete` among those asked, the team and its owner stay. */
  lemma TeamNeedsItsKey(before: seq<Event>, events: seq<Event>, team: nat)
    requires RunWithout(before, events, team, {"team.delete"})
    ensures var db, db' := After(INITIAL, before).db, After(After(INITIAL, before), events).db;
            team in db'.owners && db'.owners[team] == db.owners[team]
  {
    RunStays(before, events, team, {"team.delete"});
  }

  /** Without `team.members.add` nobody joins; without `team.members.remove` and `team.delete` nobody leaves. */
  lemma JoiningNeedsItsKey(before: seq<Event>, events: seq<Event>, team: nat, user: nat)
    requires RunWithout(before, events, team, {"team.members.add"})
    ensures var db, db' := After(INITIAL, before).db, After(After(INITIAL, before), events).db;
            (team, user) in db'.members ==> (team, user) in db.members
  {
    RunStays(before, events, team, {"team.members.add"});
  }

  lemma LeavingNeedsItsKey(before: seq<Event>, events: seq<Event>, team: nat, user: nat)
    requires RunWithout(before, events, team, {"team.members.remove", "team.delete"})
    ensures var db, db' := After(INITIAL, before).db, After(After(INITIAL, before), events).db;
            (team, user) in db.members ==> (team, user) in db'.members
  {
    RunStays(before, events, team, {"team.members.remove", "team.delete"});
  }

  /** Without `team.roles.manage` no role is made or renamed, and none but a built-in one gets a key. */
  lemma MakingRolesNeedsItsKey(before: seq<Event>, events: seq<Event>, team: nat, r: nat, key: string)
    requires RunWithout(before, events, team, {"team.roles.manage"})
    ensures var db, db' := After(INITIAL, before).db, After(After(INITIAL, before), events).db;
            RoleOfTeam(db', team, r) ==>
              && RoleOfTeam(db, team, r) && db'.roles[r] == db.roles[r]
              && (!db.roles[r].system && (r, key) in db'.grants ==> (r, key) in db.grants)
  {
    RunStays(before, events, team, {"team.roles.manage"});
  }

  /** Without `team.roles.manage` and `team.delete` no role goes and none loses a key. */
  lemma LosingRolesNeedsItsKey(before: seq<Event>, events: seq<Event>, team: nat, r: nat, key: string)
    requires RunWithout(before, events, team, {"team.roles.manage", "team.delete"})
    ensures var db, db' := After(INITIAL, before).db, After(After(INITIAL, before), events).db;
            RoleOfTeam(db, team, r) ==>
              && RoleOfTeam(db', team, r) && db'.roles[r] == db.roles[r]
              && ((r, key) in db.grants ==> (r, key) in db'.grants)
  {
    RunStays(before, events, team, {"team.roles.manage", "team.delete"});
  }

  /** Without `team.roles.manage` and `team.roles.assign` nobody who had an account is given a role. */
  lemma AssigningNeedsItsKey(before: seq<Event>, events: seq<Event>, team: nat, user: nat, r: nat)
    requires RunWithout(before, events, team, {"team.roles.manage", "team.roles.assign"})
    ensures var db, db' := After(INITIAL, before).db, After(After(INITIAL, before), events).db;
            (team, user, r) in db'.memberRoles && user in db.users ==> (team, user, r) in db.memberRoles
  {
    RunStays(before, events, team, {"team.roles.manage", "team.roles.assign"});
  }

  /** And if besides nobody may remove members or delete the team, nobody loses a role. */
  lemma UnassigningNeedsItsKey(before: seq<Event>, events: seq<Event>, team: nat, user: nat, r: nat)
    requires RunWithout(before, events, team,
                        {"team.roles.manage", "team.roles.assign", "team.members.remove", "team.delete"})
    ensures var db, db' := After(INITIAL, before).db, After(After(INITIAL, before), events).db;
            (team, user, r) in db.memberRoles ==> (team, user, r) in db'.memberRoles
  {
    RunStays(before, events, team, {"team.roles.manage", "team.roles.assign", "team.members.remove", "team.delete"});
  }

  /** Without `servers.manage` no server is shared and no revocation completed. */
  lemma ServersNeedTheirKey(before: seq<Event>, events: seq<Event>, team: nat, server: nat, r: nat)
    requires RunWithout(before, events, team, {"servers.manage"})
    ensures var db, db' := After(INITIAL, before).db, After(After(INITIAL, before), events).db;
            && (server in ServersOf(db', team) ==> server in ServersOf(db, team))
            && (CompletedFor(db', team, r) ==> CompletedFor(db, team, r))
  {
    RunStays(before, events, team, {"servers.manage"});
  }

  /** Without it and `team.delete` no server goes. */
  lemma LosingServersNeedsTheirKey(before: seq<Event>, events: seq<Event>, team: nat, server: nat)
    requires RunWithout(before, events, team, {"servers.manage", "team.delete"})
    ensures var db, db' := After(INITIAL, before).db, After(After(INITIAL, before), events).db;
            server in ServersOf(db, team) ==> server in ServersOf(db', team)
  {
    RunStays(before, events, team, {"servers.manage", "team.delete"});
  }
}
