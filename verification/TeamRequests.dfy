/**
 The handlers as interleaved steps. A request in flight runs its checks one
 by one, each a query of its own against the tables of that moment, and then
 writes in one transaction; any number of requests are in flight at once.
 */
module TeamRequests {
  import opened Text
  import opened TeamTables

  datatype Request =
    | NewRole(team: nat, name: string, keys: seq<string>)
    | EditRole(team: nat, role: nat, name: string, keys: seq<string>)
    | DropRole(team: nat, role: nat)
    | GiveRole(team: nat, target: nat, role: nat)
    | TakeRole(team: nat, target: nat, role: nat)
    | AddUser(team: nat, target: nat)
    | Provision(team: nat, grant: Option<nat>)
    | RemoveUser(team: nat, target: nat)
    | DropTeam(team: nat)
    | NewServer(team: nat)
    | DropServer(team: nat, server: nat)
    | Complete(team: nat, revocation: nat)

  datatype Check =
    | IsMember             // team_for_member
    | MayDo(keys: set<string>) // authorize, authorize_any
    | InputOk              // validate_role_name, validate_permission_keys
    | IsTeamRole           // role_for_team and what the handler asks of the role
    | ReadsRole            // the role's permissions are read
    | MayGrant             // ensure_can_grant
    | TargetIsMember
    | TargetExists
    | NotOwner

  /** The checks of a handler, in its order. */
  function Plan(request: Request): seq<Check> {
    match request
    case NewRole(_, _, _) => [IsMember, MayDo({TEAM_ROLES_MANAGE}), InputOk, MayGrant]
    case EditRole(_, _, _, _) => [IsMember, MayDo({TEAM_ROLES_MANAGE}), IsTeamRole, InputOk, MayGrant]
    case DropRole(_, _) => [IsMember, MayDo({TEAM_ROLES_MANAGE}), IsTeamRole]
    case GiveRole(_, _, _) =>
      [IsMember, MayDo({TEAM_ROLES_MANAGE, TEAM_ROLES_ASSIGN}), IsTeamRole, ReadsRole, MayGrant, TargetIsMember]
    case TakeRole(_, _, _) => [IsMember, MayDo({TEAM_ROLES_MANAGE, TEAM_ROLES_ASSIGN}), IsTeamRole]
    case AddUser(_, _) => [IsMember, MayDo({TEAM_MEMBERS_ADD}), TargetExists]
    case Provision(_, grant) =>
      if grant.Some? then [IsMember, MayDo({TEAM_MEMBERS_ADD}), ReadsRole, MayGrant]
      else [IsMember, MayDo({TEAM_MEMBERS_ADD})]
    case RemoveUser(_, _) => [IsMember, MayDo({TEAM_MEMBERS_REMOVE}), NotOwner]
    case DropTeam(_) => [IsMember, MayDo({TEAM_DELETE})]
    case NewServer(_) => [IsMember, MayDo({SERVERS_MANAGE})]
    case DropServer(_, _) => [IsMember, MayDo({SERVERS_MANAGE})]
    case Complete(_, _) => [IsMember, MayDo({SERVERS_MANAGE})]
  }

  /**
   A request in flight: `done` checks have passed, `owner` is the team owner
   it read and `read` the permissions it is about to hand out.
   */
  datatype Flight = Flight(actor: nat, request: Request, done: nat, owner: nat, read: set<string>)

  function Started(actor: nat, request: Request): Flight {
    Flight(actor, request, 0, 0, if request.NewRole? || request.EditRole? then Keys(request.keys) else {})
  }

  predicate Passes(db: Db, catalog: set<string>, f: Flight, c: Check) {
    var q := f.request;
    match c
    case IsMember => q.team in db.owners && (q.team, f.actor) in db.members
    case MayDo(keys) => Authorized(db, q.team, f.actor, keys)
    case InputOk => (q.NewRole? || q.EditRole?) && ValidateRoleName(q.name).Accepted? && Keys(q.keys) <= catalog
    case IsTeamRole =>
      && (q.EditRole? || q.DropRole? || q.GiveRole? || q.TakeRole?)
      && RoleOfTeam(db, q.team, q.role)
      && (q.EditRole? || q.DropRole? ==> !db.roles[q.role].system)
      && (q.TakeRole? ==> !(db.roles[q.role].system && q.target == f.owner))
    case ReadsRole => true
    case MayGrant => CanGrant(db, q.team, f.actor, f.read)
    case TargetIsMember => q.GiveRole? && (q.team, q.target) in db.members
    case TargetExists => q.AddUser? && q.target in db.users
    case NotOwner => q.RemoveUser? && q.target != f.owner
  }

  /** The flight after a check it passed. */
  function Passed(db: Db, f: Flight, c: Check): Flight {
    var q := f.request;
    var g := f.(done := f.done + 1);
    if c.IsMember? && q.team in db.owners then g.(owner := db.owners[q.team])
    else if c.ReadsRole? && q.GiveRole? then g.(read := RolePermissions(db, q.role))
    else if c.ReadsRole? && q.Provision? && q.grant.Some? then
      g.(read := if RoleOfTeam(db, q.team, q.grant.value) then RolePermissions(db, q.grant.value) else {})
    else g
  }

  /** The write at the end of a request, with the identifiers it makes. */
  function Commit(db: Db, q: Request, id: nat, rows: map<nat, nat>): Db {
    match q
    case NewRole(team, name, keys) => CreateRole(db, team, id, Trim(name), Keys(keys))
    case EditRole(_, role, name, keys) => UpdateRole(db, role, Trim(name), Keys(keys))
    case DropRole(_, role) => DeleteRole(db, role)
    case GiveRole(team, target, role) => AssignRole(db, team, target, role)
    case TakeRole(team, target, role) => UnassignRole(db, team, target, role)
    case AddUser(team, target) => AddMember(db, team, target)
    case Provision(team, grant) => ProvisionMember(db, team, id, grant)
    case RemoveUser(team, target) => RemoveMember(db, team, target, rows)
    case DropTeam(team) => DeleteTeam(db, team)
    case NewServer(team) => CreateServer(db, team, id)
    case DropServer(team, server) => DeleteServer(db, team, server)
    case Complete(team, revocation) => CompleteRevocation(db, team, revocation, id)
  }

  /** What happened to removals, for the record. */
  datatype Entry =
    | Removed(team: nat, user: nat, rows: map<nat, nat>)
    | Returned(team: nat, user: nat)
    | Completed(revocation: nat)
    | ServerGone(server: nat)
    | TeamGone(team: nat)

  function Entries(db: Db, q: Request, rows: map<nat, nat>): seq<Entry> {
    match q
    case RemoveUser(team, target) => if (team, target) in db.members then [Removed(team, target, rows)] else []
    case AddUser(team, target) =>
      if team !in db.owners || target !in db.users || (team, target) in db.members then [] else [Returned(team, target)]
    case Complete(team, revocation) => if Completable(db, team, revocation) then [Completed(revocation)] else []
    case DropServer(team, server) => if server in ServersOf(db, team) then [ServerGone(server)] else []
    case DropTeam(team) => [TeamGone(team)]
    case _ => []
  }

  datatype State = State(db: Db, catalog: set<string>, flights: map<nat, Flight>, issued: set<nat>, log: seq<Entry>)

  const INITIAL := State(EMPTY, {}, map[], {}, [])

  datatype Event =
    | Boot(catalog: set<string>)
    | Register(user: nat)
    | NewTeam(actor: nat, team: nat, role: nat)
    | Begin(flight: nat, actor: nat, request: Request)
    | Ask(flight: nat)
    | Abort(flight: nat)
    | Write(flight: nat, id: nat, rows: map<nat, nat>)

  predicate Enabled(s: State, e: Event) {
    match e
    case Boot(_) => true
    case Register(user) => user !in s.issued
    case NewTeam(actor, team, role) => actor in s.db.users && team !in s.issued && role !in s.issued && team != role
    case Begin(flight, _, _) => flight !in s.flights
    case Ask(flight) => flight in s.flights && s.flights[flight].done < |Plan(s.flights[flight].request)|
    case Abort(flight) => flight in s.flights
    case Write(flight, id, rows) =>
      && flight in s.flights
      && s.flights[flight].done == |Plan(s.flights[flight].request)|
      && id !in s.issued && rows.Keys !! s.issued && id !in rows
      && var q := s.flights[flight].request;
      && (q.RemoveUser? ==> RowForEveryServer(s.db, q.team, rows))
  }

  function Next(s: State, e: Event): State
    requires Enabled(s, e)
  {
    match e
    // A restart forgets every request; the new build brings its catalog.
    case Boot(catalog) => s.(db := Backfill(s.db, catalog), catalog := catalog, flights := map[])
    case Register(user) => s.(db := s.db.(users := s.db.users + {user}), issued := s.issued + {user})
    case NewTeam(actor, team, role) =>
      s.(db := CreateTeam(s.db, s.catalog, actor, team, role), issued := s.issued + {team, role})
    case Begin(flight, actor, request) => s.(flights := s.flights[flight := Started(actor, request)])
    case Ask(flight) =>
      var f := s.flights[flight];
      var c := Plan(f.request)[f.done];
      if Passes(s.db, s.catalog, f, c) then s.(flights := s.flights[flight := Passed(s.db, f, c)])
      else s.(flights := s.flights - {flight})
    case Abort(flight) => s.(flights := s.flights - {flight})
    case Write(flight, id, rows) =>
      var q := s.flights[flight].request;
      s.(db := Commit(s.db, q, id, rows),
         flights := s.flights - {flight},
         issued := s.issued + {id} + rows.Keys,
         log := s.log + Entries(s.db, q, rows))
  }

  /** The events can happen one after the other, starting in `s`. */
  predicate Possible(s: State, events: seq<Event>)
    decreases |events|
  {
    events != [] ==> Enabled(s, events[0]) && Possible(Next(s, events[0]), events[1..])
  }

  /** The state they lead to. */
  function After(s: State, events: seq<Event>): State
    requires Possible(s, events)
    decreases |events|
  {
    if events == [] then s else After(Next(s, events[0]), events[1..])
  }

  /** Check `c` is behind the flight. */
  predicate Behind(f: Flight, c: Check) {
    f.done <= |Plan(f.request)| && c in Plan(f.request)[..f.done]
  }
}
