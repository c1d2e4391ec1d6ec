/** Nobody gains a permission from someone who lacks it. */
module TeamEscalation {
  import opened Text
  import opened TeamTables
  import opened TeamRequests
  import opened TeamInvariant
  import opened TeamOwner

  predicate Carries(db: Db, t: nat, p: string, r: nat) {
    RoleOfTeam(db, t, r) && (r, p) in db.grants
  }

  /** From `db` to `db'` neither the roles carrying `p` nor the users holding it on `t` grow. */
  ghost predicate NoMore(db: Db, db': Db, t: nat, p: string) {
    && (forall r: nat | Carries(db', t, p, r) :: Carries(db, t, p, r))
    && (forall u: nat | Holds(db', t, u, p) :: Holds(db, t, u, p))
  }

  // --- The transactions.

  lemma HoldsMeans(db: Db, t: nat, u: nat, p: string) returns (r: nat)
    requires Linked(db) && Holds(db, t, u, p)
    ensures (t, u, r) in db.memberRoles && Carries(db, t, p, r)
  {
    var a :| a in db.memberRoles && a.0 == t && a.1 == u && (a.2, p) in db.grants;
    r := a.2;
  }

  lemma HoldsBecause(db: Db, t: nat, u: nat, p: string, r: nat)
    requires (t, u, r) in db.memberRoles && (r, p) in db.grants
    ensures Holds(db, t, u, p)
  {
    var a := (t, u, r);
    assert a in db.memberRoles && (a.2, p) in db.grants;
  }

  /** Fewer carriers, and no assignment that is new brings `p`: no more holders. */
  lemma NoMoreBecause(db: Db, db': Db, t: nat, p: string)
    requires Linked(db')
    requires forall r: nat | Carries(db', t, p, r) :: Carries(db, t, p, r)
    requires forall a | a in db'.memberRoles && a.0 == t :: a in db.memberRoles || !Carries(db', t, p, a.2)
    ensures NoMore(db, db', t, p)
  {
    forall u: nat | Holds(db', t, u, p)
      ensures Holds(db, t, u, p)
    {
      var r := HoldsMeans(db', t, u, p);
      assert (t, u, r) in db.memberRoles && Carries(db, t, p, r);
      HoldsBecause(db, t, u, p, r);
    }
  }

  /** What the checks of a finished request say about `p` on `t`. */
  predicate Harmless(db: Db, q: Request, t: nat, p: string) {
    && (q.NewRole? && q.team == t ==> p !in Keys(q.keys))
    && (q.EditRole? && RoleOfTeam(db, t, q.role) ==> p !in Keys(q.keys))
    && (q.GiveRole? && q.team == t ==> !Carries(db, t, p, q.role))
    && (q.Provision? && q.team == t && q.grant.Some? ==> !Carries(db, t, p, q.grant.value))
  }

  lemma CreateRoleCarries(db: Db, team: nat, role: nat, name: string, keys: set<string>, t: nat, p: string, r: nat)
    requires Linked(db) && role !in db.roles && (team == t ==> p !in keys)
    requires Carries(CreateRole(db, team, role, name, keys), t, p, r)
    ensures Carries(db, t, p, r)
  {
  }

  lemma UpdateRoleCarries(db: Db, role: nat, name: string, keys: set<string>, t: nat, p: string, r: nat)
    requires RoleOfTeam(db, t, role) ==> p !in keys
    requires Carries(UpdateRole(db, role, name, keys), t, p, r)
    ensures Carries(db, t, p, r)
  {
  }

  lemma RoleWritesCarry(db: Db, q: Request, id: nat, t: nat, p: string, r: nat)
    requires Linked(db) && id !in db.roles && Harmless(db, q, t, p)
    requires q.NewRole? || q.EditRole? || q.DropRole?
    requires Carries(Commit(db, q, id, map[]), t, p, r)
    ensures Carries(db, t, p, r)
  {
    match q
    case NewRole(team, name, keys) => CreateRoleCarries(db, team, id, Trim(name), Keys(keys), t, p, r);
    case EditRole(_, role, name, keys) => UpdateRoleCarries(db, role, Trim(name), Keys(keys), t, p, r);
    case DropRole(_, _) =>
  }

  lemma OtherWritesCarry(db: Db, q: Request, id: nat, rows: map<nat, nat>, t: nat, p: string, r: nat)
    requires !(q.NewRole? || q.EditRole? || q.DropRole?)
    requires Carries(Commit(db, q, id, rows), t, p, r)
    ensures Carries(db, t, p, r)
  {
    match q
    case GiveRole(_, _, _) =>
    case TakeRole(_, _, _) =>
    case AddUser(_, _) =>
    case Provision(_, _) =>
    case RemoveUser(_, _) =>
    case DropTeam(_) =>
    case NewServer(_) =>
    case DropServer(_, _) =>
    case Complete(_, _) =>
  }

  /** The assignments a transaction adds. */
  lemma NewAssignments(db: Db, q: Request, id: nat, rows: map<nat, nat>, a: (nat, nat, nat))
    requires a in Commit(db, q, id, rows).memberRoles && a !in db.memberRoles
    ensures q.GiveRole? || (q.Provision? && q.grant.Some?)
    ensures q.GiveRole? ==> a == (q.team, q.target, q.role)
    ensures q.Provision? ==> a.0 == q.team && a.2 == q.grant.value
  {
    match q
    case NewRole(_, _, _) =>
    case EditRole(_, _, _, _) =>
    case DropRole(_, _) =>
    case GiveRole(_, _, _) =>
    case TakeRole(_, _, _) =>
    case AddUser(_, _) =>
    case Provision(_, _) =>
    case RemoveUser(_, _) =>
    case DropTeam(_) =>
    case NewServer(_) =>
    case DropServer(_, _) =>
    case Complete(_, _) =>
  }

  lemma CommitNoMore(db: Db, q: Request, id: nat, rows: map<nat, nat>, t: nat, p: string)
    requires Linked(db) && id !in db.roles && Harmless(db, q, t, p)
    requires Linked(Commit(db, q, id, rows))
    ensures NoMore(db, Commit(db, q, id, rows), t, p)
  {
    var db' := Commit(db, q, id, rows);
    forall r: nat | Carries(db', t, p, r)
      ensures Carries(db, t, p, r)
    {
      if q.NewRole? || q.EditRole? || q.DropRole? {
        RoleWritesCarry(db, q, id, t, p, r);
      } else {
        OtherWritesCarry(db, q, id, rows, t, p, r);
      }
    }
    forall a | a in db'.memberRoles && a.0 == t
      ensures a in db.memberRoles || !Carries(db', t, p, a.2)
    {
      if a !in db.memberRoles {
        NewAssignments(db, q, id, rows, a);
      }
    }
    NoMoreBecause(db, db', t, p);
  }

  // --- The requests in flight.

  /** The role the request is about to hand out. */
  function HandsOut(q: Request): Option<nat> {
    if q.GiveRole? then Some(q.role) else if q.Provision? then q.grant else None
  }

  /**
   A request on `t` that read the role it hands out saw `p` if the role
   carries it, and one that passed `ensure_can_grant` hands out no `p`.
   */
  predicate Quiet(db: Db, t: nat, p: string, f: Flight) {
    var role := HandsOut(f.request);
    && (Behind(f, ReadsRole) && role.Some? && Carries(db, f.request.team, p, role.value) ==> p in f.read)
    && (Behind(f, MayGrant) ==> p !in f.read)
  }

  ghost predicate AllQuiet(s: State, t: nat, p: string) {
    forall k | k in s.flights && s.flights[k].request.team == t :: Quiet(s.db, t, p, s.flights[k])
  }

  lemma QuietIsHarmless(db: Db, issued: set<nat>, t: nat, p: string, f: Flight)
    requires Knows(db, issued, f) && f.done == |Plan(f.request)|
    requires f.request.team == t ==> Quiet(db, t, p, f)
    ensures Harmless(db, f.request, t, p)
  {
    var q := f.request;
    if q.NewRole? || q.EditRole? || q.GiveRole? || (q.Provision? && q.grant.Some?) {
      AllBehind(f, MayGrant);
    }
    if q.GiveRole? || (q.Provision? && q.grant.Some?) {
      AllBehind(f, ReadsRole);
    }
    if q.EditRole? {
      AllBehind(f, IsTeamRole);
    }
  }

  /**
   The step does not let `p` in: whoever asks to grant on `t` lacks `p` at
   that moment, and a restart does not bring `p` into the catalog.
   */
  predicate Withheld(s: State, e: Event, t: nat, p: string)
    requires Enabled(s, e)
  {
    && (e.Boot? ==> p in e.catalog ==> p in s.catalog)
    && (e.Ask? ==>
          var f := s.flights[e.flight];
          f.request.team == t && Plan(f.request)[f.done] == MayGrant ==> !Holds(s.db, t, f.actor, p))
  }

  lemma ReadBeforeGrant(q: Request, i: nat)
    requires i < |Plan(q)| && Plan(q)[i] == ReadsRole
    ensures MayGrant !in Plan(q)[..i + 1]
    ensures HandsOut(q).Some?
  {
  }

  lemma QuietNext(db: Db, catalog: set<string>, t: nat, p: string, f: Flight)
    requires f.done < |Plan(f.request)| && f.request.team == t && Quiet(db, t, p, f)
    requires Passes(db, catalog, f, Plan(f.request)[f.done])
    requires Plan(f.request)[f.done] == MayGrant ==> !Holds(db, t, f.actor, p)
    ensures Quiet(db, t, p, Passed(db, f, Plan(f.request)[f.done]))
  {
    var c := Plan(f.request)[f.done];
    var g := Passed(db, f, c);
    BehindNext(f, g, ReadsRole);
    BehindNext(f, g, MayGrant);
    if c == ReadsRole {
      ReadBeforeGrant(f.request, f.done);
    }
  }

  lemma QuietStill(db: Db, db': Db, t: nat, p: string, f: Flight)
    requires f.request.team == t && Quiet(db, t, p, f) && NoMore(db, db', t, p)
    ensures Quiet(db', t, p, f)
  {
  }

  lemma WriteStep(s: State, e: Event, t: nat, p: string)
    requires Invariant(s) && AllQuiet(s, t, p) && e.Write? && Enabled(s, e)
    ensures NoMore(s.db, Next(s, e).db, t, p) && AllQuiet(Next(s, e), t, p)
  {
    var f, s' := s.flights[e.flight], Next(s, e);
    QuietIsHarmless(s.db, s.issued, t, p, f);
    TeamInvariant.WriteKeeps(s, e);
    CommitNoMore(s.db, f.request, e.id, e.rows, t, p);
    forall k | k in s'.flights && s'.flights[k].request.team == t
      ensures Quiet(s'.db, t, p, s'.flights[k])
    {
      QuietStill(s.db, s'.db, t, p, s.flights[k]);
    }
  }

  lemma CreateTeamNoMore(db: Db, catalog: set<string>, actor: nat, team: nat, role: nat, t: nat, p: string)
    requires Linked(db) && actor in db.users && t != team && role !in db.roles
    ensures NoMore(db, CreateTeam(db, catalog, actor, team, role), t, p)
  {
    CreateTeamLinked(db, catalog, actor, team, role);
    NoMoreBecause(db, CreateTeam(db, catalog, actor, team, role), t, p);
  }

  lemma NewTeamStep(s: State, e: Event, t: nat, p: string)
    requires Invariant(s) && AllQuiet(s, t, p) && e.NewTeam? && Enabled(s, e) && t in s.issued
    ensures NoMore(s.db, Next(s, e).db, t, p) && AllQuiet(Next(s, e), t, p)
  {
    var s' := Next(s, e);
    CreateTeamNoMore(s.db, s.catalog, e.actor, e.team, e.role, t, p);
    forall k | k in s'.flights && s'.flights[k].request.team == t
      ensures Quiet(s'.db, t, p, s'.flights[k])
    {
      QuietStill(s.db, s'.db, t, p, s.flights[k]);
    }
  }

  /** A restart gives the built-in roles only what they had, as far as `p` goes. */
  lemma BootStep(s: State, e: Event, t: nat, p: string)
    requires Invariant(s) && OwnersAct(s) && e.Boot? && Withheld(s, e, t, p)
    ensures NoMore(s.db, Next(s, e).db, t, p) && AllQuiet(Next(s, e), t, p)
  {
    var db' := Next(s, e).db;
    forall r: nat | Carries(db', t, p, r)
      ensures Carries(s.db, t, p, r)
    {
      if s.db.roles[r].system && p in s.catalog {
        var q :| OwnerRole(s.db, s.catalog, t, q);
        assert q == r;
      }
    }
    NoMoreBecause(s.db, db', t, p);
  }

  lemma AskStep(s: State, e: Event, t: nat, p: string)
    requires AllQuiet(s, t, p) && e.Ask? && Enabled(s, e) && Withheld(s, e, t, p)
    ensures Next(s, e).db == s.db && AllQuiet(Next(s, e), t, p)
  {
    var f := s.flights[e.flight];
    if f.request.team == t && Passes(s.db, s.catalog, f, Plan(f.request)[f.done]) {
      QuietNext(s.db, s.catalog, t, p, f);
    }
  }

  lemma RestStep(s: State, e: Event, t: nat, p: string)
    requires AllQuiet(s, t, p) && Enabled(s, e) && (e.Register? || e.Begin? || e.Abort?)
    ensures NoMore(s.db, Next(s, e).db, t, p) && AllQuiet(Next(s, e), t, p)
  {
  }

  lemma Step(s: State, e: Event, t: nat, p: string)
    requires Invariant(s) && OwnersAct(s) && AllQuiet(s, t, p) && t in s.issued
    requires Enabled(s, e) && Withheld(s, e, t, p)
    ensures NoMore(s.db, Next(s, e).db, t, p) && AllQuiet(Next(s, e), t, p)
  {
    match e
    case Write(_, _, _) => WriteStep(s, e, t, p);
    case NewTeam(_, _, _) => NewTeamStep(s, e, t, p);
    case Boot(_) => BootStep(s, e, t, p);
    case Ask(_) => AskStep(s, e, t, p);
    case _ => RestStep(s, e, t, p);
  }

  predicate WithheldAlong(s: State, events: seq<Event>, t: nat, p: string)
    requires Possible(s, events)
    decreases |events|
  {
    events != [] ==> Withheld(s, events[0], t, p) && WithheldAlong(Next(s, events[0]), events[1..], t, p)
  }

  lemma {:induction false} Along(s: State, events: seq<Event>, t: nat, p: string)
    requires Invariant(s) && OwnersAct(s) && AllQuiet(s, t, p) && t in s.issued
    requires Possible(s, events) && WithheldAlong(s, events, t, p)
    ensures NoMore(s.db, After(s, events).db, t, p)
    decreases |events|
  {
    if events == [] {
    } else {
      var s' := Next(s, events[0]);
      Step(s, events[0], t, p);
      TeamInvariant.StepKeeps(s, events[0]);
      TeamOwner.StepKeeps(s, events[0]);
      Along(s', events[1..], t, p);
    }
  }

  /**
   Take any reachable state, an existing team and any permission, with no
   request on the team past its first check. However the requests that follow
   interleave, as long as nobody who asks to grant on the team holds the
   permission when asked, the roles carrying it and the users holding it
   never grow.
   */
  lemma NonEscalation(before: seq<Event>, events: seq<Event>, t: nat, p: string)
    requires Possible(INITIAL, before)
    requires var s := After(INITIAL, before);
             && t in s.db.owners
             && (forall k | k in s.flights && s.flights[k].request.team == t :: s.flights[k].done == 0)
             && Possible(s, events) && WithheldAlong(s, events, t, p)
    ensures var s := After(INITIAL, before);
            NoMore(s.db, After(s, events).db, t, p)
  {
    var s := After(INITIAL, before);
    TeamInvariant.RunKeeps(INITIAL, before);
    TeamOwner.RunKeeps(INITIAL, before);
    Along(s, events, t, p);
  }
}
