/**
 Which requests get through: asked check by check with nothing in between, a
 request comes to its write if and only if its actor deserves it.
 */
module TeamPassing {
  import opened Text
  import opened TeamTables
  import opened TeamRequests
  import opened TeamAuthorization

  /** Without white space around it, one to sixty characters and no spelling of the owner's name. */
  predicate NameAllowed(name: string) {
    1 <= |Trim(name)| <= 60 && !EqualsIgnoringCase(Trim(name), "Owner")
  }

  /** The keys are in the catalog, and the actor holds them all. */
  predicate MayGive(db: Db, catalog: set<string>, team: nat, actor: nat, keys: seq<string>) {
    forall key | key in keys :: key in catalog && Holds(db, team, actor, key)
  }

  /** Whoever hands out a role holds all it carries. */
  predicate HoldsAllOf(db: Db, team: nat, actor: nat, role: nat) {
    forall g | g in db.grants && g.0 == role :: Holds(db, team, actor, g.1)
  }

  /** A member of the team who holds a key for the request, and what else the request asks for. */
  predicate Deserves(db: Db, catalog: set<string>, actor: nat, q: Request) {
    && q.team in db.owners && (q.team, actor) in db.members
    && (exists key | key in Needed(q) :: Holds(db, q.team, actor, key))
    && match q
       case NewRole(team, name, keys) =>
         NameAllowed(name) && MayGive(db, catalog, team, actor, keys)
       case EditRole(team, role, name, keys) =>
         && RoleOfTeam(db, team, role) && !db.roles[role].system
         && NameAllowed(name) && MayGive(db, catalog, team, actor, keys)
       case DropRole(team, role) => RoleOfTeam(db, team, role) && !db.roles[role].system
       case GiveRole(team, target, role) =>
         RoleOfTeam(db, team, role) && HoldsAllOf(db, team, actor, role) && (team, target) in db.members
       case TakeRole(team, target, role) =>
         RoleOfTeam(db, team, role) && (db.roles[role].system ==> target != db.owners[team])
       case AddUser(_, target) => target in db.users
       case Provision(team, grant) =>
         grant.Some? && RoleOfTeam(db, team, grant.value) ==> HoldsAllOf(db, team, actor, grant.value)
       case RemoveUser(team, target) => target != db.owners[team]
       case _ => true
  }

  // --- The checks one after the other.

  predicate Through(db: Db, catalog: set<string>, f: Flight, checks: seq<Check>)
    decreases |checks|
  {
    checks != [] ==> Passes(db, catalog, f, checks[0]) && Through(db, catalog, Passed(db, f, checks[0]), checks[1..])
  }

  lemma ThroughStep(db: Db, catalog: set<string>, f: Flight, c: Check, checks: seq<Check>)
    ensures Through(db, catalog, f, [c] + checks) <==>
            Passes(db, catalog, f, c) && Through(db, catalog, Passed(db, f, c), checks)
  {
    assert ([c] + checks)[1..] == checks;
  }

  lemma ThroughOne(db: Db, catalog: set<string>, f: Flight, c: Check)
    ensures Through(db, catalog, f, [c]) <==> Passes(db, catalog, f, c)
  {
  }

  /** The flight behind its first two checks. */
  function PastTwo(db: Db, actor: nat, q: Request): Flight {
    Started(actor, q).(done := 2, owner := if q.team in db.owners then db.owners[q.team] else 0)
  }

  /** Every plan begins with membership and the keys. */
  lemma FirstTwo(db: Db, catalog: set<string>, actor: nat, q: Request, checks: seq<Check>)
    requires Plan(q) == [IsMember, MayDo(Needed(q))] + checks
    ensures Through(db, catalog, Started(actor, q), Plan(q)) <==>
            && q.team in db.owners && (q.team, actor) in db.members
            && (exists key | key in Needed(q) :: Holds(db, q.team, actor, key))
            && Through(db, catalog, PastTwo(db, actor, q), checks)
  {
    var f := Started(actor, q);
    assert Plan(q) == [IsMember] + ([MayDo(Needed(q))] + checks);
    ThroughStep(db, catalog, f, IsMember, [MayDo(Needed(q))] + checks);
    ThroughStep(db, catalog, Passed(db, f, IsMember), MayDo(Needed(q)), checks);
    assert Passed(db, Passed(db, f, IsMember), MayDo(Needed(q))) == PastTwo(db, actor, q);
  }

  lemma GrantAll(db: Db, team: nat, actor: nat, role: nat)
    ensures CanGrant(db, team, actor, RolePermissions(db, role)) <==> HoldsAllOf(db, team, actor, role)
  {
  }

  lemma MakesRole(db: Db, catalog: set<string>, f: Flight)
    requires f.request.NewRole? || f.request.EditRole?
    ensures Through(db, catalog, f, [InputOk, MayGrant]) <==>
            Passes(db, catalog, f, InputOk) && CanGrant(db, f.request.team, f.actor, f.read)
  {
    assert [InputOk, MayGrant] == [InputOk] + [MayGrant];
    ThroughStep(db, catalog, f, InputOk, [MayGrant]);
    ThroughOne(db, catalog, Passed(db, f, InputOk), MayGrant);
  }

  lemma EditsRole(db: Db, catalog: set<string>, f: Flight)
    requires f.request.EditRole?
    ensures var q := f.request;
            Through(db, catalog, f, [IsTeamRole, InputOk, MayGrant]) <==>
            && RoleOfTeam(db, q.team, q.role) && !db.roles[q.role].system
            && Passes(db, catalog, f, InputOk) && CanGrant(db, q.team, f.actor, f.read)
  {
    assert [IsTeamRole, InputOk, MayGrant] == [IsTeamRole] + [InputOk, MayGrant];
    ThroughStep(db, catalog, f, IsTeamRole, [InputOk, MayGrant]);
    MakesRole(db, catalog, Passed(db, f, IsTeamRole));
  }

  lemma InputMeans(db: Db, catalog: set<string>, f: Flight)
    requires f.request.NewRole? || f.request.EditRole?
    ensures Passes(db, catalog, f, InputOk) <==> NameAllowed(f.request.name) && Keys(f.request.keys) <= catalog
  {
    AcceptedNames(f.request.name);
  }

  lemma GiveKeys(db: Db, catalog: set<string>, team: nat, actor: nat, keys: seq<string>)
    ensures Keys(keys) <= catalog && CanGrant(db, team, actor, Keys(keys)) <==> MayGive(db, catalog, team, actor, keys)
  {
  }

  lemma GivesRole(db: Db, catalog: set<string>, f: Flight)
    requires f.request.GiveRole?
    ensures var q := f.request;
            Through(db, catalog, f, [IsTeamRole, ReadsRole, MayGrant, TargetIsMember]) <==>
            && RoleOfTeam(db, q.team, q.role) && HoldsAllOf(db, q.team, f.actor, q.role)
            && (q.team, q.target) in db.members
  {
    var asked := Passed(db, f, IsTeamRole);
    var read := Passed(db, asked, ReadsRole);
    assert [IsTeamRole, ReadsRole, MayGrant, TargetIsMember]
        == [IsTeamRole] + ([ReadsRole] + ([MayGrant] + [TargetIsMember]));
    ThroughStep(db, catalog, f, IsTeamRole, [ReadsRole] + ([MayGrant] + [TargetIsMember]));
    ThroughStep(db, catalog, asked, ReadsRole, [MayGrant] + [TargetIsMember]);
    ThroughStep(db, catalog, read, MayGrant, [TargetIsMember]);
    ThroughOne(db, catalog, Passed(db, read, MayGrant), TargetIsMember);
    GrantAll(db, f.request.team, f.actor, f.request.role);
  }

  lemma Provisions(db: Db, catalog: set<string>, f: Flight)
    requires f.request.Provision? && f.request.grant.Some?
    ensures var q := f.request;
            Through(db, catalog, f, [ReadsRole, MayGrant]) <==>
            (RoleOfTeam(db, q.team, q.grant.value) ==> HoldsAllOf(db, q.team, f.actor, q.grant.value))
  {
    assert [ReadsRole, MayGrant] == [ReadsRole] + [MayGrant];
    ThroughStep(db, catalog, f, ReadsRole, [MayGrant]);
    ThroughOne(db, catalog, Passed(db, f, ReadsRole), MayGrant);
    GrantAll(db, f.request.team, f.actor, f.request.grant.value);
  }

  lemma PlanMeans(db: Db, catalog: set<string>, actor: nat, q: Request)
    ensures Through(db, catalog, Started(actor, q), Plan(q)) <==> Deserves(db, catalog, actor, q)
  {
    SecondCheck(q);
    FirstTwo(db, catalog, actor, q, Plan(q)[2..]);
    var f := PastTwo(db, actor, q);
    match q
    case NewRole(team, _, keys) =>
      MakesRole(db, catalog, f);
      InputMeans(db, catalog, f);
      GiveKeys(db, catalog, team, actor, keys);
    case EditRole(team, _, _, keys) =>
      EditsRole(db, catalog, f);
      InputMeans(db, catalog, f);
      GiveKeys(db, catalog, team, actor, keys);
    case GiveRole(_, _, _) => GivesRole(db, catalog, f);
    case Provision(_, grant) =>
      if grant.Some? {
        Provisions(db, catalog, f);
      }
    case DropRole(_, _) => ThroughOne(db, catalog, f, IsTeamRole);
    case TakeRole(_, _, _) => ThroughOne(db, catalog, f, IsTeamRole);
    case AddUser(_, _) => ThroughOne(db, catalog, f, TargetExists);
    case RemoveUser(_, _) => ThroughOne(db, catalog, f, NotOwner);
    case _ =>
  }

  // --- The same in the machine.

  /** The flight passes its next `n` checks, asked one after the other. */
  predicate GetsThrough(s: State, k: nat, n: nat)
    decreases n
  {
    n > 0 ==> Enabled(s, Ask(k)) && k in Next(s, Ask(k)).flights && GetsThrough(Next(s, Ask(k)), k, n - 1)
  }

  function AfterAsks(s: State, k: nat, n: nat): State
    requires GetsThrough(s, k, n)
    decreases n
  {
    if n == 0 then s else AfterAsks(Next(s, Ask(k)), k, n - 1)
  }

  lemma AskedOnce(s: State, k: nat)
    requires k in s.flights && s.flights[k].done < |Plan(s.flights[k].request)|
    ensures var f := s.flights[k];
            var c := Plan(f.request)[f.done];
            var s' := Next(s, Ask(k));
            && s'.db == s.db && s'.catalog == s.catalog && (k in s'.flights <==> Passes(s.db, s.catalog, f, c))
            && (k in s'.flights ==> s'.flights[k] == Passed(s.db, f, c))
  {
  }

  lemma {:induction false} GetsThroughIs(s: State, k: nat, n: nat)
    requires k in s.flights && s.flights[k].done + n == |Plan(s.flights[k].request)|
    ensures var f := s.flights[k];
            GetsThrough(s, k, n) <==> Through(s.db, s.catalog, f, Plan(f.request)[f.done..])
    decreases n
  {
    var f := s.flights[k];
    var rest := Plan(f.request)[f.done..];
    if n == 0 {
      assert rest == [];
    } else {
      assert rest == [Plan(f.request)[f.done]] + Plan(f.request)[f.done + 1..];
      ThroughStep(s.db, s.catalog, f, Plan(f.request)[f.done], Plan(f.request)[f.done + 1..]);
      AskedOnce(s, k);
      if k in Next(s, Ask(k)).flights {
        GetsThroughIs(Next(s, Ask(k)), k, n - 1);
      }
    }
  }

  lemma {:induction false} AsksChangeNothing(s: State, k: nat, n: nat)
    requires k in s.flights && GetsThrough(s, k, n)
    ensures var s' := AfterAsks(s, k, n);
            && s'.db == s.db && s'.issued == s.issued && k in s'.flights
            && s'.flights[k].request == s.flights[k].request && s'.flights[k].done == s.flights[k].done + n
    decreases n
  {
    if n == 0 {
    } else {
      AsksChangeNothing(Next(s, Ask(k)), k, n - 1);
    }
  }

  /**
   With nothing in between, a request gets through all its checks if and only
   if its actor deserves it; it then comes to its write, on the same tables.
   */
  lemma ThroughExactly(s: State, k: nat, actor: nat, q: Request, id: nat, rows: map<nat, nat>)
    requires k !in s.flights && id !in s.issued && rows.Keys !! s.issued && id !in rows
    requires q.RemoveUser? ==> RowForEveryServer(s.db, q.team, rows)
    ensures var begun := Next(s, Begin(k, actor, q));
            && (GetsThrough(begun, k, |Plan(q)|) <==> Deserves(s.db, s.catalog, actor, q))
            && (GetsThrough(begun, k, |Plan(q)|) ==>
                  var ready := AfterAsks(begun, k, |Plan(q)|);
                  Enabled(ready, Write(k, id, rows)) && Next(ready, Write(k, id, rows)).db == Commit(s.db, q, id, rows))
  {
    var begun := Next(s, Begin(k, actor, q));
    assert Plan(q)[0..] == Plan(q);
    GetsThroughIs(begun, k, |Plan(q)|);
    PlanMeans(s.db, s.catalog, actor, q);
    if GetsThrough(begun, k, |Plan(q)|) {
      AsksChangeNothing(begun, k, |Plan(q)|);
    }
  }

  /** Whoever registers can make a team, owns it, and is authorized there for every key of the catalog. */
  lemma FirstTeam(s: State, user: nat, team: nat, role: nat, key: string)
    requires s.issued !! {user, team, role} && user != team && team != role && role != user && key in s.catalog
    ensures Enabled(s, Register(user)) && Enabled(Next(s, Register(user)), NewTeam(user, team, role))
    ensures var db := Next(Next(s, Register(user)), NewTeam(user, team, role)).db;
            && team in db.owners && db.owners[team] == user && (team, user) in db.members
            && Authorized(db, team, user, {key})
  {
    var db := Next(Next(s, Register(user)), NewTeam(user, team, role)).db;
    var own := (team, user, role);
    assert own in db.memberRoles && (own.2, key) in db.grants;
    assert Holds(db, team, user, key);
  }
}
