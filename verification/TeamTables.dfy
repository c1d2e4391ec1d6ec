/**
 The backend's team tables as a value, the permission queries over them and
 the effect of every write transaction. Identifiers come from one space and
 are never issued twice, as version 4 UUIDs are taken to be.
 */
module TeamTables {
  import opened Text

  const OWNER_ROLE_NAME: string := "Owner"
  const MAX_ROLE_NAME_LEN: nat := 60

  const TEAM_DELETE: string := "team.delete"
  const TEAM_MEMBERS_ADD: string := "team.members.add"
  const TEAM_MEMBERS_REMOVE: string := "team.members.remove"
  const TEAM_ROLES_MANAGE: string := "team.roles.manage"
  const TEAM_ROLES_ASSIGN: string := "team.roles.assign"
  const SERVERS_MANAGE: string := "servers.manage"

  datatype Role = Role(team: nat, name: string, system: bool)
  datatype Revocation = Revocation(team: nat, server: nat, user: nat, completed: bool)
  /** An `access.revoked` audit event. */
  datatype Revoked = Revoked(team: nat, revocation: nat)

  datatype Db = Db(
    users: set<nat>,
    owners: map<nat, nat>,               // teams: id to owner
    members: set<(nat, nat)>,            // team_members: team, user
    roles: map<nat, Role>,
    grants: set<(nat, string)>,          // role_permissions: role, key
    memberRoles: set<(nat, nat, nat)>,      // member_roles: team, user, role
    servers: map<nat, nat>,              // team_servers: id to team
    revocations: map<nat, Revocation>,   // node_revocations
    events: map<nat, Revoked>            // audit_events about completed revocations
  )

  const EMPTY := Db({}, map[], {}, map[], {}, {}, map[], map[], map[])

  // --- authorize.rs

  /** Some role of the member carries the permission. */
  predicate Holds(db: Db, team: nat, user: nat, key: string) {
    exists a | a in db.memberRoles :: a.0 == team && a.1 == user && (a.2, key) in db.grants
  }

  /** `authorize_any`; `authorize` asks for one key. */
  predicate Authorized(db: Db, team: nat, user: nat, wanted: set<string>) {
    exists key | key in wanted :: Holds(db, team, user, key)
  }

  /** `effective_permissions`. */
  function Effective(db: Db, team: nat, user: nat): (held: set<string>)
    ensures forall key :: key in held <==> Holds(db, team, user, key)
  {
    set a, g | a in db.memberRoles && g in db.grants && a.0 == team && a.1 == user && g.0 == a.2 :: g.1
  }

  /** `ensure_can_grant`. */
  predicate CanGrant(db: Db, team: nat, actor: nat, desired: set<string>) {
    desired <= Effective(db, team, actor)
  }

  // --- Lookups

  /** `role_for_team`. */
  predicate RoleOfTeam(db: Db, team: nat, role: nat) {
    role in db.roles && db.roles[role].team == team
  }

  function RolePermissions(db: Db, role: nat): (keys: set<string>)
    ensures forall key :: key in keys <==> (role, key) in db.grants
  {
    set g | g in db.grants && g.0 == role :: g.1
  }

  predicate NameTaken(db: Db, team: nat, name: string, except: set<nat>) {
    exists r | r in db.roles && r !in except :: db.roles[r].team == team && db.roles[r].name == name
  }

  predicate Pending(db: Db, server: nat, user: nat) {
    exists r | r in db.revocations ::
      db.revocations[r].server == server && db.revocations[r].user == user && !db.revocations[r].completed
  }

  function ServersOf(db: Db, team: nat): (ids: set<nat>)
    ensures forall s :: s in ids <==> s in db.servers && db.servers[s] == team
  {
    set s | s in db.servers && db.servers[s] == team
  }

  // --- Role names and permission keys

  datatype NameError = RoleNameEmpty | RoleNameTooLong | RoleNameReserved
  datatype NameResult = Accepted(name: string) | Rejected(error: NameError)

  predicate EqualsIgnoringCase(a: string, b: string) {
    |a| == |b| && forall i | 0 <= i < |a| :: AsciiLower(a[i]) == AsciiLower(b[i])
  }

  /** What counts as a spelling of the owner's name. */
  lemma OwnerSpellings(a: string)
    ensures EqualsIgnoringCase(a, "Owner") <==>
            && |a| == 5 && (a[0] == 'o' || a[0] == 'O') && (a[1] == 'w' || a[1] == 'W')
            && (a[2] == 'n' || a[2] == 'N') && (a[3] == 'e' || a[3] == 'E') && (a[4] == 'r' || a[4] == 'R')
  {
    var b := "Owner";
    if |a| == 5 {
      assert EqualsIgnoringCase(a, b) <==>
             && AsciiLower(a[0]) == AsciiLower(b[0]) && AsciiLower(a[1]) == AsciiLower(b[1])
             && AsciiLower(a[2]) == AsciiLower(b[2]) && AsciiLower(a[3]) == AsciiLower(b[3])
             && AsciiLower(a[4]) == AsciiLower(b[4]);
    }
  }

  function CheckRoleName(trimmed: string): NameResult {
    if trimmed == "" then Rejected(RoleNameEmpty)
    else if |trimmed| > MAX_ROLE_NAME_LEN then Rejected(RoleNameTooLong)
    else if EqualsIgnoringCase(trimmed, OWNER_ROLE_NAME) then Rejected(RoleNameReserved)
    else Accepted(trimmed)
  }

  /** `validate_role_name`. */
  function ValidateRoleName(name: string): NameResult {
    CheckRoleName(Trim(name))
  }

  function Keys(keys: seq<string>): set<string> {
    set key | key in keys
  }

  /** Where the key first appears. */
  function FirstPlace(keys: seq<string>, key: string): (i: nat)
    requires key in keys
    ensures i < |keys| && keys[i] == key && key !in keys[..i]
  {
    if keys[0] == key then 0
    else
      assert key in keys[1..];
      assert keys[..1 + FirstPlace(keys[1..], key)] == [keys[0]] + keys[1..][..FirstPlace(keys[1..], key)];
      1 + FirstPlace(keys[1..], key)
  }

  /** Each key stands where it did, seen from the first appearances of the others. */
  predicate FirstAppearances(keys: seq<string>, out: seq<string>)
    requires Keys(out) <= Keys(keys)
  {
    forall i, j | 0 <= i < j < |out| ::
      assert out[i] in Keys(out) && out[j] in Keys(out);
      FirstPlace(keys, out[i]) < FirstPlace(keys, out[j])
  }

  lemma {:induction false} FirstPlaceIs(keys: seq<string>, key: string, i: nat)
    requires i < |keys| && keys[i] == key && key !in keys[..i]
    ensures FirstPlace(keys, key) == i
    decreases i
  {
    if i == 0 {
    } else {
      assert keys[..i] == [keys[0]] + keys[1..][..i - 1];
      FirstPlaceIs(keys[1..], key, i - 1);
    }
  }

  /** `dedupe_permissions`: every key once, in order of first appearance. */
  method DedupePermissions(keys: seq<string>) returns (out: seq<string>)
    ensures Keys(out) == Keys(keys)
    ensures forall i, j | 0 <= i < j < |out| :: out[i] != out[j]
    ensures FirstAppearances(keys, out)
  {
    var seen: set<string> := {};
    out := [];
    for i := 0 to |keys|
      invariant seen == Keys(out) == Keys(keys[..i]) && Keys(out) <= Keys(keys)
      invariant forall k | 0 <= k < |out| :: out[k] in Keys(out) && FirstPlace(keys, out[k]) < i
      invariant FirstAppearances(keys, out)
    {
      assert keys[..i + 1] == keys[..i] + [keys[i]];
      if keys[i] !in seen {
        FirstPlaceIs(keys, keys[i], i);
        seen := seen + {keys[i]};
        out := out + [keys[i]];
      }
    }
    assert keys[..|keys|] == keys;
  }

  // --- The transactions. One that fails leaves the tables as they are.

  function CreateTeam(db: Db, catalog: set<string>, actor: nat, team: nat, role: nat): Db {
    db.(owners := db.owners[team := actor],
        members := db.members + {(team, actor)},
        roles := db.roles[role := Role(team, OWNER_ROLE_NAME, true)],
        grants := db.grants + (set key | key in catalog :: (role, key)),
        memberRoles := db.memberRoles + {(team, actor, role)})
  }

  /** Deleting a team cascades to everything that belongs to it. */
  function DeleteTeam(db: Db, team: nat): Db {
    db.(owners := db.owners - {team},
        members := (set m | m in db.members && m.0 != team),
        roles := (map r | r in db.roles && db.roles[r].team != team :: db.roles[r]),
        grants := (set g | g in db.grants && !RoleOfTeam(db, team, g.0)),
        memberRoles := (set a | a in db.memberRoles && a.0 != team && !RoleOfTeam(db, team, a.2)),
        servers := (map s | s in db.servers && db.servers[s] != team :: db.servers[s]),
        revocations := (map r | r in db.revocations && db.revocations[r].team != team :: db.revocations[r]),
        events := (map e | e in db.events && db.events[e].team != team :: db.events[e]))
  }

  function CreateRole(db: Db, team: nat, role: nat, name: string, keys: set<string>): Db {
    if team !in db.owners || NameTaken(db, team, name, {}) then db
    else db.(roles := db.roles[role := Role(team, name, false)],
             grants := db.grants + (set key | key in keys :: (role, key)))
  }

  function ReplaceRolePermissions(grants: set<(nat, string)>, role: nat, keys: set<string>): set<(nat, string)> {
    (set g | g in grants && g.0 != role) + (set key | key in keys :: (role, key))
  }

  /** With the role gone there is nothing to update and nothing to attach keys to. */
  function UpdateRole(db: Db, role: nat, name: string, keys: set<string>): Db {
    if role !in db.roles || NameTaken(db, db.roles[role].team, name, {role}) then db
    else db.(roles := db.roles[role := db.roles[role].(name := name)],
             grants := ReplaceRolePermissions(db.grants, role, keys))
  }

  function DeleteRole(db: Db, role: nat): Db {
    db.(roles := db.roles - {role},
        grants := (set g | g in db.grants && g.0 != role),
        memberRoles := (set a | a in db.memberRoles && a.2 != role))
  }

  function AssignRole(db: Db, team: nat, user: nat, role: nat): Db {
    if (team, user) !in db.members || role !in db.roles then db
    else db.(memberRoles := db.memberRoles + {(team, user, role)})
  }

  function UnassignRole(db: Db, team: nat, user: nat, role: nat): Db {
    db.(memberRoles := db.memberRoles - {(team, user, role)})
  }

  /** `cancel_for_returning_member`. */
  function CancelFor(revocations: map<nat, Revocation>, team: nat, user: nat): map<nat, Revocation> {
    map r | r in revocations
          && !(revocations[r].team == team && revocations[r].user == user && !revocations[r].completed)
      :: revocations[r]
  }

  function AddMember(db: Db, team: nat, user: nat): Db {
    if team !in db.owners || user !in db.users || (team, user) in db.members then db
    else db.(members := db.members + {(team, user)},
             revocations := CancelFor(db.revocations, team, user))
  }

  function ProvisionMember(db: Db, team: nat, user: nat, role: Option<nat>): Db {
    if team !in db.owners || (role.Some? && !RoleOfTeam(db, team, role.value)) then db
    else db.(users := db.users + {user},
             members := db.members + {(team, user)},
             memberRoles := db.memberRoles + (if role.Some? then {(team, user, role.value)} else {}))
  }

  /** The rows a removal writes; a server with a pending row for the user is skipped. */
  function OwedRows(db: Db, team: nat, user: nat, rows: map<nat, nat>): map<nat, Revocation> {
    map r | r in rows && !Pending(db, rows[r], user) :: Revocation(team, rows[r], user, false)
  }

  /** `rows` gives every server of the team one new revocation identifier. */
  predicate RowForEveryServer(db: Db, team: nat, rows: map<nat, nat>) {
    && (forall r | r in rows :: rows[r] in ServersOf(db, team))
    && (forall r, q | r in rows && q in rows && rows[r] == rows[q] :: r == q)
    && ServersOf(db, team) <= rows.Values
  }

  function RemoveMember(db: Db, team: nat, user: nat, rows: map<nat, nat>): Db {
    if (team, user) !in db.members then db
    else db.(members := db.members - {(team, user)},
             memberRoles := (set a | a in db.memberRoles && !(a.0 == team && a.1 == user)),
             revocations := db.revocations + OwedRows(db, team, user, rows))
  }

  function CreateServer(db: Db, team: nat, server: nat): Db {
    if team !in db.owners then db else db.(servers := db.servers[server := team])
  }

  function DeleteServer(db: Db, team: nat, server: nat): Db {
    if server !in ServersOf(db, team) then db
    else db.(servers := db.servers - {server},
             revocations := (map r | r in db.revocations && db.revocations[r].server != server :: db.revocations[r]))
  }

  predicate Completable(db: Db, team: nat, revocation: nat) {
    revocation in db.revocations && db.revocations[revocation].team == team && !db.revocations[revocation].completed
  }

  function CompleteRevocation(db: Db, team: nat, revocation: nat, event: nat): Db {
    if !Completable(db, team, revocation) then db
    else db.(revocations := db.revocations[revocation := db.revocations[revocation].(completed := true)],
             events := db.events[event := Revoked(team, revocation)])
  }

  /** `backfill_system_role_permissions`. */
  function Backfill(db: Db, catalog: set<string>): Db {
    db.(grants := db.grants + (set r, key | r in db.roles && db.roles[r].system && key in catalog :: (r, key)))
  }

  // --- What the permission queries and the validators promise.

  /** Passing for a set of keys is passing for each of them. */
  lemma CanGrantMeans(db: Db, team: nat, actor: nat, desired: set<string>)
    ensures CanGrant(db, team, actor, desired) <==> forall key | key in desired :: Authorized(db, team, actor, {key})
  {
    forall key
      ensures Authorized(db, team, actor, {key}) <==> Holds(db, team, actor, key)
    {
    }
  }

  /** A member keeps after the deletion of a role exactly what another role carries. */
  lemma DeletedRoleHolds(db: Db, role: nat, team: nat, user: nat, key: string)
    ensures Holds(DeleteRole(db, role), team, user, key) <==>
            exists a | a in db.memberRoles && a.2 != role :: a.0 == team && a.1 == user && (a.2, key) in db.grants
    ensures Holds(db, team, user, key) && !Holds(DeleteRole(db, role), team, user, key) ==>
            (team, user, role) in db.memberRoles && (role, key) in db.grants
  {
    var db' := DeleteRole(db, role);
    assert forall a :: a in db'.memberRoles <==> a in db.memberRoles && a.2 != role;
    forall a | a in db.memberRoles && a.2 != role
      ensures (a.2, key) in db'.grants <==> (a.2, key) in db.grants
    {
    }
    if Holds(db, team, user, key) {
      var a :| a in db.memberRoles && a.0 == team && a.1 == user && (a.2, key) in db.grants;
      assert a == (team, user, a.2);
      assert a.2 != role ==> a in db'.memberRoles;
    }
  }

  lemma EqualsItself(s: string)
    ensures EqualsIgnoringCase(s, s)
  {
  }

  lemma NotReserved(n: string)
    requires 0 < |n| <= MAX_ROLE_NAME_LEN && !EqualsIgnoringCase(n, OWNER_ROLE_NAME)
    ensures CheckRoleName(n) == Accepted(n) && n != OWNER_ROLE_NAME
  {
    EqualsItself(n);
  }

  /** An accepted role name is trimmed: it is accepted again, as it is. */
  lemma AcceptedAgain(name: string)
    requires ValidateRoleName(name).Accepted?
    ensures ValidateRoleName(ValidateRoleName(name).name) == ValidateRoleName(name)
  {
    TrimTwice(name);
  }

  /**
   A role name is accepted exactly when, trimmed, it has one to sixty
   characters and is no spelling of the owner's name; it is stored trimmed.
   */
  lemma AcceptedNames(name: string)
    ensures ValidateRoleName(name).Accepted? <==>
            0 < |Trim(name)| <= MAX_ROLE_NAME_LEN && !EqualsIgnoringCase(Trim(name), OWNER_ROLE_NAME)
    ensures ValidateRoleName(name).Accepted? ==>
            ValidateRoleName(name).name == Trim(name) && Trim(name) != OWNER_ROLE_NAME
  {
    if ValidateRoleName(name).Accepted? {
      NotReserved(Trim(name));
    }
  }
}
