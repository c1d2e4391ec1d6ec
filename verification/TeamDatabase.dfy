/**
 The write transactions of the handlers, statement by statement on tables
 that change in place. Each leaves exactly the tables that the function of
 the same name in `TeamTables` describes, and a failed one leaves no trace.
 */
module TeamDatabase {
  import opened Text
  import opened TeamTables

  datatype Outcome = Ok | Conflict | NotFound | BrokenReference

  class Tables {
    var users: set<nat>
    var owners: map<nat, nat>
    var members: set<(nat, nat)>
    var roles: map<nat, Role>
    var grants: set<(nat, string)>
    var memberRoles: set<(nat, nat, nat)>
    var servers: map<nat, nat>
    var revocations: map<nat, Revocation>
    var events: map<nat, Revoked>

    function Snapshot(): Db
      reads this
    {
      Db(users, owners, members, roles, grants, memberRoles, servers, revocations, events)
    }

    constructor ()
      ensures Snapshot() == EMPTY
    {
      users, owners, members, roles, grants := {}, map[], {}, map[], {};
      memberRoles, servers, revocations, events := {}, map[], map[], map[];
    }

    method InsertPermissions(role: nat, keys: seq<string>)
      modifies this`grants
      ensures grants == old(grants) + (set key | key in Keys(keys) :: (role, key))
    {
      for i := 0 to |keys|
        invariant grants == old(grants) + (set key | key in Keys(keys[..i]) :: (role, key))
      {
        assert Keys(keys[..i + 1]) == Keys(keys[..i]) + {keys[i]};
        grants := grants + {(role, keys[i])};
      }
      assert keys[..|keys|] == keys;
    }

    method CreateTeam(catalog: seq<string>, actor: nat, team: nat, role: nat)
      modifies this
      ensures Snapshot() == TeamTables.CreateTeam(old(Snapshot()), Keys(catalog), actor, team, role)
    {
      owners := owners[team := actor];
      members := members + {(team, actor)};
      roles := roles[role := Role(team, OWNER_ROLE_NAME, true)];
      InsertPermissions(role, catalog);
      memberRoles := memberRoles + {(team, actor, role)};
    }

    method CreateRole(team: nat, role: nat, name: string, keys: seq<string>) returns (outcome: Outcome)
      modifies this
      ensures Snapshot() == TeamTables.CreateRole(old(Snapshot()), team, role, name, Keys(keys))
      ensures outcome.Ok? <==> team in old(owners) && !NameTaken(old(Snapshot()), team, name, {})
    {
      if team !in owners {
        return BrokenReference;
      }
      if NameTaken(Snapshot(), team, name, {}) {
        return Conflict;
      }
      roles := roles[role := Role(team, name, false)];
      InsertPermissions(role, keys);
      return Ok;
    }

    method ReplaceRolePermissions(role: nat, keys: seq<string>)
      modifies this`grants
      ensures grants == TeamTables.ReplaceRolePermissions(old(grants), role, Keys(keys))
    {
      grants := set g | g in grants && g.0 != role;
      InsertPermissions(role, keys);
    }

    /** Without the role the rename finds no row and the first new key no role to point at. */
    method UpdateRole(role: nat, name: string, keys: seq<string>) returns (outcome: Outcome)
      modifies this
      ensures Snapshot() == TeamTables.UpdateRole(old(Snapshot()), role, name, Keys(keys))
      ensures outcome.Ok? <==>
              if role in old(roles) then !NameTaken(old(Snapshot()), old(roles)[role].team, name, {role})
              else keys == []
    {
      if role !in roles {
        return if keys == [] then Ok else BrokenReference;
      }
      if NameTaken(Snapshot(), roles[role].team, name, {role}) {
        return Conflict;
      }
      roles := roles[role := roles[role].(name := name)];
      ReplaceRolePermissions(role, keys);
      return Ok;
    }

    method DeleteRole(role: nat)
      modifies this
      ensures Snapshot() == TeamTables.DeleteRole(old(Snapshot()), role)
    {
      roles := roles - {role};
      grants := set g | g in grants && g.0 != role;
      memberRoles := set a | a in memberRoles && a.2 != role;
    }

    method AssignRole(team: nat, user: nat, role: nat) returns (outcome: Outcome)
      modifies this
      ensures Snapshot() == TeamTables.AssignRole(old(Snapshot()), team, user, role)
      ensures (team, user, role) in old(memberRoles) ==> outcome == Conflict && Snapshot() == old(Snapshot())
      ensures outcome.Ok? <==>
              (team, user, role) !in old(memberRoles) && (team, user) in old(members) && role in old(roles)
    {
      if (team, user, role) in memberRoles {
        assert memberRoles + {(team, user, role)} == memberRoles;
        return Conflict;
      }
      if (team, user) !in members || role !in roles {
        return BrokenReference;
      }
      memberRoles := memberRoles + {(team, user, role)};
      return Ok;
    }

    method UnassignRole(team: nat, user: nat, role: nat) returns (outcome: Outcome)
      modifies this
      ensures Snapshot() == TeamTables.UnassignRole(old(Snapshot()), team, user, role)
      ensures outcome.Ok? <==> (team, user, role) in old(memberRoles)
    {
      if (team, user, role) !in memberRoles {
        assert memberRoles - {(team, user, role)} == memberRoles;
        return NotFound;
      }
      memberRoles := memberRoles - {(team, user, role)};
      return Ok;
    }

    method CancelForReturningMember(team: nat, user: nat)
      modifies this`revocations
      ensures revocations == CancelFor(old(revocations), team, user)
    {
      revocations := map r | r in revocations
                           && !(revocations[r].team == team && revocations[r].user == user && !revocations[r].completed)
                       :: revocations[r];
    }

    method AddMember(team: nat, user: nat) returns (outcome: Outcome)
      modifies this
      ensures Snapshot() == TeamTables.AddMember(old(Snapshot()), team, user)
      ensures outcome.Ok? <==> team in old(owners) && user in old(users) && (team, user) !in old(members)
    {
      if (team, user) in members {
        return Conflict;
      }
      if team !in owners || user !in users {
        return BrokenReference;
      }
      members := members + {(team, user)};
      CancelForReturningMember(team, user);
      return Ok;
    }

    /** The account and the membership are undone when the role is not the team's. */
    method ProvisionMember(team: nat, user: nat, role: Option<nat>) returns (outcome: Outcome)
      modifies this
      ensures Snapshot() == TeamTables.ProvisionMember(old(Snapshot()), team, user, role)
      ensures outcome.Ok? <==> team in old(owners) && (role.Some? ==> RoleOfTeam(old(Snapshot()), team, role.value))
    {
      var usersBefore, membersBefore := users, members;
      users := users + {user};
      if team !in owners {
        users := usersBefore;
        return BrokenReference;
      }
      members := members + {(team, user)};
      if role.Some? {
        if role.value !in roles || roles[role.value].team != team {
          users, members := usersBefore, membersBefore;
          return NotFound;
        }
        memberRoles := memberRoles + {(team, user, role.value)};
      }
      return Ok;
    }

    method RecordForRemovedMember(team: nat, user: nat, rows: map<nat, nat>)
      modifies this`revocations
      ensures revocations == old(revocations) + OwedRows(old(Snapshot()), team, user, rows)
    {
      var db := Snapshot();
      revocations := revocations
        + (map r | r in rows && !Pending(db, rows[r], user) :: Revocation(team, rows[r], user, false));
    }

    method RemoveMember(team: nat, user: nat, rows: map<nat, nat>) returns (outcome: Outcome)
      modifies this
      ensures Snapshot() == TeamTables.RemoveMember(old(Snapshot()), team, user, rows)
      ensures outcome.Ok? <==> (team, user) in old(members)
    {
      if (team, user) !in members {
        return NotFound;
      }
      members := members - {(team, user)};
      memberRoles := set a | a in memberRoles && !(a.0 == team && a.1 == user);
      RecordForRemovedMember(team, user, rows);
      return Ok;
    }

    method CompleteRevocation(team: nat, revocation: nat, event: nat) returns (outcome: Outcome)
      modifies this
      ensures Snapshot() == TeamTables.CompleteRevocation(old(Snapshot()), team, revocation, event)
      ensures outcome.Ok? <==> Completable(old(Snapshot()), team, revocation)
    {
      if revocation !in revocations || revocations[revocation].team != team || revocations[revocation].completed {
        return NotFound;
      }
      revocations := revocations[revocation := revocations[revocation].(completed := true)];
      events := events[event := Revoked(team, revocation)];
      return Ok;
    }
  }
}
