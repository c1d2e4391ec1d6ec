/** What each transaction means for who is in which team, who holds what and which servers are shared. */
module TeamEffects {
  import opened Text
  import opened TeamTables
  import opened TeamInvariant

  /** A new team has its maker as owner and only member, who holds exactly the catalog; nothing else changes. */
  lemma CreatedTeam(db: Db, catalog: set<string>, actor: nat, team: nat, role: nat, t: nat, u: nat, key: string)
    requires Linked(db) && team !in db.owners && role !in db.roles
    ensures var db' := CreateTeam(db, catalog, actor, team, role);
            && db'.owners == db.owners[team := actor]
            && ((t, u) in db'.members <==> (t, u) in db.members || (t == team && u == actor))
            && (Holds(db', t, u, key) <==> if t == team then u == actor && key in catalog else Holds(db, t, u, key))
  {
    var db' := CreateTeam(db, catalog, actor, team, role);
    var own := (team, actor, role);
    assert own in db'.memberRoles;
    assert key in catalog ==> (own.2, key) in db'.grants;
    if t != team && Holds(db, t, u, key) {
      var a :| a in db.memberRoles && a.0 == t && a.1 == u && (a.2, key) in db.grants;
      assert a in db'.memberRoles && (a.2, key) in db'.grants;
    }
  }

  /** Nothing of a deleted team is left and nobody holds anything in it; other teams are as they were. */
  lemma DeletedTeam(db: Db, team: nat, t: nat, u: nat, key: string, s: nat)
    requires Linked(db)
    ensures var db' := DeleteTeam(db, team);
            && (t in db'.owners <==> t in db.owners && t != team)
            && ((t, u) in db'.members <==> (t, u) in db.members && t != team)
            && (RoleOfTeam(db', t, s) <==> RoleOfTeam(db, t, s) && t != team)
            && (Holds(db', t, u, key) <==> Holds(db, t, u, key) && t != team)
            && (s in ServersOf(db', t) <==> s in ServersOf(db, t) && t != team)
  {
    var db' := DeleteTeam(db, team);
    if t != team && Holds(db, t, u, key) {
      var a :| a in db.memberRoles && a.0 == t && a.1 == u && (a.2, key) in db.grants;
      assert a in db'.memberRoles && (a.2, key) in db'.grants;
    }
  }

  /** Some role of the team, other than `except`, has the name. */
  predicate HasName(db: Db, team: nat, name: string, except: Option<nat>) {
    exists r | r in db.roles && Some(r) != except :: db.roles[r].team == team && db.roles[r].name == name
  }

  /** A new role carries exactly its keys, and nobody has it yet; under a name that is taken nothing is stored. */
  lemma CreatedRole(db: Db, team: nat, role: nat, name: string, keys: set<string>, r: nat, t: nat, u: nat, key: string)
    requires Linked(db) && role !in db.roles && team in db.owners
    ensures HasName(db, team, name, None) ==> CreateRole(db, team, role, name, keys) == db
    ensures !HasName(db, team, name, None) ==>
            var db' := CreateRole(db, team, role, name, keys);
            && db'.roles == db.roles[role := Role(team, name, false)]
            && ((r, key) in db'.grants <==> if r == role then key in keys else (r, key) in db.grants)
            && (Holds(db', t, u, key) <==> Holds(db, t, u, key))
  {
    var db' := CreateRole(db, team, role, name, keys);
    if Holds(db, t, u, key) {
      var a :| a in db.memberRoles && a.0 == t && a.1 == u && (a.2, key) in db.grants;
      assert a in db'.memberRoles && (a.2, key) in db'.grants;
    }
  }

  lemma HoldsAfterUpdate(db: Db, role: nat, name: string, keys: set<string>, t: nat, u: nat, key: string)
    requires role in db.roles && !NameTaken(db, db.roles[role].team, name, {role})
    ensures Holds(UpdateRole(db, role, name, keys), t, u, key) <==>
            || ((t, u, role) in db.memberRoles && key in keys)
            || (exists a | a in db.memberRoles && a.2 != role :: a.0 == t && a.1 == u && (a.2, key) in db.grants)
  {
    var db' := UpdateRole(db, role, name, keys);
    if (t, u, role) in db.memberRoles && key in keys {
      var a := (t, u, role);
      assert a in db'.memberRoles && (a.2, key) in db'.grants;
    }
    if exists a | a in db.memberRoles && a.2 != role :: a.0 == t && a.1 == u && (a.2, key) in db.grants {
      var a :| a in db.memberRoles && a.2 != role && a.0 == t && a.1 == u && (a.2, key) in db.grants;
      assert a in db'.memberRoles && (a.2, key) in db'.grants;
    }
    if Holds(db', t, u, key) {
      var a :| a in db'.memberRoles && a.0 == t && a.1 == u && (a.2, key) in db'.grants;
      assert a == (t, u, a.2);
    }
  }

  /** An updated role has its new name and carries exactly its new keys: a key left out is no longer held through it. */
  lemma UpdatedRole(db: Db, role: nat, name: string, keys: set<string>, r: nat, t: nat, u: nat, key: string)
    requires role in db.roles
    ensures HasName(db, db.roles[role].team, name, Some(role)) ==> UpdateRole(db, role, name, keys) == db
    ensures !HasName(db, db.roles[role].team, name, Some(role)) ==>
            var db' := UpdateRole(db, role, name, keys);
            && db'.roles == db.roles[role := Role(db.roles[role].team, name, db.roles[role].system)]
            && ((r, key) in db'.grants <==> if r == role then key in keys else (r, key) in db.grants)
            && (Holds(db', t, u, key) <==>
                || ((t, u, role) in db.memberRoles && key in keys)
                || (exists a | a in db.memberRoles && a.2 != role :: a.0 == t && a.1 == u && (a.2, key) in db.grants))
  {
    if !HasName(db, db.roles[role].team, name, Some(role)) {
      HoldsAfterUpdate(db, role, name, keys, t, u, key);
    }
  }

  /** A member who is given a role holds what they held and what the role carries. */
  lemma AssignedRole(db: Db, team: nat, user: nat, role: nat, t: nat, u: nat, key: string)
    requires (team, user) in db.members && role in db.roles
    ensures Holds(AssignRole(db, team, user, role), t, u, key) <==>
            Holds(db, t, u, key) || (t == team && u == user && (role, key) in db.grants)
  {
    var db' := AssignRole(db, team, user, role);
    assert (team, user, role) in db'.memberRoles;
    if Holds(db, t, u, key) {
      var a :| a in db.memberRoles && a.0 == t && a.1 == u && (a.2, key) in db.grants;
      assert a in db'.memberRoles;
    }
  }

  /** One who loses a role holds what their other roles carry. */
  lemma UnassignedRole(db: Db, team: nat, user: nat, role: nat, t: nat, u: nat, key: string)
    ensures Holds(UnassignRole(db, team, user, role), t, u, key) <==>
            exists a | a in db.memberRoles && a != (team, user, role) :: a.0 == t && a.1 == u && (a.2, key) in db.grants
  {
    var db' := UnassignRole(db, team, user, role);
    assert forall a :: a in db'.memberRoles <==> a in db.memberRoles && a != (team, user, role);
  }

  /** An added member is in the team and holds what they held, which was nothing. */
  lemma AddedMember(db: Db, team: nat, user: nat, t: nat, u: nat, key: string)
    requires Linked(db) && team in db.owners && user in db.users && (team, user) !in db.members
    ensures var db' := AddMember(db, team, user);
            && ((t, u) in db'.members <==> (t, u) in db.members || (t == team && u == user))
            && (Holds(db', t, u, key) <==> Holds(db, t, u, key)) && !Holds(db', team, user, key)
  {
  }

  /** A provisioned account is a member and holds exactly what its role carries. */
  lemma ProvisionedMember(db: Db, team: nat, user: nat, role: Option<nat>, t: nat, u: nat, key: string)
    requires Linked(db) && user !in db.users && team in db.owners && (role.Some? ==> RoleOfTeam(db, team, role.value))
    ensures var db' := ProvisionMember(db, team, user, role);
            && db'.users == db.users + {user}
            && ((t, u) in db'.members <==> (t, u) in db.members || (t == team && u == user))
            && (Holds(db', t, u, key) <==>
                Holds(db, t, u, key) || (t == team && u == user && role.Some? && (role.value, key) in db.grants))
  {
    var db' := ProvisionMember(db, team, user, role);
    if role.Some? {
      assert (team, user, role.value) in db'.memberRoles;
    }
    if Holds(db, t, u, key) {
      var a :| a in db.memberRoles && a.0 == t && a.1 == u && (a.2, key) in db.grants;
      assert a in db'.memberRoles;
    }
  }

  /** A removed member is not in the team and holds nothing there; everybody else holds what they held. */
  lemma RemovedMember(db: Db, team: nat, user: nat, rows: map<nat, nat>, t: nat, u: nat, key: string)
    requires (team, user) in db.members
    ensures var db' := RemoveMember(db, team, user, rows);
            && ((t, u) in db'.members <==> (t, u) in db.members && !(t == team && u == user))
            && (Holds(db', t, u, key) <==> Holds(db, t, u, key) && !(t == team && u == user))
  {
    var db' := RemoveMember(db, team, user, rows);
    if Holds(db, t, u, key) && !(t == team && u == user) {
      var a :| a in db.memberRoles && a.0 == t && a.1 == u && (a.2, key) in db.grants;
      assert a in db'.memberRoles;
    }
  }

  /** A team shares a new server from then on and a deleted one no longer; nothing of a deleted one is owed. */
  lemma SharedServers(db: Db, team: nat, server: nat, t: nat, s: nat, u: nat)
    requires team in db.owners
    ensures server !in db.servers ==>
            (s in ServersOf(CreateServer(db, team, server), t) <==> s in ServersOf(db, t) || (t == team && s == server))
    ensures server in ServersOf(db, team) ==>
            var db' := DeleteServer(db, team, server);
            && (s in ServersOf(db', t) <==> s in ServersOf(db, t) && s != server)
            && (Pending(db', s, u) <==> Pending(db, s, u) && s != server)
    ensures server !in ServersOf(db, team) ==> DeleteServer(db, team, server) == db
  {
    if server in ServersOf(db, team) {
      var db' := DeleteServer(db, team, server);
      if Pending(db, s, u) && s != server {
        var r :| r in db.revocations && db.revocations[r].server == s && db.revocations[r].user == u
          && !db.revocations[r].completed;
        assert r in db'.revocations && db'.revocations[r] == db.revocations[r];
      }
    }
  }

  /** A restart gives every built-in role the catalog, and no other role anything. */
  lemma BackfilledRoles(db: Db, catalog: set<string>, r: nat, key: string)
    ensures (r, key) in Backfill(db, catalog).grants <==>
            (r, key) in db.grants || (r in db.roles && db.roles[r].system && key in catalog)
  {
  }
}
