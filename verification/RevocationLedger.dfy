/**
 The revocation ledger: what is owed after a removal is exactly what the
 history of removals, returns, completions and deletions says.
 */
module RevocationLedger {
  import opened Text
  import opened TeamTables
  import opened TeamRequests
  import opened TeamInvariant

  // --- The history of one revocation.

  datatype Fate =
    | Unborn
    | Owed(team: nat, server: nat, user: nat)
    | Done(team: nat, server: nat, user: nat)
    | Cancelled
    | Gone

  function Advance(fate: Fate, e: Entry, rev: nat): Fate {
    match fate
    case Unborn => if e.Removed? && rev in e.rows then Owed(e.team, e.rows[rev], e.user) else Unborn
    case Owed(t, s, u) =>
      if e == Completed(rev) then Done(t, s, u)
      else if e == Returned(t, u) then Cancelled
      else if e == ServerGone(s) || e == TeamGone(t) then Gone
      else fate
    case Done(t, s, u) => if e == ServerGone(s) || e == TeamGone(t) then Gone else fate
    case _ => fate
  }

  function FateFrom(fate: Fate, log: seq<Entry>, rev: nat): Fate {
    if log == [] then fate
    else Advance(FateFrom(fate, log[..|log| - 1], rev), log[|log| - 1], rev)
  }

  function FateOf(log: seq<Entry>, rev: nat): Fate {
    FateFrom(Unborn, log, rev)
  }

  lemma FateSnoc(fate: Fate, log: seq<Entry>, e: Entry, rev: nat)
    ensures FateFrom(fate, log + [e], rev) == Advance(FateFrom(fate, log, rev), e, rev)
  {
    assert (log + [e])[..|log|] == log;
  }

  lemma {:induction false} FateSplit(fate: Fate, a: seq<Entry>, b: seq<Entry>, rev: nat)
    ensures FateFrom(fate, a + b, rev) == FateFrom(FateFrom(fate, a, rev), b, rev)
    decreases |b|
  {
    if b == [] {
      assert a + b == a;
    } else {
      var n := |b| - 1;
      assert (a + b)[..|a + b| - 1] == a + b[..n] && (a + b)[|a + b| - 1] == b[n];
      FateSplit(fate, a, b[..n], rev);
    }
  }

  /** The entry ends what is owed. */
  predicate Settles(e: Entry, t: nat, s: nat, u: nat, rev: nat) {
    e == Completed(rev) || e == Returned(t, u) || e == ServerGone(s) || e == TeamGone(t)
  }

  /** A revocation stays owed as long as no entry settles it, and how it ended says which did. */
  lemma {:induction false} OwedWhile(t: nat, s: nat, u: nat, log: seq<Entry>, rev: nat)
    ensures var end := FateFrom(Owed(t, s, u), log, rev);
            && (end == Owed(t, s, u) <==> forall i | 0 <= i < |log| :: !Settles(log[i], t, s, u, rev))
            && end != Unborn && (end.Owed? ==> end == Owed(t, s, u))
            && (end.Done? ==> end == Done(t, s, u) && Completed(rev) in log)
            && (end.Cancelled? ==> Returned(t, u) in log)
            && (end.Gone? ==> ServerGone(s) in log || TeamGone(t) in log)
    decreases |log|
  {
    if log == [] {
    } else {
      var n := |log| - 1;
      assert log == log[..n] + [log[n]];
      OwedWhile(t, s, u, log[..n], rev);
    }
  }

  /** What is no longer owed is never owed again. */
  lemma {:induction false} NeverOwedAgain(fate: Fate, log: seq<Entry>, rev: nat)
    requires fate.Done? || fate.Cancelled? || fate.Gone?
    ensures !FateFrom(fate, log, rev).Owed? && FateFrom(fate, log, rev) != Unborn
    decreases |log|
  {
    if log == [] {
    } else {
      NeverOwedAgain(fate, log[..|log| - 1], rev);
    }
  }

  // --- The tables follow the history.

  predicate Matches(db: Db, rev: nat, fate: Fate) {
    match fate
    case Owed(t, s, u) => rev in db.revocations && db.revocations[rev] == Revocation(t, s, u, false)
    case Done(t, s, u) => rev in db.revocations && db.revocations[rev] == Revocation(t, s, u, true)
    case _ => rev !in db.revocations
  }

  /** Nobody who is in the team is owed a removal from it. */
  predicate MembersClear(db: Db) {
    forall r | r in db.revocations && !db.revocations[r].completed ::
      (db.revocations[r].team, db.revocations[r].user) !in db.members
  }

  /** At most one removal is owed per server and user. */
  predicate OnePending(db: Db) {
    forall r, q | r in db.revocations && q in db.revocations
                  && !db.revocations[r].completed && !db.revocations[q].completed
                  && db.revocations[r].server == db.revocations[q].server
                  && db.revocations[r].user == db.revocations[q].user :: r == q
  }

  /** A revocation has one audit event once completed and none before. */
  predicate EventsFit(db: Db) {
    && (forall e, d | e in db.events && d in db.events && db.events[e].revocation == db.events[d].revocation :: e == d)
    && (forall e | e in db.events && db.events[e].revocation in db.revocations ::
          && db.revocations[db.events[e].revocation].completed
          && db.revocations[db.events[e].revocation].team == db.events[e].team)
    && (forall r | r in db.revocations && db.revocations[r].completed ::
          exists e | e in db.events :: db.events[e].revocation == r)
  }

  predicate Sound(db: Db) {
    MembersClear(db) && OnePending(db) && EventsFit(db)
  }

  /** The new rows of a removal never meet the unique index. */
  lemma NeverInConflict(db: Db, team: nat, user: nat, rows: map<nat, nat>)
    requires LedgerLinked(db) && MembersClear(db) && (team, user) in db.members
    requires RowForEveryServer(db, team, rows)
    ensures forall r | r in rows :: !Pending(db, rows[r], user)
    ensures OwedRows(db, team, user, rows).Keys == rows.Keys
  {
    forall r | r in rows
      ensures !Pending(db, rows[r], user)
    {
      assert rows[r] in ServersOf(db, team);
    }
  }

  // --- Removal.

  lemma RemovalMatches(db: Db, team: nat, user: nat, rows: map<nat, nat>, rev: nat, fate: Fate)
    requires LedgerLinked(db) && MembersClear(db) && (team, user) in db.members
    requires RowForEveryServer(db, team, rows) && Matches(db, rev, fate) && (rev in rows ==> fate == Unborn)
    ensures Matches(RemoveMember(db, team, user, rows), rev, Advance(fate, Removed(team, user, rows), rev))
  {
    NeverInConflict(db, team, user, rows);
  }

  lemma RemovalSound(db: Db, team: nat, user: nat, rows: map<nat, nat>, issued: set<nat>)
    requires LedgerLinked(db) && AllIssued(db, issued) && Sound(db) && rows.Keys !! issued
    requires RowForEveryServer(db, team, rows)
    ensures MembersClear(RemoveMember(db, team, user, rows))
    ensures OnePending(RemoveMember(db, team, user, rows))
  {
    if (team, user) in db.members {
      NeverInConflict(db, team, user, rows);
    }
  }

  lemma RemovalEvents(db: Db, team: nat, user: nat, rows: map<nat, nat>, issued: set<nat>)
    requires AllIssued(db, issued) && EventsFit(db) && rows.Keys !! issued
    ensures EventsFit(RemoveMember(db, team, user, rows))
  {
    assert OwedRows(db, team, user, rows).Keys <= rows.Keys;
  }

  /** A removal makes exactly the servers the team shares owe it, and changes no earlier row. */
  lemma RemovalOwes(db: Db, team: nat, user: nat, rows: map<nat, nat>, server: nat, other: nat)
    requires LedgerLinked(db) && MembersClear(db) && (team, user) in db.members
    requires RowForEveryServer(db, team, rows) && rows.Keys !! db.revocations.Keys
    ensures var db' := RemoveMember(db, team, user, rows);
            && (Pending(db', server, other) <==>
                Pending(db, server, other) || (other == user && server in ServersOf(db, team)))
            && (forall r | r in db.revocations :: r in db'.revocations && db'.revocations[r] == db.revocations[r])
  {
    NeverInConflict(db, team, user, rows);
    var db' := RemoveMember(db, team, user, rows);
    if other == user && server in ServersOf(db, team) {
      assert server in rows.Values;
      var r :| r in rows && rows[r] == server;
      assert db'.revocations[r] == Revocation(team, server, user, false);
    }
    if Pending(db, server, other) {
      var r :| r in db.revocations && db.revocations[r].server == server && db.revocations[r].user == other
        && !db.revocations[r].completed;
      assert r in db'.revocations && db'.revocations[r] == db.revocations[r];
    }
  }

  /** A return cancels exactly what the team's servers owed of the member; what was completed stays. */
  lemma ReturnOwes(db: Db, team: nat, user: nat, server: nat, other: nat)
    requires LedgerLinked(db) && team in db.owners && user in db.users && (team, user) !in db.members
    ensures var db' := AddMember(db, team, user);
            && (Pending(db', server, other) <==>
                Pending(db, server, other) && !(other == user && server in ServersOf(db, team)))
            && (forall r | r in db.revocations && db.revocations[r].completed ::
                  r in db'.revocations && db'.revocations[r] == db.revocations[r])
  {
    var db' := AddMember(db, team, user);
    if Pending(db, server, other) && !(other == user && server in ServersOf(db, team)) {
      var r :| r in db.revocations && db.revocations[r].server == server && db.revocations[r].user == other
        && !db.revocations[r].completed;
      assert r in db'.revocations && db'.revocations[r] == db.revocations[r];
    }
  }

  /** Coming back undoes a removal: the ledger is what it was. */
  lemma ReturnUndoesRemoval(db: Db, team: nat, user: nat, rows: map<nat, nat>)
    requires Linked(db) && LedgerLinked(db) && MembersClear(db) && (team, user) in db.members
    requires RowForEveryServer(db, team, rows) && rows.Keys !! db.revocations.Keys
    ensures var db' := AddMember(RemoveMember(db, team, user, rows), team, user);
            db'.revocations == db.revocations && db'.members == db.members
  {
    NeverInConflict(db, team, user, rows);
    var removed := RemoveMember(db, team, user, rows);
    assert forall r | r in rows :: removed.revocations[r] == Revocation(team, rows[r], user, false);
  }

  // --- The other transactions.

  lemma CompletionSound(db: Db, team: nat, rev: nat, event: nat)
    requires Sound(db) && event !in db.events
    ensures Sound(CompleteRevocation(db, team, rev, event))
  {
    var db' := CompleteRevocation(db, team, rev, event);
    forall r | r in db'.revocations && db'.revocations[r].completed
      ensures exists e | e in db'.events :: db'.events[e].revocation == r
    {
      if Completable(db, team, rev) {
        if r == rev {
          assert db'.events[event].revocation == r;
        } else {
          var e :| e in db.events && db.events[e].revocation == r;
          assert db'.events[e].revocation == r;
        }
      }
    }
  }

  lemma DeletionSound(db: Db, team: nat, server: nat)
    requires Sound(db)
    ensures Sound(DeleteServer(db, team, server))
  {
  }

  lemma DeleteTeamSound(db: Db, team: nat)
    requires Sound(db)
    ensures Sound(DeleteTeam(db, team))
  {
    var db' := DeleteTeam(db, team);
    forall r | r in db'.revocations && db'.revocations[r].completed
      ensures exists e | e in db'.events :: db'.events[e].revocation == r
    {
      var e :| e in db.events && db.events[e].revocation == r;
      assert db'.events[e].revocation == r;
    }
  }

  lemma ReturnSound(db: Db, team: nat, user: nat)
    requires Sound(db)
    ensures Sound(AddMember(db, team, user))
  {
  }

  lemma ProvisionSound(db: Db, team: nat, user: nat, role: Option<nat>, issued: set<nat>)
    requires Sound(db) && AllIssued(db, issued) && user !in issued
    ensures Sound(ProvisionMember(db, team, user, role))
  {
  }

  lemma QuietWritesSound(db: Db, q: Request, id: nat)
    requires Sound(db)
    requires q.NewRole? || q.EditRole? || q.DropRole? || q.GiveRole? || q.TakeRole? || q.NewServer?
    ensures Sound(Commit(db, q, id, map[]))
  {
    match q
    case NewRole(_, _, _) =>
    case EditRole(_, _, _, _) =>
    case DropRole(_, _) =>
    case GiveRole(_, _, _) =>
    case TakeRole(_, _, _) =>
    case NewServer(_) =>
  }

  lemma CommitSound(db: Db, q: Request, id: nat, rows: map<nat, nat>, issued: set<nat>)
    requires LedgerLinked(db) && AllIssued(db, issued) && Sound(db)
    requires id !in issued && rows.Keys !! issued && (q.RemoveUser? ==> RowForEveryServer(db, q.team, rows))
    ensures Sound(Commit(db, q, id, rows))
  {
    match q
    case RemoveUser(team, target) =>
      RemovalSound(db, team, target, rows, issued);
      RemovalEvents(db, team, target, rows, issued);
    case AddUser(team, target) => ReturnSound(db, team, target);
    case Provision(team, grant) => ProvisionSound(db, team, id, grant, issued);
    case DropTeam(team) => DeleteTeamSound(db, team);
    case DropServer(team, server) => DeletionSound(db, team, server);
    case Complete(team, revocation) => CompletionSound(db, team, revocation, id);
    case _ => QuietWritesSound(db, q, id);
  }

  lemma ReturnMatches(db: Db, team: nat, user: nat, rev: nat, fate: Fate)
    requires Matches(db, rev, fate) && team in db.owners && user in db.users && (team, user) !in db.members
    ensures Matches(AddMember(db, team, user), rev, Advance(fate, Returned(team, user), rev))
  {
  }

  lemma CompletionMatches(db: Db, team: nat, id: nat, event: nat, rev: nat, fate: Fate)
    requires Matches(db, rev, fate) && Completable(db, team, id)
    ensures Matches(CompleteRevocation(db, team, id, event), rev, Advance(fate, Completed(id), rev))
  {
  }

  lemma DeletionMatches(db: Db, team: nat, server: nat, rev: nat, fate: Fate)
    requires LedgerLinked(db) && Matches(db, rev, fate) && server in ServersOf(db, team)
    ensures Matches(DeleteServer(db, team, server), rev, Advance(fate, ServerGone(server), rev))
  {
  }

  lemma DeleteTeamMatches(db: Db, team: nat, rev: nat, fate: Fate)
    requires Matches(db, rev, fate)
    ensures Matches(DeleteTeam(db, team), rev, Advance(fate, TeamGone(team), rev))
  {
  }

  lemma FateOne(fate: Fate, e: Entry, rev: nat)
    ensures FateFrom(fate, [e], rev) == Advance(fate, e, rev)
  {
    FateSnoc(fate, [], e, rev);
    assert [] + [e] == [e];
  }

  lemma SameMatches(db: Db, db': Db, rev: nat, fate: Fate)
    requires Matches(db, rev, fate) && SameLedger(db, db')
    ensures Matches(db', rev, fate)
  {
  }

  /** One transaction moves every revocation as its entries say. */
  lemma CommitMatches(db: Db, q: Request, id: nat, rows: map<nat, nat>, rev: nat, fate: Fate)
    requires LedgerLinked(db) && MembersClear(db) && Matches(db, rev, fate)
    requires rev in rows ==> fate == Unborn
    requires q.RemoveUser? ==> RowForEveryServer(db, q.team, rows)
    ensures Matches(Commit(db, q, id, rows), rev, FateFrom(fate, Entries(db, q, rows), rev))
  {
    match q
    case RemoveUser(team, target) =>
      if (team, target) in db.members {
        FateOne(fate, Removed(team, target, rows), rev);
        RemovalMatches(db, team, target, rows, rev, fate);
      }
    case AddUser(team, target) =>
      if team in db.owners && target in db.users && (team, target) !in db.members {
        FateOne(fate, Returned(team, target), rev);
        ReturnMatches(db, team, target, rev, fate);
      }
    case Complete(team, revocation) =>
      if Completable(db, team, revocation) {
        FateOne(fate, Completed(revocation), rev);
        CompletionMatches(db, team, revocation, id, rev, fate);
      }
    case DropServer(team, server) =>
      if server in ServersOf(db, team) {
        FateOne(fate, ServerGone(server), rev);
        DeletionMatches(db, team, server, rev, fate);
      }
    case DropTeam(team) =>
      FateOne(fate, TeamGone(team), rev);
      DeleteTeamMatches(db, team, rev, fate);
    case NewServer(_) =>
    case _ =>
      OthersLeaveTheLedger(db, q, id, rows);
      SameMatches(db, Commit(db, q, id, rows), rev, fate);
  }

  // --- Over whole runs.

  /** Every removal wrote identifiers of its own, every completion met something owed. */
  ghost predicate InOrder(log: seq<Entry>) {
    && (forall i, rev: nat | 0 <= i < |log| && log[i].Removed? && rev in log[i].rows :: FateOf(log[..i], rev) == Unborn)
    && (forall i | 0 <= i < |log| && log[i].Completed? :: FateOf(log[..i], log[i].revocation).Owed?)
  }

  ghost predicate Ledger(s: State) {
    && Sound(s.db)
    && (forall rev: nat :: Matches(s.db, rev, FateOf(s.log, rev)))
    && (forall rev: nat | rev !in s.issued :: FateOf(s.log, rev) == Unborn)
    && InOrder(s.log)
  }

  lemma InOrderSnoc(log: seq<Entry>, e: Entry)
    requires InOrder(log)
    requires e.Removed? ==> forall rev: nat | rev in e.rows :: FateOf(log, rev) == Unborn
    requires e.Completed? ==> FateOf(log, e.revocation).Owed?
    ensures InOrder(log + [e])
  {
    var log' := log + [e];
    assert log'[..|log|] == log;
    forall i | 0 <= i < |log|
      ensures log'[..i] == log[..i] && log'[i] == log[i]
    {
    }
  }

  lemma EntriesInOrder(s: State, q: Request, rows: map<nat, nat>)
    requires Ledger(s) && rows.Keys !! s.issued
    ensures InOrder(s.log + Entries(s.db, q, rows))
  {
    var es := Entries(s.db, q, rows);
    if es == [] {
      assert s.log + es == s.log;
    } else {
      assert es == [es[0]];
      if q.Complete? {
        assert Matches(s.db, q.revocation, FateOf(s.log, q.revocation));
      }
      InOrderSnoc(s.log, es[0]);
    }
  }

  lemma UnissuedUnborn(db: Db, q: Request, rows: map<nat, nat>, rev: nat)
    requires rev !in rows
    ensures FateFrom(Unborn, Entries(db, q, rows), rev) == Unborn
  {
    var es := Entries(db, q, rows);
    if es != [] {
      assert es == [] + [es[0]];
      FateSnoc(Unborn, [], es[0], rev);
    }
  }

  lemma WriteKeeps(s: State, e: Event)
    requires Invariant(s) && Ledger(s) && e.Write? && Enabled(s, e)
    ensures Ledger(Next(s, e))
  {
    var q, s' := s.flights[e.flight].request, Next(s, e);
    var es := Entries(s.db, q, e.rows);
    CommitSound(s.db, q, e.id, e.rows, s.issued);
    EntriesInOrder(s, q, e.rows);
    forall rev: nat
      ensures Matches(s'.db, rev, FateOf(s'.log, rev))
    {
      FateSplit(Unborn, s.log, es, rev);
      CommitMatches(s.db, q, e.id, e.rows, rev, FateOf(s.log, rev));
    }
    forall rev: nat | rev !in s'.issued
      ensures FateOf(s'.log, rev) == Unborn
    {
      FateSplit(Unborn, s.log, es, rev);
      UnissuedUnborn(s.db, q, e.rows, rev);
    }
  }

  lemma NewTeamSound(db: Db, catalog: set<string>, actor: nat, team: nat, role: nat)
    requires LedgerLinked(db) && Sound(db) && team !in db.owners
    ensures Sound(CreateTeam(db, catalog, actor, team, role))
  {
  }

  /** The other steps leave the ledger alone. */
  lemma RestKeeps(s: State, e: Event)
    requires Invariant(s) && Ledger(s) && Enabled(s, e) && !e.Write?
    ensures Ledger(Next(s, e))
  {
    var s' := Next(s, e);
    if e.NewTeam? {
      NewTeamSound(s.db, s.catalog, e.actor, e.team, e.role);
    }
    assert s'.db.revocations == s.db.revocations && s'.log == s.log && s.issued <= s'.issued;
    forall rev: nat
      ensures Matches(s'.db, rev, FateOf(s'.log, rev))
    {
      assert Matches(s.db, rev, FateOf(s.log, rev));
    }
  }

  lemma {:induction false} RunKeeps(s: State, events: seq<Event>)
    requires Invariant(s) && Ledger(s) && Possible(s, events)
    ensures Ledger(After(s, events))
    decreases |events|
  {
    if events == [] {
    } else {
      if events[0].Write? {
        WriteKeeps(s, events[0]);
      } else {
        RestKeeps(s, events[0]);
      }
      StepKeeps(s, events[0]);
      RunKeeps(Next(s, events[0]), events[1..]);
    }
  }

  lemma Reached(events: seq<Event>)
    requires Possible(INITIAL, events)
    ensures Ledger(After(INITIAL, events))
  {
    RunKeeps(INITIAL, events);
  }

  /**
   In every reachable state no member is owed a removal, each server and user
   have at most one pending, and a revocation has its one audit event exactly
   when it is completed.
   */
  lemma LedgerIsSound(events: seq<Event>)
    requires Possible(INITIAL, events)
    ensures Sound(After(INITIAL, events).db)
  {
    Reached(events);
  }

  lemma CompletedOnceIn(log: seq<Entry>, i: nat, j: nat)
    requires InOrder(log) && i < j < |log| && log[i].Completed? && log[j].Completed?
    ensures log[i].revocation != log[j].revocation
  {
    var rev := log[i].revocation;
    var done := FateOf(log[..i + 1], rev);
    assert log[..i + 1][..i] == log[..i];
    assert log[..j] == log[..i + 1] + log[i + 1..j];
    FateSplit(Unborn, log[..i + 1], log[i + 1..j], rev);
    NeverOwedAgain(done, log[i + 1..j], rev);
  }

  /** A revocation is completed at most once. */
  lemma CompletedOnce(events: seq<Event>, i: nat, j: nat)
    requires Possible(INITIAL, events)
    requires var log := After(INITIAL, events).log; i < j < |log| && log[i].Completed? && log[j].Completed?
    ensures var log := After(INITIAL, events).log; log[i].revocation != log[j].revocation
  {
    Reached(events);
    var log := After(INITIAL, events).log;
    CompletedOnceIn(log, i, j);
  }

  lemma FateSince(log: seq<Entry>, i: nat, rev: nat)
    requires InOrder(log) && i < |log| && log[i].Removed? && rev in log[i].rows
    ensures FateOf(log, rev) == FateFrom(Owed(log[i].team, log[i].rows[rev], log[i].user), log[i + 1..], rev)
  {
    assert log[..i + 1] == log[..i] + [log[i]];
    FateSnoc(Unborn, log[..i], log[i], rev);
    assert log == log[..i + 1] + log[i + 1..];
    FateSplit(Unborn, log[..i + 1], log[i + 1..], rev);
  }

  /**
   Every row of every removal is accounted for: it is pending exactly while
   nothing since has completed it, brought the member back, or deleted its
   server or team; completed only by a completion; gone only by one of the
   others.
   */
  lemma RemovalAccounted(events: seq<Event>, i: nat, rev: nat)
    requires Possible(INITIAL, events)
    requires var log := After(INITIAL, events).log; i < |log| && log[i].Removed? && rev in log[i].rows
    ensures var s := After(INITIAL, events);
            var t, u, server, since := s.log[i].team, s.log[i].user, s.log[i].rows[rev], s.log[i + 1..];
            && ((rev in s.db.revocations && !s.db.revocations[rev].completed) <==>
                forall j | 0 <= j < |since| :: !Settles(since[j], t, server, u, rev))
            && (rev in s.db.revocations ==>
                  s.db.revocations[rev] == Revocation(t, server, u, s.db.revocations[rev].completed))
            && (rev in s.db.revocations && s.db.revocations[rev].completed ==> Completed(rev) in since)
            && (rev !in s.db.revocations ==>
                Returned(t, u) in since || ServerGone(server) in since || TeamGone(t) in since)
  {
    Reached(events);
    var s := After(INITIAL, events);
    FateSince(s.log, i, rev);
    OwedWhile(s.log[i].team, s.log[i].rows[rev], s.log[i].user, s.log[i + 1..], rev);
    assert Matches(s.db, rev, FateOf(s.log, rev));
  }

  /** A removal goes into the history with a pending row for every server the team shares. */
  lemma RemovalRecorded(s: State, e: Event, server: nat) returns (rev: nat)
    requires Invariant(s) && Ledger(s) && e.Write? && Enabled(s, e)
    requires var q := s.flights[e.flight].request;
             q.RemoveUser? && (q.team, q.target) in s.db.members && server in ServersOf(s.db, q.team)
    ensures var q, s' := s.flights[e.flight].request, Next(s, e);
            && s'.log == s.log + [Removed(q.team, q.target, e.rows)]
            && rev in e.rows && e.rows[rev] == server
            && rev in s'.db.revocations && s'.db.revocations[rev] == Revocation(q.team, server, q.target, false)
  {
    var q := s.flights[e.flight].request;
    assert server in e.rows.Values;
    rev :| rev in e.rows && e.rows[rev] == server;
    NeverInConflict(s.db, q.team, q.target, e.rows);
  }
}
