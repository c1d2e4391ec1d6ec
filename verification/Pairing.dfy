/**
 Pairing: one pending code with an expiry, an attempt budget and a single
 use, then a durable credential. Hashes are taken to be injective, so the
 stored credential stands for its raw value.
 */
module Pairing {
  import opened Text

  const MAX_FAILED_ATTEMPTS: nat := 10

  datatype Pending = Pending(code: string, expires: int, failed: nat)

  // --- The registry.

  function Registered(code: string, expires: int): Option<Pending> {
    Some(Pending(code, expires, 0))
  }

  predicate Consumes(pending: Option<Pending>, candidate: string, now: int) {
    pending.Some? && now <= pending.value.expires && pending.value.code == candidate
  }

  function Tried(pending: Option<Pending>, candidate: string, now: int): Option<Pending> {
    if pending.None? then None
    else
      var p := pending.value;
      if now > p.expires || p.code == candidate || p.failed + 1 >= MAX_FAILED_ATTEMPTS then None
      else Some(p.(failed := p.failed + 1))
  }

  class Registry {
    var pending: Option<Pending>

    constructor ()
      ensures pending == None
    {
      pending := None;
    }

    method Register(code: string, now: int, ttl: int)
      modifies this
      ensures pending == Registered(code, now + ttl)
    {
      pending := Some(Pending(code, now + ttl, 0));
    }

    method TryConsume(candidate: string, now: int) returns (ok: bool)
      modifies this
      ensures ok == Consumes(old(pending), candidate, now)
      ensures pending == Tried(old(pending), candidate, now)
    {
      if pending.None? {
        return false;
      }
      if now > pending.value.expires {
        pending := None;
        return false;
      }
      if pending.value.code == candidate {
        pending := None;
        return true;
      }
      pending := Some(pending.value.(failed := pending.value.failed + 1));
      if pending.value.failed >= MAX_FAILED_ATTEMPTS {
        pending := None;
      }
      return false;
    }
  }

  // --- The registry by its history.

  datatype Op = Register(code: string, expires: int) | Try(candidate: string, now: int)

  function Apply(pending: Option<Pending>, op: Op): Option<Pending> {
    match op
    case Register(code, expires) => Registered(code, expires)
    case Try(candidate, now) => Tried(pending, candidate, now)
  }

  function After(history: seq<Op>): Option<Pending> {
    if history == [] then None else Apply(After(history[..|history| - 1]), history[|history| - 1])
  }

  /** Where the latest registration is. */
  function Latest(history: seq<Op>): (r: Option<nat>)
    ensures r.Some? ==> r.value < |history| && history[r.value].Register?
    ensures r.Some? ==> forall i | r.value < i < |history| :: history[i].Try?
    ensures r.None? ==> forall i | 0 <= i < |history| :: history[i].Try?
  {
    if history == [] then None
    else
      var n := |history| - 1;
      if history[n].Register? then Some(n) else Latest(history[..n])
  }

  /** How many tries gave something else than `code`. */
  function Wrong(tries: seq<Op>, code: string): nat {
    if tries == [] then 0
    else
      var n := |tries| - 1;
      Wrong(tries[..n], code) + (if tries[n].Try? && tries[n].candidate != code then 1 else 0)
  }

  /** Since its registration the code was neither used nor found expired nor guessed at ten times. */
  predicate StillGood(tries: seq<Op>, code: string, expires: int) {
    && (forall i | 0 <= i < |tries| && tries[i].Try? :: tries[i].now <= expires && tries[i].candidate != code)
    && Wrong(tries, code) < 10
  }

  predicate AllTries(tries: seq<Op>) {
    forall i | 0 <= i < |tries| :: tries[i].Try?
  }

  function TriedAll(pending: Option<Pending>, tries: seq<Op>): Option<Pending>
    requires AllTries(tries)
  {
    if tries == [] then pending
    else
      var n := |tries| - 1;
      Tried(TriedAll(pending, tries[..n]), tries[n].candidate, tries[n].now)
  }

  /** From its registration, a code is pending exactly as long as it is still good. */
  lemma {:induction false} PendingWhileGood(tries: seq<Op>, code: string, expires: int)
    requires AllTries(tries)
    ensures TriedAll(Registered(code, expires), tries) ==
            if StillGood(tries, code, expires) then Some(Pending(code, expires, Wrong(tries, code))) else None
    decreases |tries|
  {
    if tries == [] {
    } else {
      var n := |tries| - 1;
      PendingWhileGood(tries[..n], code, expires);
      assert tries == tries[..n] + [tries[n]];
      assert StillGood(tries, code, expires) <==>
             && StillGood(tries[..n], code, expires)
             && tries[n].now <= expires && tries[n].candidate != code && Wrong(tries, code) < MAX_FAILED_ATTEMPTS;
    }
  }

  lemma {:induction false} AfterLatest(history: seq<Op>)
    ensures var k := Latest(history);
            After(history) ==
            if k.None? then None
            else TriedAll(Registered(history[k.value].code, history[k.value].expires), history[k.value + 1..])
    decreases |history|
  {
    if history == [] || !history[|history| - 1].Try? {
    } else {
      var n := |history| - 1;
      AfterLatest(history[..n]);
      var k := Latest(history[..n]);
      if k.Some? {
        assert history[..n][k.value + 1..] == history[k.value + 1..][..n - k.value - 1];
      }
    }
  }

  /**
   The latest registered code is the one given, it has not expired, and since
   its registration it was not used, not found expired by another try, and
   fewer than ten wrong tokens came.
   */
  predicate Good(history: seq<Op>, candidate: string, now: int) {
    var k := Latest(history);
    && k.Some? && history[k.value].code == candidate && now <= history[k.value].expires
    && StillGood(history[k.value + 1..], candidate, history[k.value].expires)
  }

  /** A try succeeds if and only if its code is good by the history. */
  lemma SucceedsExactly(history: seq<Op>, candidate: string, now: int)
    ensures Consumes(After(history), candidate, now) <==> Good(history, candidate, now)
  {
    AfterLatest(history);
    var k := Latest(history);
    if k.Some? {
      PendingWhileGood(history[k.value + 1..], history[k.value].code, history[k.value].expires);
    }
  }

  predicate Unused(tries: seq<Op>, code: string) {
    forall i | 0 <= i < |tries| && tries[i].Try? :: tries[i].candidate != code
  }

  predicate NotAfter(tries: seq<Op>, now: int) {
    forall i | 0 <= i < |tries| && tries[i].Try? :: tries[i].now <= now
  }

  /** With a clock that does not go back, being found expired earlier drops out of the condition. */
  lemma SucceedsWithForwardClock(history: seq<Op>, candidate: string, now: int)
    requires NotAfter(history, now)
    ensures Consumes(After(history), candidate, now) <==>
            var k := Latest(history);
            && k.Some? && history[k.value].code == candidate && now <= history[k.value].expires
            && Unused(history[k.value + 1..], candidate)
            && Wrong(history[k.value + 1..], candidate) < 10
  {
    SucceedsExactly(history, candidate, now);
    var k := Latest(history);
    if k.Some? {
      var tries := history[k.value + 1..];
      assert NotAfter(tries, now) by {
        assert forall i | 0 <= i < |tries| :: tries[i] == history[k.value + 1 + i];
      }
    }
  }

  // --- Authentication.

  datatype Outcome = AlreadyPaired | NewlyPaired(raw: string) | CredentialIssueFailed | Rejected

  /** The agent's pairing state: the registry and the credential on disk. */
  datatype Agent = Agent(pending: Option<Pending>, credential: Option<string>)

  /** What issuing a credential gives: the new raw value, or a failure that may have destroyed the old file. */
  datatype Issue = Issued(raw: string) | Failed(fileLost: bool)

  function Authenticated(a: Agent, token: Option<string>, now: int, issue: Issue): (Agent, Outcome) {
    if token.None? then (a, Rejected)
    else if a.credential == token then (a, AlreadyPaired)
    else
      var tried := a.(pending := Tried(a.pending, token.value, now));
      if !Consumes(a.pending, token.value, now) then (tried, Rejected)
      else
        match issue
        case Issued(raw) => (tried.(credential := Some(raw)), NewlyPaired(raw))
        case Failed(lost) => (if lost then tried.(credential := None) else tried, CredentialIssueFailed)
  }

  /** `authenticate`: the credential first, then the pending code. */
  method Authenticate(registry: Registry, credential: Option<string>, token: Option<string>, now: int, issue: Issue)
    returns (outcome: Outcome, stored: Option<string>)
    modifies registry
    ensures (Agent(registry.pending, stored), outcome) ==
            Authenticated(Agent(old(registry.pending), credential), token, now, issue)
  {
    stored := credential;
    if token.None? {
      return Rejected, stored;
    }
    if stored == token {
      return AlreadyPaired, stored;
    }
    var ok := registry.TryConsume(token.value, now);
    if !ok {
      return Rejected, stored;
    }
    match issue
    case Issued(raw) => return NewlyPaired(raw), Some(raw);
    case Failed(lost) => return CredentialIssueFailed, if lost then None else stored;
  }

  // --- Handshakes of any number of connections, step by step.

  /** A handshake whose token is not the credential, and one whose code was consumed. */
  datatype Flight = Unknown(token: string) | Cleared

  datatype State = State(agent: Agent, flights: map<nat, Flight>)

  const INITIAL := State(Agent(None, None), map[])

  datatype Event =
    | CodeRegistered(code: string, expires: int)
    | CheckCredential(flight: nat, token: string, readable: bool) // a file being written cannot be read
    | TryCode(flight: nat, now: int)
    | IssueCredential(flight: nat, issue: Issue)

  /** The step is one its handshake is at. */
  predicate Due(s: State, e: Event) {
    match e
    case CodeRegistered(_, _) => true
    case CheckCredential(f, _, _) => f !in s.flights
    case TryCode(f, _) => f in s.flights && s.flights[f].Unknown?
    case IssueCredential(f, _) => f in s.flights && s.flights[f].Cleared?
  }

  /** The file shows that the token is the credential. */
  predicate Recognized(s: State, token: string, readable: bool) {
    readable && s.agent.credential == Some(token)
  }

  function Written(credential: Option<string>, issue: Issue): Option<string> {
    match issue
    case Issued(raw) => Some(raw)
    case Failed(lost) => if lost then None else credential
  }

  function Next(s: State, e: Event): State
    requires Due(s, e)
  {
    var a := s.agent;
    match e
    case CodeRegistered(code, expires) => s.(agent := a.(pending := Registered(code, expires)))
    case CheckCredential(f, token, readable) =>
      if Recognized(s, token, readable) then s else s.(flights := s.flights[f := Unknown(token)])
    case TryCode(f, now) =>
      var token := s.flights[f].token;
      State(a.(pending := Tried(a.pending, token, now)),
            if Consumes(a.pending, token, now) then s.flights[f := Cleared] else s.flights - {f})
    case IssueCredential(f, issue) =>
      State(a.(credential := Written(a.credential, issue)), s.flights - {f})
  }

  /** How the handshake ends with this step, if it does. */
  function OutcomeOf(s: State, e: Event): Option<Outcome>
    requires Due(s, e)
  {
    match e
    case CodeRegistered(_, _) => None
    case CheckCredential(_, token, readable) => if Recognized(s, token, readable) then Some(AlreadyPaired) else None
    case TryCode(f, now) => if Consumes(s.agent.pending, s.flights[f].token, now) then None else Some(Rejected)
    case IssueCredential(_, issue) => Some(if issue.Issued? then NewlyPaired(issue.raw) else CredentialIssueFailed)
  }

  predicate PossibleRun(events: seq<Event>)
    decreases |events|, 0
  {
    events == [] || (PossibleRun(events[..|events| - 1]) && Due(Run(events[..|events| - 1]), events[|events| - 1]))
  }

  function Run(events: seq<Event>): State
    requires PossibleRun(events)
    decreases |events|, 1
  {
    if events == [] then INITIAL else Next(Run(events[..|events| - 1]), events[|events| - 1])
  }

  /** One after the other, the steps of a handshake are `authenticate`. */
  lemma Uninterrupted(s: State, f: nat, token: string, now: int, issue: Issue)
    requires f !in s.flights
    ensures var check, code, give := CheckCredential(f, token, true), TryCode(f, now), IssueCredential(f, issue);
            var (agent, outcome) := Authenticated(s.agent, Some(token), now, issue);
            var s1 := Next(s, check);
            if OutcomeOf(s, check).Some? then s1 == s == State(agent, s.flights) && outcome == AlreadyPaired
            else
              var s2 := Next(s1, code);
              if OutcomeOf(s1, code).Some? then s2 == State(agent, s.flights) && outcome == Rejected
              else Next(s2, give) == State(agent, s.flights) && OutcomeOf(s2, give) == Some(outcome)
  {
    var s1 := s.(flights := s.flights[f := Unknown(token)]);
    assert s1.flights - {f} == s.flights;
    assert s1.flights[f := Cleared] - {f} == s.flights;
  }

  /** A code that was just registered pairs a handshake that gives it in time, and is gone with that. */
  lemma FreshCodePairs(s: State, f: nat, code: string, expires: int, now: int, raw: string)
    requires f !in s.flights && now <= expires && s.agent.credential != Some(code)
    ensures var register, check := CodeRegistered(code, expires), CheckCredential(f, code, true);
            Due(s, register) && Due(Next(s, register), check) &&
            var checked := Next(Next(s, register), check);
            Due(checked, TryCode(f, now)) &&
            var tried := Next(checked, TryCode(f, now));
            var give := IssueCredential(f, Issued(raw));
            && Due(tried, give) && OutcomeOf(tried, give) == Some(NewlyPaired(raw))
            && Next(tried, give) == State(Agent(None, Some(raw)), s.flights)
  {
    var unknown := s.flights[f := Unknown(code)];
    assert unknown[f := Cleared] - {f} == s.flights;
  }

  // --- What a run says.

  function Registrations(events: seq<Event>): nat {
    if events == [] then 0
    else Registrations(events[..|events| - 1]) + (if events[|events| - 1].CodeRegistered? then 1 else 0)
  }

  /** The step consumes the pending code, whether or not a credential can then be issued. */
  predicate Pairs(s: State, e: Event)
    requires Due(s, e)
  {
    e.TryCode? && Consumes(s.agent.pending, s.flights[e.flight].token, e.now)
  }

  function Pairings(events: seq<Event>): nat
    requires PossibleRun(events)
  {
    if events == [] then 0
    else
      var n := |events| - 1;
      Pairings(events[..n]) + (if Pairs(Run(events[..n]), events[n]) then 1 else 0)
  }

  /** How many handshakes came to writing a credential. */
  function Issues(events: seq<Event>): nat {
    if events == [] then 0
    else Issues(events[..|events| - 1]) + (if events[|events| - 1].IssueCredential? then 1 else 0)
  }

  /** The credential written last, unless a write that failed destroyed it. */
  function LatestCredential(events: seq<Event>): Option<string> {
    if events == [] then None
    else
      var n := |events| - 1;
      var before := LatestCredential(events[..n]);
      if events[n].IssueCredential? then Written(before, events[n].issue) else before
  }

  /** The registrations and the tries, in the order of the registry's lock. */
  function Reaching(events: seq<Event>): seq<Op>
    requires PossibleRun(events)
  {
    if events == [] then []
    else
      var n := |events| - 1;
      Reaching(events[..n])
      + match events[n]
        case CodeRegistered(code, expires) => [Register(code, expires)]
        case TryCode(f, now) => [Try(Run(events[..n]).flights[f].token, now)]
        case _ => []
  }

  function ClearedFlights(flights: map<nat, Flight>): set<nat> {
    set f | f in flights && flights[f].Cleared?
  }

  lemma ClearedAdded(flights: map<nat, Flight>, f: nat, flight: Flight)
    requires f in flights ==> !flights[f].Cleared?
    ensures |ClearedFlights(flights[f := flight])| == |ClearedFlights(flights)| + (if flight.Cleared? then 1 else 0)
  {
    var more := if flight.Cleared? then {f} else {};
    assert ClearedFlights(flights[f := flight]) == ClearedFlights(flights) + more;
  }

  lemma ClearedRemoved(flights: map<nat, Flight>, f: nat)
    requires f in flights
    ensures |ClearedFlights(flights - {f})| == |ClearedFlights(flights)| - (if flights[f].Cleared? then 1 else 0)
  {
    assert ClearedFlights(flights - {f}) == ClearedFlights(flights) - {f};
  }

  lemma ClearedSteps(s: State, e: Event)
    requires Due(s, e)
    ensures |ClearedFlights(Next(s, e).flights)| ==
            |ClearedFlights(s.flights)| + (if Pairs(s, e) then 1 else 0) - (if e.IssueCredential? then 1 else 0)
  {
    match e
    case CodeRegistered(_, _) =>
    case CheckCredential(f, token, _) => ClearedAdded(s.flights, f, Unknown(token));
    case TryCode(f, _) =>
      ClearedAdded(s.flights, f, Cleared);
      ClearedRemoved(s.flights, f);
    case IssueCredential(f, _) => ClearedRemoved(s.flights, f);
  }

  /** Each pairing uses up a registration and each write a pairing, so there are never more of them. */
  lemma {:induction false} PairingsWithinRegistrations(events: seq<Event>)
    requires PossibleRun(events)
    ensures Pairings(events) + (if Run(events).agent.pending.Some? then 1 else 0) <= Registrations(events)
    ensures Issues(events) + |ClearedFlights(Run(events).flights)| == Pairings(events)
    decreases |events|
  {
    if events == [] {
      assert ClearedFlights(INITIAL.flights) == {};
    } else {
      var n := |events| - 1;
      PairingsWithinRegistrations(events[..n]);
      ClearedSteps(Run(events[..n]), events[n]);
    }
  }

  lemma {:induction false} CredentialIsLatest(events: seq<Event>)
    requires PossibleRun(events)
    ensures Run(events).agent.credential == LatestCredential(events)
    decreases |events|
  {
    if events == [] {
    } else {
      CredentialIsLatest(events[..|events| - 1]);
    }
  }

  /** A token gets in without a code exactly when it is the latest credential, and that costs nothing. */
  lemma OnlyTheLatestCredential(events: seq<Event>, f: nat, token: string, readable: bool)
    requires PossibleRun(events) && f !in Run(events).flights
    ensures var s, e := Run(events), CheckCredential(f, token, readable);
            && (OutcomeOf(s, e) == Some(AlreadyPaired) <==> readable && LatestCredential(events) == Some(token))
            && (OutcomeOf(s, e) == Some(AlreadyPaired) ==> Next(s, e) == s)
  {
    CredentialIsLatest(events);
  }

  lemma AfterSnoc(history: seq<Op>, op: Op)
    ensures After(history + [op]) == Apply(After(history), op)
  {
    assert (history + [op])[..|history|] == history;
  }

  /** The registry an agent runs with is the registry of exactly those tries. */
  lemma {:induction false} RegistrySees(events: seq<Event>)
    requires PossibleRun(events)
    ensures Run(events).agent.pending == After(Reaching(events))
    decreases |events|
  {
    if events == [] {
    } else {
      var n := |events| - 1;
      var before := Reaching(events[..n]);
      RegistrySees(events[..n]);
      match events[n]
      case CodeRegistered(code, expires) => AfterSnoc(before, Register(code, expires));
      case TryCode(f, now) => AfterSnoc(before, Try(Run(events[..n]).flights[f].token, now));
      case _ => assert before + [] == before;
    }
  }

  /** The token of a handshake that tries it as a code was not recognized when the credential was read. */
  lemma {:induction false} TokenWasChecked(events: seq<Event>, f: nat) returns (i: nat, readable: bool)
    requires PossibleRun(events) && f in Run(events).flights && Run(events).flights[f].Unknown?
    ensures i < |events| && PossibleRun(events[..i])
    ensures var token := Run(events).flights[f].token;
            && events[i] == CheckCredential(f, token, readable)
            && (readable ==> LatestCredential(events[..i]) != Some(token))
    decreases |events|
  {
    var n := |events| - 1;
    var s := Run(events[..n]);
    if events[n].CheckCredential? && events[n].flight == f {
      i, readable := n, events[n].readable;
      CredentialIsLatest(events[..n]);
    } else {
      i, readable := TokenWasChecked(events[..n], f);
      assert events[..n][..i] == events[..i];
    }
  }

  /**
   Over every interleaving, a handshake that tries its token as a code pairs
   if and only if it is a good code by the tokens that reached the registry.
   */
  lemma PairsExactly(events: seq<Event>, f: nat, now: int)
    requires PossibleRun(events) && Due(Run(events), TryCode(f, now))
    ensures Pairs(Run(events), TryCode(f, now)) <==> Good(Reaching(events), Run(events).flights[f].token, now)
  {
    RegistrySees(events);
    SucceedsExactly(Reaching(events), Run(events).flights[f].token, now);
  }
}
