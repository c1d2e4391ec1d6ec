/**
 `check_rate_limit`: the address key first, then the account key, on one
 limiter. The limiter is locked once per key, so any number of sign-ins can
 be between their two checks.
 */
module SignInLimit {
  import opened Text
  import opened RateLimiter

  /** `client_key` makes addresses of this form. */
  function AddressKey(address: string): string { "ip:" + address }
  function AccountKey(email: string): string { "account:" + email }

  lemma KeysDiffer(address: string, email: string)
    ensures AddressKey(address) != AccountKey(email)
  {
    assert AddressKey(address)[0] == 'i' && AccountKey(email)[0] == 'a';
  }

  lemma KeysAreInjective(a: string, b: string)
    ensures AddressKey(a) == AddressKey(b) <==> a == b
    ensures AccountKey(a) == AccountKey(b) <==> a == b
  {
    assert AddressKey(a)[3..] == a && AddressKey(b)[3..] == b;
    assert AccountKey(a)[8..] == a && AccountKey(b)[8..] == b;
  }

  // --- One sign-in by itself.

  predicate AddressAllowed(history: seq<Attempt>, address: string, first: int) {
    Verdict(history, AddressKey(address), first).Allow?
  }

  predicate Passes(history: seq<Attempt>, address: string, email: string, first: int, second: int) {
    && AddressAllowed(history, address, first)
    && Verdict(Recorded(history, AddressKey(address), first), AccountKey(email), second).Allow?
  }

  /** With nobody in between: a refused address key leaves the account key uncounted. */
  method CheckRateLimit(limiter: Limiter, address: string, email: string, first: int, second: int)
    returns (refused: Option<int>)
    requires limiter.Valid() && limiter.clock <= first <= second
    modifies limiter
    ensures limiter.Valid() && limiter.clock <= second
    ensures refused.None? <==> Passes(old(limiter.history), address, email, first, second)
    ensures var once := Recorded(old(limiter.history), AddressKey(address), first);
            limiter.history ==
            if AddressAllowed(old(limiter.history), address, first) then Recorded(once, AccountKey(email), second)
            else once
  {
    var d := limiter.Check(AddressKey(address), first);
    if d.RetryAfter? {
      return Some(d.seconds);
    }
    d := limiter.Check(AccountKey(email), second);
    return if d.RetryAfter? then Some(d.seconds) else None;
  }

  // --- Any number of sign-ins, their checks interleaved.

  datatype Status = Waiting | Passed(second: int) | Refused

  /** A sign-in whose address was allowed at `first`. */
  datatype SignIn = SignIn(address: string, email: string, first: int, status: Status)

  datatype State = State(calls: seq<Call>, signIns: seq<SignIn>)

  const INITIAL := State([], [])

  datatype Event =
    | CheckAddress(address: string, email: string, now: int)
    | CheckAccount(signIn: nat, now: int)

  predicate Possible(s: State, e: Event) {
    && (s.calls != [] ==> s.calls[|s.calls| - 1].now <= e.now)
    && (e.CheckAccount? ==> e.signIn < |s.signIns| && s.signIns[e.signIn].status.Waiting?)
  }

  function CallOf(s: State, e: Event): Call
    requires Possible(s, e)
  {
    match e
    case CheckAddress(address, _, now) => Call(AddressKey(address), now)
    case CheckAccount(i, now) => Call(AccountKey(s.signIns[i].email), now)
  }

  predicate Allowed(s: State, e: Event)
    requires Possible(s, e)
  {
    Verdict(Run(s.calls), CallOf(s, e).key, e.now).Allow?
  }

  function NextSignIns(s: State, e: Event): seq<SignIn>
    requires Possible(s, e)
  {
    match e
    case CheckAddress(address, email, now) =>
      if Allowed(s, e) then s.signIns + [SignIn(address, email, now, Waiting)] else s.signIns
    case CheckAccount(i, now) =>
      s.signIns[i := s.signIns[i].(status := if Allowed(s, e) then Passed(now) else Refused)]
  }

  function Next(s: State, e: Event): State
    requires Possible(s, e)
  {
    State(s.calls + [CallOf(s, e)], NextSignIns(s, e))
  }

  predicate PossibleRun(s: State, events: seq<Event>)
    decreases |events|
  {
    events != [] ==> Possible(s, events[0]) && PossibleRun(Next(s, events[0]), events[1..])
  }

  function After(s: State, events: seq<Event>): State
    requires PossibleRun(s, events)
    decreases |events|
  {
    if events == [] then s else After(Next(s, events[0]), events[1..])
  }

  /** How many sign-ins of the account passed in the window. */
  function AccountPasses(signIns: seq<SignIn>, email: string, start: int): nat {
    if signIns == [] then 0
    else
      var n := |signIns| - 1;
      var s := signIns[n];
      AccountPasses(signIns[..n], email, start)
      + (if s.email == email && s.status.Passed? && In(start, s.status.second) then 1 else 0)
  }

  /** How many addresses of sign-ins were allowed in the window, and how many of those passed. */
  function AddressChecks(signIns: seq<SignIn>, address: string, start: int): nat {
    if signIns == [] then 0
    else
      var n := |signIns| - 1;
      AddressChecks(signIns[..n], address, start)
      + (if signIns[n].address == address && In(start, signIns[n].first) then 1 else 0)
  }

  function AddressPasses(signIns: seq<SignIn>, address: string, start: int): nat {
    if signIns == [] then 0
    else
      var n := |signIns| - 1;
      var s := signIns[n];
      AddressPasses(signIns[..n], address, start)
      + (if s.address == address && s.status.Passed? && In(start, s.first) then 1 else 0)
  }

  lemma {:induction false} PassesWereChecked(signIns: seq<SignIn>, address: string, start: int)
    ensures AddressPasses(signIns, address, start) <= AddressChecks(signIns, address, start)
  {
    if signIns == [] {
    } else {
      PassesWereChecked(signIns[..|signIns| - 1], address, start);
    }
  }

  /** An account check decides one waiting sign-in and nothing about addresses. */
  lemma {:induction false} Decided(signIns: seq<SignIn>, i: nat, status: Status, email: string, address: string,
                                   start: int)
    requires i < |signIns| && signIns[i].status.Waiting? && !status.Waiting?
    ensures var after := signIns[i := signIns[i].(status := status)];
            && AddressChecks(after, address, start) == AddressChecks(signIns, address, start)
            && AccountPasses(after, email, start) == AccountPasses(signIns, email, start)
               + (if signIns[i].email == email && status.Passed? && In(start, status.second) then 1 else 0)
    decreases |signIns|
  {
    var n := |signIns| - 1;
    var after := signIns[i := signIns[i].(status := status)];
    if i == n {
      assert after[..n] == signIns[..n];
    } else {
      assert after[..n] == signIns[..n][i := signIns[i].(status := status)];
      Decided(signIns[..n], i, status, email, address, start);
    }
  }

  lemma Begun(signIns: seq<SignIn>, s: SignIn, email: string, address: string, start: int)
    requires s.status.Waiting?
    ensures AccountPasses(signIns + [s], email, start) == AccountPasses(signIns, email, start)
    ensures AddressChecks(signIns + [s], address, start) ==
            AddressChecks(signIns, address, start) + (if s.address == address && In(start, s.first) then 1 else 0)
  {
    assert (signIns + [s])[..|signIns|] == signIns;
  }

  lemma RunSnoc(calls: seq<Call>, c: Call)
    ensures Run(calls + [c]) == Recorded(Run(calls), c.key, c.now)
  {
    assert (calls + [c])[..|calls|] == calls;
  }

  /** What one call adds to the count of a key. */
  lemma OneCall(calls: seq<Call>, c: Call, key: string, start: int)
    ensures CountIn(Times(Run(calls + [c]), key), start) ==
            CountIn(Times(Run(calls), key), start)
            + (if Verdict(Run(calls), c.key, c.now).Allow? && c.key == key && In(start, c.now) then 1 else 0)
  {
    RunSnoc(calls, c);
    TimesSnoc(Run(calls), Attempt(c.key, c.now), key);
    assert Times(Run(calls), key) + [] == Times(Run(calls), key);
    CountAppend(Times(Run(calls), key), [c.now], start);
    assert CountIn([c.now], start) == if In(start, c.now) then 1 else 0;
  }

  /** The sign-ins account for what the limiter has counted. */
  predicate Accounted(s: State, email: string, address: string, start: int) {
    && AccountPasses(s.signIns, email, start) == CountIn(Times(Run(s.calls), AccountKey(email)), start)
    && AddressChecks(s.signIns, address, start) == CountIn(Times(Run(s.calls), AddressKey(address)), start)
  }

  lemma AddressStepKeeps(s: State, from: string, who: string, now: int, email: string, address: string, start: int)
    requires Possible(s, CheckAddress(from, who, now)) && Accounted(s, email, address, start)
    ensures Accounted(Next(s, CheckAddress(from, who, now)), email, address, start)
  {
    var c := Call(AddressKey(from), now);
    OneCall(s.calls, c, AccountKey(email), start);
    OneCall(s.calls, c, AddressKey(address), start);
    KeysDiffer(from, email);
    KeysAreInjective(from, address);
    Begun(s.signIns, SignIn(from, who, now, Waiting), email, address, start);
  }

  lemma AccountStepKeeps(s: State, i: nat, now: int, email: string, address: string, start: int)
    requires Possible(s, CheckAccount(i, now)) && Accounted(s, email, address, start)
    ensures Accounted(Next(s, CheckAccount(i, now)), email, address, start)
  {
    var c := Call(AccountKey(s.signIns[i].email), now);
    OneCall(s.calls, c, AccountKey(email), start);
    OneCall(s.calls, c, AddressKey(address), start);
    KeysDiffer(address, s.signIns[i].email);
    KeysAreInjective(s.signIns[i].email, email);
    var status := if Allowed(s, CheckAccount(i, now)) then Passed(now) else Refused;
    Decided(s.signIns, i, status, email, address, start);
  }

  lemma StepKeeps(s: State, e: Event, email: string, address: string, start: int)
    requires Possible(s, e) && Accounted(s, email, address, start)
    ensures Accounted(Next(s, e), email, address, start)
  {
    match e
    case CheckAddress(from, who, now) => AddressStepKeeps(s, from, who, now, email, address, start);
    case CheckAccount(i, now) => AccountStepKeeps(s, i, now, email, address, start);
  }

  lemma CallInTime(s: State, e: Event)
    requires Possible(s, e) && InTime(s.calls)
    ensures InTime(Next(s, e).calls)
  {
  }

  lemma {:induction false} RunKeeps(s: State, events: seq<Event>, email: string, address: string, start: int)
    requires PossibleRun(s, events) && Accounted(s, email, address, start) && InTime(s.calls)
    ensures Accounted(After(s, events), email, address, start) && InTime(After(s, events).calls)
    decreases |events|
  {
    if events == [] {
    } else {
      StepKeeps(s, events[0], email, address, start);
      CallInTime(s, events[0]);
      RunKeeps(Next(s, events[0]), events[1..], email, address, start);
    }
  }

  /**
   However the checks of any number of sign-ins interleave, at most 10
   sign-ins of one account pass in any 300 seconds, and at most 10 of one
   address.
   */
  lemma AtMostTenPass(events: seq<Event>, email: string, address: string, start: int)
    requires PossibleRun(INITIAL, events)
    ensures AccountPasses(After(INITIAL, events).signIns, email, start) <= 10
    ensures AddressPasses(After(INITIAL, events).signIns, address, start) <= 10
  {
    RunKeeps(INITIAL, events, email, address, start);
    var s := After(INITIAL, events);
    WindowHoldsTen(s.calls, AccountKey(email), start);
    WindowHoldsTen(s.calls, AddressKey(address), start);
    PassesWereChecked(s.signIns, address, start);
  }

  /** An address is allowed exactly when fewer than ten sign-ins from it were, in the last 300 seconds. */
  lemma AddressAllowedExactly(events: seq<Event>, address: string, email: string, now: int)
    requires PossibleRun(INITIAL, events) && Possible(After(INITIAL, events), CheckAddress(address, email, now))
    ensures var s := After(INITIAL, events);
            Next(s, CheckAddress(address, email, now)).signIns ==
            if AddressChecks(s.signIns, address, now - 299_999_999_999) < 10
            then s.signIns + [SignIn(address, email, now, Waiting)]
            else s.signIns
  {
    var s := After(INITIAL, events);
    RunKeeps(INITIAL, events, email, address, now - 299_999_999_999);
    CallInTime(s, CheckAddress(address, email, now));
    AllowedExactly(s.calls, AddressKey(address), now);
  }

  /** A sign-in then passes exactly when fewer than ten of its account did, in the last 300 seconds. */
  lemma PassesExactly(events: seq<Event>, i: nat, now: int)
    requires PossibleRun(INITIAL, events) && Possible(After(INITIAL, events), CheckAccount(i, now))
    ensures var s := After(INITIAL, events);
            Next(s, CheckAccount(i, now)).signIns[i].status ==
            if AccountPasses(s.signIns, s.signIns[i].email, now - 299_999_999_999) < 10 then Passed(now) else Refused
  {
    var s := After(INITIAL, events);
    RunKeeps(INITIAL, events, s.signIns[i].email, s.signIns[i].address, now - 299_999_999_999);
    CallInTime(s, CheckAccount(i, now));
    AllowedExactly(s.calls, AccountKey(s.signIns[i].email), now);
  }

  /** With nobody in between, the two checks are the two steps. */
  lemma ByItself(s: State, address: string, email: string, first: int, second: int)
    requires first <= second && Possible(s, CheckAddress(address, email, first))
    ensures var once := Next(s, CheckAddress(address, email, first));
            if AddressAllowed(Run(s.calls), address, first) then
              && once.signIns == s.signIns + [SignIn(address, email, first, Waiting)]
              && Possible(once, CheckAccount(|s.signIns|, second))
              && (Next(once, CheckAccount(|s.signIns|, second)).signIns[|s.signIns|].status.Passed? <==>
                  Passes(Run(s.calls), address, email, first, second))
            else
              once.signIns == s.signIns && !Passes(Run(s.calls), address, email, first, second)
  {
    RunSnoc(s.calls, Call(AddressKey(address), first));
  }
}
