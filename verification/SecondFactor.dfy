/**
 Second-factor sign-in on one account, with the reads and the conditional
 writes of any number of requests interleaved. Secrets are named by a number;
 secrets and recovery codes are issued once.
 */
module SecondFactor {
  import opened Text
  import opened Totp

  /** The columns of the account; `enabled` says that the moment two-factor was turned on is set. */
  datatype Account = Account(
    enabled: bool,
    secret: Option<nat>,
    pending: Option<nat>,
    last: Option<int>,
    codes: map<nat, bool>               // recovery codes with their used mark
  )

  /** A sign-in is let in by its password alone: two-factor is off, or there is no secret to check against. */
  predicate PassesWithoutCode(a: Account) {
    !a.enabled || a.secret.None?
  }

  /** How far a request is; `since` is how long the history was when it read the account. */
  datatype Flight =
    | Read(secret: nat, last: Option<int>, since: nat, disabling: bool) // the account was read and has a second factor
    | Verified(secret: nat, step: int, since: nat, disabling: bool)     // the code was right for that step
    | Cleared                                                           // a disable that passed the check
    | ReadPending(secret: nat)                                          // an enable that read the pending secret
    | Confirmed(secret: nat, step: int)                                 // an enable whose code was right

  /** What happened to the account, in order. */
  datatype Entry =
    | Enabled(step: int, taken: Option<nat>, confirmed: nat, codes: set<nat>) // the secret it took, the one confirmed
    | Disabled
    | Accepted(step: int, secret: nat, since: nat)
    | Recovered(code: nat)

  datatype State = State(
    account: Account,
    flights: map<nat, Flight>,
    issued: set<nat>,                   // recovery codes that were ever given out
    secrets: set<nat>,                  // secrets that were ever given out
    confirmed: set<nat>,                // secrets that a code was right for
    log: seq<Entry>
  )

  const INITIAL := State(Account(false, None, None, None, map[]), map[], {}, {}, {}, [])

  datatype Event =
    | Setup(secret: nat)                          // two_factor_setup stores a new pending secret
    | Begin(flight: nat, disabling: bool)         // check_second_factor reads the account
    | SkipCheck(flight: nat)                      // a disable finds no secret to check against
    | TypeCode(flight: nat, code: string, now: int) // a blank code is never right
    | RecordStep(flight: nat)                     // the conditional update
    | UseRecovery(flight: nat, recovery: nat)
    | BeginEnable(flight: nat)
    | Confirm(flight: nat, code: string, now: int)
    | CommitEnable(flight: nat, codes: set<nat>)
    | CommitDisable(flight: nat)
    | Drop(flight: nat)

  predicate Can(s: State, e: Event) {
    match e
    case Setup(secret) => secret !in s.secrets
    case Begin(f, _) => f !in s.flights && s.account.secret.Some?
    case SkipCheck(f) => f !in s.flights && s.account.secret.None?
    case TypeCode(f, _, _) => f in s.flights && s.flights[f].Read?
    case RecordStep(f) => f in s.flights && s.flights[f].Verified?
    case UseRecovery(f, _) => f in s.flights && s.flights[f].Read?
    case BeginEnable(f) => f !in s.flights && s.account.pending.Some?
    case Confirm(f, _, _) => f in s.flights && s.flights[f].ReadPending?
    case CommitEnable(f, codes) => f in s.flights && s.flights[f].Confirmed? && codes !! s.issued
    case CommitDisable(f) => f in s.flights && s.flights[f].Cleared?
    case Drop(f) => f in s.flights
  }

  /** The guard of the update: nothing at or before the last step. */
  predicate StepIsNew(last: Option<int>, step: int) {
    last.None? || last.value < step
  }

  function Passed(s: State, f: nat, disabling: bool): map<nat, Flight> {
    if disabling then s.flights[f := Cleared] else s.flights - {f}
  }

  function Next(macs: nat -> nat -> Digest, s: State, e: Event): State
    requires Can(s, e)
  {
    var a := s.account;
    match e
    case Setup(secret) => s.(account := a.(pending := Some(secret)), secrets := s.secrets + {secret})
    case Begin(f, disabling) => s.(flights := s.flights[f := Read(a.secret.value, a.last, |s.log|, disabling)])
    case SkipCheck(f) => s.(flights := s.flights[f := Cleared])
    case TypeCode(f, code, now) =>
      var r := s.flights[f];
      var step := Verify(macs(r.secret), code, now, r.last);
      if step.None? then s.(flights := s.flights - {f})
      else s.(flights := s.flights[f := Verified(r.secret, step.value, r.since, r.disabling)])
    case RecordStep(f) =>
      var r := s.flights[f];
      if StepIsNew(a.last, r.step) then
        s.(account := a.(last := Some(r.step)), flights := Passed(s, f, r.disabling),
           log := s.log + [Accepted(r.step, r.secret, r.since)])
      else s.(flights := s.flights - {f})
    case UseRecovery(f, code) =>
      if code in a.codes && !a.codes[code] then
        s.(account := a.(codes := a.codes[code := true]), flights := Passed(s, f, s.flights[f].disabling),
           log := s.log + [Recovered(code)])
      else s.(flights := s.flights - {f})
    case BeginEnable(f) => s.(flights := s.flights[f := ReadPending(a.pending.value)])
    case Confirm(f, code, now) =>
      var secret := s.flights[f].secret;
      var step := Verify(macs(secret), code, now, None);
      if step.None? then s.(flights := s.flights - {f})
      else s.(flights := s.flights[f := Confirmed(secret, step.value)], confirmed := s.confirmed + {secret})
    case CommitEnable(f, codes) =>
      var r := s.flights[f];
      // The secret is whatever is pending at this moment, which another enable may have taken.
      s.(account := Account(true, a.pending, None, Some(r.step), map c | c in codes :: false),
         flights := s.flights - {f}, issued := s.issued + codes,
         log := s.log + [Enabled(r.step, a.pending, r.secret, codes)])
    case CommitDisable(f) =>
      s.(account := Account(false, None, None, None, map[]), flights := s.flights - {f}, log := s.log + [Disabled])
    case Drop(f) => s.(flights := s.flights - {f})
  }

  predicate Possible(macs: nat -> nat -> Digest, s: State, events: seq<Event>)
    decreases |events|
  {
    events != [] ==> Can(s, events[0]) && Possible(macs, Next(macs, s, events[0]), events[1..])
  }

  function After(macs: nat -> nat -> Digest, s: State, events: seq<Event>): State
    requires Possible(macs, s, events)
    decreases |events|
  {
    if events == [] then s else After(macs, Next(macs, s, events[0]), events[1..])
  }

  // --- What the history says about the account.

  /** The last step the history leaves on the account. */
  function LastStep(log: seq<Entry>): Option<int> {
    if log == [] then None
    else
      match log[|log| - 1]
      case Enabled(step, _, _, _) => Some(step)
      case Accepted(step, _, _) => Some(step)
      case Disabled => None
      case Recovered(_) => LastStep(log[..|log| - 1])
  }

  predicate IsSwitch(e: Entry) {
    e.Enabled? || e.Disabled?
  }

  /** The enable the history leaves two-factor on by. */
  function Switch(log: seq<Entry>): (r: Option<Entry>)
    ensures r.Some? ==> r.value.Enabled? && r.value in log
  {
    if log == [] then None
    else if log[|log| - 1].Enabled? then Some(log[|log| - 1])
    else if log[|log| - 1].Disabled? then None
    else Switch(log[..|log| - 1])
  }

  /** The secret the history leaves active. */
  function ActiveSecret(log: seq<Entry>): Option<nat> {
    if Switch(log).Some? then Switch(log).value.taken else None
  }

  predicate NoSwitch(log: seq<Entry>, from: nat, to: nat)
    requires to <= |log|
  {
    forall k | from <= k < to :: !IsSwitch(log[k])
  }

  /** Every accepted step was above the last one; every recovery code was used only once. */
  ghost predicate InOrder(log: seq<Entry>) {
    && (forall i | 0 <= i < |log| && log[i].Accepted? :: StepIsNew(LastStep(log[..i]), log[i].step))
    && (forall i, j | 0 <= i < j < |log| && log[i].Recovered? :: log[j] != log[i])
  }

  /** Each step was accepted for the active secret exactly if nothing was switched since the account was read. */
  ghost predicate ForActive(log: seq<Entry>) {
    forall i | 0 <= i < |log| && log[i].Accepted? ::
      log[i].since <= i && (NoSwitch(log, log[i].since, i) <==> ActiveSecret(log[..i]) == Some(log[i].secret))
  }

  ghost predicate Sound(s: State) {
    && s.account.last == LastStep(s.log)
    && InOrder(s.log)
    && s.account.codes.Keys <= s.issued
    && (forall i | 0 <= i < |s.log| && s.log[i].Recovered? ::
          var c := s.log[i].code; c in s.issued && (c in s.account.codes ==> s.account.codes[c]))
  }

  /** The secret the request read is active exactly if nothing was switched since, and is never pending again. */
  predicate KnowsSecret(s: State, f: Flight) {
    f.Read? || f.Verified? ==>
      && f.since <= |s.log| && (NoSwitch(s.log, f.since, |s.log|) <==> s.account.secret == Some(f.secret))
      && f.secret in s.secrets && s.account.pending != Some(f.secret)
  }

  ghost predicate SecretsFit(s: State) {
    && s.account.enabled == Switch(s.log).Some? && s.account.secret == ActiveSecret(s.log)
    && (s.account.secret.Some? ==> s.account.secret.value in s.secrets && s.account.pending != s.account.secret)
    && (s.account.pending.Some? ==> s.account.pending.value in s.secrets)
    && (forall f | f in s.flights :: KnowsSecret(s, s.flights[f]))
    && ForActive(s.log)
  }

  function StepAfter(last: Option<int>, e: Entry): Option<int> {
    match e
    case Enabled(step, _, _, _) => Some(step)
    case Accepted(step, _, _) => Some(step)
    case Disabled => None
    case Recovered(_) => last
  }

  lemma InOrderSnoc(log: seq<Entry>, e: Entry)
    requires InOrder(log)
    requires e.Accepted? ==> StepIsNew(LastStep(log), e.step)
    requires e.Recovered? ==> e !in log
    ensures InOrder(log + [e]) && LastStep(log + [e]) == StepAfter(LastStep(log), e)
  {
    var log' := log + [e];
    assert log'[..|log|] == log;
    forall i | 0 <= i < |log|
      ensures log'[..i] == log[..i] && log'[i] == log[i]
    {
    }
  }

  lemma SwitchSnoc(log: seq<Entry>, e: Entry)
    ensures !IsSwitch(e) ==> Switch(log + [e]) == Switch(log)
    ensures e.Enabled? ==> Switch(log + [e]) == Some(e)
    ensures e.Disabled? ==> Switch(log + [e]) == None
  {
    assert (log + [e])[..|log|] == log;
  }

  lemma NoSwitchSnoc(log: seq<Entry>, e: Entry, from: nat, to: nat)
    requires to <= |log|
    ensures NoSwitch(log + [e], from, to) <==> NoSwitch(log, from, to)
    ensures from <= |log| ==> (NoSwitch(log + [e], from, |log| + 1) <==> NoSwitch(log, from, |log|) && !IsSwitch(e))
  {
    assert forall k | 0 <= k < |log| :: (log + [e])[k] == log[k];
    assert (log + [e])[|log|] == e;
  }

  lemma ForActiveSnoc(log: seq<Entry>, e: Entry)
    requires ForActive(log)
    requires e.Accepted? ==>
               e.since <= |log| && (NoSwitch(log, e.since, |log|) <==> ActiveSecret(log) == Some(e.secret))
    ensures ForActive(log + [e])
  {
    var log' := log + [e];
    assert log'[..|log|] == log;
    forall i | 0 <= i < |log'| && log'[i].Accepted?
      ensures log'[i].since <= i
      ensures NoSwitch(log', log'[i].since, i) <==> ActiveSecret(log'[..i]) == Some(log'[i].secret)
    {
      if i < |log| {
        assert log'[..i] == log[..i] && log'[i] == log[i];
        NoSwitchSnoc(log, e, log[i].since, i);
      } else {
        NoSwitchSnoc(log, e, e.since, |log|);
      }
    }
  }

  lemma StepKeeps(macs: nat -> nat -> Digest, s: State, e: Event)
    requires Sound(s) && Can(s, e)
    ensures Sound(Next(macs, s, e))
  {
    match e
    case RecordStep(f) =>
      var r := s.flights[f];
      if StepIsNew(s.account.last, r.step) {
        InOrderSnoc(s.log, Accepted(r.step, r.secret, r.since));
      }
    case UseRecovery(f, code) =>
      if code in s.account.codes && !s.account.codes[code] {
        InOrderSnoc(s.log, Recovered(code));
      }
    case CommitEnable(f, codes) =>
      InOrderSnoc(s.log, Enabled(s.flights[f].step, s.account.pending, s.flights[f].secret, codes));
    case CommitDisable(_) => InOrderSnoc(s.log, Disabled);
    case _ =>
  }

  /** One more entry, with the account as it says. */
  lemma EntryFits(s: State, s': State, e: Entry)
    requires SecretsFit(s) && s'.log == s.log + [e]
    requires forall f | f in s'.flights :: s'.flights[f].Cleared? || (f in s.flights && s.flights[f] == s'.flights[f])
    requires s'.secrets == s.secrets && s'.account.pending == if IsSwitch(e) then None else s.account.pending
    requires !IsSwitch(e) ==> s'.account.enabled == s.account.enabled && s'.account.secret == s.account.secret
    requires e.Enabled? ==> s'.account.enabled && s'.account.secret == e.taken == s.account.pending
    requires e.Disabled? ==> !s'.account.enabled && s'.account.secret == None
    requires e.Accepted? ==> exists f | f in s.flights && s.flights[f].Verified? ::
               s.flights[f].secret == e.secret && s.flights[f].since == e.since
    ensures SecretsFit(s')
  {
    SwitchSnoc(s.log, e);
    if e.Accepted? {
      var f :| f in s.flights && s.flights[f].Verified?
        && s.flights[f].secret == e.secret && s.flights[f].since == e.since;
      assert KnowsSecret(s, s.flights[f]);
    }
    ForActiveSnoc(s.log, e);
    forall f | f in s'.flights
      ensures KnowsSecret(s', s'.flights[f])
    {
      var r := s'.flights[f];
      if r.Read? || r.Verified? {
        assert KnowsSecret(s, s.flights[f]);
        NoSwitchSnoc(s.log, e, r.since, |s.log|);
      }
    }
  }

  /** Nothing is written, and what a request newly knows it read from the account or from what it knew. */
  lemma QuietFits(s: State, s': State)
    requires SecretsFit(s) && s'.log == s.log
    requires s'.account.enabled == s.account.enabled && s'.account.secret == s.account.secret && s.secrets <= s'.secrets
    requires s'.account.pending != s.account.pending ==>
               s'.account.pending.Some? && s'.account.pending.value in s'.secrets - s.secrets
    requires forall f | f in s'.flights :: KnowsSecret(s, s'.flights[f])
    ensures SecretsFit(s')
  {
    forall f | f in s'.flights
      ensures KnowsSecret(s', s'.flights[f])
    {
      assert KnowsSecret(s, s'.flights[f]);
    }
  }

  lemma QuietStepFits(macs: nat -> nat -> Digest, s: State, e: Event)
    requires SecretsFit(s) && Can(s, e) && !e.CommitEnable? && !e.CommitDisable?
    requires Next(macs, s, e).log == s.log
    ensures SecretsFit(Next(macs, s, e))
  {
    var s' := Next(macs, s, e);
    forall f | f in s'.flights
      ensures KnowsSecret(s, s'.flights[f])
    {
      assert f in s.flights ==> KnowsSecret(s, s.flights[f]);
    }
    QuietFits(s, s');
  }

  lemma StepFits(macs: nat -> nat -> Digest, s: State, e: Event)
    requires SecretsFit(s) && Can(s, e)
    ensures SecretsFit(Next(macs, s, e))
  {
    var s' := Next(macs, s, e);
    match e
    case RecordStep(f) =>
      var r := s.flights[f];
      if StepIsNew(s.account.last, r.step) {
        EntryFits(s, s', Accepted(r.step, r.secret, r.since));
      } else {
        QuietStepFits(macs, s, e);
      }
    case UseRecovery(f, code) =>
      if code in s.account.codes && !s.account.codes[code] {
        EntryFits(s, s', Recovered(code));
      } else {
        QuietStepFits(macs, s, e);
      }
    case CommitEnable(f, codes) =>
      EntryFits(s, s', Enabled(s.flights[f].step, s.account.pending, s.flights[f].secret, codes));
    case CommitDisable(_) => EntryFits(s, s', Disabled);
    case _ => QuietStepFits(macs, s, e);
  }

  lemma {:induction false} RunKeeps(macs: nat -> nat -> Digest, s: State, events: seq<Event>)
    requires Sound(s) && SecretsFit(s) && Possible(macs, s, events)
    ensures Sound(After(macs, s, events)) && SecretsFit(After(macs, s, events))
    decreases |events|
  {
    if events == [] {
    } else {
      StepKeeps(macs, s, events[0]);
      StepFits(macs, s, events[0]);
      RunKeeps(macs, Next(macs, s, events[0]), events[1..]);
    }
  }

  /** Between two points without an enable or a disable the last step does not go down. */
  lemma {:induction false} LastStepRises(log: seq<Entry>, i: nat, j: nat)
    requires InOrder(log) && i < j <= |log|
    requires log[i].Accepted? || log[i].Enabled?
    requires forall k | i < k < j :: !log[k].Enabled? && !log[k].Disabled?
    ensures var last := LastStep(log[..j]); last.Some? && log[i].step <= last.value
    decreases j - i
  {
    var n := j - 1;
    assert log[..j][..n] == log[..n] && log[..j][n] == log[n];
    if i == n {
    } else {
      LastStepRises(log, i, n);
    }
  }

  /**
   Over every interleaving, the steps accepted between an enable and the next
   enable or disable strictly increase, starting above the step that enabled.
   */
  lemma AcceptedStepsIncrease(macs: nat -> nat -> Digest, events: seq<Event>, i: nat, j: nat)
    requires Possible(macs, INITIAL, events)
    requires var log := After(macs, INITIAL, events).log;
             && i < j < |log| && log[j].Accepted? && (log[i].Accepted? || log[i].Enabled?)
             && (forall k | i < k < j :: !log[k].Enabled? && !log[k].Disabled?)
    ensures var log := After(macs, INITIAL, events).log; log[i].step < log[j].step
  {
    RunKeeps(macs, INITIAL, events);
    LastStepRises(After(macs, INITIAL, events).log, i, j);
  }

  /** A recovery code gets somebody in at most once, whoever races with it. */
  lemma RecoveryCodesWorkOnce(macs: nat -> nat -> Digest, events: seq<Event>, i: nat, j: nat)
    requires Possible(macs, INITIAL, events)
    requires var log := After(macs, INITIAL, events).log; i < j < |log| && log[i].Recovered? && log[j].Recovered?
    ensures var log := After(macs, INITIAL, events).log; log[i].code != log[j].code
  {
    RunKeeps(macs, INITIAL, events);
  }

  // --- While two-factor is on, a sign-in needs a code.

  /** An enable leaves an account that needs a code exactly when the pending secret is still there at its commit. */
  lemma EnableTakesTheSecret(macs: nat -> nat -> Digest, s: State, f: nat, codes: set<nat>)
    requires Can(s, CommitEnable(f, codes))
    ensures var a := Next(macs, s, CommitEnable(f, codes)).account;
            a.enabled && (PassesWithoutCode(a) <==> s.account.pending.None?)
  {
  }

  /** Over every run: two-factor is on without a code being asked for exactly if the last enable found no secret. */
  lemma NeedsCodeExactly(macs: nat -> nat -> Digest, events: seq<Event>)
    requires Possible(macs, INITIAL, events)
    ensures var s := After(macs, INITIAL, events);
            && s.account.enabled == Switch(s.log).Some?
            && (s.account.enabled ==> (PassesWithoutCode(s.account) <==> Switch(s.log).value.taken.None?))
  {
    RunKeeps(macs, INITIAL, events);
  }

  /** While two-factor is on a sign-in needs a code, provided no enable came too late for the pending secret. */
  lemma TwoFactorNeedsACode(macs: nat -> nat -> Digest, events: seq<Event>)
    requires Possible(macs, INITIAL, events)
    requires forall e | e in After(macs, INITIAL, events).log && e.Enabled? :: e.taken.Some?
    ensures var a := After(macs, INITIAL, events).account; a.enabled ==> !PassesWithoutCode(a)
  {
    NeedsCodeExactly(macs, events);
  }

  // --- The active secret is one that a code was right for.

  /** This step is a code that is right for the secret. */
  predicate Confirms(macs: nat -> nat -> Digest, s: State, e: Event, secret: nat)
    requires Can(s, e)
  {
    e.Confirm? && s.flights[e.flight].secret == secret && Verify(macs(secret), e.code, e.now, None).Some?
  }

  /** Some step of the run is. */
  predicate SomeConfirm(macs: nat -> nat -> Digest, s: State, events: seq<Event>, secret: nat)
    requires Possible(macs, s, events)
    decreases |events|
  {
    events != [] &&
    (Confirms(macs, s, events[0], secret) || SomeConfirm(macs, Next(macs, s, events[0]), events[1..], secret))
  }

  /** What enables in flight and in the history say was confirmed, was. */
  predicate ConfirmedFit(s: State) {
    && (forall f | f in s.flights && s.flights[f].Confirmed? :: s.flights[f].secret in s.confirmed)
    && (forall i | 0 <= i < |s.log| && s.log[i].Enabled? :: s.log[i].confirmed in s.confirmed)
  }

  lemma StepConfirms(macs: nat -> nat -> Digest, s: State, e: Event, secret: nat)
    requires ConfirmedFit(s) && Can(s, e)
    ensures ConfirmedFit(Next(macs, s, e))
    ensures secret in Next(macs, s, e).confirmed <==> secret in s.confirmed || Confirms(macs, s, e, secret)
  {
  }

  lemma {:induction false} RunConfirms(macs: nat -> nat -> Digest, s: State, events: seq<Event>, secret: nat)
    requires ConfirmedFit(s) && Possible(macs, s, events)
    ensures ConfirmedFit(After(macs, s, events))
    ensures secret in After(macs, s, events).confirmed <==>
            secret in s.confirmed || SomeConfirm(macs, s, events, secret)
    decreases |events|
  {
    if events == [] {
    } else {
      StepConfirms(macs, s, events[0], secret);
      RunConfirms(macs, Next(macs, s, events[0]), events[1..], secret);
    }
  }

  /**
   Over every run, a code was right for the active secret exactly if one was
   for the secret that the last enable took; and one was, if that enable took
   the secret its own code was for.
   */
  lemma ActiveSecretConfirmed(macs: nat -> nat -> Digest, events: seq<Event>)
    requires Possible(macs, INITIAL, events) && After(macs, INITIAL, events).account.secret.Some?
    ensures var s := After(macs, INITIAL, events);
            var secret := s.account.secret.value;
            && Switch(s.log).Some? && Switch(s.log).value.taken.Some?
            && (SomeConfirm(macs, INITIAL, events, secret) <==> Switch(s.log).value.taken.value in s.confirmed)
            && (Switch(s.log).value.taken == Some(Switch(s.log).value.confirmed) ==>
                SomeConfirm(macs, INITIAL, events, secret))
  {
    var s := After(macs, INITIAL, events);
    RunKeeps(macs, INITIAL, events);
    RunConfirms(macs, INITIAL, events, s.account.secret.value);
    var e := Switch(s.log).value;
    var i :| 0 <= i < |s.log| && s.log[i] == e;
    assert s.log[i].confirmed in s.confirmed;
  }

  /** An enable makes the secret its code was right for active exactly if that is still pending at its commit. */
  lemma EnableTakesTheConfirmed(macs: nat -> nat -> Digest, s: State, f: nat, codes: set<nat>)
    requires Can(s, CommitEnable(f, codes))
    ensures var secret := Some(s.flights[f].secret);
            Next(macs, s, CommitEnable(f, codes)).account.secret == secret <==> s.account.pending == secret
  {
  }

  /** A code is accepted for the secret then active exactly if nothing was switched since the account was read. */
  lemma AcceptedForTheActive(macs: nat -> nat -> Digest, events: seq<Event>, i: nat)
    requires Possible(macs, INITIAL, events)
    requires var log := After(macs, INITIAL, events).log; i < |log| && log[i].Accepted?
    ensures var log := After(macs, INITIAL, events).log;
            && log[i].since <= i
            && (ActiveSecret(log[..i]) == Some(log[i].secret) <==> NoSwitch(log, log[i].since, i))
  {
    RunKeeps(macs, INITIAL, events);
  }

  // --- Runs that fail.

  lemma Unroll(macs: nat -> nat -> Digest, s: State, e: Event, events: seq<Event>)
    requires Can(s, e) && Possible(macs, Next(macs, s, e), events)
    ensures Possible(macs, s, [e] + events)
    ensures After(macs, s, [e] + events) == After(macs, Next(macs, s, e), events)
  {
    assert ([e] + events)[1..] == events;
  }

  /** Two enables that were both confirmed before either commits: the second finds no pending secret. */
  lemma BothCommit(macs: nat -> nat -> Digest, s: State, codes: set<nat>, others: set<nat>)
    requires 1 in s.flights && 2 in s.flights && s.flights[1].Confirmed? && s.flights[2].Confirmed?
    requires s.issued == {} && codes !! others
    ensures var run := [CommitEnable(1, codes)] + ([CommitEnable(2, others)] + []);
            && Possible(macs, s, run)
            && var a := After(macs, s, run).account;
            a.enabled && a.codes.Keys == others && PassesWithoutCode(a)
  {
    var s' := Next(macs, s, CommitEnable(1, codes));
    Unroll(macs, s', CommitEnable(2, others), []);
    Unroll(macs, s, CommitEnable(1, codes), [CommitEnable(2, others)] + []);
  }

  function BothConfirmed(s: State, step: int): State {
    s.(flights := s.flights[1 := Confirmed(0, step)][2 := Confirmed(0, step)], confirmed := s.confirmed + {0})
  }

  lemma BothConfirm(macs: nat -> nat -> Digest, s: State, code: string, now: int, step: int, rest: seq<Event>)
    requires 1 in s.flights && 2 in s.flights && s.flights[1] == s.flights[2] == ReadPending(0)
    requires Verify(macs(0), code, now, None) == Some(step) && Possible(macs, BothConfirmed(s, step), rest)
    ensures var run := [Confirm(1, code, now)] + ([Confirm(2, code, now)] + rest);
            Possible(macs, s, run) && After(macs, s, run) == After(macs, BothConfirmed(s, step), rest)
  {
    var s' := Next(macs, s, Confirm(1, code, now));
    assert Next(macs, s', Confirm(2, code, now)) == BothConfirmed(s, step);
    Unroll(macs, s', Confirm(2, code, now), rest);
    Unroll(macs, s, Confirm(1, code, now), [Confirm(2, code, now)] + rest);
  }

  /** Two enables of one pending secret, both confirmed before either commits. */
  function Race(code: string, now: int, codes: set<nat>, others: set<nat>): seq<Event> {
    [Setup(0)] + ([BeginEnable(1)] + ([BeginEnable(2)] + ([Confirm(1, code, now)] + ([Confirm(2, code, now)]
    + ([CommitEnable(1, codes)] + ([CommitEnable(2, others)] + []))))))
  }

  /** The second of them leaves two-factor on and no secret to check a code against. */
  lemma RacingEnables(macs: nat -> nat -> Digest, code: string, now: int, codes: set<nat>, others: set<nat>)
    requires Verify(macs(0), code, now, None).Some? && codes !! others
    ensures Possible(macs, INITIAL, Race(code, now, codes, others))
    ensures var a := After(macs, INITIAL, Race(code, now, codes, others)).account;
            a.enabled && a.codes.Keys == others && PassesWithoutCode(a)
  {
    var step := Verify(macs(0), code, now, None).value;
    var s1 := Next(macs, INITIAL, Setup(0));
    var s2 := Next(macs, s1, BeginEnable(1));
    var s3 := Next(macs, s2, BeginEnable(2));
    var last := [CommitEnable(1, codes)] + ([CommitEnable(2, others)] + []);
    BothCommit(macs, BothConfirmed(s3, step), codes, others);
    BothConfirm(macs, s3, code, now, step, last);
    var confirms := [Confirm(1, code, now)] + ([Confirm(2, code, now)] + last);
    Unroll(macs, s2, BeginEnable(2), confirms);
    Unroll(macs, s1, BeginEnable(1), [BeginEnable(2)] + confirms);
    Unroll(macs, INITIAL, Setup(0), [BeginEnable(1)] + ([BeginEnable(2)] + confirms));
  }

  /** A setup between the code and the commit of an enable. */
  function Overtaken(code: string, now: int, other: nat, codes: set<nat>): seq<Event> {
    [Setup(0)] + ([BeginEnable(1)] + ([Confirm(1, code, now)] + ([Setup(other)] + ([CommitEnable(1, codes)] + []))))
  }

  /** The enable makes a secret active that no code was ever right for. */
  lemma SetupOvertakesEnable(macs: nat -> nat -> Digest, code: string, now: int, other: nat, codes: set<nat>)
    requires Verify(macs(0), code, now, None).Some? && other != 0
    ensures Possible(macs, INITIAL, Overtaken(code, now, other, codes))
    ensures var s := After(macs, INITIAL, Overtaken(code, now, other, codes));
            s.account.enabled && s.account.secret == Some(other)
    ensures !SomeConfirm(macs, INITIAL, Overtaken(code, now, other, codes), other)
  {
    var s1 := Next(macs, INITIAL, Setup(0));
    var s2 := Next(macs, s1, BeginEnable(1));
    var s3 := Next(macs, s2, Confirm(1, code, now));
    var s4 := Next(macs, s3, Setup(other));
    var last := [CommitEnable(1, codes)] + [];
    Unroll(macs, s4, CommitEnable(1, codes), []);
    Unroll(macs, s3, Setup(other), last);
    Unroll(macs, s2, Confirm(1, code, now), [Setup(other)] + last);
    Unroll(macs, s1, BeginEnable(1), [Confirm(1, code, now)] + ([Setup(other)] + last));
    Unroll(macs, INITIAL, Setup(0), [BeginEnable(1)] + ([Confirm(1, code, now)] + ([Setup(other)] + last)));
    RunConfirms(macs, INITIAL, Overtaken(code, now, other, codes), other);
  }

  // --- A code of a secret that is no longer active.

  /** A code and when it is typed. */
  datatype Entered = Entered(code: string, now: int)

  /** Setup and enable of a secret by one request. */
  function SwitchedOn(secret: nat, f: nat, t: Entered, codes: set<nat>, rest: seq<Event>): seq<Event> {
    [Setup(secret)] + ([BeginEnable(f)] + ([Confirm(f, t.code, t.now)] + ([CommitEnable(f, codes)] + rest)))
  }

  /** The state it leaves. */
  function On(s: State, secret: nat, step: int, codes: set<nat>): State {
    s.(account := Account(true, Some(secret), None, Some(step), map c | c in codes :: false),
       issued := s.issued + codes, secrets := s.secrets + {secret}, confirmed := s.confirmed + {secret},
       log := s.log + [Enabled(step, Some(secret), secret, codes)])
  }

  lemma AfterSwitchedOn(macs: nat -> nat -> Digest, s: State, secret: nat, f: nat, t: Entered, step: int,
                        codes: set<nat>, rest: seq<Event>)
    requires f !in s.flights && secret !in s.secrets && codes !! s.issued
    requires Verify(macs(secret), t.code, t.now, None) == Some(step) && Possible(macs, On(s, secret, step, codes), rest)
    ensures var run := SwitchedOn(secret, f, t, codes, rest);
            Possible(macs, s, run) && After(macs, s, run) == After(macs, On(s, secret, step, codes), rest)
  {
    var confirm, commit := Confirm(f, t.code, t.now), CommitEnable(f, codes);
    var s1 := Next(macs, s, Setup(secret));
    var s2 := Next(macs, s1, BeginEnable(f));
    var s3 := Next(macs, s2, confirm);
    assert s3.flights - {f} == s.flights;
    Unroll(macs, s3, commit, rest);
    Unroll(macs, s2, confirm, [commit] + rest);
    Unroll(macs, s1, BeginEnable(f), [confirm] + ([commit] + rest));
    Unroll(macs, s, Setup(secret), [BeginEnable(f)] + ([confirm] + ([commit] + rest)));
  }

  /** A disable by a recovery code. */
  function SwitchedOff(f: nat, recovery: nat, rest: seq<Event>): seq<Event> {
    [Begin(f, true)] + ([UseRecovery(f, recovery)] + ([CommitDisable(f)] + rest))
  }

  function Off(s: State, recovery: nat): State {
    s.(account := Account(false, None, None, None, map[]), log := (s.log + [Recovered(recovery)]) + [Disabled])
  }

  lemma AfterSwitchedOff(macs: nat -> nat -> Digest, s: State, f: nat, recovery: nat, rest: seq<Event>)
    requires f !in s.flights && s.account.secret.Some? && recovery in s.account.codes && !s.account.codes[recovery]
    requires Possible(macs, Off(s, recovery), rest)
    ensures var run := SwitchedOff(f, recovery, rest);
            Possible(macs, s, run) && After(macs, s, run) == After(macs, Off(s, recovery), rest)
  {
    var s1 := Next(macs, s, Begin(f, true));
    var s2 := Next(macs, s1, UseRecovery(f, recovery));
    assert s2.flights - {f} == s.flights;
    Unroll(macs, s2, CommitDisable(f), rest);
    Unroll(macs, s1, UseRecovery(f, recovery), [CommitDisable(f)] + rest);
    Unroll(macs, s, Begin(f, true), [UseRecovery(f, recovery)] + ([CommitDisable(f)] + rest));
  }

  /** The code was accepted last, for a secret that is not the active one. */
  predicate AcceptedForAnother(s: State) {
    s.log != [] && s.log[|s.log| - 1].Accepted? && s.account.secret != Some(s.log[|s.log| - 1].secret)
  }

  lemma RecordedLate(macs: nat -> nat -> Digest, s: State, r: Flight, rest: seq<Event>)
    requires 2 in s.flights && s.flights[2] == r && r.Verified?
    requires s.account.secret.Some? && s.account.secret.value != r.secret
    requires StepIsNew(s.account.last, r.step) && rest == [RecordStep(2)] + []
    ensures Possible(macs, s, rest) && AcceptedForAnother(After(macs, s, rest))
  {
    Unroll(macs, s, RecordStep(2), []);
  }

  /** A disable, a new enable and then the update of a sign-in whose code was right before. */
  function Overlooked(t: Entered, recovery: nat): seq<Event> {
    SwitchedOff(3, recovery, SwitchedOn(1, 4, t, {}, [RecordStep(2)] + []))
  }

  lemma AcceptedBehindSwitches(macs: nat -> nat -> Digest, s: State, r: Flight, t: Entered, step: int, recovery: nat)
    requires s.flights == map[2 := r] && r.Verified? && r.secret == 0 && step < r.step
    requires s.account.secret.Some? && recovery in s.account.codes && !s.account.codes[recovery] && 1 !in s.secrets
    requires Verify(macs(1), t.code, t.now, None) == Some(step)
    ensures Possible(macs, s, Overlooked(t, recovery)) && AcceptedForAnother(After(macs, s, Overlooked(t, recovery)))
  {
    var end := [RecordStep(2)] + [];
    var off := Off(s, recovery);
    RecordedLate(macs, On(off, 1, step, {}), r, end);
    AfterSwitchedOn(macs, off, 1, 4, t, step, {}, end);
    AfterSwitchedOff(macs, s, 3, recovery, SwitchedOn(1, 4, t, {}, end));
  }

  /** An enable, then a sign-in whose code is right but recorded only behind a disable and a new enable. */
  function LateRecord(t0: Entered, t1: Entered, t2: Entered, codes: set<nat>, recovery: nat): seq<Event> {
    SwitchedOn(0, 1, t0, codes, [Begin(2, false)] + ([TypeCode(2, t1.code, t1.now)] + Overlooked(t2, recovery)))
  }

  /** The code of the sign-in in flight is right. */
  lemma TypingStep(macs: nat -> nat -> Digest, s: State, t: Entered, r: Flight, step: Option<int>)
    requires s.flights == map[2 := r] && r.Read?
    requires Verify(macs(r.secret), t.code, t.now, r.last) == step && step.Some?
    ensures Next(macs, s, TypeCode(2, t.code, t.now)) ==
            s.(flights := map[2 := Verified(r.secret, step.value, r.since, r.disabling)])
  {
    var r' := Verified(r.secret, step.value, r.since, r.disabling);
    assert s.flights[2 := r'] == map[2 := r'];
  }

  lemma AfterReading(macs: nat -> nat -> Digest, s: State, s': State, r: Flight, rest: seq<Event>)
    requires s.flights == map[] && s.account.secret.Some?
    requires r == Read(s.account.secret.value, s.account.last, |s.log|, false)
    requires s' == s.(flights := map[2 := r]) && Possible(macs, s', rest)
    ensures var run := [Begin(2, false)] + rest;
            Possible(macs, s, run) && After(macs, s, run) == After(macs, s', rest)
  {
    assert s.flights[2 := r] == s'.flights;
    Unroll(macs, s, Begin(2, false), rest);
  }

  lemma LateRecordRuns(macs: nat -> nat -> Digest, s: State, r: Flight, r': Flight, t1: Entered, t2: Entered,
                       k2: int, recovery: nat)
    requires s.flights == map[] && s.account.secret == Some(0) && 1 !in s.secrets
    requires recovery in s.account.codes && !s.account.codes[recovery]
    requires r == Read(0, s.account.last, |s.log|, false) && r'.Verified? && r'.secret == 0 && k2 < r'.step
    requires Verify(macs(1), t2.code, t2.now, None) == Some(k2)
    requires var typed := TypeCode(2, t1.code, t1.now);
             && Can(s.(flights := map[2 := r]), typed)
             && Next(macs, s.(flights := map[2 := r]), typed) == s.(flights := map[2 := r'])
    ensures var run := [Begin(2, false)] + ([TypeCode(2, t1.code, t1.now)] + Overlooked(t2, recovery));
            Possible(macs, s, run) && AcceptedForAnother(After(macs, s, run))
  {
    var typed, last := TypeCode(2, t1.code, t1.now), Overlooked(t2, recovery);
    AcceptedBehindSwitches(macs, s.(flights := map[2 := r']), r', t2, k2, recovery);
    Unroll(macs, s.(flights := map[2 := r]), typed, last);
    AfterReading(macs, s, s.(flights := map[2 := r]), r, [typed] + last);
  }

  /** The code is accepted, although its secret is no longer the active one. */
  lemma OldSecretAccepted(macs: nat -> nat -> Digest, t0: Entered, t1: Entered, t2: Entered, k0: int, k1: int, k2: int,
                          codes: set<nat>, recovery: nat)
    requires recovery in codes && k2 < k1
    requires Verify(macs(0), t0.code, t0.now, None) == Some(k0)
    requires Verify(macs(0), t1.code, t1.now, Some(k0)) == Some(k1)
    requires Verify(macs(1), t2.code, t2.now, None) == Some(k2)
    ensures Possible(macs, INITIAL, LateRecord(t0, t1, t2, codes, recovery))
    ensures AcceptedForAnother(After(macs, INITIAL, LateRecord(t0, t1, t2, codes, recovery)))
  {
    var s := On(INITIAL, 0, k0, codes);
    var r, r' := Read(0, Some(k0), 1, false), Verified(0, k1, 1, false);
    TypingStep(macs, s.(flights := map[2 := r]), t1, r, Some(k1));
    LateRecordRuns(macs, s, r, r', t1, t2, k2, recovery);
    AfterSwitchedOn(macs, INITIAL, 0, 1, t0, k0, codes,
                    [Begin(2, false)] + ([TypeCode(2, t1.code, t1.now)] + Overlooked(t2, recovery)));
  }
}
