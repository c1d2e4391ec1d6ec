/**
 Who gets in: behind every accepted step, every enable, every recovery and
 every disable of a run there is a step of the run that earned it.
 */
module SecondFactorCodes {
  import opened Text
  import opened Totp
  import opened SecondFactor

  // --- Right codes.

  /** The digits typed are the code of the secret for that step, and the step is the current one or a neighbour. */
  predicate RightCode(macs: nat -> nat -> Digest, secret: nat, code: string, now: int, step: int) {
    0 <= step && now / 30 - 1 <= step <= now / 30 + 1 && Typed(code) == CodeAt(macs(secret), step)
  }

  /** A sign-in or a disable that had read the secret gives the right code. */
  predicate GivesCode(macs: nat -> nat -> Digest, s: State, e: Event, secret: nat, step: int) {
    && e.TypeCode? && e.flight in s.flights && s.flights[e.flight].Read? && s.flights[e.flight].secret == secret
    && RightCode(macs, secret, e.code, e.now, step)
    && (s.flights[e.flight].last.Some? ==> s.flights[e.flight].last.value < step)
  }

  /** An enable that had read the pending secret gives the right code. */
  predicate GivesPendingCode(macs: nat -> nat -> Digest, s: State, e: Event, secret: nat, step: int) {
    && e.Confirm? && e.flight in s.flights && s.flights[e.flight] == ReadPending(secret)
    && RightCode(macs, secret, e.code, e.now, step)
  }

  /** Some step of the run gives the code. */
  predicate SomeCode(macs: nat -> nat -> Digest, s: State, events: seq<Event>, secret: nat, step: int)
    requires Possible(macs, s, events)
    decreases |events|
  {
    events != [] && (GivesCode(macs, s, events[0], secret, step) ||
                     SomeCode(macs, Next(macs, s, events[0]), events[1..], secret, step))
  }

  predicate SomePendingCode(macs: nat -> nat -> Digest, s: State, events: seq<Event>, secret: nat, step: int)
    requires Possible(macs, s, events)
    decreases |events|
  {
    events != [] && (GivesPendingCode(macs, s, events[0], secret, step) ||
                     SomePendingCode(macs, Next(macs, s, events[0]), events[1..], secret, step))
  }

  predicate HasAccepted(log: seq<Entry>, secret: nat, step: int) {
    exists i | 0 <= i < |log| :: log[i].Accepted? && log[i].secret == secret && log[i].step == step
  }

  predicate HasEnabled(log: seq<Entry>, secret: nat, step: int) {
    exists i | 0 <= i < |log| :: log[i].Enabled? && log[i].confirmed == secret && log[i].step == step
  }

  predicate HasVerified(flights: map<nat, Flight>, secret: nat, step: int) {
    exists f | f in flights :: flights[f].Verified? && flights[f].secret == secret && flights[f].step == step
  }

  predicate HasConfirmed(flights: map<nat, Flight>, secret: nat, step: int) {
    exists f | f in flights :: flights[f] == Confirmed(secret, step)
  }

  lemma VerifiedIsRight(macs: nat -> nat -> Digest, secret: nat, code: string, now: int, after: Option<int>, step: int)
    requires Verify(macs(secret), code, now, after) == Some(step)
    ensures RightCode(macs, secret, code, now, step) && (after.Some? ==> after.value < step)
  {
    VerifyMeans(macs(secret), code, now, after);
  }

  /** A code that is right for no step in reach ends the request and changes nothing else. */
  lemma WrongCodeEnds(macs: nat -> nat -> Digest, s: State, f: nat, code: string, now: int)
    requires Can(s, TypeCode(f, code, now))
    requires forall step: int :: RightCode(macs, s.flights[f].secret, code, now, step) ==>
               s.flights[f].last.Some? && step <= s.flights[f].last.value
    ensures Next(macs, s, TypeCode(f, code, now)) == s.(flights := s.flights - {f})
  {
    var r := s.flights[f];
    var step := Verify(macs(r.secret), code, now, r.last);
    if step.Some? {
      VerifiedIsRight(macs, r.secret, code, now, r.last, step.value);
    }
  }

  lemma WrongPendingCodeEnds(macs: nat -> nat -> Digest, s: State, f: nat, code: string, now: int)
    requires Can(s, Confirm(f, code, now))
    requires forall step: int :: !RightCode(macs, s.flights[f].secret, code, now, step)
    ensures Next(macs, s, Confirm(f, code, now)) == s.(flights := s.flights - {f})
  {
    var secret := s.flights[f].secret;
    var step := Verify(macs(secret), code, now, None);
    if step.Some? {
      VerifiedIsRight(macs, secret, code, now, None, step.value);
    }
  }

  /** A right code for a step that was not used goes on. */
  lemma RightCodeGoesOn(macs: nat -> nat -> Digest, s: State, f: nat, code: string, now: int, step: int)
    requires Can(s, TypeCode(f, code, now)) && RightCode(macs, s.flights[f].secret, code, now, step)
    requires s.flights[f].last.Some? ==> s.flights[f].last.value < step
    ensures var s' := Next(macs, s, TypeCode(f, code, now)); f in s'.flights && s'.flights[f].Verified?
  {
    VerifyMeans(macs(s.flights[f].secret), code, now, s.flights[f].last);
    assert Acceptable(macs(s.flights[f].secret), code, now, s.flights[f].last, step);
  }

  // --- Where accepted steps and enables come from.

  lemma VerifiedComesFrom(macs: nat -> nat -> Digest, s: State, e: Event, secret: nat, step: int)
    requires Can(s, e) && HasVerified(Next(macs, s, e).flights, secret, step)
    ensures HasVerified(s.flights, secret, step) || GivesCode(macs, s, e, secret, step)
  {
    var s' := Next(macs, s, e);
    var f :| f in s'.flights && s'.flights[f].Verified? && s'.flights[f].secret == secret && s'.flights[f].step == step;
    if e.TypeCode? && e.flight == f {
      VerifiedIsRight(macs, secret, e.code, e.now, s.flights[f].last, step);
    } else {
      assert f in s.flights && s.flights[f] == s'.flights[f];
    }
  }

  lemma AcceptedComesFrom(macs: nat -> nat -> Digest, s: State, e: Event, secret: nat, step: int)
    requires Can(s, e) && HasAccepted(Next(macs, s, e).log, secret, step)
    ensures HasAccepted(s.log, secret, step) || HasVerified(s.flights, secret, step)
  {
    var log' := Next(macs, s, e).log;
    var i :| 0 <= i < |log'| && log'[i].Accepted? && log'[i].secret == secret && log'[i].step == step;
    if i < |s.log| {
      assert s.log[i] == log'[i];
    } else {
      assert e.RecordStep?;
      assert s.flights[e.flight].secret == secret && s.flights[e.flight].step == step;
    }
  }

  lemma {:induction false} AcceptedOrigin(macs: nat -> nat -> Digest, s: State, events: seq<Event>, secret: nat,
                                          step: int)
    requires Possible(macs, s, events) && HasAccepted(After(macs, s, events).log, secret, step)
    ensures HasAccepted(s.log, secret, step) || HasVerified(s.flights, secret, step)
            || SomeCode(macs, s, events, secret, step)
    decreases |events|
  {
    if events == [] {
    } else {
      var s' := Next(macs, s, events[0]);
      AcceptedOrigin(macs, s', events[1..], secret, step);
      if HasAccepted(s'.log, secret, step) {
        AcceptedComesFrom(macs, s, events[0], secret, step);
      } else if HasVerified(s'.flights, secret, step) {
        VerifiedComesFrom(macs, s, events[0], secret, step);
      }
    }
  }

  /**
   Over every run, for every accepted step somebody who had read the secret
   gave the code of that secret for that step, when it was the current step or
   a neighbour, and later than the last one they had read.
   */
  lemma AcceptedHadACode(macs: nat -> nat -> Digest, events: seq<Event>, i: nat)
    requires Possible(macs, INITIAL, events)
    requires var log := After(macs, INITIAL, events).log; i < |log| && log[i].Accepted?
    ensures var e := After(macs, INITIAL, events).log[i]; SomeCode(macs, INITIAL, events, e.secret, e.step)
  {
    var e := After(macs, INITIAL, events).log[i];
    AcceptedOrigin(macs, INITIAL, events, e.secret, e.step);
  }

  lemma ConfirmedComesFrom(macs: nat -> nat -> Digest, s: State, e: Event, secret: nat, step: int)
    requires Can(s, e) && HasConfirmed(Next(macs, s, e).flights, secret, step)
    ensures HasConfirmed(s.flights, secret, step) || GivesPendingCode(macs, s, e, secret, step)
  {
    var s' := Next(macs, s, e);
    var f :| f in s'.flights && s'.flights[f] == Confirmed(secret, step);
    if e.Confirm? && e.flight == f {
      VerifiedIsRight(macs, secret, e.code, e.now, None, step);
    } else {
      assert f in s.flights && s.flights[f] == s'.flights[f];
    }
  }

  lemma EnabledComesFrom(macs: nat -> nat -> Digest, s: State, e: Event, secret: nat, step: int)
    requires Can(s, e) && HasEnabled(Next(macs, s, e).log, secret, step)
    ensures HasEnabled(s.log, secret, step) || HasConfirmed(s.flights, secret, step)
  {
    var log' := Next(macs, s, e).log;
    var i :| 0 <= i < |log'| && log'[i].Enabled? && log'[i].confirmed == secret && log'[i].step == step;
    if i < |s.log| {
      assert s.log[i] == log'[i];
    } else {
      assert e.CommitEnable?;
      assert s.flights[e.flight] == Confirmed(secret, step);
    }
  }

  lemma {:induction false} EnabledOrigin(macs: nat -> nat -> Digest, s: State, events: seq<Event>, secret: nat,
                                         step: int)
    requires Possible(macs, s, events) && HasEnabled(After(macs, s, events).log, secret, step)
    ensures HasEnabled(s.log, secret, step) || HasConfirmed(s.flights, secret, step)
            || SomePendingCode(macs, s, events, secret, step)
    decreases |events|
  {
    if events == [] {
    } else {
      var s' := Next(macs, s, events[0]);
      EnabledOrigin(macs, s', events[1..], secret, step);
      if HasEnabled(s'.log, secret, step) {
        EnabledComesFrom(macs, s, events[0], secret, step);
      } else if HasConfirmed(s'.flights, secret, step) {
        ConfirmedComesFrom(macs, s, events[0], secret, step);
      }
    }
  }

  /** Over every run, for every enable somebody gave the code of the pending secret for the step it records. */
  lemma EnabledHadACode(macs: nat -> nat -> Digest, events: seq<Event>, i: nat)
    requires Possible(macs, INITIAL, events)
    requires var log := After(macs, INITIAL, events).log; i < |log| && log[i].Enabled?
    ensures var e := After(macs, INITIAL, events).log[i]; SomePendingCode(macs, INITIAL, events, e.confirmed, e.step)
  {
    var e := After(macs, INITIAL, events).log[i];
    EnabledOrigin(macs, INITIAL, events, e.confirmed, e.step);
  }

  // --- Recovery codes.

  /** The recovery codes that the history leaves valid or used: those of the last enable. */
  function GivenOut(log: seq<Entry>): set<nat> {
    if Switch(log).Some? then Switch(log).value.codes else {}
  }

  ghost predicate CodesFit(s: State) {
    && s.account.codes.Keys == GivenOut(s.log)
    && (forall i | 0 <= i < |s.log| && s.log[i].Recovered? :: s.log[i].code in GivenOut(s.log[..i]))
  }

  lemma RecoveredSnoc(log: seq<Entry>, e: Entry)
    requires forall i | 0 <= i < |log| && log[i].Recovered? :: log[i].code in GivenOut(log[..i])
    requires e.Recovered? ==> e.code in GivenOut(log)
    ensures var log' := log + [e];
            forall i | 0 <= i < |log'| && log'[i].Recovered? :: log'[i].code in GivenOut(log'[..i])
  {
    var log' := log + [e];
    assert log'[..|log|] == log;
    forall i | 0 <= i < |log|
      ensures log'[..i] == log[..i] && log'[i] == log[i]
    {
    }
  }

  lemma EntryCodesFit(s: State, s': State, e: Entry)
    requires CodesFit(s) && s'.log == s.log + [e] && (e.Recovered? ==> e.code in GivenOut(s.log))
    requires s'.account.codes.Keys == if e.Enabled? then e.codes else if e.Disabled? then {} else s.account.codes.Keys
    ensures CodesFit(s')
  {
    RecoveredSnoc(s.log, e);
    SwitchSnoc(s.log, e);
  }

  lemma StepCodesFit(macs: nat -> nat -> Digest, s: State, e: Event)
    requires CodesFit(s) && Can(s, e)
    ensures CodesFit(Next(macs, s, e))
  {
    var s' := Next(macs, s, e);
    match e
    case RecordStep(f) =>
      var r := s.flights[f];
      if StepIsNew(s.account.last, r.step) {
        EntryCodesFit(s, s', Accepted(r.step, r.secret, r.since));
      }
    case UseRecovery(f, code) =>
      if code in s.account.codes && !s.account.codes[code] {
        EntryCodesFit(s, s', Recovered(code));
      }
    case CommitEnable(f, codes) =>
      EntryCodesFit(s, s', Enabled(s.flights[f].step, s.account.pending, s.flights[f].secret, codes));
    case CommitDisable(_) => EntryCodesFit(s, s', Disabled);
    case _ =>
  }

  lemma {:induction false} RunCodesFit(macs: nat -> nat -> Digest, s: State, events: seq<Event>)
    requires CodesFit(s) && Possible(macs, s, events)
    ensures CodesFit(After(macs, s, events))
    decreases |events|
  {
    if events == [] {
    } else {
      StepCodesFit(macs, s, events[0]);
      RunCodesFit(macs, Next(macs, s, events[0]), events[1..]);
    }
  }

  /** Over every run, a recovery code that gets somebody in was given out by the enable two-factor is on by. */
  lemma RecoveredIsTheLatest(macs: nat -> nat -> Digest, events: seq<Event>, i: nat)
    requires Possible(macs, INITIAL, events)
    requires var log := After(macs, INITIAL, events).log; i < |log| && log[i].Recovered?
    ensures var log := After(macs, INITIAL, events).log;
            Switch(log[..i]).Some? && log[i].code in Switch(log[..i]).value.codes
  {
    RunCodesFit(macs, INITIAL, events);
  }

  /** A code of the enable two-factor is on by that was not used gets the request on. */
  lemma UnusedRecoveryGoesOn(macs: nat -> nat -> Digest, s: State, f: nat, code: nat)
    requires Can(s, UseRecovery(f, code)) && code in s.account.codes
    ensures var s' := Next(macs, s, UseRecovery(f, code));
            if s.account.codes[code] then s' == s.(flights := s.flights - {f})
            else s'.log == s.log + [Recovered(code)] && s'.account.codes[code]
                 && (s.flights[f].disabling <==> f in s'.flights)
  {
  }

  // --- A disable.

  /** With this step the request passes the check: a code or recovery code is recorded for it, or there is no secret. */
  predicate Clears(macs: nat -> nat -> Digest, s: State, e: Event, f: nat)
    requires Can(s, e)
  {
    || (e == SkipCheck(f) && s.account.secret.None?)
    || (e == RecordStep(f) && |Next(macs, s, e).log| > |s.log|)
    || (e.UseRecovery? && e.flight == f && |Next(macs, s, e).log| > |s.log|)
  }

  predicate SomeClear(macs: nat -> nat -> Digest, s: State, events: seq<Event>, f: nat)
    requires Possible(macs, s, events)
    decreases |events|
  {
    events != [] &&
    (Clears(macs, s, events[0], f) || SomeClear(macs, Next(macs, s, events[0]), events[1..], f))
  }

  lemma {:induction false} ClearedOrigin(macs: nat -> nat -> Digest, s: State, events: seq<Event>, f: nat)
    requires Possible(macs, s, events)
    requires f in After(macs, s, events).flights && After(macs, s, events).flights[f].Cleared?
    ensures (f in s.flights && s.flights[f].Cleared?) || SomeClear(macs, s, events, f)
    decreases |events|
  {
    if events == [] {
    } else {
      ClearedOrigin(macs, Next(macs, s, events[0]), events[1..], f);
    }
  }

  /** Over every run, a disable that comes to its commit has passed the check. */
  lemma DisablePassedTheCheck(macs: nat -> nat -> Digest, events: seq<Event>, f: nat)
    requires Possible(macs, INITIAL, events) && Can(After(macs, INITIAL, events), CommitDisable(f))
    ensures SomeClear(macs, INITIAL, events, f)
  {
    ClearedOrigin(macs, INITIAL, events, f);
  }

  // --- The right codes work.

  /** With nothing in between, a right code for a later step is accepted; a disable then goes on. */
  lemma RightCodeIsAccepted(macs: nat -> nat -> Digest, s: State, f: nat, disabling: bool, code: string, now: int,
                            step: int)
    requires f !in s.flights && s.account.secret.Some? && RightCode(macs, s.account.secret.value, code, now, step)
    requires s.account.last.Some? ==> s.account.last.value < step
    ensures var begun := Next(macs, s, Begin(f, disabling));
            Can(begun, TypeCode(f, code, now)) &&
            var typed := Next(macs, begun, TypeCode(f, code, now));
            Can(typed, RecordStep(f)) &&
            var done := Next(macs, typed, RecordStep(f));
            && |done.log| == |s.log| + 1 && done.log[|s.log|].Accepted?
            && done.account.last == Some(done.log[|s.log|].step)
            && (f in done.flights <==> disabling) && (disabling ==> done.flights[f].Cleared?)
  {
    var begun := Next(macs, s, Begin(f, disabling));
    RightCodeGoesOn(macs, begun, f, code, now, step);
    VerifyMeans(macs(s.account.secret.value), code, now, s.account.last);
  }

  /**
   With nothing in between, setting up a secret and giving its right code turns
   two-factor on with that secret and with fresh codes, none of them used.
   */
  lemma RightCodeEnables(macs: nat -> nat -> Digest, s: State, f: nat, secret: nat, code: string, now: int, step: int,
                         codes: set<nat>)
    requires secret !in s.secrets && f !in s.flights && RightCode(macs, secret, code, now, step) && codes !! s.issued
    ensures var pending := Next(macs, s, Setup(secret));
            Can(pending, BeginEnable(f)) &&
            var begun := Next(macs, pending, BeginEnable(f));
            Can(begun, Confirm(f, code, now)) &&
            var confirmed := Next(macs, begun, Confirm(f, code, now));
            Can(confirmed, CommitEnable(f, codes)) &&
            var a := Next(macs, confirmed, CommitEnable(f, codes)).account;
            && a.enabled && a.secret == Some(secret) && a.pending.None?
            && a.codes.Keys == codes && (forall c | c in codes :: !a.codes[c])
            && a.last.Some? && RightCode(macs, secret, code, now, a.last.value)
  {
    VerifyMeans(macs(secret), code, now, None);
    assert Acceptable(macs(secret), code, now, None, step);
    VerifiedIsRight(macs, secret, code, now, None, Verify(macs(secret), code, now, None).value);
  }
}
