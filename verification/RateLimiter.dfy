/**
 The sign-in limiter. It keeps recent attempts per key and sweeps its map
 when that grows; its decisions are those of a limiter that remembers every
 attempt it ever allowed. Times are nanoseconds, and calls reach the lock
 with clock readings that do not decrease.
 */
module RateLimiter {
  const SECOND: int := 1_000_000_000
  const WINDOW: int := 300 * SECOND
  const MAX_ATTEMPTS: nat := 10
  const MAX_TRACKED_KEYS: nat := 50_000

  datatype Decision = Allow | RetryAfter(seconds: int)

  // --- The limiter that never forgets.

  /** An attempt that was allowed. */
  datatype Attempt = Attempt(key: string, at: int)

  function Times(history: seq<Attempt>, key: string): seq<int> {
    if history == [] then []
    else
      var n := |history| - 1;
      Times(history[..n], key) + (if history[n].key == key then [history[n].at] else [])
  }

  /** The times that still count at `now`. */
  function Recent(times: seq<int>, now: int): seq<int> {
    if times == [] then []
    else (if now - times[0] < WINDOW then [times[0]] else []) + Recent(times[1..], now)
  }

  function Decide(recent: seq<int>, now: int): Decision {
    if |recent| >= MAX_ATTEMPTS then
      var remaining := WINDOW - (now - recent[0]);
      RetryAfter(if remaining / SECOND < 1 then 1 else remaining / SECOND)
    else Allow
  }

  /** What the limiter with the full history says. */
  function Verdict(history: seq<Attempt>, key: string, now: int): Decision {
    Decide(Recent(Times(history, key), now), now)
  }

  /** A refusal records nothing. */
  function Recorded(history: seq<Attempt>, key: string, now: int): seq<Attempt> {
    if Verdict(history, key, now).Allow? then history + [Attempt(key, now)] else history
  }

  // --- Recent times.

  lemma {:induction false} RecentAppend(a: seq<int>, b: seq<int>, now: int)
    ensures Recent(a + b, now) == Recent(a, now) + Recent(b, now)
  {
    if a == [] {
      assert a + b == b;
    } else {
      assert (a + b)[1..] == a[1..] + b;
      RecentAppend(a[1..], b, now);
    }
  }

  /** What counts later is among what counts now. */
  lemma {:induction false} RecentLater(times: seq<int>, now: int, later: int)
    requires now <= later
    ensures Recent(Recent(times, now), later) == Recent(times, later)
    decreases |times|
  {
    if times == [] {
    } else {
      var first := if now - times[0] < WINDOW then [times[0]] else [];
      RecentLater(times[1..], now, later);
      RecentAppend(first, Recent(times[1..], now), later);
      assert Recent(first, later) == if later - times[0] < WINDOW then [times[0]] else [] by {
        assert first != [] ==> first[1..] == [];
      }
    }
  }

  lemma TimesSnoc(history: seq<Attempt>, a: Attempt, key: string)
    ensures Times(history + [a], key) == Times(history, key) + (if a.key == key then [a.at] else [])
  {
    assert (history + [a])[..|history|] == history;
  }

  // --- What is stored against the full history.

  function Stored(attempts: map<string, seq<int>>, key: string): seq<int> {
    if key in attempts then attempts[key] else []
  }

  /** For every key, what is stored and the full history count the same at `now`. */
  ghost predicate Agrees(attempts: map<string, seq<int>>, history: seq<Attempt>, now: int) {
    forall key :: Recent(Stored(attempts, key), now) == Recent(Times(history, key), now)
  }

  lemma AgreesLater(attempts: map<string, seq<int>>, history: seq<Attempt>, now: int, later: int)
    requires Agrees(attempts, history, now) && now <= later
    ensures Agrees(attempts, history, later)
  {
    forall key
      ensures Recent(Stored(attempts, key), later) == Recent(Times(history, key), later)
    {
      RecentLater(Stored(attempts, key), now, later);
      RecentLater(Times(history, key), now, later);
    }
  }

  predicate AnyRecent(times: seq<int>, now: int) {
    exists i | 0 <= i < |times| :: now - times[i] < WINDOW
  }

  lemma {:induction false} NoneRecent(times: seq<int>, now: int)
    ensures Recent(times, now) != [] <==> AnyRecent(times, now)
  {
    if times == [] {
    } else {
      NoneRecent(times[1..], now);
      assert AnyRecent(times, now) <==> now - times[0] < WINDOW || AnyRecent(times[1..], now) by {
        if AnyRecent(times[1..], now) {
          var i :| 0 <= i < |times[1..]| && now - times[1..][i] < WINDOW;
          assert now - times[i + 1] < WINDOW;
        }
      }
    }
  }

  /** The sweep: keys with nothing recent are dropped. */
  function Swept(attempts: map<string, seq<int>>, now: int): map<string, seq<int>> {
    map key | key in attempts && AnyRecent(attempts[key], now) :: attempts[key]
  }

  /** The sweep changes no later decision. */
  lemma SweepAgrees(attempts: map<string, seq<int>>, history: seq<Attempt>, now: int)
    requires Agrees(attempts, history, now)
    ensures Agrees(Swept(attempts, now), history, now)
  {
    forall key
      ensures Recent(Stored(Swept(attempts, now), key), now) == Recent(Times(history, key), now)
    {
      NoneRecent(Stored(attempts, key), now);
      assert Recent(Stored(attempts, key), now) == Recent(Times(history, key), now);
    }
  }

  lemma PruneAgrees(attempts: map<string, seq<int>>, history: seq<Attempt>, key: string, now: int)
    requires Agrees(attempts, history, now)
    ensures Agrees(attempts[key := Recent(Stored(attempts, key), now)], history, now)
  {
    var pruned := attempts[key := Recent(Stored(attempts, key), now)];
    RecentLater(Stored(attempts, key), now, now);
    forall k
      ensures Recent(Stored(pruned, k), now) == Recent(Times(history, k), now)
    {
      assert Recent(Stored(attempts, k), now) == Recent(Times(history, k), now);
    }
  }

  lemma PushAgrees(attempts: map<string, seq<int>>, history: seq<Attempt>, key: string, now: int)
    requires Agrees(attempts, history, now) && key in attempts
    ensures Agrees(attempts[key := attempts[key] + [now]], history + [Attempt(key, now)], now)
  {
    var pushed := attempts[key := attempts[key] + [now]];
    forall k
      ensures Recent(Stored(pushed, k), now) == Recent(Times(history + [Attempt(key, now)], k), now)
    {
      TimesSnoc(history, Attempt(key, now), k);
      assert Recent(Stored(attempts, k), now) == Recent(Times(history, k), now);
      if k == key {
        RecentAppend(attempts[key], [now], now);
        RecentAppend(Times(history, key), [now], now);
      } else {
        assert Times(history, k) + [] == Times(history, k);
      }
    }
  }

  // --- The limiter as it runs.

  class Limiter {
    var attempts: map<string, seq<int>>
    ghost var history: seq<Attempt>
    ghost var clock: int

    ghost predicate Valid()
      reads this
    {
      Agrees(attempts, history, clock)
    }

    constructor ()
      ensures Valid() && history == [] && clock == 0
    {
      attempts, history, clock := map[], [], 0;
    }

    /** Every decision is the one of the limiter with the full history. */
    method Check(key: string, now: int) returns (d: Decision)
      requires Valid() && clock <= now
      modifies this
      ensures Valid() && clock == now
      ensures d == Verdict(old(history), key, now)
      ensures history == Recorded(old(history), key, now)
    {
      AgreesLater(attempts, history, clock, now);
      clock := now;
      if |attempts| > MAX_TRACKED_KEYS {
        SweepAgrees(attempts, history, now);
        attempts := Swept(attempts, now);
      }
      var seen := Recent(Stored(attempts, key), now);
      assert seen == Recent(Times(history, key), now);
      PruneAgrees(attempts, history, key, now);
      attempts := attempts[key := seen];
      if |seen| >= MAX_ATTEMPTS {
        var remaining := WINDOW - (now - seen[0]);
        return RetryAfter(if remaining / SECOND < 1 then 1 else remaining / SECOND);
      }
      PushAgrees(attempts, history, key, now);
      attempts := attempts[key := seen + [now]];
      history := history + [Attempt(key, now)];
      return Allow;
    }
  }

  // --- What the limiter promises, over every run.

  datatype Call = Call(key: string, now: int)

  predicate InTime(calls: seq<Call>) {
    forall i | 0 < i < |calls| :: calls[i - 1].now <= calls[i].now
  }

  /** The attempts allowed by a run of calls, from the start. */
  function Run(calls: seq<Call>): seq<Attempt> {
    if calls == [] then []
    else var n := |calls| - 1; Recorded(Run(calls[..n]), calls[n].key, calls[n].now)
  }

  predicate Rising(times: seq<int>) {
    forall i, j | 0 <= i <= j < |times| :: times[i] <= times[j]
  }

  /** Any eleven allowed attempts in a row take a whole window. */
  predicate Spaced(times: seq<int>) {
    forall i | 0 <= i < |times| - MAX_ATTEMPTS :: times[i] + WINDOW <= times[i + MAX_ATTEMPTS]
  }

  predicate AllCount(times: seq<int>, now: int) {
    forall i | 0 <= i < |times| :: now < times[i] + WINDOW
  }

  lemma {:induction false} AllRecent(times: seq<int>, now: int)
    requires AllCount(times, now)
    ensures Recent(times, now) == times
  {
    if times == [] {
    } else {
      AllRecent(times[1..], now);
      assert times == [times[0]] + times[1..];
    }
  }

  /** Of rising times, the ones that count are the last ones. */
  lemma {:induction false} RecentIsSuffix(times: seq<int>, now: int)
    requires Rising(times)
    ensures |Recent(times, now)| <= |times|
    ensures Recent(times, now) == times[|times| - |Recent(times, now)|..]
    ensures forall i | 0 <= i < |times| - |Recent(times, now)| :: times[i] + WINDOW <= now
    ensures forall i | |times| - |Recent(times, now)| <= i < |times| :: now < times[i] + WINDOW
  {
    if times == [] {
    } else if now - times[0] < WINDOW {
      assert forall i | 0 <= i < |times| :: times[0] <= times[i];
      AllRecent(times, now);
    } else {
      var rest := times[1..];
      assert Rising(rest) by {
        assert forall i | 0 <= i < |rest| :: rest[i] == times[i + 1];
      }
      RecentIsSuffix(rest, now);
      var tail := Recent(rest, now);
      assert [] + tail == tail;
      assert rest[|rest| - |tail|..] == times[|times| - |tail|..];
      forall i | 0 <= i < |times| - |tail|
        ensures times[i] + WINDOW <= now
      {
        assert i > 0 ==> times[i] == rest[i - 1];
      }
      forall i | |times| - |tail| <= i < |times|
        ensures now < times[i] + WINDOW
      {
        assert times[i] == rest[i - 1];
      }
    }
  }

  /** An allowed attempt keeps the spacing. */
  lemma AllowKeepsSpacing(times: seq<int>, now: int)
    requires Rising(times) && Spaced(times) && (times != [] ==> times[|times| - 1] <= now)
    requires Decide(Recent(times, now), now).Allow?
    ensures Rising(times + [now]) && Spaced(times + [now])
  {
    RecentIsSuffix(times, now);
    var more := times + [now];
    forall i | 0 <= i < |more| - MAX_ATTEMPTS
      ensures more[i] + WINDOW <= more[i + MAX_ATTEMPTS]
    {
      if i + MAX_ATTEMPTS < |times| {
        assert times[i] + WINDOW <= times[i + MAX_ATTEMPTS];
      }
    }
  }

  predicate Before(times: seq<int>, now: int) {
    times != [] ==> times[|times| - 1] <= now
  }

  lemma {:induction false} RunIsSpaced(calls: seq<Call>, key: string)
    requires InTime(calls)
    ensures var times := Times(Run(calls), key);
            Rising(times) && Spaced(times) && (calls != [] ==> Before(times, calls[|calls| - 1].now))
    decreases |calls|
  {
    if calls == [] {
    } else {
      var n := |calls| - 1;
      var history, c := Run(calls[..n]), calls[n];
      RunIsSpaced(calls[..n], key);
      TimesSnoc(history, Attempt(c.key, c.now), key);
      var times := Times(history, key);
      assert Before(times, c.now);
      assert times + [] == times;
      if c.key == key && Verdict(history, key, c.now).Allow? {
        AllowKeepsSpacing(times, c.now);
      }
    }
  }

  /** The half-open window of 300 seconds from `start`. */
  predicate In(start: int, at: int) {
    start <= at < start + 300_000_000_000
  }

  /** How many of the times are in that window. */
  function CountIn(times: seq<int>, start: int): nat {
    if times == [] then 0
    else CountIn(times[..|times| - 1], start) + (if In(start, times[|times| - 1]) then 1 else 0)
  }

  lemma {:induction false} CountAppend(a: seq<int>, b: seq<int>, start: int)
    ensures CountIn(a + b, start) == CountIn(a, start) + CountIn(b, start)
    ensures CountIn(b, start) <= |b|
    decreases |b|
  {
    if b == [] {
      assert a + b == a;
    } else {
      var n := |b| - 1;
      assert (a + b)[..|a + b| - 1] == a + b[..n];
      CountAppend(a, b[..n], start);
    }
  }

  lemma {:induction false} CountNothing(times: seq<int>, start: int)
    requires forall i | 0 <= i < |times| :: times[i] < start
    ensures CountIn(times, start) == 0
  {
    if times == [] {
    } else {
      CountNothing(times[..|times| - 1], start);
    }
  }

  lemma {:induction false} AtMostTen(times: seq<int>, start: int)
    requires Rising(times) && Spaced(times)
    ensures CountIn(times, start) <= MAX_ATTEMPTS
    decreases |times|
  {
    if times == [] {
    } else {
      var n := |times| - 1;
      if start <= times[n] < start + WINDOW && n >= MAX_ATTEMPTS {
        var early, last := times[..n + 1 - MAX_ATTEMPTS], times[n + 1 - MAX_ATTEMPTS..];
        assert times == early + last;
        forall i | 0 <= i < |early|
          ensures early[i] < start
        {
          assert times[i] <= times[n - MAX_ATTEMPTS];
          assert times[n - MAX_ATTEMPTS] + WINDOW <= times[n];
        }
        CountNothing(early, start);
        CountAppend(early, last, start);
      } else if start <= times[n] < start + WINDOW {
        CountAppend([], times, start);
        assert [] + times == times;
      } else {
        AtMostTen(times[..n], start);
      }
    }
  }

  /** In every run, every half-open window of 300 seconds holds at most 10 allowed attempts per key. */
  lemma WindowHoldsTen(calls: seq<Call>, key: string, start: int)
    requires InTime(calls)
    ensures CountIn(Times(Run(calls), key), start) <= 10
  {
    RunIsSpaced(calls, key);
    AtMostTen(Times(Run(calls), key), start);
  }

  lemma SpacedRecent(times: seq<int>, now: int)
    requires Rising(times) && Spaced(times) && Before(times, now)
    ensures |Recent(times, now)| <= MAX_ATTEMPTS
  {
    RecentIsSuffix(times, now);
    var n := |times|;
    if n > MAX_ATTEMPTS {
      assert times[n - 1 - MAX_ATTEMPTS] + WINDOW <= times[n - 1];
    }
  }

  lemma InTimePrefix(calls: seq<Call>, c: Call)
    requires InTime(calls + [c])
    ensures InTime(calls) && (calls != [] ==> calls[|calls| - 1].now <= c.now)
  {
    var all := calls + [c];
    assert forall i | 0 <= i < |calls| :: all[i] == calls[i];
    if calls != [] {
      assert all[|calls| - 1].now <= all[|calls|].now;
    }
  }

  lemma AllowedAgainFrom(times: seq<int>, now: int, later: int)
    requires Rising(times) && Spaced(times) && Before(times, now) && now <= later
    requires |Recent(times, now)| >= MAX_ATTEMPTS
    ensures |Recent(times, later)| < MAX_ATTEMPTS <==> Recent(times, now)[0] + WINDOW <= later
  {
    SpacedRecent(times, now);
    RecentIsSuffix(times, now);
    var first := |times| - MAX_ATTEMPTS;
    assert Recent(times, now)[0] == times[first];
    RecentIsSuffix(times, later);
  }

  /** After a refusal, the first call at or after the oldest attempt plus the window is allowed, and no call before. */
  lemma AllowedAgainExactly(calls: seq<Call>, key: string, now: int, later: int)
    requires InTime(calls + [Call(key, now)]) && now <= later
    requires !Verdict(Run(calls), key, now).Allow?
    ensures Verdict(Run(calls), key, later).Allow? <==> Recent(Times(Run(calls), key), now)[0] + WINDOW <= later
  {
    var times := Times(Run(calls), key);
    InTimePrefix(calls, Call(key, now));
    RunIsSpaced(calls, key);
    AllowedAgainFrom(times, now, later);
  }

  lemma {:induction false} RecentCount(times: seq<int>, now: int)
    requires Rising(times) && Before(times, now)
    ensures |Recent(times, now)| == CountIn(times, now - 299_999_999_999)
    decreases |times|
  {
    if times == [] {
    } else {
      var n := |times| - 1;
      RecentCount(times[..n], now);
      assert times == times[..n] + [times[n]];
      RecentAppend(times[..n], [times[n]], now);
      assert Recent([times[n]], now) == if In(now - 299_999_999_999, times[n]) then [times[n]] else [];
    }
  }

  /** In every run, an attempt is allowed exactly when fewer than ten were in the last 300 seconds. */
  lemma AllowedExactly(calls: seq<Call>, key: string, now: int)
    requires InTime(calls + [Call(key, now)])
    ensures Verdict(Run(calls), key, now).Allow? <==> CountIn(Times(Run(calls), key), now - 299_999_999_999) < 10
  {
    InTimePrefix(calls, Call(key, now));
    RunIsSpaced(calls, key);
    RecentCount(Times(Run(calls), key), now);
  }

  /**
   The wait that is reported is the remaining time rounded down to whole
   seconds, at least one: waiting exactly that long is enough if and only if
   the remaining time is a whole number of seconds or less than one.
   */
  lemma ReportedWait(calls: seq<Call>, key: string, now: int)
    requires InTime(calls + [Call(key, now)])
    requires !Verdict(Run(calls), key, now).Allow?
    ensures var seconds := Verdict(Run(calls), key, now).seconds;
            var remaining := Recent(Times(Run(calls), key), now)[0] + WINDOW - now;
            && 1 <= seconds && (seconds == 1 || seconds * SECOND <= remaining) && remaining < (seconds + 1) * SECOND
            && (Verdict(Run(calls), key, now + seconds * SECOND).Allow? <==>
                remaining % SECOND == 0 || remaining < SECOND)
  {
    var seconds := Verdict(Run(calls), key, now).seconds;
    AllowedAgainExactly(calls, key, now, now + seconds * SECOND);
  }

  // --- A wait that is too short.

  /** The first `n` of these are all allowed. */
  lemma {:induction false} FirstTenAllowed(calls: seq<Call>, key: string, n: nat)
    requires n <= |calls| && n <= MAX_ATTEMPTS && forall i | 0 <= i < n :: calls[i] == Call(key, 0)
    ensures Times(Run(calls[..n]), key) == seq(n, _ => 0)
    ensures |Recent(seq(n, _ => 0), 0)| == n
  {
    if n == 0 {
      assert calls[..0] == [];
    } else {
      FirstTenAllowed(calls, key, n - 1);
      var before := calls[..n][..n - 1];
      assert before == calls[..n - 1];
      TimesSnoc(Run(before), Attempt(key, 0), key);
      RecentAppend(seq(n - 1, _ => 0), [0], 0);
      assert seq(n, _ => 0) == seq(n - 1, _ => 0) + [0];
      assert Recent([0], 0) == [0];
    }
  }

  lemma {:induction false} ZerosStillCount(n: nat, now: int)
    requires 0 <= now < WINDOW
    ensures Recent(seq(n, _ => 0), now) == seq(n, _ => 0)
  {
    var zeros := seq(n, _ => 0);
    if n == 0 {
      assert zeros == [];
    } else {
      assert zeros[1..] == seq(n - 1, _ => 0);
      ZerosStillCount(n - 1, now);
      assert zeros == [0] + zeros[1..];
    }
  }

  /**
   Ten calls at time 0 are allowed; one a nanosecond later is refused with a
   wait of 299 seconds; and after exactly that wait it is refused again.
   */
  lemma WaitTooShort(calls: seq<Call>, key: string)
    requires calls == seq(10, _ => Call(key, 0))
    ensures Verdict(Run(calls), key, 1) == RetryAfter(299)
    ensures !Verdict(Run(calls), key, 1 + 299 * SECOND).Allow?
  {
    FirstTenAllowed(calls, key, 10);
    assert calls[..10] == calls;
    ZerosStillCount(10, 1);
    ZerosStillCount(10, 1 + 299 * SECOND);
  }
}
