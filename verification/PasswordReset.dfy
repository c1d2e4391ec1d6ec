/**
 Password reset codes of one account, with the reads and the writes of any
 number of requests interleaved.
 */
module PasswordReset {
  import opened Text

  const MAX_ATTEMPTS: nat := 5

  datatype Row = Row(hash: nat, attempts: nat, expires: int, used: bool)

  /** Rows in the order they were created; a confirm in flight has read row `row`. */
  datatype Flight = Matched(row: nat) | Wrong(row: nat)

  /** The history: codes asked for and codes that set a password, by row. */
  datatype Entry = Requested(row: nat) | Succeeded(row: nat)

  datatype State = State(rows: seq<Row>, flights: map<nat, Flight>, log: seq<Entry>)

  const INITIAL := State([], map[], [])

  datatype Event =
    | Request(hash: nat, expires: int)
    | ReadCode(flight: nat, hash: nat, now: int)
    | CountWrong(flight: nat)
    | Spend(flight: nat)
    | Drop(flight: nat)

  function Retire(rows: seq<Row>): (r: seq<Row>)
    ensures |r| == |rows| && forall i | 0 <= i < |rows| :: r[i] == rows[i].(used := true)
  {
    seq(|rows|, i requires 0 <= i < |rows| => rows[i].(used := true))
  }

  /** The newest row that is unused and not expired. */
  function Newest(rows: seq<Row>, now: int): (r: Option<nat>)
    ensures r.Some? ==> r.value < |rows| && !rows[r.value].used && now < rows[r.value].expires
    ensures forall i | 0 <= i < |rows| && !rows[i].used && now < rows[i].expires :: r.Some? && i <= r.value
  {
    if rows == [] then None
    else
      var n := |rows| - 1;
      if !rows[n].used && now < rows[n].expires then Some(n) else Newest(rows[..n], now)
  }

  predicate Possible(s: State, e: Event) {
    match e
    case Request(_, _) => true
    case ReadCode(f, _, _) => f !in s.flights
    case CountWrong(f) => f in s.flights && s.flights[f].Wrong? && s.flights[f].row < |s.rows|
    case Spend(f) => f in s.flights && s.flights[f].Matched? && s.flights[f].row < |s.rows|
    case Drop(f) => f in s.flights
  }

  function Next(s: State, e: Event): State
    requires Possible(s, e)
  {
    match e
    // One transaction: the older codes are retired, the new one stored.
    case Request(hash, expires) =>
      State(Retire(s.rows) + [Row(hash, 0, expires, false)], s.flights, s.log + [Requested(|s.rows|)])
    case ReadCode(f, hash, now) =>
      var row := Newest(s.rows, now);
      if row.None? || s.rows[row.value].attempts >= MAX_ATTEMPTS then s
      else
        var found := if s.rows[row.value].hash == hash then Matched(row.value) else Wrong(row.value);
        s.(flights := s.flights[f := found])
    case CountWrong(f) =>
      var r := s.flights[f].row;
      s.(rows := s.rows[r := s.rows[r].(attempts := s.rows[r].attempts + 1)], flights := s.flights - {f})
    // The update that checks the code is unspent.
    case Spend(f) =>
      var r := s.flights[f].row;
      if s.rows[r].used then s.(flights := s.flights - {f})
      else State(s.rows[r := s.rows[r].(used := true)], s.flights - {f}, s.log + [Succeeded(r)])
    case Drop(f) => s.(flights := s.flights - {f})
  }

  predicate PossibleRun(s: State, events: seq<Event>)
    decreases |events|
  {
    events != [] ==> Possible(s, events[0]) && PossibleRun(Next(s, events[0]), events[1..])
  }

  function After(s: State, events: seq<Event>): State
    requires PossibleRun(s, events)
    decreases |events|
  {
    if events == [] then s else After(Next(s, events[0]), events[1..])
  }

  /** Only the newest row can be unused. */
  predicate OneLive(rows: seq<Row>) {
    forall i | 0 <= i < |rows| - 1 :: rows[i].used
  }

  /** How many codes the history says were asked for. */
  function Asked(log: seq<Entry>): nat {
    if log == [] then 0 else Asked(log[..|log| - 1]) + (if log[|log| - 1].Requested? then 1 else 0)
  }

  /** Each success spent the newest code of that moment, for the first time. */
  ghost predicate InOrder(log: seq<Entry>) {
    forall i | 0 <= i < |log| ::
      && (log[i].Requested? ==> log[i].row == Asked(log[..i]))
      && (log[i].Succeeded? ==> log[i].row + 1 == Asked(log[..i]) && log[i] !in log[..i])
  }

  ghost predicate Sound(s: State) {
    && OneLive(s.rows)
    && |s.rows| == Asked(s.log)
    && InOrder(s.log)
    && (forall i | 0 <= i < |s.log| && s.log[i].Succeeded? :: s.log[i].row < |s.rows| && s.rows[s.log[i].row].used)
    && (forall f | f in s.flights :: s.flights[f].row < |s.rows|)
  }

  lemma InOrderSnoc(log: seq<Entry>, e: Entry)
    requires InOrder(log)
    requires e.Requested? ==> e.row == Asked(log)
    requires e.Succeeded? ==> e.row + 1 == Asked(log) && e !in log
    ensures InOrder(log + [e]) && Asked(log + [e]) == Asked(log) + (if e.Requested? then 1 else 0)
  {
    var log' := log + [e];
    assert log'[..|log|] == log;
    forall i | 0 <= i < |log|
      ensures log'[..i] == log[..i] && log'[i] == log[i]
    {
    }
  }

  lemma RequestKeeps(s: State, e: Event)
    requires Sound(s) && e.Request?
    ensures Sound(Next(s, e))
  {
    var s' := Next(s, e);
    InOrderSnoc(s.log, Requested(|s.rows|));
    assert forall i | 0 <= i < |s.rows| :: s'.rows[i] == Retire(s.rows)[i];
    assert OneLive(s'.rows);
  }

  /** An unused code is the newest one and has not succeeded. */
  lemma UnusedIsNewest(s: State, r: nat)
    requires Sound(s) && r < |s.rows| && !s.rows[r].used
    ensures r + 1 == |s.rows| && Succeeded(r) !in s.log
  {
  }

  lemma Spent(rows: seq<Row>, r: nat)
    requires OneLive(rows) && r < |rows|
    ensures var rows' := rows[r := rows[r].(used := true)];
            OneLive(rows') && forall i | 0 <= i < |rows| && (rows[i].used || i == r) :: rows'[i].used
  {
  }

  lemma SuccessesUsed(log: seq<Entry>, rows: seq<Row>, r: nat)
    requires r < |rows|
    requires forall i | 0 <= i < |log| && log[i].Succeeded? :: log[i].row < |rows| && rows[log[i].row].used
    ensures var log', rows' := log + [Succeeded(r)], rows[r := rows[r].(used := true)];
            forall i | 0 <= i < |log'| && log'[i].Succeeded? :: log'[i].row < |rows'| && rows'[log'[i].row].used
  {
  }

  lemma SpendKeeps(s: State, e: Event)
    requires Sound(s) && e.Spend? && Possible(s, e)
    ensures Sound(Next(s, e))
  {
    var r := s.flights[e.flight].row;
    if !s.rows[r].used {
      var s' := Next(s, e);
      UnusedIsNewest(s, r);
      InOrderSnoc(s.log, Succeeded(r));
      Spent(s.rows, r);
      SuccessesUsed(s.log, s.rows, r);
    }
  }

  lemma CountKeeps(s: State, e: Event)
    requires Sound(s) && e.CountWrong? && Possible(s, e)
    ensures Sound(Next(s, e))
  {
    assert OneLive(Next(s, e).rows);
  }

  lemma StepKeeps(s: State, e: Event)
    requires Sound(s) && Possible(s, e)
    ensures Sound(Next(s, e))
  {
    match e
    case Request(_, _) => RequestKeeps(s, e);
    case Spend(_) => SpendKeeps(s, e);
    case CountWrong(_) => CountKeeps(s, e);
    case ReadCode(_, _, _) =>
    case Drop(_) =>
  }

  lemma {:induction false} RunKeeps(s: State, events: seq<Event>)
    requires Sound(s) && PossibleRun(s, events)
    ensures Sound(After(s, events))
    decreases |events|
  {
    if events == [] {
    } else {
      StepKeeps(s, events[0]);
      RunKeeps(Next(s, events[0]), events[1..]);
    }
  }

  /** Whatever is in flight, at most one code of the account is live. */
  lemma AtMostOneLive(events: seq<Event>, i: nat, j: nat)
    requires PossibleRun(INITIAL, events)
    requires var rows := After(INITIAL, events).rows; i < |rows| && j < |rows| && !rows[i].used && !rows[j].used
    ensures i == j
  {
    RunKeeps(INITIAL, events);
  }

  /** Over every interleaving a code sets a password at most once. */
  lemma CodesWorkOnce(events: seq<Event>, i: nat, j: nat)
    requires PossibleRun(INITIAL, events)
    requires var log := After(INITIAL, events).log; i < j < |log| && log[i].Succeeded? && log[j].Succeeded?
    ensures var log := After(INITIAL, events).log; log[i].row != log[j].row
  {
    RunKeeps(INITIAL, events);
    var log := After(INITIAL, events).log;
    assert log[j] !in log[..j];
    assert log[..j][i] == log[i];
  }

  lemma {:induction false} AskedGrows(log: seq<Entry>, i: nat, j: nat)
    requires i <= j <= |log|
    ensures Asked(log[..i]) <= Asked(log[..j])
    decreases j - i
  {
    if i == j {
    } else {
      assert log[..j][..j - 1] == log[..j - 1];
      AskedGrows(log, i, j - 1);
    }
  }

  lemma RetiredIn(log: seq<Entry>, i: nat, j: nat, row: nat)
    requires InOrder(log) && i < j < |log| && log[i].Requested? && row < log[i].row
    ensures log[j] != Succeeded(row)
  {
    assert log[..i + 1][..i] == log[..i] && log[..i + 1][i] == log[i];
    assert Asked(log[..i + 1]) == log[i].row + 1;
    AskedGrows(log, i + 1, j);
  }

  /** A code that a newer request retired before it was spent never succeeds. */
  lemma RetiredCodesFail(events: seq<Event>, i: nat, j: nat, row: nat)
    requires PossibleRun(INITIAL, events)
    requires var log := After(INITIAL, events).log;
             i < j < |log| && log[i].Requested? && row < log[i].row
    ensures After(INITIAL, events).log[j] != Succeeded(row)
  {
    RunKeeps(INITIAL, events);
    RetiredIn(After(INITIAL, events).log, i, j, row);
  }

  // --- Which code sets a password.

  /** The codes asked for, in order. */
  function Asks(events: seq<Event>): seq<Event> {
    if events == [] then []
    else Asks(events[..|events| - 1]) + (if events[|events| - 1].Request? then [events[|events| - 1]] else [])
  }

  predicate RowsFit(rows: seq<Row>, asks: seq<Event>) {
    && |rows| == |asks|
    && (forall i | 0 <= i < |rows| ::
          asks[i].Request? && rows[i].hash == asks[i].hash && rows[i].expires == asks[i].expires)
  }

  lemma {:induction false} RowsAreAsks(s: State, before: seq<Event>, events: seq<Event>)
    requires PossibleRun(s, events) && RowsFit(s.rows, Asks(before))
    ensures RowsFit(After(s, events).rows, Asks(before + events))
    decreases |events|
  {
    if events == [] {
      assert before + events == before;
    } else {
      var more := before + [events[0]];
      assert more[..|before|] == before && before + events == more + events[1..];
      RowsAreAsks(Next(s, events[0]), more, events[1..]);
    }
  }

  /** A confirm gives the code of the row while that is unused, unexpired and guessed at fewer than five times. */
  predicate GivesCode(s: State, e: Event, row: nat) {
    && e.ReadCode? && row < |s.rows| && e.hash == s.rows[row].hash
    && !s.rows[row].used && e.now < s.rows[row].expires && s.rows[row].attempts < 5
  }

  /** Some step of the run does. */
  predicate SomeCode(s: State, events: seq<Event>, row: nat)
    requires PossibleRun(s, events)
    decreases |events|
  {
    events != [] && (GivesCode(s, events[0], row) || SomeCode(Next(s, events[0]), events[1..], row))
  }

  predicate HasMatched(flights: map<nat, Flight>, row: nat) {
    exists f | f in flights :: flights[f] == Matched(row)
  }

  lemma MatchedComesFrom(s: State, e: Event, row: nat)
    requires Possible(s, e) && HasMatched(Next(s, e).flights, row)
    ensures HasMatched(s.flights, row) || GivesCode(s, e, row)
  {
    var s' := Next(s, e);
    var f :| f in s'.flights && s'.flights[f] == Matched(row);
    if !(e.ReadCode? && e.flight == f) {
      assert f in s.flights && s.flights[f] == Matched(row);
    }
  }

  lemma {:induction false} SucceededOrigin(s: State, events: seq<Event>, row: nat)
    requires PossibleRun(s, events) && Succeeded(row) in After(s, events).log
    ensures Succeeded(row) in s.log || HasMatched(s.flights, row) || SomeCode(s, events, row)
    decreases |events|
  {
    if events == [] {
    } else {
      var s' := Next(s, events[0]);
      SucceededOrigin(s', events[1..], row);
      if Succeeded(row) in s'.log {
      } else if HasMatched(s'.flights, row) {
        MatchedComesFrom(s, events[0], row);
      }
    }
  }

  /**
   Over every interleaving, for every code that set a password a confirm gave
   that code while it was live; and the codes are the ones asked for, each with
   its own expiry.
   */
  lemma SucceededHadTheCode(events: seq<Event>, i: nat)
    requires PossibleRun(INITIAL, events)
    requires i < |After(INITIAL, events).log| && After(INITIAL, events).log[i].Succeeded?
    ensures SomeCode(INITIAL, events, After(INITIAL, events).log[i].row)
    ensures RowsFit(After(INITIAL, events).rows, Asks(events))
  {
    var row := After(INITIAL, events).log[i].row;
    SucceededOrigin(INITIAL, events, row);
    RowsAreAsks(INITIAL, [], events);
    assert [] + events == events;
  }

  lemma RemovedAgain(flights: map<nat, Flight>, f: nat, found: Flight)
    requires f !in flights
    ensures flights[f := found] - {f} == flights
  {
  }

  /**
   A confirm with nothing in between: the right code of the newest row sets a
   password and is spent, a wrong one is counted, and nothing else happens to
   a code that is spent, expired or guessed at five times.
   */
  lemma Uninterrupted(events: seq<Event>, f: nat, hash: nat, now: int)
    requires PossibleRun(INITIAL, events) && f !in After(INITIAL, events).flights
    ensures var s := After(INITIAL, events);
            var read := Next(s, ReadCode(f, hash, now));
            var r := |s.rows| - 1;
            if r < 0 || s.rows[r].used || s.rows[r].expires <= now || s.rows[r].attempts >= 5 then read == s
            else if s.rows[r].hash == hash then
              && Possible(read, Spend(f))
              && Next(read, Spend(f)) == State(s.rows[r := s.rows[r].(used := true)], s.flights, s.log + [Succeeded(r)])
            else
              && Possible(read, CountWrong(f))
              && Next(read, CountWrong(f)) ==
                 s.(rows := s.rows[r := s.rows[r].(attempts := s.rows[r].attempts + 1)])
  {
    RunKeeps(INITIAL, events);
    var s := After(INITIAL, events);
    var row := Newest(s.rows, now);
    if row.Some? {
      UnusedIsNewest(s, row.value);
      RemovedAgain(s.flights, f, Matched(row.value));
      RemovedAgain(s.flights, f, Wrong(row.value));
    }
  }

  // --- Wrong guesses.

  /** The confirms in flight that found the code of this row and guessed it wrong. */
  function WrongFor(flights: map<nat, Flight>, row: nat): set<nat> {
    set f | f in flights && flights[f] == Wrong(row)
  }

  /** This step compares a wrong guess with the code of the row. */
  predicate GuessesWrong(s: State, e: Event, row: nat) {
    && e.ReadCode? && Newest(s.rows, e.now) == Some(row)
    && s.rows[row].attempts < MAX_ATTEMPTS && s.rows[row].hash != e.hash
  }

  /** This step ends a request that guessed wrong before the guess is counted. */
  predicate LosesGuess(s: State, e: Event, row: nat) {
    e.Drop? && e.flight in s.flights && s.flights[e.flight] == Wrong(row)
  }

  /** The wrong guesses a run makes at the code of the row. */
  function Guesses(s: State, events: seq<Event>, row: nat): nat
    requires PossibleRun(s, events)
    decreases |events|
  {
    if events == [] then 0
    else (if GuessesWrong(s, events[0], row) then 1 else 0) + Guesses(Next(s, events[0]), events[1..], row)
  }

  /** Those of them that are never counted. */
  function Lost(s: State, events: seq<Event>, row: nat): nat
    requires PossibleRun(s, events)
    decreases |events|
  {
    if events == [] then 0
    else (if LosesGuess(s, events[0], row) then 1 else 0) + Lost(Next(s, events[0]), events[1..], row)
  }

  /** At no moment of the run are more than `m` confirms in flight. */
  predicate AtMostInFlight(s: State, events: seq<Event>, m: nat)
    requires PossibleRun(s, events)
    decreases |events|
  {
    |s.flights| <= m && (events != [] ==> AtMostInFlight(Next(s, events[0]), events[1..], m))
  }

  /** Wrong guesses of a code: those counted, and those read but not yet counted. */
  function WrongGuesses(s: State, row: nat): nat {
    (if row < |s.rows| then s.rows[row].attempts else 0) + |WrongFor(s.flights, row)|
  }

  lemma {:induction false} SubsetSize(a: set<nat>, b: set<nat>)
    requires a <= b
    ensures |a| <= |b|
    decreases |a|
  {
    if a == {} {
    } else {
      var x :| x in a;
      SubsetSize(a - {x}, b - {x});
    }
  }

  lemma WrongWithin(flights: map<nat, Flight>, row: nat)
    ensures |WrongFor(flights, row)| <= |flights|
  {
    SubsetSize(WrongFor(flights, row), flights.Keys);
  }

  lemma RemovedWrong(flights: map<nat, Flight>, f: nat, row: nat)
    requires f in flights
    ensures |WrongFor(flights - {f}, row)| == |WrongFor(flights, row)| - (if flights[f] == Wrong(row) then 1 else 0)
  {
    assert WrongFor(flights - {f}, row) == WrongFor(flights, row) - {f};
  }

  lemma AddedWrong(flights: map<nat, Flight>, f: nat, flight: Flight, row: nat)
    requires f !in flights
    ensures |WrongFor(flights[f := flight], row)| == |WrongFor(flights, row)| + (if flight == Wrong(row) then 1 else 0)
  {
    var more := if flight == Wrong(row) then {f} else {};
    assert WrongFor(flights[f := flight], row) == WrongFor(flights, row) + more;
  }

  lemma RequestCounts(s: State, e: Event, row: nat)
    requires e.Request? && Sound(s)
    ensures WrongGuesses(Next(s, e), row) == WrongGuesses(s, row)
  {
    var s' := Next(s, e);
    assert row < |s.rows| ==> s'.rows[row] == Retire(s.rows)[row];
    assert WrongFor(s.flights, |s.rows|) == {};
  }

  /** Each step adds the guess it makes and takes away the one it loses. */
  lemma StepCounts(s: State, e: Event, row: nat)
    requires Sound(s) && Possible(s, e)
    ensures WrongGuesses(Next(s, e), row) + (if LosesGuess(s, e, row) then 1 else 0) ==
            WrongGuesses(s, row) + (if GuessesWrong(s, e, row) then 1 else 0)
  {
    match e
    case Request(_, _) => RequestCounts(s, e, row);
    case ReadCode(f, _, _) =>
      if f in Next(s, e).flights {
        AddedWrong(s.flights, f, Next(s, e).flights[f], row);
      }
    case _ => RemovedWrong(s.flights, e.flight, row);
  }

  /** Every wrong guess is counted, in flight or lost. */
  lemma {:induction false} GuessesAccounted(s: State, events: seq<Event>, row: nat)
    requires Sound(s) && PossibleRun(s, events)
    ensures WrongGuesses(After(s, events), row) + Lost(s, events, row) == WrongGuesses(s, row) + Guesses(s, events, row)
    decreases |events|
  {
    if events == [] {
    } else {
      StepKeeps(s, events[0]);
      StepCounts(s, events[0], row);
      GuessesAccounted(Next(s, events[0]), events[1..], row);
    }
  }

  /** A guess is made only while fewer than five are counted; the others are in flight. */
  lemma StepBounded(s: State, e: Event, m: nat, row: nat)
    requires Sound(s) && Possible(s, e) && WrongGuesses(s, row) < MAX_ATTEMPTS + m && |Next(s, e).flights| <= m
    ensures WrongGuesses(Next(s, e), row) < MAX_ATTEMPTS + m
  {
    StepCounts(s, e, row);
    if GuessesWrong(s, e, row) {
      WrongWithin(Next(s, e).flights, row);
    }
  }

  lemma {:induction false} BoundedAlong(s: State, events: seq<Event>, m: nat, row: nat)
    requires Sound(s) && PossibleRun(s, events) && AtMostInFlight(s, events, m)
    requires WrongGuesses(s, row) < MAX_ATTEMPTS + m
    ensures WrongGuesses(After(s, events), row) < MAX_ATTEMPTS + m
    decreases |events|
  {
    if events == [] {
    } else {
      StepKeeps(s, events[0]);
      StepBounded(s, events[0], m, row);
      BoundedAlong(Next(s, events[0]), events[1..], m, row);
    }
  }

  /**
   While never more than `m` confirms are in flight, fewer than five plus `m`
   wrong guesses are made at a code, not counting those whose request ends
   before they are counted; five when they come one at a time.
   */
  lemma FewWrongGuesses(events: seq<Event>, m: nat, row: nat)
    requires PossibleRun(INITIAL, events) && AtMostInFlight(INITIAL, events, m)
    ensures Guesses(INITIAL, events, row) - Lost(INITIAL, events, row) < 5 + m
  {
    assert WrongFor(INITIAL.flights, row) == {};
    BoundedAlong(INITIAL, events, m, row);
    GuessesAccounted(INITIAL, events, row);
  }

  // --- Runs that reach the bound.

  /** One live code that is not the one guessed. */
  predicate Guessable(s: State, guess: nat, now: int) {
    && |s.rows| == 1 && s.rows[0].hash != guess && s.rows[0].attempts < MAX_ATTEMPTS
    && !s.rows[0].used && now < s.rows[0].expires
  }

  lemma WrongRead(s: State, f: nat, guess: nat, now: int)
    requires Guessable(s, guess, now) && f !in s.flights
    ensures GuessesWrong(s, ReadCode(f, guess, now), 0) && !LosesGuess(s, ReadCode(f, guess, now), 0)
    ensures Next(s, ReadCode(f, guess, now)) == s.(flights := s.flights[f := Wrong(0)])
  {
    assert Newest(s.rows, now) == Some(0);
  }

  /** A run with one more step in front. */
  lemma InFront(s: State, e: Event, events: seq<Event>, m: nat, row: nat)
    requires Possible(s, e) && PossibleRun(Next(s, e), events)
    ensures PossibleRun(s, [e] + events) && After(s, [e] + events) == After(Next(s, e), events)
    ensures Guesses(s, [e] + events, row) ==
            (if GuessesWrong(s, e, row) then 1 else 0) + Guesses(Next(s, e), events, row)
    ensures Lost(s, [e] + events, row) == (if LosesGuess(s, e, row) then 1 else 0) + Lost(Next(s, e), events, row)
    ensures AtMostInFlight(s, [e] + events, m) <==> |s.flights| <= m && AtMostInFlight(Next(s, e), events, m)
  {
    assert ([e] + events)[1..] == events;
  }

  /** A number of confirms that all guess wrong before the first of them is counted. */
  function Reads(from: nat, n: nat, guess: nat, now: int): seq<Event>
    decreases n
  {
    if n == 0 then [] else [ReadCode(from, guess, now)] + Reads(from + 1, n - 1, guess, now)
  }

  lemma {:induction false} ReadsPileUp(s: State, from: nat, n: nat, guess: nat, now: int, m: nat)
    requires Guessable(s, guess, now) && (forall f | f in s.flights :: f < from) && |s.flights| + n <= m
    ensures var run := Reads(from, n, guess, now);
            PossibleRun(s, run) && AtMostInFlight(s, run, m) && Guesses(s, run, 0) == n && Lost(s, run, 0) == 0
    decreases n
  {
    if n == 0 {
    } else {
      var e := ReadCode(from, guess, now);
      WrongRead(s, from, guess, now);
      ReadsPileUp(Next(s, e), from + 1, n - 1, guess, now, m);
      InFront(s, e, Reads(from + 1, n - 1, guess, now), m, 0);
    }
  }

  /** `k` wrong guesses one after the other, then `m` at once. */
  function Burst(k: nat, m: nat, guess: nat, now: int): seq<Event>
    decreases k
  {
    if k == 0 then Reads(0, m, guess, now)
    else [ReadCode(0, guess, now)] + ([CountWrong(0)] + Burst(k - 1, m, guess, now))
  }

  lemma {:induction false} BurstGuesses(s: State, k: nat, m: nat, guess: nat, now: int)
    requires Guessable(s, guess, now) && s.flights == map[] && s.rows[0].attempts + k < MAX_ATTEMPTS && m > 0
    ensures var run := Burst(k, m, guess, now);
            PossibleRun(s, run) && AtMostInFlight(s, run, m) && Guesses(s, run, 0) == k + m && Lost(s, run, 0) == 0
    decreases k
  {
    if k == 0 {
      ReadsPileUp(s, 0, m, guess, now, m);
    } else {
      var e, rest := ReadCode(0, guess, now), Burst(k - 1, m, guess, now);
      WrongRead(s, 0, guess, now);
      var s1 := Next(s, e);
      var s2 := Next(s1, CountWrong(0));
      assert s2.flights == map[];
      BurstGuesses(s2, k - 1, m, guess, now);
      InFront(s1, CountWrong(0), rest, m, 0);
      InFront(s, e, [CountWrong(0)] + rest, m, 0);
    }
  }

  lemma Asking(hash: nat, expires: int)
    ensures Next(INITIAL, Request(hash, expires)).rows == [Row(hash, 0, expires, false)]
    ensures Next(INITIAL, Request(hash, expires)).flights == map[]
  {
  }

  /** The bound is reached: for every `m`, some run makes four plus `m` wrong guesses, none of them lost. */
  lemma ManyWrongGuesses(m: nat, hash: nat, guess: nat, expires: int, now: int)
    requires m > 0 && hash != guess && now < expires
    ensures var run := [Request(hash, expires)] + Burst(4, m, guess, now);
            && PossibleRun(INITIAL, run) && AtMostInFlight(INITIAL, run, m)
            && Guesses(INITIAL, run, 0) == MAX_ATTEMPTS - 1 + m && Lost(INITIAL, run, 0) == 0
  {
    var e := Request(hash, expires);
    Asking(hash, expires);
    BurstGuesses(Next(INITIAL, e), 4, m, guess, now);
    InFront(INITIAL, e, Burst(4, m, guess, now), m, 0);
  }

  /** Wrong guesses that are all lost. */
  function LostGuesses(n: nat, guess: nat, now: int): seq<Event> {
    if n == 0 then [] else [ReadCode(0, guess, now)] + ([Drop(0)] + LostGuesses(n - 1, guess, now))
  }

  lemma {:induction false} LostAreNotCounted(s: State, n: nat, guess: nat, now: int)
    requires Guessable(s, guess, now) && s.flights == map[]
    ensures var run := LostGuesses(n, guess, now);
            && PossibleRun(s, run) && AtMostInFlight(s, run, 1) && After(s, run) == s
            && Guesses(s, run, 0) == n && Lost(s, run, 0) == n
    decreases n
  {
    if n == 0 {
    } else {
      var e, rest := ReadCode(0, guess, now), LostGuesses(n - 1, guess, now);
      WrongRead(s, 0, guess, now);
      var s' := Next(s, e);
      assert s'.flights - {0} == map[];
      LostAreNotCounted(s, n - 1, guess, now);
      InFront(s', Drop(0), rest, 1, 0);
      InFront(s, e, [Drop(0)] + rest, 1, 0);
    }
  }

  /** Lost guesses are free: any number of them, one at a time, leaves the code live and nothing counted. */
  lemma UncountedGuesses(n: nat, hash: nat, guess: nat, expires: int, now: int)
    requires hash != guess && now < expires
    ensures var run := [Request(hash, expires)] + LostGuesses(n, guess, now);
            && PossibleRun(INITIAL, run) && AtMostInFlight(INITIAL, run, 1) && Guesses(INITIAL, run, 0) == n
            && After(INITIAL, run).rows == [Row(hash, 0, expires, false)]
  {
    var e := Request(hash, expires);
    Asking(hash, expires);
    LostAreNotCounted(Next(INITIAL, e), n, guess, now);
    InFront(INITIAL, e, LostGuesses(n, guess, now), 1, 0);
  }

  // --- Behind the limiter.

  /** Seconds a code lives, and the window of the limiter that a confirm passes first. */
  const LIFETIME: int := 1800
  const WINDOW: int := 300
  const MAX_PER_WINDOW: nat := 10

  /** When the step happens, for those whose time matters; a code is stored with its expiry. */
  function TimeOf(e: Event): Option<int> {
    match e
    case Request(_, expires) => Some(expires - LIFETIME)
    case ReadCode(_, _, now) => Some(now)
    case _ => None
  }

  /** From `t` on the clock does not go back. */
  predicate Forward(events: seq<Event>, t: int)
    decreases |events|
  {
    events != [] ==>
      var time := TimeOf(events[0]);
      (time.Some? ==> t <= time.value) && Forward(events[1..], if time.Some? then time.value else t)
  }

  /** How many confirms of the run read a code in this time. */
  function ReadsIn(events: seq<Event>, from: int, to: int): nat
    decreases |events|
  {
    if events == [] then 0
    else (if events[0].ReadCode? && from <= events[0].now < to then 1 else 0) + ReadsIn(events[1..], from, to)
  }

  function WindowReads(events: seq<Event>, start: int): nat {
    ReadsIn(events, start, start + WINDOW)
  }

  /** The limiter lets ten confirms of the account through in any window; each reads the code when it is let through. */
  ghost predicate Limited(events: seq<Event>) {
    forall start: int :: WindowReads(events, start) <= MAX_PER_WINDOW
  }

  /** The code of a row keeps its expiry. */
  lemma {:induction false} ExpiryStays(s: State, events: seq<Event>, row: nat)
    requires PossibleRun(s, events) && row < |s.rows|
    ensures row < |After(s, events).rows| && After(s, events).rows[row].expires == s.rows[row].expires
    decreases |events|
  {
    if events == [] {
    } else {
      ExpiryStays(Next(s, events[0]), events[1..], row);
    }
  }

  /** Every code stored so far was stored by `t`. */
  predicate StoredBy(rows: seq<Row>, t: int) {
    forall i | 0 <= i < |rows| :: rows[i].expires - LIFETIME <= t
  }

  /** A guess at a code reads it while it lives. */
  lemma GuessIsRead(s: State, e: Event, t: int, row: nat)
    requires Possible(s, e) && StoredBy(s.rows, t) && (TimeOf(e).Some? ==> t <= TimeOf(e).value)
    ensures StoredBy(Next(s, e).rows, if TimeOf(e).Some? then TimeOf(e).value else t)
    ensures GuessesWrong(s, e, row) ==>
            row < |s.rows| && s.rows[row].expires - LIFETIME <= e.now < s.rows[row].expires
  {
  }

  lemma {:induction false} GuessesAreReads(s: State, events: seq<Event>, t: int, row: nat)
    requires PossibleRun(s, events) && Forward(events, t) && StoredBy(s.rows, t) && row < |After(s, events).rows|
    ensures var expires := After(s, events).rows[row].expires;
            Guesses(s, events, row) <= ReadsIn(events, expires - LIFETIME, expires)
    decreases |events|
  {
    if events == [] {
    } else {
      var e := events[0];
      GuessIsRead(s, e, t, row);
      if GuessesWrong(s, e, row) {
        ExpiryStays(s, events, row);
      }
      GuessesAreReads(Next(s, e), events[1..], if TimeOf(e).Some? then TimeOf(e).value else t, row);
    }
  }

  lemma {:induction false} ReadsSplit(events: seq<Event>, a: int, b: int, c: int)
    requires a <= b <= c
    ensures ReadsIn(events, a, c) == ReadsIn(events, a, b) + ReadsIn(events, b, c)
    decreases |events|
  {
    if events == [] {
    } else {
      ReadsSplit(events[1..], a, b, c);
    }
  }

  lemma {:induction false} NoTimeNoReads(events: seq<Event>, start: int)
    ensures ReadsIn(events, start, start) == 0
    decreases |events|
  {
    if events == [] {
    } else {
      NoTimeNoReads(events[1..], start);
    }
  }

  lemma {:induction false} ReadsInWindows(events: seq<Event>, start: int, n: nat)
    requires Limited(events)
    ensures ReadsIn(events, start, start + n * WINDOW) <= n * MAX_PER_WINDOW
    decreases n
  {
    if n == 0 {
      NoTimeNoReads(events, start);
    } else {
      var mid := start + (n - 1) * WINDOW;
      ReadsInWindows(events, start, n - 1);
      ReadsSplit(events, start, mid, mid + WINDOW);
      assert WindowReads(events, mid) <= MAX_PER_WINDOW;
    }
  }

  /**
   Behind the limiter, lost or not, whatever is in flight: at most sixty wrong
   guesses are made at a code in its thirty minutes.
   */
  lemma SixtyGuesses(events: seq<Event>, t: int, row: nat)
    requires PossibleRun(INITIAL, events) && Forward(events, t) && Limited(events)
    requires row < |After(INITIAL, events).rows|
    ensures Guesses(INITIAL, events, row) <= 60
  {
    var expires := After(INITIAL, events).rows[row].expires;
    GuessesAreReads(INITIAL, events, t, row);
    ReadsInWindows(events, expires - LIFETIME, 6);
  }
}
