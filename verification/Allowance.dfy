/**
 The hosted assistant's daily allowance: a question is reserved before the
 provider is called and given back if the call fails. Turns of any number of
 accounts interleave; every statement is atomic.
 */
module Allowance {
  import opened Text

  datatype Status = InFlight | Answered | Refunded
  datatype Turn = Turn(user: nat, day: nat, chars: nat, status: Status)
  datatype Usage = Usage(count: nat, chars: nat)

  type Rows = map<(nat, nat), Usage>

  function Row(rows: Rows, user: nat, day: nat): Usage {
    if (user, day) in rows then rows[(user, day)] else Usage(0, 0)
  }

  /** The row `reserve_question` leaves, or nothing when the limit is reached. */
  function Reserved(rows: Rows, user: nat, day: nat, limit: nat, chars: nat): Option<Rows> {
    if (user, day) !in rows then Some(rows[(user, day) := Usage(1, chars)])
    else
      var row := rows[(user, day)];
      if row.count < limit then Some(rows[(user, day) := Usage(row.count + 1, row.chars + chars)]) else None
  }

  function Minus(a: nat, b: nat): nat {
    if a < b then 0 else a - b
  }

  /** The row `refund_question` leaves, clamped at zero. */
  function GivenBack(rows: Rows, user: nat, day: nat, chars: nat): Rows {
    if (user, day) !in rows then rows
    else
      var row := rows[(user, day)];
      rows[(user, day) := Usage(Minus(row.count, 1), Minus(row.chars, chars))]
  }

  /** Giving a reserved question back undoes the reservation, for every account and day. */
  lemma RefundUndoesReserve(rows: Rows, user: nat, day: nat, limit: nat, chars: nat, u: nat, d: nat)
    requires Reserved(rows, user, day, limit, chars).Some?
    ensures Row(GivenBack(Reserved(rows, user, day, limit, chars).value, user, day, chars), u, d) == Row(rows, u, d)
  {
    var reserved := Reserved(rows, user, day, limit, chars).value;
    assert Row(reserved, user, day) == Usage(Row(rows, user, day).count + 1, Row(rows, user, day).chars + chars);
  }

  /** The counters in the database, changed in place. */
  class Counters {
    var rows: Rows

    constructor ()
      ensures rows == map[]
    {
      rows := map[];
    }

    method ReserveQuestion(user: nat, day: nat, limit: nat, chars: nat) returns (used: Option<nat>)
      modifies this
      ensures var r := Reserved(old(rows), user, day, limit, chars);
              rows == (if r.Some? then r.value else old(rows)) && used.Some? == r.Some?
      ensures used.Some? ==> used.value == Row(rows, user, day).count == Row(old(rows), user, day).count + 1
    {
      if (user, day) !in rows {
        rows := rows[(user, day) := Usage(1, chars)];
        return Some(1);
      }
      var row := rows[(user, day)];
      if row.count >= limit {
        return None;
      }
      rows := rows[(user, day) := Usage(row.count + 1, row.chars + chars)];
      return Some(row.count + 1);
    }

    method RefundQuestion(user: nat, day: nat, chars: nat)
      modifies this
      ensures rows == GivenBack(old(rows), user, day, chars)
      ensures var was, left := Row(old(rows), user, day), Row(rows, user, day);
              && left.count <= was.count && (was.count > 0 ==> left.count == was.count - 1)
              && left.chars <= was.chars && (was.chars >= chars ==> left.chars == was.chars - chars)
    {
      if (user, day) in rows {
        var row := rows[(user, day)];
        rows := rows[(user, day) := Usage(Minus(row.count, 1), Minus(row.chars, chars))];
      }
    }

    /**
     `chat`: a question is reserved on `day`, and given back on `later` if the
     provider fails. A turn that fails on its own day leaves every account and
     day as it was.
     */
    method Chat(user: nat, day: nat, later: nat, limit: nat, chars: nat, answered: bool) returns (used: Option<nat>)
      modifies this
      ensures var r := Reserved(old(rows), user, day, limit, chars);
              && used.Some? == r.Some? && (r.None? ==> rows == old(rows))
              && (r.Some? ==> rows == if answered then r.value else GivenBack(r.value, user, later, chars))
      ensures !answered && later == day ==> forall u: nat, d: nat :: Row(rows, u, d) == Row(old(rows), u, d)
    {
      used := ReserveQuestion(user, day, limit, chars);
      if used.Some? && !answered {
        RefundQuestion(user, later, chars);
        forall u: nat, d: nat | later == day
          ensures Row(rows, u, d) == Row(old(rows), u, d)
        {
          RefundUndoesReserve(old(rows), user, day, limit, chars, u, d);
        }
      }
    }
  }

  // --- The turns.

  datatype State = State(limit: nat, today: nat, rows: Rows, turns: seq<Turn>)

  datatype Event =
    | Reserve(user: nat, chars: nat)
    | Answer(turn: nat)       // the provider answered
    | Fail(turn: nat)         // it did not, and the refund went through
    | Midnight

  predicate Possible(s: State, e: Event) {
    match e
    case Reserve(_, _) => true
    case Answer(t) => t < |s.turns| && s.turns[t].status.InFlight?
    case Fail(t) => t < |s.turns| && s.turns[t].status.InFlight?
    case Midnight => true
  }

  function Next(s: State, e: Event): State
    requires Possible(s, e)
  {
    match e
    case Reserve(user, chars) =>
      var r := Reserved(s.rows, user, s.today, s.limit, chars);
      if r.None? then s else s.(rows := r.value, turns := s.turns + [Turn(user, s.today, chars, InFlight)])
    case Answer(t) => s.(turns := s.turns[t := s.turns[t].(status := Answered)])
    // The refund goes to the row of the day it happens on.
    case Fail(t) =>
      s.(rows := GivenBack(s.rows, s.turns[t].user, s.today, s.turns[t].chars),
         turns := s.turns[t := s.turns[t].(status := Refunded)])
    case Midnight => s.(today := s.today + 1)
  }

  predicate PossibleRun(s: State, events: seq<Event>)
    decreases |events|
  {
    events != [] ==> Possible(s, events[0]) && PossibleRun(Next(s, events[0]), events[1..])
  }

  function After(s: State, events: seq<Event>): State
    requires PossibleRun(s, events)
    decreases |events|
  {
    if events == [] then s else After(Next(s, events[0]), events[1..])
  }

  /** Every refund falls on the day its turn was reserved. */
  predicate SameDay(s: State, events: seq<Event>)
    requires PossibleRun(s, events)
    decreases |events|
  {
    events != [] ==>
      && (events[0].Fail? ==> s.turns[events[0].turn].day == s.today)
      && SameDay(Next(s, events[0]), events[1..])
  }

  /** The turn counts against the account that day: answered, or still in flight. */
  predicate Counts(t: Turn, user: nat, day: nat) {
    t.user == user && t.day == day && !t.status.Refunded?
  }

  /** What the turns of an account on a day add up to. */
  function Spent(turns: seq<Turn>, user: nat, day: nat): Usage {
    if turns == [] then Usage(0, 0)
    else
      var n := |turns| - 1;
      var before := Spent(turns[..n], user, day);
      if Counts(turns[n], user, day) then Usage(before.count + 1, before.chars + turns[n].chars) else before
  }

  /** The stored counters are what the turns add up to, and within the limit. */
  ghost predicate Conserved(s: State) {
    && (forall user: nat, day: nat :: Row(s.rows, user, day) == Spent(s.turns, user, day))
    && (forall user: nat, day: nat :: Row(s.rows, user, day).count <= s.limit)
  }

  lemma SpentSnoc(turns: seq<Turn>, t: Turn, user: nat, day: nat)
    ensures var before := Spent(turns, user, day);
            Spent(turns + [t], user, day) ==
            if Counts(t, user, day) then Usage(before.count + 1, before.chars + t.chars) else before
  {
    assert (turns + [t])[..|turns|] == turns;
  }

  /** Taking a counted turn out takes exactly its share; a share is always covered. */
  lemma {:induction false} SpentRefund(turns: seq<Turn>, i: nat, user: nat, day: nat)
    requires i < |turns|
    ensures var before, after := Spent(turns, user, day), Spent(turns[i := turns[i].(status := Refunded)], user, day);
            if Counts(turns[i], user, day) then before == Usage(after.count + 1, after.chars + turns[i].chars)
            else after == before
    decreases |turns|
  {
    var n := |turns| - 1;
    var changed := turns[i := turns[i].(status := Refunded)];
    if i == n {
      assert changed[..n] == turns[..n];
    } else {
      assert changed[..n] == turns[..n][i := turns[i].(status := Refunded)];
      SpentRefund(turns[..n], i, user, day);
    }
  }

  lemma {:induction false} SpentAnswer(turns: seq<Turn>, i: nat, user: nat, day: nat)
    requires i < |turns| && turns[i].status.InFlight?
    ensures Spent(turns[i := turns[i].(status := Answered)], user, day) == Spent(turns, user, day)
    decreases |turns|
  {
    var n := |turns| - 1;
    var changed := turns[i := turns[i].(status := Answered)];
    if i == n {
      assert changed[..n] == turns[..n];
    } else {
      assert changed[..n] == turns[..n][i := turns[i].(status := Answered)];
      SpentAnswer(turns[..n], i, user, day);
    }
  }

  lemma ReserveKeeps(s: State, user: nat, chars: nat)
    requires Conserved(s) && s.limit > 0
    ensures Conserved(Next(s, Reserve(user, chars)))
  {
    var s' := Next(s, Reserve(user, chars));
    forall u: nat, d: nat
      ensures Row(s'.rows, u, d) == Spent(s'.turns, u, d) && Row(s'.rows, u, d).count <= s.limit
    {
      assert Row(s.rows, u, d) == Spent(s.turns, u, d);
      SpentSnoc(s.turns, Turn(user, s.today, chars, InFlight), u, d);
    }
  }

  /** A same-day refund is covered by the row: the clamp at zero does nothing. */
  lemma ClampNeverFires(s: State, t: nat)
    requires Conserved(s) && Possible(s, Fail(t)) && s.turns[t].day == s.today
    ensures var row := Row(s.rows, s.turns[t].user, s.today); 1 <= row.count && s.turns[t].chars <= row.chars
    ensures (s.turns[t].user, s.today) in s.rows
  {
    SpentRefund(s.turns, t, s.turns[t].user, s.today);
    assert Row(s.rows, s.turns[t].user, s.today) == Spent(s.turns, s.turns[t].user, s.today);
  }

  lemma RefundKeeps(s: State, t: nat)
    requires Conserved(s) && Possible(s, Fail(t)) && s.turns[t].day == s.today
    ensures Conserved(Next(s, Fail(t)))
  {
    var s' := Next(s, Fail(t));
    ClampNeverFires(s, t);
    forall u: nat, d: nat
      ensures Row(s'.rows, u, d) == Spent(s'.turns, u, d) && Row(s'.rows, u, d).count <= s.limit
    {
      assert Row(s.rows, u, d) == Spent(s.turns, u, d);
      SpentRefund(s.turns, t, u, d);
    }
  }

  lemma AnswerKeeps(s: State, t: nat)
    requires Conserved(s) && Possible(s, Answer(t))
    ensures Conserved(Next(s, Answer(t)))
  {
    var s' := Next(s, Answer(t));
    forall u: nat, d: nat
      ensures Row(s'.rows, u, d) == Spent(s'.turns, u, d)
    {
      assert Row(s.rows, u, d) == Spent(s.turns, u, d);
      SpentAnswer(s.turns, t, u, d);
    }
  }

  lemma {:induction false} ConservedAlong(s: State, events: seq<Event>)
    requires Conserved(s) && s.limit > 0 && PossibleRun(s, events) && SameDay(s, events)
    ensures Conserved(After(s, events)) && After(s, events).limit == s.limit
    decreases |events|
  {
    if events == [] {
    } else {
      var e := events[0];
      match e {
        case Reserve(user, chars) => ReserveKeeps(s, user, chars);
        case Answer(t) => AnswerKeeps(s, t);
        case Fail(t) => RefundKeeps(s, t);
        case Midnight =>
      }
      ConservedAlong(Next(s, e), events[1..]);
    }
  }

  /**
   Over every interleaving of turns that end on the day they began, the
   stored count of every account and day is its answered and in-flight turns
   and never above the limit, and the stored characters are theirs.
   */
  lemma Conservation(limit: nat, today: nat, events: seq<Event>, user: nat, day: nat)
    requires limit > 0
    requires var start := State(limit, today, map[], []); PossibleRun(start, events) && SameDay(start, events)
    ensures var s := After(State(limit, today, map[], []), events);
            Row(s.rows, user, day) == Spent(s.turns, user, day) && Row(s.rows, user, day).count <= limit
  {
    ConservedAlong(State(limit, today, map[], []), events);
  }

  /** A question is taken exactly when fewer than the limit are answered or in flight that day. */
  lemma ReservesExactly(limit: nat, today: nat, events: seq<Event>, user: nat, chars: nat)
    requires limit > 0
    requires var start := State(limit, today, map[], []); PossibleRun(start, events) && SameDay(start, events)
    ensures var s := After(State(limit, today, map[], []), events);
            Next(s, Reserve(user, chars)).turns ==
            if Spent(s.turns, user, s.today).count < limit then s.turns + [Turn(user, s.today, chars, InFlight)]
            else s.turns
  {
    ConservedAlong(State(limit, today, map[], []), events);
    var s := After(State(limit, today, map[], []), events);
    assert Row(s.rows, user, s.today) == Spent(s.turns, user, s.today);
  }

  /** A refund keeps the books exactly when it falls on the day of its turn. */
  lemma RefundConservesOnlySameDay(s: State, t: nat)
    requires Conserved(s) && Possible(s, Fail(t))
    ensures Conserved(Next(s, Fail(t))) <==> s.turns[t].day == s.today
  {
    if s.turns[t].day == s.today {
      RefundKeeps(s, t);
    } else {
      var u, d, s' := s.turns[t].user, s.turns[t].day, Next(s, Fail(t));
      assert Row(s'.rows, u, d) == Row(s.rows, u, d) == Spent(s.turns, u, d);
      SpentRefund(s.turns, t, u, d);
      assert Row(s'.rows, u, d) != Spent(s'.turns, u, d);
    }
  }

  /** A turn that fails after midnight: the next day loses a question that was answered. */
  lemma PastMidnight(user: nat)
    ensures var s := State(20, 1, map[], []);
            var run := [Reserve(user, 5), Midnight, Reserve(user, 7), Answer(1), Fail(0)];
            PossibleRun(s, run) && Row(After(s, run).rows, user, 2) == Usage(0, 2)
  {
    var s0 := State(20, 1, map[], []);
    var run := [Reserve(user, 5), Midnight, Reserve(user, 7), Answer(1), Fail(0)];
    var s1 := Next(s0, run[0]);
    var s2 := Next(s1, Midnight);
    var s3 := Next(s2, run[2]);
    assert s3.turns == [Turn(user, 1, 5, InFlight), Turn(user, 2, 7, InFlight)];
    var s4 := Next(s3, Answer(1));
    var s5 := Next(s4, Fail(0));
    assert run[1..][1..][1..] == [Answer(1), Fail(0)];
    assert [Answer(1), Fail(0)][1..] == [Fail(0)] && [Fail(0)][1..] == [];
    assert After(s5, []) == s5 && PossibleRun(s5, []);
    assert PossibleRun(s4, [Fail(0)]) && After(s4, [Fail(0)]) == s5;
    assert PossibleRun(s3, [Answer(1), Fail(0)]) && After(s3, [Answer(1), Fail(0)]) == s5;
    assert PossibleRun(s2, run[2..]) && After(s2, run[2..]) == s5 by {
      assert run[2..][1..] == [Answer(1), Fail(0)];
    }
    assert run[1..][1..] == run[2..];
    assert PossibleRun(s1, run[1..]) && After(s1, run[1..]) == s5;
  }
}
