/**
 The desktop's link to an agent: reconnecting with backoff, the certificate
 pin, and a command queue that outlives connections. Each connection carries
 messages in order and loses whatever is in flight when it ends.
 */
module AgentLink {
  import opened Numbers
  import opened Text

  // --- Backoff.

  const INITIAL_BACKOFF: nat := 1
  const MAX_BACKOFF: nat := 30

  function Min(a: nat, b: nat): nat {
    if a < b then a else b
  }

  /** How many attempts have failed since the last accepted handshake, counting the last attempt. */
  function Failures(accepted: seq<bool>): nat {
    if accepted == [] then 0
    else if accepted[|accepted| - 1] then 1
    else Failures(accepted[..|accepted| - 1]) + 1
  }

  function WaitAfter(failures: nat): nat
    requires failures > 0
  {
    if failures <= 5 then Pow2(failures - 1) else 30
  }

  /** `wait` is the right wait after attempt `i`. */
  predicate WaitIs(accepted: seq<bool>, i: nat, wait: nat)
    requires i < |accepted|
  {
    var n := Failures(accepted[..i + 1]);
    n > 0 && wait == WaitAfter(n)
  }

  /**
   The `run` loop over attempts that all end in failure; `accepted[i]` says
   whether attempt `i` got as far as an accepted handshake. The wait after
   each is `min(2^(n-1), 30)` seconds, `n` attempts after the last accept.
   */
  method RetryWaits(accepted: seq<bool>) returns (waits: seq<nat>)
    ensures |waits| == |accepted|
    ensures forall i | 0 <= i < |accepted| :: WaitIs(accepted, i, waits[i])
  {
    waits := [];
    var backoff := INITIAL_BACKOFF;
    for i := 0 to |accepted|
      invariant |waits| == i
      invariant backoff == WaitAfter(Failures(accepted[..i]) + 1)
      invariant forall j | 0 <= j < i :: WaitIs(accepted, j, waits[j])
    {
      assert accepted[..i + 1][..i] == accepted[..i] && accepted[..i + 1][i] == accepted[i];
      ghost var n := Failures(accepted[..i + 1]);
      if accepted[i] {
        backoff := INITIAL_BACKOFF;
      }
      assert n > 0 && backoff == WaitAfter(n);
      waits := waits + [backoff];
      backoff := Min(backoff * 2, MAX_BACKOFF);
      assert Pow2(n) == 2 * Pow2(n - 1);
    }
  }

  // --- The pin.

  datatype Config = Config(secure: bool, pin: Option<string>)

  /** Whether the handshake may be sent to a peer that shows this fingerprint. */
  predicate PinAllows(config: Config, fingerprint: Option<string>) {
    match fingerprint
    case Some(f) => config.pin.Some? ==> config.pin.value == f
    case None => !config.secure
  }

  // --- Commands and acknowledgements.

  datatype Command = Apply(revision: nat) | Other

  /** A command on the wire; `at` is its place in the queue, which the message does not carry. */
  datatype Sent = Sent(at: nat, command: Command)

  /** An acknowledgement carries a revision; `at` is the place of the command that caused it. */
  datatype Ack = Ack(at: nat, revision: nat)

  /** A command that was taken off the queue but not written, and the connection that failed. */
  datatype Drop = Drop(at: nat, connection: nat)

  /** How far the current connection is. */
  datatype Phase =
    | Down
    | Dialed(fingerprint: Option<string>)   // connected, nothing sent
    | Cleared(fingerprint: Option<string>)  // the pin check has passed
    | Greeted                               // the handshake is out
    | Up(wire: seq<Sent>, acks: seq<Ack>)   // commands and acknowledgements under way

  datatype Link = Link(
    queue: seq<Command>,
    taken: nat,                         // commands taken off the queue
    connection: nat,                    // connections dialed so far; the last one is current
    phase: Phase,
    written: seq<nat>,                  // commands written, over all connections
    drops: seq<Drop>,
    acked: seq<Ack>,                    // acknowledgements received
    greeted: seq<Option<string>>        // fingerprints of the peers a handshake was sent to
  )

  const INITIAL := Link([], 0, 0, Down, [], [], [], [])

  datatype Event =
    | Enqueue(command: Command)
    | Dial(fingerprint: Option<string>)
    | CheckPin
    | Greet                             // the handshake is sent
    | Accept                            // the agent accepted
    | WriteNext                         // the next command goes out
    | WriteFails                        // it was taken, but the connection failed
    | Handle                            // the agent handles the next command
    | ReadAck                           // the desktop reads the next acknowledgement
    | Lose                              // the connection ends in any other way

  predicate Possible(l: Link, e: Event) {
    match e
    case Enqueue(_) => true
    case Dial(_) => l.phase.Down?
    case CheckPin => l.phase.Dialed?
    case Greet => l.phase.Cleared?
    case Accept => l.phase.Greeted?
    case WriteNext => l.phase.Up? && l.taken < |l.queue|
    case WriteFails => l.phase.Up? && l.taken < |l.queue|
    case Handle => l.phase.Up? && l.phase.wire != []
    case ReadAck => l.phase.Up? && l.phase.acks != []
    case Lose => !l.phase.Down?
  }

  /** What the agent answers to a command: the revision it applied, and nothing to anything else. */
  function Answer(m: Sent): seq<Ack> {
    if m.command.Apply? then [Ack(m.at, m.command.revision)] else []
  }

  function Next(config: Config, l: Link, e: Event): Link
    requires Possible(l, e)
  {
    match e
    case Enqueue(c) => l.(queue := l.queue + [c])
    case Dial(f) => l.(phase := Dialed(f), connection := l.connection + 1)
    case CheckPin => l.(phase := if PinAllows(config, l.phase.fingerprint) then Cleared(l.phase.fingerprint) else Down)
    case Greet => l.(phase := Greeted, greeted := l.greeted + [l.phase.fingerprint])
    case Accept => l.(phase := Up([], []))
    case WriteNext =>
      l.(phase := l.phase.(wire := l.phase.wire + [Sent(l.taken, l.queue[l.taken])]),
         written := l.written + [l.taken], taken := l.taken + 1)
    case WriteFails => l.(phase := Down, drops := l.drops + [Drop(l.taken, l.connection)], taken := l.taken + 1)
    case Handle => l.(phase := Up(l.phase.wire[1..], l.phase.acks + Answer(l.phase.wire[0])))
    case ReadAck => l.(phase := l.phase.(acks := l.phase.acks[1..]), acked := l.acked + [l.phase.acks[0]])
    case Lose => l.(phase := Down)
  }

  predicate PossibleRun(config: Config, l: Link, events: seq<Event>)
    decreases |events|
  {
    events != [] ==> Possible(l, events[0]) && PossibleRun(config, Next(config, l, events[0]), events[1..])
  }

  function After(config: Config, l: Link, events: seq<Event>): Link
    requires PossibleRun(config, l, events)
    decreases |events|
  {
    if events == [] then l else After(config, Next(config, l, events[0]), events[1..])
  }

  // --- What holds all along.

  predicate Increasing(s: seq<nat>) {
    forall i, j | 0 <= i < j < |s| :: s[i] < s[j]
  }

  predicate Below(s: seq<nat>, bound: nat) {
    forall i | 0 <= i < |s| :: s[i] < bound
  }

  function AckPlaces(acks: seq<Ack>): (s: seq<nat>)
    ensures |s| == |acks| && forall i | 0 <= i < |acks| :: s[i] == acks[i].at
  {
    seq(|acks|, i requires 0 <= i < |acks| => acks[i].at)
  }

  function WirePlaces(wire: seq<Sent>): (s: seq<nat>)
    ensures |s| == |wire| && forall i | 0 <= i < |wire| :: s[i] == wire[i].at
  {
    seq(|wire|, i requires 0 <= i < |wire| => wire[i].at)
  }

  /** Acknowledged, acknowledged but not yet read, and written but not yet handled, in that order. */
  function Pipeline(l: Link): seq<nat> {
    if l.phase.Up? then AckPlaces(l.acked) + (AckPlaces(l.phase.acks) + WirePlaces(l.phase.wire))
    else AckPlaces(l.acked)
  }

  /** Each acknowledgement carries the revision of the command at its place. */
  predicate Matching(queue: seq<Command>, acks: seq<Ack>) {
    forall i | 0 <= i < |acks| :: acks[i].at < |queue| && queue[acks[i].at] == Apply(acks[i].revision)
  }

  predicate OnWire(queue: seq<Command>, wire: seq<Sent>) {
    forall i | 0 <= i < |wire| :: wire[i].at < |queue| && queue[wire[i].at] == wire[i].command
  }

  predicate IsDropped(drops: seq<Drop>, at: nat) {
    exists i | 0 <= i < |drops| :: drops[i].at == at
  }

  /** Every command taken was written or dropped, and not both; no other was. */
  predicate Covered(l: Link) {
    && (forall k: nat | k < l.taken :: k in l.written || IsDropped(l.drops, k))
    && (forall i | 0 <= i < |l.drops| :: l.drops[i].at < l.taken && l.drops[i].at !in l.written)
    && Below(l.written, l.taken)
  }

  /** No connection dropped two commands; the current one, if still up, dropped none. */
  predicate OneDropEach(l: Link) {
    && (!l.phase.Down? ==> 1 <= l.connection)
    && (forall i, j | 0 <= i < j < |l.drops| :: l.drops[i].connection < l.drops[j].connection)
    && (forall i | 0 <= i < |l.drops| ::
          1 <= l.drops[i].connection <= l.connection && (!l.phase.Down? ==> l.drops[i].connection < l.connection))
  }

  predicate Flowing(l: Link) {
    && Increasing(Pipeline(l)) && Below(Pipeline(l), l.taken)
    && (forall i | 0 <= i < |Pipeline(l)| :: Pipeline(l)[i] in l.written)
    && Matching(l.queue, l.acked)
    && (l.phase.Up? ==> Matching(l.queue, l.phase.acks) && OnWire(l.queue, l.phase.wire))
  }

  predicate Pinned(config: Config, l: Link) {
    && (forall i | 0 <= i < |l.greeted| :: PinAllows(config, l.greeted[i]))
    && (l.phase.Cleared? ==> PinAllows(config, l.phase.fingerprint))
  }

  predicate Sound(config: Config, l: Link) {
    && l.taken <= |l.queue| && Increasing(l.written)
    && Covered(l) && OneDropEach(l) && Flowing(l) && Pinned(config, l)
  }

  lemma SnocIncreasing(s: seq<nat>, x: nat)
    requires Increasing(s) && Below(s, x)
    ensures Increasing(s + [x]) && Below(s + [x], x + 1)
  {
  }

  lemma WriteCovers(l: Link)
    requires Covered(l) && Possible(l, WriteNext)
    ensures Covered(Next(Config(true, None), l, WriteNext))
  {
    var written := l.written + [l.taken];
    assert written[|l.written|] == l.taken;
    forall k: nat | k < l.taken + 1
      ensures k in written || IsDropped(l.drops, k)
    {
      if k < l.taken {
        assert k in l.written || IsDropped(l.drops, k);
      }
    }
  }

  lemma PipelineWrites(l: Link, l': Link)
    requires l.taken < |l.queue| && l'.acked == l.acked
    requires l.phase.Up? && l'.phase == l.phase.(wire := l.phase.wire + [Sent(l.taken, l.queue[l.taken])])
    ensures Pipeline(l') == Pipeline(l) + [l.taken]
  {
    assert WirePlaces(l'.phase.wire) == WirePlaces(l.phase.wire) + [l.taken];
    Assoc(AckPlaces(l.phase.acks), WirePlaces(l.phase.wire), [l.taken]);
    Assoc(AckPlaces(l.acked), AckPlaces(l.phase.acks) + WirePlaces(l.phase.wire), [l.taken]);
  }

  lemma WriteKeeps(config: Config, l: Link)
    requires Sound(config, l) && Possible(l, WriteNext)
    ensures Sound(config, Next(config, l, WriteNext))
  {
    var l' := Next(config, l, WriteNext);
    WriteCovers(l);
    SnocIncreasing(l.written, l.taken);
    SnocIncreasing(Pipeline(l), l.taken);
    PipelineWrites(l, l');
    forall i | 0 <= i < |Pipeline(l')|
      ensures Pipeline(l')[i] in l'.written
    {
      if i < |Pipeline(l)| {
        assert Pipeline(l)[i] in l.written;
      } else {
        assert l'.written[|l.written|] == l.taken;
      }
    }
  }

  /** What is left when the connection ends: only what was received. */
  lemma ReceivedFlows(l: Link)
    requires Flowing(l)
    ensures Flowing(l.(phase := Down))
  {
    assert forall i | 0 <= i < |l.acked| :: Pipeline(l)[i] == AckPlaces(l.acked)[i];
  }

  lemma FailCovers(l: Link, l': Link)
    requires Covered(l) && l'.written == l.written && l'.taken == l.taken + 1
    requires l'.drops == l.drops + [Drop(l.taken, l.connection)]
    ensures Covered(l')
  {
    assert l'.drops[|l.drops|].at == l.taken;
    forall k: nat | k < l'.taken
      ensures k in l'.written || IsDropped(l'.drops, k)
    {
      if k < l.taken && k !in l.written {
        var i :| 0 <= i < |l.drops| && l.drops[i].at == k;
        assert l'.drops[i].at == k;
      }
    }
  }

  lemma FailKeeps(config: Config, l: Link)
    requires Sound(config, l) && Possible(l, WriteFails)
    ensures Sound(config, Next(config, l, WriteFails))
  {
    var l' := Next(config, l, WriteFails);
    ReceivedFlows(l);
    FailCovers(l, l');
    assert Pipeline(l') == AckPlaces(l.acked);
  }

  lemma LoseKeeps(config: Config, l: Link)
    requires Sound(config, l)
    ensures Sound(config, l.(phase := Down))
  {
    ReceivedFlows(l);
  }

  lemma WithoutOne(s: seq<nat>, n: nat)
    requires Increasing(s) && n < |s|
    ensures var t := s[..n] + s[n + 1..];
            Increasing(t) && forall i | 0 <= i < |t| :: t[i] in s
  {
    var t := s[..n] + s[n + 1..];
    assert forall i | 0 <= i < |t| :: t[i] == if i < n then s[i] else s[i + 1];
  }

  lemma PartFlows(s: seq<nat>, t: seq<nat>, bound: nat, written: seq<nat>)
    requires Below(s, bound) && (forall i | 0 <= i < |s| :: s[i] in written) && forall i | 0 <= i < |t| :: t[i] in s
    ensures Below(t, bound) && forall i | 0 <= i < |t| :: t[i] in written
  {
  }

  lemma HeadMoves(a: seq<nat>, k: seq<nat>, h: nat, w: seq<nat>)
    ensures a + ((k + [h]) + w) == a + (k + ([h] + w))
  {
    Assoc(k, [h], w);
  }

  lemma HeadLeaves(a: seq<nat>, k: seq<nat>, h: nat, w: seq<nat>)
    ensures var s, n := a + (k + ([h] + w)), |a| + |k|; a + (k + w) == s[..n] + s[n + 1..]
  {
    var s, n := a + (k + ([h] + w)), |a| + |k|;
    assert s[..n] == a + k;
    assert s[n + 1..] == w;
    Assoc(a, k, w);
  }

  /** An answer takes the place of the command it answers. */
  lemma AnsweredPipeline(l: Link, l': Link)
    requires l.phase.Up? && l.phase.wire != [] && l'.acked == l.acked && l.phase.wire[0].command.Apply?
    requires l'.phase == Up(l.phase.wire[1..], l.phase.acks + Answer(l.phase.wire[0]))
    ensures Pipeline(l') == Pipeline(l)
  {
    var wire, h := l.phase.wire, l.phase.wire[0].at;
    assert WirePlaces(wire) == [h] + WirePlaces(wire[1..]);
    assert AckPlaces(l'.phase.acks) == AckPlaces(l.phase.acks) + [h];
    HeadMoves(AckPlaces(l.acked), AckPlaces(l.phase.acks), h, WirePlaces(wire[1..]));
  }

  /** A command without an answer leaves the line. */
  lemma SilentPipeline(l: Link, l': Link)
    requires l.phase.Up? && l.phase.wire != [] && l'.acked == l.acked && !l.phase.wire[0].command.Apply?
    requires l'.phase == Up(l.phase.wire[1..], l.phase.acks + Answer(l.phase.wire[0]))
    ensures var n := |l.acked| + |l.phase.acks|;
            n < |Pipeline(l)| && Pipeline(l') == Pipeline(l)[..n] + Pipeline(l)[n + 1..]
  {
    var wire, h := l.phase.wire, l.phase.wire[0].at;
    assert WirePlaces(wire) == [h] + WirePlaces(wire[1..]);
    assert l'.phase.acks == l.phase.acks;
    HeadLeaves(AckPlaces(l.acked), AckPlaces(l.phase.acks), h, WirePlaces(wire[1..]));
  }

  lemma SilentFlows(l: Link, l': Link)
    requires Flowing(l) && l.phase.Up? && l.phase.wire != [] && !l.phase.wire[0].command.Apply?
    requires l' == l.(phase := Up(l.phase.wire[1..], l.phase.acks + Answer(l.phase.wire[0])))
    ensures Increasing(Pipeline(l')) && Below(Pipeline(l'), l.taken)
    ensures forall i | 0 <= i < |Pipeline(l')| :: Pipeline(l')[i] in l.written
  {
    SilentPipeline(l, l');
    WithoutOne(Pipeline(l), |l.acked| + |l.phase.acks|);
    PartFlows(Pipeline(l), Pipeline(l'), l.taken, l.written);
  }

  /** The agent acknowledges a command with exactly the revision the queue has at its place. */
  lemma HandleMatches(l: Link)
    requires Possible(l, Handle) && Matching(l.queue, l.phase.acks) && OnWire(l.queue, l.phase.wire)
    ensures Matching(l.queue, l.phase.acks + Answer(l.phase.wire[0])) && OnWire(l.queue, l.phase.wire[1..])
  {
  }

  lemma HandleKeeps(config: Config, l: Link)
    requires Sound(config, l) && Possible(l, Handle)
    ensures Sound(config, Next(config, l, Handle))
  {
    var l' := Next(config, l, Handle);
    HandleMatches(l);
    if l.phase.wire[0].command.Apply? {
      AnsweredPipeline(l, l');
    } else {
      SilentFlows(l, l');
    }
  }

  lemma ReadKeeps(config: Config, l: Link)
    requires Sound(config, l) && Possible(l, ReadAck)
    ensures Sound(config, Next(config, l, ReadAck))
  {
    var l', acks := Next(config, l, ReadAck), l.phase.acks;
    var rest := AckPlaces(acks[1..]);
    assert AckPlaces(acks) == [acks[0].at] + rest;
    assert AckPlaces(l'.acked) == AckPlaces(l.acked) + [acks[0].at];
    Assoc([acks[0].at], rest, WirePlaces(l.phase.wire));
    Assoc(AckPlaces(l.acked), [acks[0].at], rest + WirePlaces(l.phase.wire));
    assert Pipeline(l') == Pipeline(l);
  }

  /** The steps that only connect. */
  lemma ConnectKeeps(config: Config, l: Link, e: Event)
    requires Sound(config, l) && Possible(l, e) && (e.Dial? || e.CheckPin? || e.Greet? || e.Accept?)
    ensures Sound(config, Next(config, l, e))
  {
    assert AckPlaces(l.acked) + ([] + []) == AckPlaces(l.acked);
    assert e.Accept? ==> Pipeline(Next(config, l, e)) == Pipeline(l);
  }

  lemma EnqueueKeeps(config: Config, l: Link, c: Command)
    requires Sound(config, l)
    ensures Sound(config, Next(config, l, Enqueue(c)))
  {
  }

  lemma StepKeeps(config: Config, l: Link, e: Event)
    requires Sound(config, l) && Possible(l, e)
    ensures Sound(config, Next(config, l, e))
  {
    match e
    case Enqueue(c) => EnqueueKeeps(config, l, c);
    case WriteNext => WriteKeeps(config, l);
    case WriteFails => FailKeeps(config, l);
    case Handle => HandleKeeps(config, l);
    case ReadAck => ReadKeeps(config, l);
    case Lose => LoseKeeps(config, l);
    case _ => ConnectKeeps(config, l, e);
  }

  lemma {:induction false} RunKeeps(config: Config, l: Link, events: seq<Event>)
    requires Sound(config, l) && PossibleRun(config, l, events)
    ensures Sound(config, After(config, l, events))
    decreases |events|
  {
    if events == [] {
    } else {
      StepKeeps(config, l, events[0]);
      RunKeeps(config, Next(config, l, events[0]), events[1..]);
    }
  }

  // --- What the link promises.

  /**
   Over all connections, commands are written in queue order without
   duplicates. Each command taken off the queue was either written or dropped,
   and no connection dropped more than one.
   */
  lemma InOrderWithoutDuplicates(config: Config, events: seq<Event>)
    requires PossibleRun(config, INITIAL, events)
    ensures var l := After(config, INITIAL, events);
            && Increasing(l.written) && Below(l.written, |l.queue|)
            && (forall k: nat :: k < l.taken <==> k in l.written || IsDropped(l.drops, k))
            && (forall i | 0 <= i < |l.drops| :: l.drops[i].at !in l.written)
            && (forall i, j | 0 <= i < j < |l.drops| :: l.drops[i].connection != l.drops[j].connection)
  {
    RunKeeps(config, INITIAL, events);
  }

  /**
   Every acknowledgement received carries the revision of a command that was
   written, in queue order, each command acknowledged at most once.
   */
  lemma AcknowledgedInOrder(config: Config, events: seq<Event>, i: nat)
    requires PossibleRun(config, INITIAL, events) && i < |After(config, INITIAL, events).acked|
    ensures var l := After(config, INITIAL, events);
            && l.acked[i].at in l.written && l.acked[i].at < |l.queue|
            && l.queue[l.acked[i].at] == Apply(l.acked[i].revision)
            && (forall j | 0 <= j < i :: l.acked[j].at < l.acked[i].at)
  {
    RunKeeps(config, INITIAL, events);
    var l := After(config, INITIAL, events);
    assert forall j | 0 <= j < |l.acked| :: Pipeline(l)[j] == l.acked[j].at;
  }

  /** No handshake goes to a peer whose certificate is not the pinned one, nor to a secure peer without one. */
  lemma NeverGreetsAStranger(config: Config, events: seq<Event>, i: nat)
    requires PossibleRun(config, INITIAL, events) && i < |After(config, INITIAL, events).greeted|
    ensures var f := After(config, INITIAL, events).greeted[i];
            && (f.Some? && config.pin.Some? ==> f == config.pin)
            && (f.None? ==> !config.secure)
  {
    RunKeeps(config, INITIAL, events);
  }

  /** Everybody else is let through: the pinned peer, any certificate without a pin, and plain peers when not secure. */
  lemma GreetsTheOthers(config: Config, l: Link, f: Option<string>)
    requires l.phase.Down?
    requires if f.None? then !config.secure else config.pin.None? || config.pin == f
    ensures var dialed := Next(config, l, Dial(f));
            Possible(dialed, CheckPin) &&
            var cleared := Next(config, dialed, CheckPin);
            Possible(cleared, Greet) &&
            var greeted := Next(config, cleared, Greet);
            greeted.greeted == l.greeted + [f] && Possible(greeted, Accept) && Next(config, greeted, Accept).phase.Up?
  {
  }

  // --- Nothing is left unanswered.

  /** The acknowledgements these commands of the queue ask for, the first of them at `from`. */
  function Asked(from: nat, commands: seq<Command>): seq<Ack> {
    if commands == [] then []
    else
      var n := |commands| - 1;
      Asked(from, commands[..n])
      + match commands[n]
        case Apply(revision) => [Ack(from + n, revision)]
        case Other => []
  }

  /** How many commands are off the wire again. */
  function Handled(l: Link): int
    requires l.phase.Up?
  {
    l.taken - |l.phase.wire|
  }

  /** The commands since `from` are answered, or still on the wire in their order. */
  predicate Answered(l: Link, before: seq<Ack>, from: nat) {
    && l.phase.Up? && from <= Handled(l) && l.taken <= |l.queue|
    && (forall j | 0 <= j < |l.phase.wire| :: l.phase.wire[j] == Sent(Handled(l) + j, l.queue[Handled(l) + j]))
    && l.acked + l.phase.acks == before + Asked(from, l.queue[from..Handled(l)])
  }

  lemma HandleAnswers(config: Config, l: Link, before: seq<Ack>, from: nat)
    requires Answered(l, before, from) && Possible(l, Handle)
    ensures Answered(Next(config, l, Handle), before, from)
  {
    var h := Handled(l);
    var handled := l.queue[from..h + 1];
    assert handled[..h - from] == l.queue[from..h] && handled[h - from] == l.queue[h];
    assert l.phase.wire[0] == Sent(h, l.queue[h]);
    Assoc(l.acked, l.phase.acks, Answer(l.phase.wire[0]));
    Assoc(before, Asked(from, l.queue[from..h]), Answer(l.phase.wire[0]));
  }

  lemma ReadAnswers(config: Config, l: Link, before: seq<Ack>, from: nat)
    requires Answered(l, before, from) && Possible(l, ReadAck)
    ensures Answered(Next(config, l, ReadAck), before, from)
  {
    assert l.acked + l.phase.acks == (l.acked + [l.phase.acks[0]]) + l.phase.acks[1..];
  }

  lemma EnqueueAnswers(config: Config, l: Link, c: Command, before: seq<Ack>, from: nat)
    requires Answered(l, before, from)
    ensures Answered(Next(config, l, Enqueue(c)), before, from)
  {
    assert (l.queue + [c])[from..Handled(l)] == l.queue[from..Handled(l)];
  }

  lemma StepAnswers(config: Config, l: Link, e: Event, before: seq<Ack>, from: nat)
    requires Answered(l, before, from) && Possible(l, e) && !e.WriteFails? && !e.Lose?
    ensures Answered(Next(config, l, e), before, from)
  {
    match e
    case Handle => HandleAnswers(config, l, before, from);
    case ReadAck => ReadAnswers(config, l, before, from);
    case Enqueue(c) => EnqueueAnswers(config, l, c, before, from);
    case WriteNext =>
  }

  /** The connection stays up. */
  predicate StaysUp(events: seq<Event>) {
    forall i | 0 <= i < |events| :: !events[i].WriteFails? && !events[i].Lose?
  }

  lemma {:induction false} AnsweredAlong(config: Config, l: Link, events: seq<Event>, before: seq<Ack>, from: nat)
    requires PossibleRun(config, l, events) && StaysUp(events) && Answered(l, before, from)
    ensures Answered(After(config, l, events), before, from)
    decreases |events|
  {
    if events == [] {
    } else {
      StepAnswers(config, l, events[0], before, from);
      AnsweredAlong(config, Next(config, l, events[0]), events[1..], before, from);
    }
  }

  /**
   While a connection stays up, what was acknowledged on it and what is
   under way is exactly what its commands ask for: once its wire is empty and
   its acknowledgements are read, each of its commands was answered, in order.
   */
  lemma EveryCommandAnswered(config: Config, events: seq<Event>, more: seq<Event>)
    requires PossibleRun(config, INITIAL, events) && Possible(After(config, INITIAL, events), Accept)
    requires StaysUp(more) && PossibleRun(config, Next(config, After(config, INITIAL, events), Accept), more)
    ensures var l := Next(config, After(config, INITIAL, events), Accept);
            var l' := After(config, l, more);
            && l'.phase.Up?
            && (l'.phase.wire == [] && l'.phase.acks == [] ==>
                  && l.taken <= l'.taken <= |l'.queue|
                  && l'.acked == l.acked + Asked(l.taken, l'.queue[l.taken..l'.taken]))
  {
    RunKeeps(config, INITIAL, events);
    var l := Next(config, After(config, INITIAL, events), Accept);
    assert l.queue[l.taken..l.taken] == [];
    AnsweredAlong(config, l, more, l.acked, l.taken);
  }
}
