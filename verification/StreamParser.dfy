/**
 Reading a streamed completion: server-sent event lines arrive in chunks cut
 anywhere, each chunk is decoded by itself and only whole lines are parsed. What one event's JSON says is a
 parameter: the text it adds to the answer, empty for anything else.
 */
module StreamParser {
  import opened Numbers
  import opened Text
  import opened Utf8

  const DATA: string := "data:"
  const DONE: string := "[DONE]"

  datatype Meaning = Skip | Done | Delta(text: string)

  /** What one line means. */
  function LineMeaning(delta: string -> string, line: string): Meaning {
    var trimmed := Trim(line);
    if !(DATA <= trimmed) then Skip
    else
      var data := Trim(trimmed[|DATA|..]);
      if data == DONE then Done
      else if delta(data) == "" then Skip
      else Delta(delta(data))
  }

  function Reader(delta: string -> string): string -> Meaning {
    line => LineMeaning(delta, line)
  }

  /** The deltas of all whole lines, whether `[DONE]` was met, and what is left unparsed. */
  datatype Parsed = Parsed(deltas: seq<string>, done: bool, rest: string)

  /** A line in front of a parse, with `after` the text behind the line. */
  function Add(m: Meaning, after: string, p: Parsed): Parsed {
    match m
    case Done => Parsed([], true, after)
    case Skip => p
    case Delta(d) => p.(deltas := [d] + p.deltas)
  }

  /** The reference: the whole text, line by line, up to `[DONE]`. */
  function Parse(read: string -> Meaning, text: string): Parsed
    decreases |text|
  {
    var n := FirstIn(text, {'\n'});
    if n == |text| then Parsed([], false, text)
    else Add(read(text[..n]), text[n + 1..], Parse(read, text[n + 1..]))
  }

  function Concat(parts: seq<string>): string {
    if parts == [] then "" else Concat(parts[..|parts| - 1]) + parts[|parts| - 1]
  }

  lemma ConcatSnoc(parts: seq<string>, s: string)
    ensures Concat(parts + [s]) == Concat(parts) + s
  {
    assert (parts + [s])[..|parts|] == parts;
  }

  // --- Cutting a text in two does not change its parse.

  lemma FirstLineStays(a: string, b: string)
    requires FirstIn(a, {'\n'}) < |a|
    ensures FirstIn(a + b, {'\n'}) == FirstIn(a, {'\n'})
  {
    var n := FirstIn(a, {'\n'});
    assert forall i | 0 <= i <= n :: (a + b)[i] == a[i];
    FirstInIs(a + b, {'\n'}, n);
  }

  /** `q` is what `p` becomes with more text: nothing new after `[DONE]`, else `r` of what was left. */
  predicate Continues(p: Parsed, q: Parsed, r: Parsed) {
    if p.done then q.deltas == p.deltas && q.done else q == r.(deltas := p.deltas + r.deltas)
  }

  lemma AddContinues(m: Meaning, after: string, more: string, p: Parsed, q: Parsed, r: Parsed)
    requires Continues(p, q, r)
    ensures Continues(Add(m, after, p), Add(m, more, q), r)
  {
    if m.Delta? && !p.done {
      Assoc([m.text], p.deltas, r.deltas);
    }
  }

  lemma ContinuesWith(p: Parsed, q: Parsed, r: Parsed, r': Parsed)
    requires Continues(p, q, r) && (p.done || r == r')
    ensures Continues(p, q, r')
  {
  }

  lemma FirstLine(read: string -> Meaning, text: string, n: nat)
    requires FirstIn(text, {'\n'}) == n < |text|
    ensures Parse(read, text) == Add(read(text[..n]), text[n + 1..], Parse(read, text[n + 1..]))
  {
  }

  lemma AddRest(m: Meaning, after: string, p: Parsed)
    ensures Add(m, after, p).done || Add(m, after, p).rest == p.rest
  {
  }

  lemma FirstLineOfBoth(read: string -> Meaning, a: string, b: string, n: nat)
    requires FirstIn(a, {'\n'}) == n < |a|
    ensures Parse(read, a + b) == Add(read(a[..n]), a[n + 1..] + b, Parse(read, a[n + 1..] + b))
  {
    FirstLineStays(a, b);
    WithinFirst(a, b, n);
    WithinFirst(a, b, n + 1);
    FirstLine(read, a + b, n);
  }

  /** Once `[DONE]` was met, more text adds nothing; before, parsing goes on with what was left. */
  lemma {:induction false} ParseInTwo(read: string -> Meaning, a: string, b: string)
    ensures Continues(Parse(read, a), Parse(read, a + b), Parse(read, Parse(read, a).rest + b))
    decreases |a|
  {
    var n := FirstIn(a, {'\n'});
    if n == |a| {
      var r := Parse(read, a + b);
      assert [] + r.deltas == r.deltas;
    } else {
      var m, after := read(a[..n]), a[n + 1..];
      var p, q := Parse(read, after), Parse(read, after + b);
      FirstLine(read, a, n);
      FirstLineOfBoth(read, a, b, n);
      ParseInTwo(read, after, b);
      AddContinues(m, after, after + b, p, q, Parse(read, p.rest + b));
      AddRest(m, after, p);
      ContinuesWith(Parse(read, a), Parse(read, a + b), Parse(read, p.rest + b), Parse(read, Parse(read, a).rest + b));
    }
  }

  // --- The loop of `stream`.

  /** What the connection delivers next; when the sequence ends, the stream did. */
  datatype Arrival = Chunk(bytes: seq<Byte>) | Broken | Idle

  datatype Outcome = Answer(text: string) | TransportError | Timeout

  /** The chunks that arrive before the stream ends, breaks or falls silent. */
  function Received(arrivals: seq<Arrival>): seq<seq<Byte>> {
    if arrivals == [] || !arrivals[0].Chunk? then [] else [arrivals[0].bytes] + Received(arrivals[1..])
  }

  /** Their text, each decoded by itself. */
  function Arrived(arrivals: seq<Arrival>): string {
    if arrivals == [] || !arrivals[0].Chunk? then "" else Decode(arrivals[0].bytes) + Arrived(arrivals[1..])
  }

  function Cut(arrivals: seq<Arrival>): Option<Arrival> {
    if arrivals == [] then None
    else if arrivals[0].Chunk? then Cut(arrivals[1..])
    else Some(arrivals[0])
  }

  lemma {:induction false} CutIsNoChunk(arrivals: seq<Arrival>)
    ensures Cut(arrivals).Some? ==> !Cut(arrivals).value.Chunk?
    decreases |arrivals|
  {
    if arrivals == [] || !arrivals[0].Chunk? {
    } else {
      CutIsNoChunk(arrivals[1..]);
    }
  }

  /** How the request ends, from the parse of what arrived and what came then. */
  function Ending(p: Parsed, cut: Option<Arrival>): Outcome {
    var answer := Concat(p.deltas);
    if p.done || cut.None? then Answer(answer)
    else if cut.value.Broken? then TransportError
    else if answer == "" then Timeout
    else Answer(answer)
  }

  /** Takes the whole lines out of the buffer. */
  method Drain(read: string -> Meaning, buffer0: string, answer0: string, deltas0: seq<string>)
    returns (buffer: string, answer: string, deltas: seq<string>, done: bool)
    requires answer0 == Concat(deltas0)
    ensures var p := Parse(read, buffer0);
            deltas == deltas0 + p.deltas && done == p.done && (!done ==> buffer == p.rest)
    ensures answer == Concat(deltas)
  {
    buffer, answer, deltas, done := buffer0, answer0, deltas0, false;
    ghost var goal := Parse(read, buffer0);
    while true
      invariant deltas + Parse(read, buffer).deltas == deltas0 + goal.deltas
      invariant Parse(read, buffer).done == goal.done && Parse(read, buffer).rest == goal.rest
      invariant answer == Concat(deltas) && !done
      decreases |buffer|
    {
      var n := FirstIn(buffer, {'\n'});
      if n == |buffer| {
        assert deltas + [] == deltas;
        break;
      }
      var meaning := read(buffer[..n]);
      ghost var after := Parse(read, buffer[n + 1..]);
      buffer := buffer[n + 1..];
      if meaning.Done? {
        assert deltas + [] == deltas;
        done := true;
        break;
      }
      if meaning.Delta? {
        Assoc(deltas, [meaning.text], after.deltas);
        ConcatSnoc(deltas, meaning.text);
        answer := answer + meaning.text;
        deltas := deltas + [meaning.text];
      }
    }
  }

  lemma NextArrival(arrivals: seq<Arrival>, i: nat)
    requires i < |arrivals|
    ensures if arrivals[i].Chunk? then
              && Arrived(arrivals[i..]) == Decode(arrivals[i].bytes) + Arrived(arrivals[i + 1..])
              && Cut(arrivals[i..]) == Cut(arrivals[i + 1..])
            else Arrived(arrivals[i..]) == "" && Cut(arrivals[i..]) == Some(arrivals[i])
  {
    assert arrivals[i..][1..] == arrivals[i + 1..];
  }

  /** One more chunk: the buffer and the chunk are parsed instead of everything. */
  lemma NextChunk(read: string -> Meaning, text: string, piece: string, deltas: seq<string>, buffer: string)
    requires Parse(read, text) == Parsed(deltas, false, buffer)
    ensures var r, q := Parse(read, buffer + piece), Parse(read, text + piece);
            q == Parsed(deltas + r.deltas, r.done, r.rest)
  {
    ParseInTwo(read, text, piece);
  }

  lemma NothingAfterDone(read: string -> Meaning, text: string, more: string)
    requires Parse(read, text).done
    ensures Parse(read, text + more).done && Parse(read, text + more).deltas == Parse(read, text).deltas
  {
    ParseInTwo(read, text, more);
  }

  // --- What a stream says, read off its text.

  /** A line of the stream: an event, or anything that does not begin with `data:`. */
  datatype Item =
    | Event(indent: string, gap: string, payload: string, trail: string)
    | Noise(indent: string, rest: string)

  predicate Blank(s: string) {
    AllWhite(s) && '\n' !in s
  }

  /** No line break, and no white space at its ends. */
  predicate Payload(p: string) {
    '\n' !in p && (p == "" || (p[0] !in WHITE_SPACE && p[|p| - 1] !in WHITE_SPACE))
  }

  predicate GoodItem(item: Item) {
    match item
    case Event(indent, gap, p, trail) => Blank(indent) && Blank(gap) && Blank(trail) && Payload(p) && p != "[DONE]"
    case Noise(indent, rest) =>
      && Blank(indent) && '\n' !in rest && (rest == "" || rest[0] !in WHITE_SPACE) && !("data:" <= rest)
  }

  function EventText(indent: string, gap: string, payload: string, trail: string): string {
    indent + ("data:" + (gap + (payload + trail)))
  }

  function ItemText(item: Item): string {
    match item
    case Event(indent, gap, p, trail) => EventText(indent, gap, p, trail)
    case Noise(indent, rest) => indent + rest
  }

  /** The lines of the items, and what is behind them. */
  function Lines(items: seq<Item>, rest: string): string {
    if items == [] then rest else ItemText(items[0]) + ("\n" + Lines(items[1..], rest))
  }

  /** The items, the event that ends the stream, and anything behind it. */
  function Script(items: seq<Item>, tail: string): string {
    Lines(items, "data: [DONE]" + ("\n" + tail))
  }

  /** What the events say, without the empty parts. */
  function Said(delta: string -> string, items: seq<Item>): seq<string> {
    if items == [] then []
    else if items[0].Event? && delta(items[0].payload) != "" then
      [delta(items[0].payload)] + Said(delta, items[1..])
    else Said(delta, items[1..])
  }

  lemma EmptyPadded(d: string, indent: string, gap: string, trail: string)
    requires AllWhite(indent) && AllWhite(gap) && AllWhite(trail)
    requires d != "" && d[0] !in WHITE_SPACE && d[|d| - 1] !in WHITE_SPACE
    ensures Trim(indent + (d + (gap + ("" + trail)))) == d
  {
    assert gap + ("" + trail) == gap + trail;
    TrimPadded(indent, d, gap + trail);
  }

  lemma PayloadPadded(d: string, indent: string, gap: string, p: string, trail: string)
    requires AllWhite(indent) && AllWhite(trail) && d != "" && d[0] !in WHITE_SPACE
    requires p != "" && p[|p| - 1] !in WHITE_SPACE
    ensures Trim(indent + (d + (gap + (p + trail)))) == d + (gap + p)
  {
    var x := d + (gap + p);
    Assoc(gap, p, trail);
    Assoc(d, gap + p, trail);
    assert x[0] == d[0] && x[|x| - 1] == p[|p| - 1];
    TrimPadded(indent, x, trail);
  }

  lemma EventHasNoBreak(indent: string, gap: string, p: string, trail: string)
    requires '\n' !in indent && '\n' !in gap && '\n' !in p && '\n' !in trail
    ensures '\n' !in EventText(indent, gap, p, trail)
  {
    assert '\n' !in "data:";
  }

  lemma BehindData(d: string, gap: string, p: string)
    requires AllWhite(gap) && (p == "" || (p[0] !in WHITE_SPACE && p[|p| - 1] !in WHITE_SPACE))
    ensures Trim((if p == "" then d else d + (gap + p))[|d|..]) == p
  {
    if p == "" {
      assert d[|d|..] == "";
      TrimWhite("");
    } else {
      assert (d + (gap + p))[|d|..] == gap + p && p + "" == p;
      TrimPadded(gap, p, "");
    }
  }

  lemma EventTrimmed(indent: string, gap: string, p: string, trail: string)
    requires Blank(indent) && Blank(gap) && Blank(trail) && Payload(p)
    ensures var line := EventText(indent, gap, p, trail);
            '\n' !in line && DATA <= Trim(line) && Trim(Trim(line)[|DATA|..]) == p
  {
    EventHasNoBreak(indent, gap, p, trail);
    if p == "" {
      EmptyPadded(DATA, indent, gap, trail);
    } else {
      PayloadPadded(DATA, indent, gap, p, trail);
    }
    BehindData(DATA, gap, p);
  }

  lemma NoiseTrimmed(indent: string, rest: string)
    requires GoodItem(Noise(indent, rest))
    ensures '\n' !in indent + rest && !(DATA <= Trim(indent + rest))
  {
    TrimStartPadded(indent, rest);
    assert TrimEnd(rest) <= rest;
  }

  lemma ItemMeans(delta: string -> string, item: Item)
    requires GoodItem(item)
    ensures '\n' !in ItemText(item)
    ensures Reader(delta)(ItemText(item)) ==
            if item.Event? && delta(item.payload) != "" then Delta(delta(item.payload)) else Skip
  {
    match item
    case Event(indent, gap, p, trail) => EventTrimmed(indent, gap, p, trail);
    case Noise(indent, rest) => NoiseTrimmed(indent, rest);
  }

  lemma DoneMeans(delta: string -> string)
    ensures '\n' !in "data: [DONE]" && Reader(delta)("data: [DONE]") == Done
  {
    assert "data: [DONE]" == EventText("", " ", "[DONE]", "");
    EventTrimmed("", " ", "[DONE]", "");
  }

  lemma LineAhead(read: string -> Meaning, line: string, rest: string)
    requires '\n' !in line
    ensures Parse(read, line + ("\n" + rest)) == Add(read(line), rest, Parse(read, rest))
  {
    var text, n := line + ("\n" + rest), |line|;
    assert text[n] == '\n' && forall i | 0 <= i < n :: text[i] == line[i];
    FirstInIs(text, {'\n'}, n);
    assert text[..n] == line && text[n + 1..] == rest;
    FirstLine(read, text, n);
  }

  lemma {:induction false} LinesParsed(delta: string -> string, items: seq<Item>, rest: string)
    requires forall i | 0 <= i < |items| :: GoodItem(items[i])
    ensures var p, q := Parse(Reader(delta), Lines(items, rest)), Parse(Reader(delta), rest);
            p == q.(deltas := Said(delta, items) + q.deltas)
    decreases |items|
  {
    var q := Parse(Reader(delta), rest);
    if items == [] {
      assert [] + q.deltas == q.deltas;
    } else {
      LinesParsed(delta, items[1..], rest);
      ItemMeans(delta, items[0]);
      LineAhead(Reader(delta), ItemText(items[0]), Lines(items[1..], rest));
      if items[0].Event? && delta(items[0].payload) != "" {
        Assoc([delta(items[0].payload)], Said(delta, items[1..]), q.deltas);
      }
    }
  }

  lemma ScriptParsed(delta: string -> string, items: seq<Item>, tail: string)
    requires forall i | 0 <= i < |items| :: GoodItem(items[i])
    ensures Parse(Reader(delta), Script(items, tail)) == Parsed(Said(delta, items), true, tail)
  {
    DoneMeans(delta);
    LineAhead(Reader(delta), "data: [DONE]", tail);
    LinesParsed(delta, items, "data: [DONE]" + ("\n" + tail));
    assert Said(delta, items) + [] == Said(delta, items);
  }

  lemma PartialParsed(delta: string -> string, items: seq<Item>, rest: string)
    requires (forall i | 0 <= i < |items| :: GoodItem(items[i])) && '\n' !in rest
    ensures Parse(Reader(delta), Lines(items, rest)) == Parsed(Said(delta, items), false, rest)
  {
    LinesParsed(delta, items, rest);
    assert Said(delta, items) + [] == Said(delta, items);
  }

  /** For every way to read a text as items, what its parse is. */
  lemma TextParsed(delta: string -> string, text: string)
    ensures forall items: seq<Item>, tail: string
              | (forall i | 0 <= i < |items| :: GoodItem(items[i])) && text == Script(items, tail) ::
              Parse(Reader(delta), text) == Parsed(Said(delta, items), true, tail)
    ensures forall items: seq<Item>, rest: string
              | (forall i | 0 <= i < |items| :: GoodItem(items[i])) && '\n' !in rest && text == Lines(items, rest) ::
              Parse(Reader(delta), text) == Parsed(Said(delta, items), false, rest)
  {
    forall items: seq<Item>, tail: string
      | (forall i | 0 <= i < |items| :: GoodItem(items[i])) && text == Script(items, tail)
      ensures Parse(Reader(delta), text) == Parsed(Said(delta, items), true, tail)
    {
      ScriptParsed(delta, items, tail);
    }
    forall items: seq<Item>, rest: string
      | (forall i | 0 <= i < |items| :: GoodItem(items[i])) && '\n' !in rest && text == Lines(items, rest)
      ensures Parse(Reader(delta), text) == Parsed(Said(delta, items), false, rest)
    {
      PartialParsed(delta, items, rest);
    }
  }

  /** How an answer ends that was not ended by the provider. */
  predicate Unfinished(outcome: Outcome, cut: Option<Arrival>, said: seq<string>) {
    match cut
    case None => outcome == Answer(Concat(said))
    case Some(Broken) => outcome == TransportError
    case Some(Idle) => outcome == if Concat(said) == "" then Timeout else Answer(Concat(said))
    case Some(Chunk(_)) => false
  }

  /**
   `stream`: wherever the chunks are cut, it hands out the deltas of their text
   parsed as a whole, and answers with the concatenation of the deltas.
   */
  method Stream(delta: string -> string, arrivals: seq<Arrival>) returns (outcome: Outcome, deltas: seq<string>)
    ensures var p := Parse(Reader(delta), Arrived(arrivals));
            deltas == p.deltas && outcome == Ending(p, Cut(arrivals))
    ensures forall items: seq<Item>, tail: string
              | (forall i | 0 <= i < |items| :: GoodItem(items[i])) && Arrived(arrivals) == Script(items, tail) ::
              deltas == Said(delta, items) && outcome == Answer(Concat(Said(delta, items)))
    ensures forall items: seq<Item>, rest: string
              | (forall i | 0 <= i < |items| :: GoodItem(items[i])) && '\n' !in rest
                && Arrived(arrivals) == Lines(items, rest) ::
              deltas == Said(delta, items) && Unfinished(outcome, Cut(arrivals), Said(delta, items))
  {
    TextParsed(delta, Arrived(arrivals));
    CutIsNoChunk(arrivals);
    var read := Reader(delta);
    var answer, buffer := "", "";
    deltas := [];
    ghost var text := "";
    ghost var all := Arrived(arrivals);
    assert arrivals[0..] == arrivals && text + all == all;
    for i := 0 to |arrivals|
      invariant text + Arrived(arrivals[i..]) == all && Cut(arrivals[i..]) == Cut(arrivals)
      invariant Parse(read, text) == Parsed(deltas, false, buffer)
      invariant answer == Concat(deltas)
    {
      NextArrival(arrivals, i);
      if !arrivals[i].Chunk? {
        assert text + "" == text;
        outcome := if arrivals[i].Broken? then TransportError else if answer == "" then Timeout else Answer(answer);
        return;
      }
      var piece := Decode(arrivals[i].bytes);
      NextChunk(read, text, piece, deltas, buffer);
      Assoc(text, piece, Arrived(arrivals[i + 1..]));
      var done;
      buffer, answer, deltas, done := Drain(read, buffer + piece, answer, deltas);
      text := text + piece;
      if done {
        NothingAfterDone(read, text, Arrived(arrivals[i + 1..]));
        return Answer(answer), deltas;
      }
    }
    assert arrivals[|arrivals|..] == [] && text + "" == text;
    return Answer(answer), deltas;
  }

  lemma {:induction false} ArrivedApart(arrivals: seq<Arrival>)
    ensures Arrived(arrivals) == DecodedApart(Received(arrivals))
    decreases |arrivals|
  {
    if arrivals == [] || !arrivals[0].Chunk? {
    } else {
      ArrivedApart(arrivals[1..]);
      assert Received(arrivals)[1..] == Received(arrivals[1..]);
    }
  }

  /** What is parsed is the text of all the bytes exactly when no chunk ends inside a character. */
  lemma CuttingShowsExactly(arrivals: seq<Arrival>)
    ensures Arrived(arrivals) == Decode(Joined(Received(arrivals))) <==> CutBetween(Received(arrivals))
  {
    ArrivedApart(arrivals);
    ApartIsWhole(Received(arrivals));
  }

  /** Two cuttings of the same bytes between characters end alike. */
  lemma CuttingDoesNotMatter(delta: string -> string, one: seq<Arrival>, other: seq<Arrival>)
    requires Joined(Received(one)) == Joined(Received(other)) && Cut(one) == Cut(other)
    requires CutBetween(Received(one)) && CutBetween(Received(other))
    ensures Parse(Reader(delta), Arrived(one)) == Parse(Reader(delta), Arrived(other))
    ensures Ending(Parse(Reader(delta), Arrived(one)), Cut(one)) ==
            Ending(Parse(Reader(delta), Arrived(other)), Cut(other))
  {
    CuttingShowsExactly(one);
    CuttingShowsExactly(other);
  }
}
