/** The first pass: PEM blocks, replaced whole. */
module Pem {
  import opened Text
  import opened Redaction

  const BEGIN: string := "-----BEGIN"
  const END: string := "-----END"
  const DASHES: string := "-----"

  /**
   Where the block that begins at `start` ends: past the dashes that close
   its END marker, or at the end of the text when either is missing.
   */
  function BlockEnd(text: string, start: nat): (cut: nat)
    requires start + 10 <= |text|
    ensures start + 10 <= cut <= |text|
  {
    var after := text[start + |BEGIN|..];
    match Find(after, END)
    case None => |text|
    case Some(end) =>
      var tail := after[end + |END|..];
      match Find(tail, DASHES)
      case None => |text|
      case Some(d) => |text| - |tail| + d + |DASHES|
  }

  /** The whole pass. */
  function Redact(text: string): string
    decreases |text|
  {
    match Find(text, BEGIN)
    case None => text
    case Some(start) => (text[..start] + REDACTED) + Redact(text[BlockEnd(text, start)..])
  }

  lemma NoMarkerNoChange(text: string)
    requires !Contains(text, BEGIN)
    ensures Redact(text) == text
  {
    FindMeans(text, BEGIN);
  }

  lemma OneBlock(text: string, start: nat)
    requires Find(text, BEGIN) == Some(start)
    ensures Redact(text) == (text[..start] + REDACTED) + Redact(text[BlockEnd(text, start)..])
  {
  }

  lemma StepInto(goal: string, out: string, rest: string, start: nat)
    requires Find(rest, BEGIN) == Some(start)
    requires out + Redact(rest) == goal
    ensures (out + (rest[..start] + REDACTED)) + Redact(rest[BlockEnd(rest, start)..]) == goal
  {
    OneBlock(rest, start);
    Assoc(out, rest[..start] + REDACTED, Redact(rest[BlockEnd(rest, start)..]));
  }

  lemma NothingLeft(rest: string, cut: nat)
    requires cut == |rest|
    ensures Redact(rest[cut..]) == ""
  {
    assert rest[cut..] == "";
    assert Find("", BEGIN).None?;
  }

  /** The text behind the block at `start`; `last` when the block has no END marker. */
  method SkipBlock(rest: string, start: nat) returns (rest': string, last: bool)
    requires start + 10 <= |rest|
    ensures rest' == rest[BlockEnd(rest, start)..]
    ensures last ==> BlockEnd(rest, start) == |rest|
  {
    var after := rest[start + |BEGIN|..];
    var end := Find(after, END);
    last := end.None?;
    if last {
      return "", true;
    }
    var tail := after[end.value + |END|..];
    var dashes := Find(tail, DASHES);
    rest' := if dashes.Some? then tail[dashes.value + |DASHES|..] else "";
  }

  /** The `redact_pem_blocks` loop computes `Redact`. */
  method RedactPemBlocks(text: string) returns (out: string)
    ensures out == Redact(text)
  {
    out := "";
    var rest := text;
    ghost var goal := Redact(text);
    var found := Find(rest, BEGIN);
    while found.Some?
      invariant found == Find(rest, BEGIN)
      invariant out + Redact(rest) == goal
      decreases |rest|
    {
      StepInto(goal, out, rest, found.value);
      out := out + (rest[..found.value] + REDACTED);
      ghost var whole := rest;
      var last;
      rest, last := SkipBlock(rest, found.value);
      if last {
        NothingLeft(whole, |whole|);
        return;
      }
      found := Find(rest, BEGIN);
    }
    out := out + rest;
  }

  // --- The pass as pieces: every character kept or masked, in order.

  function Blocks(text: string): (ps: seq<Piece>)
    decreases |text|
  {
    match Find(text, BEGIN)
    case None => [Kept(text)]
    case Some(start) =>
      var cut := BlockEnd(text, start);
      ([Kept(text[..start])] + [Masked(text[start..cut])]) + Blocks(text[cut..])
  }

  lemma TwoPieces(a: string, b: string)
    ensures Render([Kept(a)] + [Masked(b)]) == a + REDACTED
    ensures Original([Kept(a)] + [Masked(b)]) == a + b
  {
    RenderOne(Masked(b));
    RenderCons(Kept(a), [Masked(b)]);
  }

  lemma ThreeParts(text: string, i: nat, j: nat)
    requires i <= j <= |text|
    ensures (text[..i] + text[i..j]) + text[j..] == text
  {
  }

  lemma BlockInFront(a: string, b: string, rest: seq<Piece>)
    ensures Render(([Kept(a)] + [Masked(b)]) + rest) == (a + REDACTED) + Render(rest)
    ensures Original(([Kept(a)] + [Masked(b)]) + rest) == (a + b) + Original(rest)
  {
    var block := [Kept(a)] + [Masked(b)];
    TwoPieces(a, b);
    RenderAppend(block, rest);
    OriginalAppend(block, rest);
  }

  /** The pieces render to the output and are cut from the input. */
  lemma {:induction false} BlocksAreThePass(text: string)
    ensures Render(Blocks(text)) == Redact(text)
    ensures Original(Blocks(text)) == text
    decreases |text|
  {
    var found := Find(text, BEGIN);
    if found.None? {
      RenderOne(Kept(text));
    } else {
      var start := found.value;
      var cut := BlockEnd(text, start);
      ThreeParts(text, start, cut);
      OneBlock(text, start);
      BlocksAreThePass(text[cut..]);
      BlockInFront(text[..start], text[start..cut], Blocks(text[cut..]));
    }
  }

  /** No occurrence of the marker reaches into the `***` put in for a block. */
  lemma MarkerMissesTheMask(kept: string, rest: string, i: nat)
    requires i < |kept| + 3 && |kept| < i + |BEGIN|
    ensures !At(kept + (REDACTED + rest), i, BEGIN)
  {
    var k := if i < |kept| then |kept| - i else 0;
    assert '*' !in BEGIN;
    assert (kept + (REDACTED + rest))[i + k] == '*';
    NotAt(kept + (REDACTED + rest), i, BEGIN, k);
  }

  lemma JoinHasNoMarker(kept: string, red: string)
    requires !Contains(kept, BEGIN) && !Contains(red, BEGIN)
    ensures !Contains(kept + (REDACTED + red), BEGIN)
  {
    var s := kept + (REDACTED + red);
    forall i | 0 <= i <= |s|
      ensures !At(s, i, BEGIN)
    {
      if i + |BEGIN| <= |kept| {
        AtPrefix(kept, REDACTED + red, i, BEGIN);
      } else if i < |kept| + 3 {
        MarkerMissesTheMask(kept, red, i);
      } else {
        Assoc(kept, REDACTED, red);
        AtSuffix(kept + REDACTED, red, i, BEGIN);
      }
    }
  }

  lemma PrefixHasNoMarker(text: string, start: nat)
    requires Find(text, BEGIN) == Some(start)
    ensures !Contains(text[..start], BEGIN)
  {
    FindMeans(text, BEGIN);
    assert text[..start] + text[start..] == text;
    forall i | 0 <= i <= start
      ensures !At(text[..start], i, BEGIN)
    {
      if i + |BEGIN| <= start {
        AtPrefix(text[..start], text[start..], i, BEGIN);
      }
    }
  }

  /** What is left carries no BEGIN marker. */
  lemma {:induction false} NoMarkerSurvives(text: string)
    ensures !Contains(Redact(text), "-----BEGIN")
    decreases |text|
  {
    var found := Find(text, BEGIN);
    if found.None? {
      FindMeans(text, BEGIN);
    } else {
      var rest := text[BlockEnd(text, found.value)..];
      OneBlock(text, found.value);
      PrefixHasNoMarker(text, found.value);
      NoMarkerSurvives(rest);
      JoinHasNoMarker(text[..found.value], Redact(rest));
      Assoc(text[..found.value], REDACTED, Redact(rest));
    }
  }

  /** The pass changes a text exactly when it holds a BEGIN marker. */
  lemma ChangesExactlyMarkedTexts(text: string)
    ensures Redact(text) == text <==> !Contains(text, "-----BEGIN")
  {
    NoMarkerSurvives(text);
    if !Contains(text, BEGIN) {
      NoMarkerNoChange(text);
    }
  }

  lemma Idempotent(text: string)
    ensures Redact(Redact(text)) == Redact(text)
  {
    NoMarkerSurvives(text);
    NoMarkerNoChange(Redact(text));
  }

  /** Neither armour marker overlaps itself, so its first occurrence is where it was put. */
  lemma FirstMarker(a: string, m: string, b: string)
    requires m == BEGIN || m == END
    requires !Contains(a, m)
    ensures Find(a + (m + b), m) == Some(|a|)
  {
    var s := a + (m + b);
    AtSuffix(a, m + b, |a|, m);
    assert (m + b)[0..|m|] == m;
    forall j | 0 <= j < |a|
      ensures !At(s, j, m)
    {
      if j + |m| <= |a| {
        AtPrefix(a, m + b, j, m);
      } else {
        var last := |m| - 1;
        assert s[j + last] == m[j + last - |a|] != m[last];
        NotAt(s, j, m, last);
      }
    }
    FindIs(s, m, |a|);
  }

  /** The dashes that end a block are the first behind its END marker. */
  predicate BlockKind(kind: string) {
    !Contains(kind, DASHES) && (kind != "" ==> kind[|kind| - 1] != '-')
  }

  lemma FirstDashes(kind: string, post: string)
    requires BlockKind(kind)
    ensures Find(kind + (DASHES + post), DASHES) == Some(|kind|)
  {
    var s := kind + (DASHES + post);
    AtSuffix(kind, DASHES + post, |kind|, DASHES);
    assert (DASHES + post)[0..5] == DASHES;
    forall j | 0 <= j < |kind|
      ensures !At(s, j, DASHES)
    {
      if j + 5 <= |kind| {
        AtPrefix(kind, DASHES + post, j, DASHES);
      } else {
        assert s[|kind| - 1] == kind[|kind| - 1];
        NotAt(s, j, DASHES, |kind| - 1 - j);
      }
    }
    FindIs(s, DASHES, |kind|);
  }

  lemma BlockEndIs(text: string, start: nat, body: string, kind: string, post: string)
    requires start + 10 <= |text| && text[start + |BEGIN|..] == body + (END + (kind + (DASHES + post)))
    requires !Contains(body, END) && BlockKind(kind)
    ensures BlockEnd(text, start) == |text| - |post|
  {
    var tail := kind + (DASHES + post);
    FirstMarker(body, END, tail);
    FirstDashes(kind, post);
    assert text[start + |BEGIN|..][|body| + |END|..] == tail;
  }

  predicate EndsWith(s: string, post: string) {
    |post| <= |s| && s[|s| - |post|..] == post
  }

  lemma MoreInFront(a: string, b: string, post: string)
    requires EndsWith(b, post)
    ensures EndsWith(a + b, post)
  {
  }

  lemma ThreeInFront(a: string, b: string, c: string, s: string, post: string)
    requires EndsWith(s, post)
    ensures EndsWith(a + (b + (c + s)), post)
  {
    MoreInFront(c, s, post);
    MoreInFront(b, c + s, post);
    MoreInFront(a, b + (c + s), post);
  }

  lemma BehindTheBlock(pre: string, body: string, kind: string, post: string)
    ensures EndsWith(pre + (BEGIN + (body + (END + (kind + (DASHES + post))))), post)
  {
    ThreeInFront(END, kind, DASHES, post, post);
    ThreeInFront(pre, BEGIN, body, END + (kind + (DASHES + post)), post);
  }

  lemma OneBlockTo(text: string, start: nat, pre: string, post: string)
    requires Find(text, BEGIN) == Some(start) && text[..start] == pre
    requires start + 10 <= |text| && text[BlockEnd(text, start)..] == post
    ensures Redact(text) == (pre + REDACTED) + Redact(post)
  {
    OneBlock(text, start);
  }

  lemma BlockGoes(pre: string, body: string, kind: string, post: string)
    requires !Contains(pre, BEGIN) && !Contains(body, END) && BlockKind(kind)
    ensures Redact(pre + (BEGIN + (body + (END + (kind + (DASHES + post)))))) == (pre + REDACTED) + Redact(post)
  {
    var after := body + (END + (kind + (DASHES + post)));
    var text := pre + (BEGIN + after);
    FirstMarker(pre, BEGIN, after);
    assert text[|pre| + |BEGIN|..] == after;
    BlockEndIs(text, |pre|, body, kind, post);
    BehindTheBlock(pre, body, kind, post);
    assert text[..|pre|] == pre;
    OneBlockTo(text, |pre|, pre, post);
  }

  /**
   A whole block goes, whatever is in it: the output is the text before it,
   `***`, and the treatment of the text after it.
   */
  lemma BlockReplacedWhole(pre: string, body: string, kind: string, post: string)
    requires !Contains(pre, "-----BEGIN") && !Contains(body, "-----END") && BlockKind(kind)
    ensures Redact(pre + ("-----BEGIN" + (body + ("-----END" + (kind + ("-----" + post)))))) ==
            (pre + "***") + Redact(post)
  {
    BlockGoes(pre, body, kind, post);
  }

  /** A block whose END never arrived goes to the end of the text. */
  lemma TruncatedBlockRedactsToTheEnd(pre: string, body: string)
    requires !Contains(pre, "-----BEGIN") && !Contains(body, "-----END")
    ensures Redact(pre + ("-----BEGIN" + body)) == pre + "***"
  {
    var text := pre + (BEGIN + body);
    FirstMarker(pre, BEGIN, body);
    FindMeans(body, END);
    assert text[|pre| + |BEGIN|..] == body && text[..|pre|] == pre;
    OneBlock(text, |pre|);
    NothingLeft(text, BlockEnd(text, |pre|));
  }

  // --- Several blocks, and text between them.

  lemma BlockEndShifts(p: string, b: string, e: nat)
    requires e + 10 <= |b|
    ensures BlockEnd(p + b, |p| + e) == |p| + BlockEnd(b, e)
  {
    assert (p + b)[|p| + e + |BEGIN|..] == b[e + |BEGIN|..];
  }

  lemma FirstMarkerShifts(p: string, b: string, e: nat)
    requires (forall j | 0 <= j < |p| :: !At(p + b, j, BEGIN)) && Find(b, BEGIN) == Some(e)
    ensures Find(p + b, BEGIN) == Some(|p| + e)
  {
    FindMeans(b, BEGIN);
    forall j | 0 <= j <= |p| + e
      ensures At(p + b, j, BEGIN) <==> j == |p| + e
    {
      if j >= |p| {
        AtSuffix(p, b, j, BEGIN);
      }
    }
    FindIs(p + b, BEGIN, |p| + e);
  }

  lemma NoMarkerShifts(p: string, b: string)
    requires (forall j | 0 <= j < |p| :: !At(p + b, j, BEGIN)) && !Contains(b, BEGIN)
    ensures !Contains(p + b, BEGIN)
  {
    forall j | 0 <= j <= |p + b|
      ensures !At(p + b, j, BEGIN)
    {
      if j >= |p| {
        AtSuffix(p, b, j, BEGIN);
        assert !At(b, j - |p|, BEGIN);
      }
    }
  }

  /** Text in which no block begins is copied. */
  lemma PrefixCopied(p: string, b: string)
    requires forall j | 0 <= j < |p| :: !At(p + b, j, BEGIN)
    ensures Redact(p + b) == p + Redact(b)
  {
    FindMeans(b, BEGIN);
    match Find(b, BEGIN)
    case None =>
      NoMarkerShifts(p, b);
      NoMarkerNoChange(p + b);
      NoMarkerNoChange(b);
    case Some(e) =>
      var cut := BlockEnd(b, e);
      FirstMarkerShifts(p, b, e);
      BlockEndShifts(p, b, e);
      WithinSecond(p, b, cut);
      assert (p + b)[..|p| + e] == p + b[..e];
      OneBlockTo(p + b, |p| + e, p + b[..e], b[cut..]);
      OneBlock(b, e);
      Assoc(p, b[..e], REDACTED);
      Assoc(p, b[..e] + REDACTED, Redact(b[cut..]));
  }

  /** A block with the text in front of it. */
  datatype Armour = Armour(pre: string, body: string, kind: string)

  predicate WellArmoured(b: Armour) {
    !Contains(b.pre, BEGIN) && !Contains(b.body, END) && BlockKind(b.kind)
  }

  function ArmourText(b: Armour): string {
    b.pre + (BEGIN + (b.body + (END + (b.kind + DASHES))))
  }

  function BlocksText(bs: seq<Armour>): string {
    if bs == [] then "" else ArmourText(bs[0]) + BlocksText(bs[1..])
  }

  function BlocksShown(bs: seq<Armour>): string {
    if bs == [] then "" else (bs[0].pre + REDACTED) + BlocksShown(bs[1..])
  }

  lemma ArmourThen(b: Armour, t: string)
    ensures ArmourText(b) + t == b.pre + (BEGIN + (b.body + (END + (b.kind + (DASHES + t)))))
  {
    var s3 := b.kind + DASHES;
    var s2 := b.body + (END + s3);
    Assoc(b.pre, BEGIN + s2, t);
    Assoc(BEGIN, s2, t);
    Assoc(b.body, END + s3, t);
    Assoc(END, s3, t);
    Assoc(b.kind, DASHES, t);
  }

  /** Whole blocks are replaced one by one, and the pass goes on behind them. */
  lemma {:induction false} BlocksReplaced(bs: seq<Armour>, t: string)
    requires forall i | 0 <= i < |bs| :: WellArmoured(bs[i])
    ensures Redact(BlocksText(bs) + t) == BlocksShown(bs) + Redact(t)
    decreases |bs|
  {
    if bs == [] {
      assert BlocksText(bs) + t == t && BlocksShown(bs) + Redact(t) == Redact(t);
    } else {
      var b, rest := bs[0], BlocksText(bs[1..]);
      assert WellArmoured(b);
      Assoc(ArmourText(b), rest, t);
      ArmourThen(b, rest + t);
      BlockGoes(b.pre, b.body, b.kind, rest + t);
      BlocksReplaced(bs[1..], t);
      Assoc(b.pre + REDACTED, BlocksShown(bs[1..]), Redact(t));
    }
  }

  lemma FirstCharacterKept(text: string)
    requires text != "" && text[0] != '-'
    ensures Redact(text) != "" && Redact(text)[0] == text[0]
  {
    NotAt(text, 0, BEGIN, 0);
    FindMeans(text, BEGIN);
    if Find(text, BEGIN).None? {
      NoMarkerNoChange(text);
    } else {
      OneBlock(text, Find(text, BEGIN).value);
    }
  }
}
