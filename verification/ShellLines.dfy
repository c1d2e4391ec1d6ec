/**
 Command lines put together from fixed words, quoted values and operators,
 and the one theorem about them: the shell reads back exactly the parts.
 */
module ShellLines {
  import opened Numbers
  import opened Text
  import opened Shell

  /** A part of a line; `space` says whether a space follows it. */
  datatype Part =
    | Fixed(word: string, space: bool)
    | Quoted(value: string, space: bool)
    | Op(op: char, space: bool)

  function PartText(p: Part): string {
    (match p case Fixed(w, _) => w case Quoted(v, _) => Quote(v) case Op(c, _) => [c]) + (if p.space then " " else "")
  }

  function PartToken(p: Part): Token {
    match p case Fixed(w, _) => Word(w) case Quoted(v, _) => Word(v) case Op(c, _) => Operator([c])
  }

  function LineText(ps: seq<Part>): string {
    if ps == [] then "" else PartText(ps[0]) + LineText(ps[1..])
  }

  function LineTokens(ps: seq<Part>): seq<Token> {
    seq(|ps|, i requires 0 <= i < |ps| => PartToken(ps[i]))
  }

  predicate ValidPart(p: Part) {
    match p
    case Fixed(w, _) => FixedWord(w)
    case Quoted(v, _) => NUL !in v
    case Op(c, _) => c in OPERATOR_CHARS && c !in {'<', '>'}
  }

  function FirstChar(p: Part): char
    requires ValidPart(p)
  {
    match p case Fixed(w, _) => w[0] case Quoted(_, _) => '\'' case Op(c, _) => c
  }

  /** `q` may stand right behind `p`: the two do not run together. */
  predicate MayFollow(p: Part, q: Part)
    requires ValidPart(p) && ValidPart(q)
  {
    p.space || if p.Op? then [p.op, FirstChar(q)] !in TWO_CHAR_OPERATORS else q.Op?
  }

  predicate WellFormed(ps: seq<Part>) {
    && (forall i | 0 <= i < |ps| :: ValidPart(ps[i]))
    && (forall i | 0 < i < |ps| :: MayFollow(ps[i - 1], ps[i]))
  }

  lemma WellFormedJoin(a: seq<Part>, b: seq<Part>)
    requires WellFormed(a) && WellFormed(b)
    requires a != [] && b != [] ==> MayFollow(a[|a| - 1], b[0])
    ensures WellFormed(a + b)
  {
    var ps := a + b;
    assert forall i | 0 <= i < |ps| :: ValidPart(ps[i]);
    forall i | 0 < i < |ps|
      ensures MayFollow(ps[i - 1], ps[i])
    {
      if i < |a| {
        assert MayFollow(a[i - 1], a[i]);
      } else if |a| < i {
        assert MayFollow(b[i - |a| - 1], b[i - |a|]);
      }
    }
  }

  predicate OneCharOperator(op: char, rest: string) {
    op in OPERATOR_CHARS && op !in {'<', '>'} && (rest == "" || [op, rest[0]] !in TWO_CHAR_OPERATORS)
  }

  lemma OperatorAhead(op: char, rest: string, p: Place)
    requires OneCharOperator(op, rest) && !p.InQuote?
    ensures LexFrom([op] + rest, p) == Prepend(Flush(p, false) + [Operator([op])], Lex(rest))
  {
    var s := [op] + rest;
    assert s[1..] == rest && s[..1] == [op];
    if rest != "" {
      assert s[..2] == [op, rest[0]];
    }
  }

  lemma PrependTwice(a: seq<Token>, b: seq<Token>, r: Option<seq<Token>>)
    ensures Prepend(a, Prepend(b, r)) == Prepend(a + b, r)
  {
    if r.Some? {
      Assoc(a, b, r.value);
    }
  }

  lemma PrependNothing(r: Option<seq<Token>>)
    ensures Prepend([], r) == r
  {
    if r.Some? {
      assert [] + r.value == r.value;
    }
  }

  lemma SpaceAhead(rest: string)
    ensures Lex(" " + rest) == Lex(rest)
  {
    assert (" " + rest)[1..] == rest;
    PrependNothing(Lex(rest));
  }

  /** A word ends before an operator, a space or the end of the line. */
  predicate Breaks(rest: string) {
    rest == "" || rest[0] == ' ' || (rest[0] in OPERATOR_CHARS && rest[0] !in {'<', '>'})
  }

  lemma WordEnds(w: string, digits: bool, rest: string)
    requires Breaks(rest)
    ensures LexFrom(rest, InWord(w, digits)) == Prepend([Word(w)], Lex(rest))
  {
    if rest == "" {
      assert [Word(w)] + [] == [Word(w)];
    } else {
      if rest[0] == ' ' {
        PrependNothing(Lex(rest[1..]));
      } else {
        var op := [Operator(OperatorAt(rest))];
        var after := Lex(rest[|OperatorAt(rest)|..]);
        assert [] + op == op;
        PrependTwice([Word(w)], op, after);
      }
    }
  }

  lemma SpaceMakesNoOperator(c: char)
    ensures [c, ' '] !in TWO_CHAR_OPERATORS
  {
    assert [c, ' '][1] == ' ';
  }

  /** The first part is read as its token, whatever may follow it. */
  lemma FirstPart(p: Part, rest: string)
    requires ValidPart(p)
    requires !p.space ==> if p.Op? then OneCharOperator(p.op, rest) else Breaks(rest)
    ensures Lex(PartText(p) + rest) == Prepend([PartToken(p)], Lex(rest))
  {
    var space := if p.space then " " else "";
    var after := space + rest;
    assert Lex(after) == Lex(rest) by {
      if p.space { SpaceAhead(rest); } else { assert after == rest; }
    }
    match p
    case Fixed(w, _) =>
      Assoc(w, space, rest);
      WordAhead(w, after);
      WordEnds(w, AllDigits(w), after);
    case Quoted(v, _) =>
      Assoc(Quote(v), space, rest);
      QuotedValue(v, after, Between);
      assert "" + v == v;
      WordEnds(v, false, after);
    case Op(c, _) =>
      Assoc([c], space, rest);
      SpaceMakesNoOperator(c);
      OperatorAhead(c, after, Between);
      assert [] + [Operator([c])] == [Operator([c])];
  }

  lemma FirstOfLine(ps: seq<Part>, rest: string)
    requires WellFormed(ps) && ps != []
    ensures LineText(ps) + rest != "" && (LineText(ps) + rest)[0] == FirstChar(ps[0])
  {
    assert PartText(ps[0]) != "" && PartText(ps[0])[0] == FirstChar(ps[0]);
  }

  /** A well-formed line is read as its parts, one token each. */
  lemma {:induction false} LineMeans(ps: seq<Part>, rest: string)
    requires WellFormed(ps)
    requires rest != "" && ps != [] ==> ps[|ps| - 1].space
    ensures Lex(LineText(ps) + rest) == Prepend(LineTokens(ps), Lex(rest))
    decreases |ps|
  {
    if ps == [] {
      assert LineText(ps) + rest == rest;
      PrependNothing(Lex(rest));
    } else {
      var p, qs := ps[0], ps[1..];
      var after := LineText(qs) + rest;
      Assoc(PartText(p), LineText(qs), rest);
      assert forall i | 0 < i < |qs| :: qs[i - 1] == ps[i] && qs[i] == ps[i + 1];
      assert WellFormed(qs);
      if qs != [] {
        FirstOfLine(qs, rest);
        assert MayFollow(ps[0], ps[1]);
      } else {
        assert after == rest;
      }
      FirstPart(p, after);
      LineMeans(qs, rest);
      PrependTwice([PartToken(p)], LineTokens(qs), Lex(rest));
      assert [PartToken(p)] + LineTokens(qs) == LineTokens(ps);
    }
  }

  /** The whole line. */
  lemma WholeLineMeans(ps: seq<Part>)
    requires WellFormed(ps)
    ensures Lex(LineText(ps)) == Some(LineTokens(ps))
  {
    LineMeans(ps, "");
    assert LineText(ps) + "" == LineText(ps);
    assert LineTokens(ps) + [] == LineTokens(ps);
  }

  lemma LineTokensJoin(a: seq<Part>, b: seq<Part>)
    ensures LineTokens(a + b) == LineTokens(a) + LineTokens(b)
  {
  }
}
