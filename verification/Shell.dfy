/**
 Shell words. `Lex` is token recognition and quote removal as sections 2.2.1,
 2.2.2 and 2.3 of POSIX XCU have them, on the part of the language where no
 expansion can take place; it gives up on everything else.
 */
module Shell {
  import opened Numbers
  import opened Text

  const NUL: char := '\U{000000}'

  datatype Token = Word(text: string) | Operator(text: string) | IoNumber(text: string)

  /** Where the lexer is: between words, in a word, or inside single quotes. */
  datatype Place = Between | InWord(text: string, digits: bool) | InQuote(text: string)

  const BLANK: set<char> := {' ', '\t'}
  const OPERATOR_CHARS: set<char> := {'&', '|', ';', '<', '>', '(', ')', '\n'}
  const TWO_CHAR_OPERATORS: set<string> := {"&&", "||", ";;", ">>", "<&", ">&", "<>", ">|"}
  const HERE_DOCUMENT: string := "<<"
  /** Characters that can start an expansion, a comment or a construct not modelled. */
  const EXPANDING: set<char> := {'"', '$', '`', '*', '?', '[', '~', '#', '!', '{', '}', NUL}

  predicate Plain(c: char) {
    c !in BLANK && c !in OPERATOR_CHARS && c !in EXPANDING && c != '\'' && c != '\\'
  }

  function OperatorAt(s: string): (op: string)
    requires s != ""
    ensures 1 <= |op| <= |s|
  {
    if |s| >= 2 && s[..2] in TWO_CHAR_OPERATORS then s[..2] else s[..1]
  }

  /** The word that ends here, if one was begun. */
  function Flush(p: Place, redirects: bool): seq<Token> {
    match p
    case InWord(text, digits) => if digits && redirects then [IoNumber(text)] else [Word(text)]
    case _ => []
  }

  function Prepend(ts: seq<Token>, r: Option<seq<Token>>): Option<seq<Token>> {
    if r.Some? then Some(ts + r.value) else None
  }

  function Begun(p: Place): string {
    if p.Between? then "" else p.text
  }

  function LexFrom(s: string, p: Place): Option<seq<Token>> {
    if s == "" then (if p.InQuote? then None else Some(Flush(p, false)))
    else if p.InQuote? then
      if s[0] == '\'' then LexFrom(s[1..], InWord(p.text, false))
      else if s[0] == NUL then None
      else LexFrom(s[1..], InQuote(p.text + [s[0]]))
    else if s[0] == '\'' then LexFrom(s[1..], InQuote(Begun(p)))
    else if s[0] == '\\' then
      if |s| == 1 || s[1] == NUL then None
      else if s[1] == '\n' then LexFrom(s[2..], p)
      else LexFrom(s[2..], InWord(Begun(p) + [s[1]], false))
    else if s[0] in BLANK then Prepend(Flush(p, false), LexFrom(s[1..], Between))
    else if HERE_DOCUMENT <= s then None
    else if s[0] in OPERATOR_CHARS then
      var op := OperatorAt(s);
      Prepend(Flush(p, s[0] in {'<', '>'}) + [Operator(op)], LexFrom(s[|op|..], Between))
    else if s[0] in EXPANDING then None
    else LexFrom(s[1..], InWord(Begun(p) + [s[0]], IsDigit(s[0]) && (p.InWord? ==> p.digits)))
  }

  function Lex(s: string): Option<seq<Token>> {
    LexFrom(s, Between)
  }

  // --- Quoting.

  function Escape(v: string): string {
    if v == "" then "" else (if v[0] == '\'' then "'\\''" else [v[0]]) + Escape(v[1..])
  }

  /** `shell_quote` of the agent, `quote` of the desktop. */
  function Quote(v: string): string {
    "'" + (Escape(v) + "'")
  }

  /** The desktop's loop. */
  method BuildQuoted(value: string) returns (quoted: string)
    ensures quoted == Quote(value)
  {
    quoted := "'";
    for i := 0 to |value|
      invariant quoted + Escape(value[i..]) == "'" + Escape(value)
    {
      assert value[i..][1..] == value[i + 1..];
      if value[i] == '\'' {
        Assoc(quoted, "'\\''", Escape(value[i + 1..]));
        quoted := quoted + "'\\''";
      } else {
        Assoc(quoted, [value[i]], Escape(value[i + 1..]));
        quoted := quoted + [value[i]];
      }
    }
    assert value[|value|..] == "";
    Assoc("'", Escape(value), "'");
    quoted := quoted + "'";
  }

  /** The four characters a quote turns into leave and re-enter the quotes with it added. */
  lemma EscapedQuote(rest: string, t: string)
    ensures LexFrom("'\\''" + rest, InQuote(t)) == LexFrom(rest, InQuote(t + "'"))
  {
    var s := "'\\''" + rest;
    assert s[1..] == "\\''" + rest;
    var s1 := "\\''" + rest;
    assert s1[0] == '\\' && s1[1] == '\'' && s1[2..] == "'" + rest;
    var s2 := "'" + rest;
    assert s2[1..] == rest;
    calc {
      LexFrom(s, InQuote(t));
      LexFrom(s1, InWord(t, false));
      LexFrom(s2, InWord(t + "'", false));
      LexFrom(rest, InQuote(t + "'"));
    }
  }

  /** Inside quotes, the escaped text is taken for what it stands for. */
  lemma {:induction false} EscapedInside(v: string, rest: string, t: string)
    requires NUL !in v
    ensures LexFrom(Escape(v) + ("'" + rest), InQuote(t)) == LexFrom(rest, InWord(t + v, false))
    decreases |v|
  {
    if v == "" {
      assert Escape(v) + ("'" + rest) == "'" + rest;
      assert ("'" + rest)[1..] == rest;
      assert t + v == t;
    } else {
      var head := if v[0] == '\'' then "'\\''" else [v[0]];
      var tail := Escape(v[1..]) + ("'" + rest);
      assert v[0] in v && NUL !in v[1..];
      assert (t + [v[0]]) + v[1..] == t + v;
      Assoc(head, Escape(v[1..]), "'" + rest);
      if v[0] == '\'' {
        EscapedQuote(tail, t);
      } else {
        assert ([v[0]] + tail)[1..] == tail;
      }
      EscapedInside(v[1..], rest, t + [v[0]]);
    }
  }

  /** A quoted value adds exactly itself to the word it stands in. */
  lemma QuotedValue(v: string, rest: string, p: Place)
    requires NUL !in v && !p.InQuote?
    ensures LexFrom(Quote(v) + rest, p) == LexFrom(rest, InWord(Begun(p) + v, false))
  {
    var s := Escape(v) + ("'" + rest);
    assert Quote(v) + rest == "'" + s by {
      Assoc("'", Escape(v) + "'", rest);
      Assoc(Escape(v), "'", rest);
    }
    assert ("'" + s)[1..] == s;
    EscapedInside(v, rest, Begun(p));
  }

  lemma {:induction false} NulInside(v: string, rest: string, t: string)
    requires NUL in v
    ensures LexFrom(Escape(v) + rest, InQuote(t)) == None
    decreases |v|
  {
    var head := if v[0] == '\'' then "'\\''" else [v[0]];
    var tail := Escape(v[1..]) + rest;
    Assoc(head, Escape(v[1..]), rest);
    if v[0] == '\'' {
      assert NUL in v[1..];
      EscapedQuote(tail, t);
      NulInside(v[1..], rest, t + "'");
    } else {
      assert ([v[0]] + tail)[1..] == tail;
      if v[0] != NUL {
        assert NUL in v[1..];
        NulInside(v[1..], rest, t + [v[0]]);
      }
    }
  }

  /** Quoting round trip: one word, the value itself, for exactly the values without NUL. */
  lemma QuoteRoundTrip(v: string)
    ensures Lex(Quote(v)) == Some([Word(v)]) <==> NUL !in v
  {
    assert Quote(v)[1..] == Escape(v) + "'";
    if NUL in v {
      NulInside(v, "'", "");
    } else {
      assert Quote(v) + "" == Quote(v);
      assert "" + v == v;
      QuotedValue(v, "", Between);
    }
  }

  // --- Lines built from fixed words and quoted values.

  /** A fixed word of a command line. */
  predicate FixedWord(w: string) {
    w != "" && forall i | 0 <= i < |w| :: Plain(w[i])
  }

  lemma {:induction false} PlainRun(w: string, rest: string, p: Place)
    requires forall i | 0 <= i < |w| :: Plain(w[i])
    requires p.InWord?
    ensures LexFrom(w + rest, p) == LexFrom(rest, InWord(p.text + w, p.digits && AllDigits(w)))
    decreases |w|
  {
    if w == "" {
      assert w + rest == rest && p.text + w == p.text;
    } else {
      var p' := InWord(p.text + [w[0]], IsDigit(w[0]) && p.digits);
      assert (w + rest)[1..] == w[1..] + rest;
      assert (p.text + [w[0]]) + w[1..] == p.text + w;
      assert AllDigits(w) <==> IsDigit(w[0]) && AllDigits(w[1..]);
      PlainRun(w[1..], rest, p');
    }
  }

  lemma WordAhead(w: string, rest: string)
    requires FixedWord(w)
    ensures Lex(w + rest) == LexFrom(rest, InWord(w, AllDigits(w)))
  {
    assert (w + rest)[1..] == w[1..] + rest;
    assert [w[0]] + w[1..] == w;
    assert "" + [w[0]] == [w[0]];
    assert AllDigits(w) <==> IsDigit(w[0]) && AllDigits(w[1..]);
    PlainRun(w[1..], rest, InWord([w[0]], IsDigit(w[0])));
  }
}
