/** What the key/value scanner guarantees for every text. */
module KeyValueTheorems {
  import opened Text
  import opened Redaction
  import opened SecretKeys
  import opened KeyValue

  // --- The pass as pieces: every character kept or masked, in order.

  function TurnPieces(rest: string, t: Turn): seq<Piece>
    requires t.kept <= t.used <= |rest|
  {
    if t.mask then [Kept(rest[..t.kept])] + [Masked(rest[t.kept..t.used])] else [Kept(rest[..t.kept])]
  }

  function Cuts(u: CharClasses, out: string, rest: string): seq<Piece>
    decreases |rest|
  {
    if rest == "" then []
    else
      var t := TurnOf(u, out, rest);
      TurnPieces(rest, t) + Cuts(u, out + TurnShows(rest, t), rest[t.used..])
  }

  lemma TurnPiecesAre(rest: string, t: Turn)
    requires t.kept <= t.used <= |rest| && (!t.mask ==> t.used == t.kept)
    ensures Render(TurnPieces(rest, t)) == TurnShows(rest, t)
    ensures Original(TurnPieces(rest, t)) == rest[..t.used]
  {
    if t.mask {
      RenderOne(Masked(rest[t.kept..t.used]));
      RenderCons(Kept(rest[..t.kept]), [Masked(rest[t.kept..t.used])]);
      assert rest[..t.used] == rest[..t.kept] + rest[t.kept..t.used];
    } else {
      RenderOne(Kept(rest[..t.kept]));
    }
  }

  /** The pieces render to the output and are cut from the input. */
  lemma {:induction false} CutsAreThePass(u: CharClasses, out: string, rest: string)
    ensures out + Render(Cuts(u, out, rest)) == Scan(u, out, rest)
    ensures Original(Cuts(u, out, rest)) == rest
    decreases |rest|
  {
    if rest == "" {
    } else {
      var t := TurnOf(u, out, rest);
      var shows, after := TurnShows(rest, t), rest[t.used..];
      assert rest == rest[..t.used] + after;
      TurnPiecesAre(rest, t);
      CutsAreThePass(u, out + shows, after);
      RenderAppend(TurnPieces(rest, t), Cuts(u, out + shows, after));
      OriginalAppend(TurnPieces(rest, t), Cuts(u, out + shows, after));
      Assoc(out, shows, Render(Cuts(u, out + shows, after)));
    }
  }

  // --- Non-interference: the masked value does not reach the output.

  predicate ClosedQuote(v: string)
    requires v != ""
  {
    1 < |v| && v[|v| - 1] == v[0] && forall i | 1 <= i < |v| - 1 :: v[i] != v[0] && v[i] != '\n'
  }

  /** The ways a value ends: its closing quote, the line, or white space. */
  predicate ValueForm(sep: char, v: string, post: string) {
    v != "" &&
    if v[0] == '"' || v[0] == '\'' then
      || ClosedQuote(v)
      || ((forall i | 1 <= i < |v| :: v[i] != v[0] && v[i] != '\n') && (post == "" || post[0] == '\n'))
    else if sep == ':' then
      && (forall i | 0 <= i < |v| :: v[i] != '\n' && v[i] != '\r') && v[0] != ' ' && v[0] != '\t'
      && (post == "" || post[0] == '\n' || post[0] == '\r')
    else
      (forall i | 0 <= i < |v| :: v[i] !in WHITE_SPACE) && (post == "" || post[0] in WHITE_SPACE)
  }

  lemma ValueLengthIs(sep: char, v: string, post: string)
    requires ValueForm(sep, v, post)
    ensures ValueLength(sep, v + post) == |v|
  {
    var s := v + post;
    assert s[0] == v[0];
    if v[0] in QUOTES {
      var end := if ClosedQuote(v) then |v| - 1 else |v|;
      assert s[1..] == v[1..] + post;
      FirstInIs(s[1..], {v[0], '\n'}, end - 1);
    } else if sep == ':' {
      FirstInIs(s, LINE_ENDS, |v|);
    } else {
      FirstInIs(s, WHITE_SPACE, |v|);
    }
  }

  lemma {:induction false} BlankCountIs(blanks: string, s: string)
    requires forall i | 0 <= i < |blanks| :: blanks[i] in BLANKS
    requires s == "" || s[0] !in BLANKS
    ensures BlankCount(blanks + s) == |blanks|
  {
    if blanks == "" {
      assert blanks + s == s;
    } else {
      assert (blanks + s)[1..] == blanks[1..] + s;
      BlankCountIs(blanks[1..], s);
    }
  }

  predicate AllBlank(s: string) {
    forall i | 0 <= i < |s| :: s[i] == ' ' || s[i] == '\t'
  }

  lemma Layout(sep: char, blanks: string, v: string, post: string)
    requires v != ""
    ensures var rest, k := [sep] + (blanks + (v + post)), 1 + |blanks|;
            && rest[1..] == blanks + (v + post) && rest[..k] == [sep] + blanks
            && rest[k] == v[0] && rest[k..] == v + post && rest[k + |v|..] == post
  {
  }

  lemma ValueShows(sep: char, blanks: string, v: string, post: string)
    requires v != ""
    ensures var rest, t := [sep] + (blanks + (v + post)), Turn(1 + |blanks|, 1 + |blanks| + |v|, true);
            t.used <= |rest| && TurnShows(rest, t) == ([sep] + blanks) + REDACTED && rest[t.used..] == post
  {
    Layout(sep, blanks, v, post);
  }

  lemma ValueTurn(sep: char, blanks: string, v: string, post: string)
    requires AllBlank(blanks) && ValueForm(sep, v, post)
    ensures var k := 1 + |blanks|;
            MaskingTurn([sep] + (blanks + (v + post))) == Turn(k, k + |v|, true)
  {
    Layout(sep, blanks, v, post);
    assert (v + post)[0] == v[0] && !(v[0] in BLANKS) && !(v[0] in LINE_ENDS);
    BlankCountIs(blanks, v + post);
    ValueLengthIs(sep, v, post);
  }

  /**
   Behind a secret key the separator and its blanks are kept, the value is
   replaced by `***`, and the scanner goes on behind it.
   */
  lemma ValueMasked(u: CharClasses, out: string, sep: char, blanks: string, v: string, post: string)
    requires (sep == '=' || sep == ':') && SecretBefore(u, out)
    requires AllBlank(blanks) && ValueForm(sep, v, post)
    ensures Scan(u, out, [sep] + (blanks + (v + post))) == Scan(u, out + (([sep] + blanks) + REDACTED), post)
  {
    var rest, t := [sep] + (blanks + (v + post)), Turn(1 + |blanks|, 1 + |blanks| + |v|, true);
    ValueTurn(sep, blanks, v, post);
    ValueShows(sep, blanks, v, post);
    OneTurnTo(u, out, rest, t, out + (([sep] + blanks) + REDACTED), post);
  }

  /** What a value in quotes leaves behind: from its first inner quote or line break on. */
  function Tail(q: char, body: string): string {
    var n := FirstIn(body, {q, '\n'});
    if n == |body| then "" else if body[n] == q then body[n + 1..] + [q] else body[n..] + [q]
  }

  lemma ClosedQuoteOf(q: char, x: string)
    requires q !in x && '\n' !in x
    ensures ClosedQuote(([q] + x) + [q])
  {
    var v := ([q] + x) + [q];
    assert forall i | 1 <= i < |v| - 1 :: v[i] == x[i - 1];
  }

  lemma OpenQuoteForm(sep: char, q: char, x: string, post: string)
    requires q in QUOTES && q !in x && '\n' !in x && post != "" && post[0] == '\n'
    ensures ValueForm(sep, [q] + x, post)
  {
    var v := [q] + x;
    assert forall i | 1 <= i < |v| :: v[i] == x[i - 1];
  }

  lemma Nested(a: string, x: string, z: string, c: string, p: string)
    ensures (a + ((x + z) + c)) + p == (a + x) + ((z + c) + p)
  {
    Assoc(x, z, c);
    Assoc(a, x, z + c);
    Assoc(a + x, z + c, p);
  }

  lemma NestedQuote(a: string, x: string, q: string, y: string, p: string)
    ensures (a + ((x + (q + y)) + q)) + p == ((a + x) + q) + ((y + q) + p)
  {
    Nested(a, x, q + y, q, p);
    Assoc(q, y, q);
    Assoc(q, y + q, p);
    Assoc(a + x, q, (y + q) + p);
  }

  /** What is before the first inner quote or line break, and what that leaves. */
  lemma TailIs(q: char, body: string) returns (x: string, y: string)
    ensures q !in x && '\n' !in x
    ensures || (body == x && Tail(q, body) == "")
            || (body == x + ([q] + y) && Tail(q, body) == y + [q])
            || (body == x + ("\n" + y) && Tail(q, body) == ("\n" + y) + [q])
    ensures body == x <==> q !in body && '\n' !in body
  {
    var n := FirstIn(body, {q, '\n'});
    x := body[..n];
    y := if n == |body| then "" else body[n + 1..];
    assert forall i | 0 <= i < n :: x[i] == body[i];
    if n < |body| {
      assert body[n] in body && body[n..] == [body[n]] + y;
      assert body == x + ([body[n]] + y);
    } else {
      assert x == body;
    }
  }

  /** A value in quotes is masked up to its first inner quote or line break, and what is left is scanned on. */
  lemma QuotedTail(u: CharClasses, out: string, sep: char, blanks: string, q: char, body: string, post: string)
    requires (sep == '=' || sep == ':') && SecretBefore(u, out) && AllBlank(blanks) && (q == '"' || q == '\'')
    ensures Scan(u, out, [sep] + (blanks + (([q] + (body + [q])) + post))) ==
            Scan(u, out + (([sep] + blanks) + REDACTED), Tail(q, body) + post)
    ensures Tail(q, body) == "" <==> q !in body && '\n' !in body
  {
    var x, y := TailIs(q, body);
    if body == x {
      Assoc([q], x, [q]);
      ClosedQuoteOf(q, x);
      assert Tail(q, body) + post == post;
      ValueMasked(u, out, sep, blanks, ([q] + x) + [q], post);
    } else if body == x + ([q] + y) && Tail(q, body) == y + [q] {
      NestedQuote([q], x, [q], y, post);
      ClosedQuoteOf(q, x);
      ValueMasked(u, out, sep, blanks, ([q] + x) + [q], (y + [q]) + post);
    } else {
      Nested([q], x, "\n" + y, [q], post);
      OpenQuoteForm(sep, q, x, (("\n" + y) + [q]) + post);
      ValueMasked(u, out, sep, blanks, [q] + x, (("\n" + y) + [q]) + post);
    }
  }

  /** With nothing behind it on the line, the separator is copied and nothing is masked. */
  lemma NoValueNothingMasked(u: CharClasses, out: string, sep: char, blanks: string, post: string)
    requires (sep == '=' || sep == ':') && SecretBefore(u, out)
    requires AllBlank(blanks) && (post == "" || post[0] == '\n' || post[0] == '\r')
    ensures Scan(u, out, [sep] + (blanks + post)) == Scan(u, out + ([sep] + blanks), post)
  {
    var rest, k := [sep] + (blanks + post), 1 + |blanks|;
    assert rest[1..] == blanks + post;
    BlankCountIs(blanks, post);
    assert rest[..k] == [sep] + blanks && rest[k..] == post;
    assert TurnShows(rest, Turn(k, k, false)) == [sep] + blanks;
    assert k < |rest| ==> rest[k] == post[0];
    OneTurnTo(u, out, rest, Turn(k, k, false), out + ([sep] + blanks), post);
  }

  // --- The key in front of a separator.

  lemma {:induction false} TrailingKeyIs(u: CharClasses, a: string, key: string)
    requires forall i | 0 <= i < |key| :: KeyChar(u, key[i])
    requires a == "" || !KeyChar(u, a[|a| - 1])
    ensures TrailingKey(u, a + key) == key
    decreases |key|
  {
    if key == "" {
      assert a + key == a;
    } else {
      var n := |key| - 1;
      assert (a + key)[..|a + key| - 1] == a + key[..n] && (a + key)[|a + key| - 1] == key[n];
      TrailingKeyIs(u, a, key[..n]);
      assert key == key[..n] + [key[n]];
    }
  }

  /** Of the ASCII characters, a name has letters, digits, underscores, dashes and dots. */
  lemma NameCharacters(u: CharClasses, c: char)
    requires AgreesWithAscii(u) && c < '\U{000080}'
    ensures KeyChar(u, c) <==>
            'a' <= c <= 'z' || 'A' <= c <= 'Z' || '0' <= c <= '9' || c == '_' || c == '-' || c == '.'
  {
  }

  lemma QuotesAreNoKeys(u: CharClasses)
    requires AgreesWithAscii(u)
    ensures !KeyChar(u, '"') && !KeyChar(u, '\'')
  {
  }

  lemma JudgesBare(u: CharClasses, out: string, key: string, quote: char)
    requires !KeyChar(u, '"') && !KeyChar(u, '\'')
    requires TrailingKey(u, out) == key && key != "" && quote in QUOTES
    ensures SecretBefore(u, out) == IsSecretKey(u, key)
    ensures SecretBefore(u, out + [quote]) == IsSecretKey(u, key)
  {
    assert KeyChar(u, out[|out| - 1]);
    assert StepOverQuote(out) == out;
    assert (out + [quote])[..|out|] == out;
    assert StepOverQuote(out + [quote]) == out;
  }

  /**
   The scanner judges exactly the name in front of the separator: the longest
   run of key characters, read through one closing quote.
   */
  lemma JudgesTheName(u: CharClasses, a: string, key: string, quote: char)
    requires AgreesWithAscii(u) && key != "" && quote in QUOTES
    requires forall i | 0 <= i < |key| :: KeyChar(u, key[i])
    requires a == "" || !KeyChar(u, a[|a| - 1])
    ensures SecretBefore(u, a + key) == IsSecretKey(u, key)
    ensures SecretBefore(u, (a + key) + [quote]) == IsSecretKey(u, key)
  {
    QuotesAreNoKeys(u);
    TrailingKeyIs(u, a, key);
    JudgesBare(u, a + key, key, quote);
  }

  /** Starting from `o0` and `r0` the scanner comes to `o` with `r` still to read. */
  ghost predicate Reaches(u: CharClasses, o0: string, r0: string, o: string, r: string)
    decreases |r0|
  {
    || (o0 == o && r0 == r)
    || (r0 != "" && var t := TurnOf(u, o0, r0); Reaches(u, o0 + TurnShows(r0, t), r0[t.used..], o, r))
  }

  lemma {:induction false} ReachesScan(u: CharClasses, o0: string, r0: string, o: string, r: string)
    requires Reaches(u, o0, r0, o, r)
    ensures Scan(u, o0, r0) == Scan(u, o, r)
    decreases |r0|
  {
    if o0 == o && r0 == r {
    } else {
      var t := TurnOf(u, o0, r0);
      OneTurn(u, o0, r0, t);
      ReachesScan(u, o0 + TurnShows(r0, t), r0[t.used..], o, r);
    }
  }

  lemma {:induction false} ReachesShrinks(u: CharClasses, o0: string, r0: string, o: string, r: string)
    requires Reaches(u, o0, r0, o, r)
    ensures |r| <= |r0| && (|r| == |r0| ==> o0 == o)
    decreases |r0|
  {
    if o0 == o && r0 == r {
    } else {
      var t := TurnOf(u, o0, r0);
      ReachesShrinks(u, o0 + TurnShows(r0, t), r0[t.used..], o, r);
    }
  }

  /** A stop found inside `a` is found there whatever follows. */
  lemma FirstInLocal(a: string, b: string, c: string, cs: set<char>)
    requires FirstIn(a + b, cs) < |a|
    ensures FirstIn(a + c, cs) == FirstIn(a + b, cs)
  {
    var i := FirstIn(a + b, cs);
    assert forall j | 0 <= j <= i :: (a + c)[j] == a[j] == (a + b)[j];
    FirstInIs(a + c, cs, i);
  }

  lemma BlankCountLocal(a: string, b: string, c: string)
    requires BlankCount(a + b) < |a|
    ensures BlankCount(a + c) == BlankCount(a + b)
  {
    var n := BlankCount(a + b);
    assert a + c == a[..n] + (a[n..] + c);
    assert forall i | 0 <= i < n :: a[i] == (a + b)[i];
    BlankCountIs(a[..n], a[n..] + c);
  }

  /** A value that ends inside `a` is not affected by the separator behind it. */
  lemma ValueLengthLocal(sep: char, a: string, b: string, c: string)
    requires a != "" && b != "" && b[0] in SEPARATORS
    requires ValueLength(sep, a + b) <= |a|
    ensures ValueLength(sep, a + c) == ValueLength(sep, a + b)
  {
    var s := a + b;
    assert s[0] == a[0] == (a + c)[0] && s[|a|] == b[0];
    if a[0] in QUOTES {
      assert s[1..] == a[1..] + b && (a + c)[1..] == a[1..] + c;
      var j := FirstIn(s[1..], {a[0], '\n'});
      assert j < |s[1..]| ==> s[1..][j] == s[j + 1];
      FirstInLocal(a[1..], b, c, {a[0], '\n'});
    } else if sep == ':' {
      FirstInLocal(a, b, c, LINE_ENDS);
    } else {
      FirstInLocal(a, b, c, WHITE_SPACE);
    }
  }

  /** The blanks behind a separator end at the next one. */
  lemma BlanksStop(p: string, b: string)
    requires b != "" && b[0] in SEPARATORS
    ensures BlankCount(p + b) <= |p|
  {
    assert (p + b)[|p|] == b[0];
  }

  lemma SeparatorStartsAValue(sep: char, b: string)
    requires b != "" && b[0] in SEPARATORS
    ensures 0 < ValueLength(sep, b)
  {
  }

  /** The masking turn, when it stops before the separator `b[0]`. */
  lemma MaskLocal(p: string, b: string, c: string)
    requires p != "" && b != "" && c != "" && b[0] == c[0] && b[0] in SEPARATORS
    requires MaskingTurn(p + b).used <= |p|
    ensures MaskingTurn(p + c) == MaskingTurn(p + b)
  {
    var s, s' := p + b, p + c;
    assert s[0] == p[0] == s'[0];
    WithinFirst(p, b, 1);
    WithinFirst(p, c, 1);
    BlanksStop(p[1..], b);
    var k := 1 + BlankCount(s[1..]);
    if k == |p| {
      assert s[k..] == b;
      SeparatorStartsAValue(s[0], b);
    } else {
      BlankCountLocal(p[1..], b, c);
      WithinFirst(p, b, k);
      WithinFirst(p, c, k);
      assert s[k] == p[k] == s'[k];
      if p[k] !in LINE_ENDS {
        ValueLengthLocal(s[0], p[k..], b, c);
      }
    }
  }

  /** A turn that stops before the separator `b[0]` does not depend on what is behind it. */
  lemma TurnLocal(u: CharClasses, out: string, p: string, b: string, c: string)
    requires p != "" && b != "" && c != "" && b[0] == c[0] && b[0] in SEPARATORS
    requires TurnOf(u, out, p + b).used <= |p|
    ensures TurnOf(u, out, p + c) == TurnOf(u, out, p + b)
    ensures TurnShows(p + c, TurnOf(u, out, p + c)) == TurnShows(p + b, TurnOf(u, out, p + b))
  {
    if p[0] in SEPARATORS && SecretBefore(u, out) {
      MaskLocal(p, b, c);
    }
    var t := TurnOf(u, out, p + b);
    assert (p + b)[..t.kept] == (p + c)[..t.kept];
  }

  /** The way to a separator does not depend on what is behind it. */
  lemma {:induction false} ReachesElsewhere(u: CharClasses, o0: string, p: string, o: string, b: string, c: string)
    requires b != "" && c != "" && b[0] == c[0] && b[0] in SEPARATORS
    requires Reaches(u, o0, p + b, o, b)
    ensures Reaches(u, o0, p + c, o, c)
    decreases |p|
  {
    ReachesShrinks(u, o0, p + b, o, b);
    if p == "" {
      assert p + b == b && p + c == c;
    } else {
      var t := TurnOf(u, o0, p + b);
      var shows := TurnShows(p + b, t);
      ReachesShrinks(u, o0 + shows, (p + b)[t.used..], o, b);
      TurnLocal(u, o0, p, b, c);
      WithinFirst(p, b, t.used);
      WithinFirst(p, c, t.used);
      ReachesElsewhere(u, o0 + shows, p[t.used..], o, b, c);
    }
  }

  /**
   Two texts that differ only in the value behind a secret key give the same
   output, wherever in the text the scanner comes to it.
   */
  lemma NonInterference(u: CharClasses, pre: string, out: string, sep: char, blanks: string,
                        v: string, v': string, post: string)
    requires (sep == '=' || sep == ':') && AllBlank(blanks)
    requires ValueForm(sep, v, post) && ValueForm(sep, v', post)
    requires var rest := [sep] + (blanks + (v + post)); Reaches(u, "", pre + rest, out, rest)
    requires SecretBefore(u, out)
    ensures Redact(u, pre + ([sep] + (blanks + (v + post)))) == Redact(u, pre + ([sep] + (blanks + (v' + post))))
  {
    var rest, rest' := [sep] + (blanks + (v + post)), [sep] + (blanks + (v' + post));
    ReachesElsewhere(u, "", pre, out, rest, rest');
    ReachesScan(u, "", pre + rest, out, rest);
    ReachesScan(u, "", pre + rest', out, rest');
    ValueMasked(u, out, sep, blanks, v, post);
    ValueMasked(u, out, sep, blanks, v', post);
  }

  /** No separator of `pre` stands behind a secret key. */
  predicate Ordinary(u: CharClasses, pre: string) {
    forall k | 0 <= k < |pre| && pre[k] in SEPARATORS :: !SecretBefore(u, pre[..k])
  }

  lemma {:induction false} OrdinaryPrefixCopied(u: CharClasses, pre: string, i: nat, rest: string)
    requires i <= |pre| && Ordinary(u, pre)
    ensures Reaches(u, pre[..i], pre[i..] + rest, pre, rest)
    decreases |pre| - i
  {
    if i == |pre| {
      assert pre[..i] == pre && pre[i..] + rest == rest;
    } else {
      var r := pre[i..] + rest;
      assert r[0] == pre[i] && r[1..] == pre[i + 1..] + rest && pre[..i] + [r[0]] == pre[..i + 1];
      assert TurnOf(u, pre[..i], r) == Turn(1, 1, false) && TurnShows(r, Turn(1, 1, false)) == [r[0]];
      OrdinaryPrefixCopied(u, pre, i + 1, rest);
    }
  }

  /** A text with no secret key in front of any separator is not changed. */
  lemma OrdinaryTextUnchanged(u: CharClasses, text: string)
    requires Ordinary(u, text)
    ensures Redact(u, text) == text
  {
    OrdinaryPrefixCopied(u, text, 0, "");
    assert text[..0] == "" && text[0..] + "" == text;
    ReachesScan(u, "", text, text, "");
  }

  /**
   In particular the first secret of a text does not show, by a condition on
   the text alone; its name may be closed by a quote.
   */
  lemma FirstSecretHidden(u: CharClasses, a: string, key: string, quotes: string, sep: char, blanks: string,
                          v: string, v': string, post: string)
    requires AgreesWithAscii(u) && (sep == '=' || sep == ':') && AllBlank(blanks)
    requires quotes == "" || quotes == "\"" || quotes == "'"
    requires Ordinary(u, (a + key) + quotes) && (a == "" || !KeyChar(u, a[|a| - 1]))
    requires key != "" && (forall i | 0 <= i < |key| :: KeyChar(u, key[i])) && IsSecretKey(u, key)
    requires ValueForm(sep, v, post) && ValueForm(sep, v', post)
    ensures Redact(u, ((a + key) + quotes) + ([sep] + (blanks + (v + post)))) ==
            Redact(u, ((a + key) + quotes) + ([sep] + (blanks + (v' + post))))
  {
    var pre, rest := (a + key) + quotes, [sep] + (blanks + (v + post));
    JudgesTheName(u, a, key, if quotes == "" then '"' else quotes[0]);
    assert quotes == "" ==> pre == a + key;
    assert quotes != "" ==> quotes == [quotes[0]];
    assert pre[..0] == "" && pre[0..] == pre;
    OrdinaryPrefixCopied(u, pre, 0, rest);
    NonInterference(u, pre, pre, sep, blanks, v, v', post);
  }

  // --- What stands between a secret name and its separator.

  lemma NoKeyBehind(u: CharClasses, out: string, gap: string)
    requires !KeyChar(u, '"') && !KeyChar(u, '\'') && gap != "" && forall i | 0 <= i < |gap| :: !KeyChar(u, gap[i])
    requires !(|gap| == 1 && gap[0] in QUOTES)
    ensures !SecretBefore(u, out + gap)
  {
    var all, n := out + gap, |gap| - 1;
    assert all[|all| - 1] == gap[n];
    if gap[n] in QUOTES {
      var front := all[..|all| - 1];
      assert front[|front| - 1] == gap[n - 1];
      assert TrailingKey(u, front) == "";
    } else {
      assert TrailingKey(u, all) == "";
    }
  }

  /** Behind a secret name a separator is one of a secret exactly if nothing but one quote stands in between. */
  lemma GapExactly(u: CharClasses, a: string, key: string, gap: string)
    requires AgreesWithAscii(u) && key != "" && (forall i | 0 <= i < |key| :: KeyChar(u, key[i])) && IsSecretKey(u, key)
    requires (a == "" || !KeyChar(u, a[|a| - 1])) && forall i | 0 <= i < |gap| :: !KeyChar(u, gap[i])
    ensures SecretBefore(u, (a + key) + gap) <==> gap == "" || gap == "\"" || gap == "'"
  {
    QuotesAreNoKeys(u);
    if gap == "" {
      assert (a + key) + gap == a + key;
      JudgesTheName(u, a, key, '"');
    } else if |gap| == 1 && gap[0] in QUOTES {
      assert gap == [gap[0]];
      JudgesTheName(u, a, key, gap[0]);
    } else {
      NoKeyBehind(u, a + key, gap);
    }
  }

  lemma BlankText(text: string)
    requires text == "password = hunter2"
    ensures |text| == 18 && text[..9] == "password" + " "
    ensures forall k | 0 <= k < |text| :: text[k] in SEPARATORS ==> k == 9
  {
  }

  /** A blank in front of the separator leaves the value in clear. */
  lemma BlankBeforeSeparator(u: CharClasses, text: string)
    requires AgreesWithAscii(u) && text == "password = hunter2"
    ensures Redact(u, text) == text
  {
    BlankText(text);
    QuotesAreNoKeys(u);
    assert !KeyChar(u, ' ');
    NoKeyBehind(u, "password", " ");
    OrdinaryTextUnchanged(u, text);
  }

  lemma {:induction false} NoSeparatorCopied(u: CharClasses, out: string, rest: string)
    requires forall i | 0 <= i < |rest| :: rest[i] !in SEPARATORS
    ensures Scan(u, out, rest) == out + rest
    decreases |rest|
  {
    if rest == "" {
      assert out + rest == out;
    } else {
      NoSeparatorCopied(u, out + [rest[0]], rest[1..]);
      OneTurnTo(u, out, rest, Turn(1, 1, false), out + [rest[0]], rest[1..]);
      Assoc(out, [rest[0]], rest[1..]);
      assert rest == [rest[0]] + rest[1..];
    }
  }

  lemma NamesHaveNoSeparator(u: CharClasses, key: string)
    requires AgreesWithAscii(u) && forall i | 0 <= i < |key| :: KeyChar(u, key[i])
    ensures Ordinary(u, key)
  {
    assert !KeyChar(u, '=') && !KeyChar(u, ':');
  }

  /** A secret name at the start of a text is copied and judged. */
  lemma NameFirst(u: CharClasses, key: string, rest: string)
    requires AgreesWithAscii(u) && key != "" && (forall i | 0 <= i < |key| :: KeyChar(u, key[i])) && IsSecretKey(u, key)
    ensures Redact(u, key + rest) == Scan(u, key, rest) && SecretBefore(u, key)
  {
    NamesHaveNoSeparator(u, key);
    assert key[..0] == "" && key[0..] == key && "" + key == key;
    OrdinaryPrefixCopied(u, key, 0, rest);
    ReachesScan(u, "", key + rest, key, rest);
    JudgesTheName(u, "", key, '"');
  }

  /** The first assignment of a text, to a secret in quotes. */
  lemma QuotedSecretShows(u: CharClasses, key: string, q: char, body: string)
    requires AgreesWithAscii(u) && key != "" && (forall i | 0 <= i < |key| :: KeyChar(u, key[i])) && IsSecretKey(u, key)
    requires q in QUOTES && forall i | 0 <= i < |Tail(q, body)| :: Tail(q, body)[i] !in SEPARATORS
    ensures Redact(u, key + ("=" + ([q] + (body + [q])))) == (key + ("=" + REDACTED)) + Tail(q, body)
  {
    var value := [q] + (body + [q]);
    NameFirst(u, key, "=" + value);
    assert value + "" == value && "" + value == value && Tail(q, body) + "" == Tail(q, body) && "=" + "" == "=";
    QuotedTail(u, key, '=', "", q, body, "");
    NoSeparatorCopied(u, key + ("=" + REDACTED), Tail(q, body));
  }

  lemma EscapedText(body: string)
    requires body == "a\\\"b"
    ensures Tail('"', body) == "b\""
  {
    FirstInIs(body, {'"', '\n'}, 2);
  }

  /** A quote in a quoted value ends it, escaped or not: the rest is shown. */
  lemma EscapedQuoteShows(u: CharClasses, key: string)
    requires AgreesWithAscii(u) && key != "" && (forall i | 0 <= i < |key| :: KeyChar(u, key[i])) && IsSecretKey(u, key)
    ensures Redact(u, key + ("=" + (['"'] + ("a\\\"b" + ['"'])))) == (key + ("=" + REDACTED)) + "b\""
  {
    EscapedText("a\\\"b");
    QuotedSecretShows(u, key, '"', "a\\\"b");
  }

  // --- Lines are independent.

  lemma {:induction false} TrailingKeyOnLine(u: CharClasses, a: string, b: string)
    requires !KeyChar(u, '\n')
    ensures TrailingKey(u, a + ("\n" + b)) == TrailingKey(u, b)
    decreases |b|
  {
    var s := a + ("\n" + b);
    if b == "" {
      assert s[|s| - 1] == '\n';
    } else {
      assert s[|s| - 1] == b[|b| - 1];
      assert s[..|s| - 1] == a + ("\n" + b[..|b| - 1]);
      TrailingKeyOnLine(u, a, b[..|b| - 1]);
    }
  }

  lemma SecretBeforeOnLine(u: CharClasses, a: string, b: string)
    requires !KeyChar(u, '\n')
    ensures SecretBefore(u, a + ("\n" + b)) == SecretBefore(u, b)
  {
    var s := a + ("\n" + b);
    if b == "" {
      assert s[|s| - 1] == '\n';
      TrailingKeyOnLine(u, a, b);
    } else {
      assert s[|s| - 1] == b[|b| - 1];
      assert s[..|s| - 1] == a + ("\n" + b[..|b| - 1]);
      TrailingKeyOnLine(u, a, StepOverQuote(b));
    }
  }

  /** What was written on earlier lines does not matter. */
  lemma {:induction false} ScanOnLine(u: CharClasses, a: string, b: string, rest: string)
    requires !KeyChar(u, '\n')
    ensures Scan(u, a + ("\n" + b), rest) == a + ("\n" + Scan(u, b, rest))
    decreases |rest|
  {
    if rest == "" {
    } else {
      SecretBeforeOnLine(u, a, b);
      var t := TurnOf(u, b, rest);
      var shows := TurnShows(rest, t);
      assert (a + ("\n" + b)) + shows == a + ("\n" + (b + shows)) by {
        Assoc(a, "\n" + b, shows);
        Assoc("\n", b, shows);
      }
      ScanOnLine(u, a, b + shows, rest[t.used..]);
    }
  }

  lemma FirstInLine(a: string, x: string, cs: set<char>)
    requires x != "" && x[0] == '\n' && '\n' in cs
    ensures FirstIn(a + x, cs) == FirstIn(a, cs)
  {
    FirstInIs(a + x, cs, FirstIn(a, cs));
  }

  lemma BlankCountInLine(a: string, x: string)
    requires x != "" && x[0] == '\n'
    ensures BlankCount(a + x) == BlankCount(a)
  {
    var n := BlankCount(a);
    assert a + x == a[..n] + (a[n..] + x);
    BlankCountIs(a[..n], a[n..] + x);
  }

  lemma ValueLengthInLine(sep: char, a: string, x: string)
    requires a != "" && x != "" && x[0] == '\n'
    ensures ValueLength(sep, a + x) == ValueLength(sep, a)
  {
    var s := a + x;
    assert s[0] == a[0] && s[|a|] == '\n';
    if a[0] in QUOTES {
      assert s[1..] == a[1..] + x;
      FirstInLine(a[1..], x, {a[0], '\n'});
    } else if sep == ':' {
      FirstInLine(a, x, LINE_ENDS);
    } else {
      FirstInLine(a, x, WHITE_SPACE);
    }
  }

  lemma MaskingTurnIs(s: string, c: char, k: nat, value: string, n: nat)
    requires s != "" && s[0] == c && k == 1 + BlankCount(s[1..]) && k < |s| && s[k..] == value
    requires s[k] !in LINE_ENDS ==> ValueLength(c, value) == n
    ensures MaskingTurn(s) == if s[k] in LINE_ENDS then Turn(k, k, false) else Turn(k, k + n, true)
  {
  }

  lemma MaskInLine(a: string, x: string)
    requires a != "" && x != "" && x[0] == '\n'
    ensures MaskingTurn(a + x) == MaskingTurn(a)
  {
    var s, k := a + x, 1 + BlankCount(a[1..]);
    assert s[0] == a[0];
    WithinFirst(a, x, 1);
    BlankCountInLine(a[1..], x);
    if k < |a| {
      assert s[k] == a[k];
      WithinFirst(a, x, k);
      ValueLengthInLine(a[0], a[k..], x);
      var n := ValueLength(a[0], a[k..]);
      MaskingTurnIs(a, a[0], k, a[k..], n);
      MaskingTurnIs(s, a[0], k, s[k..], n);
    } else {
      assert s[k] == '\n';
    }
  }

  /** No turn reaches across a line break. */
  lemma TurnInLine(u: CharClasses, out: string, a: string, x: string)
    requires a != "" && x != "" && x[0] == '\n'
    ensures TurnOf(u, out, a + x) == TurnOf(u, out, a)
    ensures TurnShows(a + x, TurnOf(u, out, a)) == TurnShows(a, TurnOf(u, out, a))
  {
    if a[0] in SEPARATORS && SecretBefore(u, out) {
      MaskInLine(a, x);
    }
    WithinFirst(a, x, TurnOf(u, out, a).kept);
  }

  lemma {:induction false} ScanAcrossLine(u: CharClasses, out: string, a: string, b: string)
    ensures Scan(u, out, a + ("\n" + b)) == Scan(u, Scan(u, out, a) + "\n", b)
    decreases |a|
  {
    var x := "\n" + b;
    if a == "" {
      assert a + x == x && x[1..] == b;
      CopyTurn(u, out, x);
    } else {
      var t := TurnOf(u, out, a);
      TurnInLine(u, out, a, x);
      OneTurn(u, out, a + x, t);
      assert (a + x)[t.used..] == a[t.used..] + x;
      ScanAcrossLine(u, out + TurnShows(a, t), a[t.used..], b);
    }
  }

  /** Neither a key, a quote nor a value crosses a line break. */
  lemma LineByLine(u: CharClasses, a: string, b: string)
    requires AgreesWithAscii(u)
    ensures Redact(u, a + ("\n" + b)) == Redact(u, a) + ("\n" + Redact(u, b))
  {
    assert !KeyChar(u, '\n');
    ScanAcrossLine(u, "", a, b);
    ScanOnLine(u, Redact(u, a), "", b);
    assert Redact(u, a) + ("\n" + "") == Redact(u, a) + "\n";
  }
}
