/** `sanitize_text`: the three passes in their order. */
module SanitizeText {
  import opened Text
  import opened Redaction
  import opened SecretKeys
  import Pem
  import UrlUserinfo
  import UrlPasswords
  import KeyValue
  import KeyValueTheorems
  import SecretNames

  function Sanitized(u: CharClasses, text: string): string {
    KeyValue.Redact(u, UrlUserinfo.Redact(Pem.Redact(text)))
  }

  method Sanitize(u: CharClasses, text: string) returns (out: string)
    ensures out == Sanitized(u, text)
  {
    out := Pem.RedactPemBlocks(text);
    out := UrlUserinfo.RedactUrlUserinfo(out);
    out := KeyValue.RedactKeyValuePairs(u, out);
  }

  /** The two later passes bring in no marker that the text did not have. */
  lemma LaterPassesInventNothing(u: CharClasses, text: string, m: string)
    requires m != "" && '*' !in m
    requires Contains(KeyValue.Redact(u, UrlUserinfo.Redact(text)), m)
    ensures Contains(text, m)
  {
    var url := UrlUserinfo.Redact(text);
    KeyValueTheorems.CutsAreThePass(u, "", url);
    var cuts := KeyValueTheorems.Cuts(u, "", url);
    assert "" + Render(cuts) == Render(cuts);
    NothingInvented(cuts, m);
    UrlUserinfo.CutsAreThePass(text);
    NothingInvented(UrlUserinfo.Cuts(text), m);
  }

  /** Whatever the text, nothing that starts a PEM block is left in the result. */
  lemma MarkerFree(u: CharClasses, text: string)
    ensures !Contains(Sanitized(u, text), Pem.BEGIN)
  {
    Pem.NoMarkerSurvives(text);
    if Contains(Sanitized(u, text), Pem.BEGIN) {
      LaterPassesInventNothing(u, Pem.Redact(text), Pem.BEGIN);
      assert false;
    }
  }

  /** A string without stars that the result shows was in the text. */
  lemma InventsNothing(u: CharClasses, text: string, m: string)
    requires m != "" && '*' !in m
    requires Contains(Sanitized(u, text), m)
    ensures Contains(text, m)
  {
    LaterPassesInventNothing(u, Pem.Redact(text), m);
    Pem.BlocksAreThePass(text);
    NothingInvented(Pem.Blocks(text), m);
  }

  lemma LinesHaveNoMarker(a: string, b: string, m: string)
    requires !Contains(a + ("\n" + b), m)
    ensures !Contains(a, m) && !Contains(b, m)
  {
    forall i | 0 <= i <= |a|
      ensures !At(a, i, m)
    {
      if i + |m| <= |a| {
        AtPrefix(a, "\n" + b, i, m);
        assert !At(a + ("\n" + b), i, m);
      }
    }
    forall i | 0 <= i <= |b|
      ensures !At(b, i, m)
    {
      var j := |a| + 1 + i;
      Assoc(a, "\n", b);
      AtSuffix(a + "\n", b, j, m);
      assert !At(a + ("\n" + b), j, m);
    }
  }

  /** Without a PEM block, every line is sanitized by itself. */
  lemma LineByLine(u: CharClasses, a: string, b: string)
    requires AgreesWithAscii(u)
    requires !Contains(a + ("\n" + b), Pem.BEGIN)
    ensures Sanitized(u, a + ("\n" + b)) == Sanitized(u, a) + ("\n" + Sanitized(u, b))
  {
    LinesHaveNoMarker(a, b, Pem.BEGIN);
    Pem.NoMarkerNoChange(a + ("\n" + b));
    Pem.NoMarkerNoChange(a);
    Pem.NoMarkerNoChange(b);
    UrlUserinfo.LineByLine(a, b);
    KeyValueTheorems.LineByLine(u, UrlUserinfo.Redact(a), UrlUserinfo.Redact(b));
  }

  // --- A secret value does not show in the result.

  /** Nothing equal to `m` begins in `s`, with `post` behind it. */
  predicate NoneBegins(m: string, s: string, post: string) {
    forall j | 0 <= j < |s| :: !At(s + post, j, m)
  }

  /** A value behind a separator, with `x` in front of it that the URL pass copies as well. */
  function Assignment(a: string, x: string, sep: char, blanks: string, v: string, post: string): string {
    (a + x) + ([sep] + (blanks + (v + post)))
  }

  lemma Regrouped(a: string, x: string, sep: char, blanks: string, v: string, post: string)
    ensures Assignment(a, x, sep, blanks, v, post) == a + ((x + [sep]) + ((blanks + v) + post))
  {
    Assoc(blanks, v, post);
    Assoc(x, [sep], (blanks + v) + post);
    Assoc(a, x, [sep] + (blanks + (v + post)));
  }

  lemma FormKept(sep: char, v: string, post: string)
    requires KeyValueTheorems.ValueForm(sep, v, post)
    ensures KeyValueTheorems.ValueForm(sep, v, UrlUserinfo.Redact(post))
  {
    if post == "" {
    } else {
      UrlUserinfo.FirstCharacterKept(post);
    }
  }

  lemma FormKeptByBlocks(sep: char, v: string, post: string)
    requires KeyValueTheorems.ValueForm(sep, v, post)
    ensures KeyValueTheorems.ValueForm(sep, v, Pem.Redact(post))
  {
    if post == "" || post[0] == '-' {
    } else {
      Pem.FirstCharacterKept(post);
    }
  }

  // --- What the second pass makes of a value.

  lemma HasCharacter(s: string, c: char)
    ensures Contains(s, [c]) <==> c in s
  {
    if c in s {
      var i :| 0 <= i < |s| && s[i] == c;
      assert s[i..i + 1] == [c];
      assert At(s, i, [c]);
    }
    if Contains(s, [c]) {
      var i :| 0 <= i <= |s| && At(s, i, [c]);
      assert s[i..i + 1][0] == s[i];
    }
  }

  /** A character other than a star that the pass shows was there. */
  lemma ShownWasThere(s: string, c: char)
    requires c != '*' && c in UrlUserinfo.Redact(s)
    ensures c in s
  {
    HasCharacter(UrlUserinfo.Redact(s), c);
    UrlUserinfo.CutsAreThePass(s);
    NothingInvented(UrlUserinfo.Cuts(s), [c]);
    HasCharacter(s, c);
  }

  lemma NoneShown(s: string, cs: set<char>)
    requires '*' !in cs && forall i | 0 <= i < |s| :: s[i] !in cs
    ensures var w := UrlUserinfo.Redact(s); forall i | 0 <= i < |w| :: w[i] !in cs
  {
    var w := UrlUserinfo.Redact(s);
    forall i | 0 <= i < |w|
      ensures w[i] !in cs
    {
      if w[i] in cs {
        ShownWasThere(s, w[i]);
        assert false;
      }
    }
  }

  /** What the pass does on the left of a divider or of the end stays there. */
  predicate Settled(v: string, post: string) {
    || post == "" || UrlUserinfo.Divides(post[0])
    || (v != "" && UrlUserinfo.Divides(v[|v| - 1]))
  }

  lemma SettledApart(v: string, post: string)
    requires Settled(v, post)
    ensures UrlUserinfo.Redact(v + post) == UrlUserinfo.Redact(v) + UrlUserinfo.Redact(post)
  {
    if post == "" {
      assert v + post == v && UrlUserinfo.Redact(v) + "" == UrlUserinfo.Redact(v);
    } else if UrlUserinfo.Divides(post[0]) {
      var t, b := post[0], post[1..];
      assert post == [t] + b && "" + post == post;
      UrlUserinfo.DividedApart(v, t, b);
      UrlUserinfo.DividedApart("", t, b);
      assert "" + ([t] + UrlUserinfo.Redact(b)) == [t] + UrlUserinfo.Redact(b);
    } else {
      var n := |v| - 1;
      var a, t := v[..n], v[n];
      assert v == a + [t] && [t] + "" == [t];
      Assoc(a, [t], post);
      UrlUserinfo.DividedApart(a, t, post);
      UrlUserinfo.DividedApart(a, t, "");
      Assoc(UrlUserinfo.Redact(a), [t], UrlUserinfo.Redact(post));
    }
  }

  lemma FrontCopied(front: string, v: string)
    requires NoneBegins(UrlUserinfo.SCHEME, front, v)
    ensures UrlUserinfo.Redact(front + v) == front + UrlUserinfo.Redact(v)
  {
    UrlUserinfo.PrefixCopied(front, v);
  }

  /** A scheme that begins in front of the value begins with the separator. */
  lemma FrontHasNoScheme(sep: char, blanks: string, v: string)
    requires KeyValueTheorems.AllBlank(blanks) && v != "" && !(sep == ':' && blanks == "" && v[0] == '/')
    ensures NoneBegins(UrlUserinfo.SCHEME, [sep] + blanks, v)
  {
    var s := ([sep] + blanks) + v;
    forall j | 0 <= j < 1 + |blanks|
      ensures !At(s, j, UrlUserinfo.SCHEME)
    {
      if j == 0 {
        assert blanks == "" ==> s[1] == v[0];
        assert blanks != "" ==> s[1] == blanks[0];
        if sep == ':' {
          NotAt(s, 0, UrlUserinfo.SCHEME, 1);
        } else {
          NotAt(s, 0, UrlUserinfo.SCHEME, 0);
        }
      } else {
        assert s[j] == blanks[j - 1];
        NotAt(s, j, UrlUserinfo.SCHEME, 0);
      }
    }
  }

  lemma QuoteCopied(q: char, b: string)
    requires q in KeyValue.QUOTES
    ensures UrlUserinfo.Redact([q] + b) == [q] + UrlUserinfo.Redact(b)
  {
    UrlUserinfo.DividedApart("", q, b);
    assert "" + ([q] + b) == [q] + b && "" + ([q] + UrlUserinfo.Redact(b)) == [q] + UrlUserinfo.Redact(b);
  }

  lemma BodyShown(q: char, body: string)
    requires q in KeyValue.QUOTES && q !in body && '\n' !in body
    ensures q !in UrlUserinfo.Redact(body) && '\n' !in UrlUserinfo.Redact(body)
  {
    NoneShown(body, {q, '\n'});
  }

  /** A value in quotes stays one. */
  lemma ClosedStays(sep: char, q: char, body: string, post: string)
    requires q in KeyValue.QUOTES && q !in body && '\n' !in body
    ensures KeyValueTheorems.ValueForm(sep, UrlUserinfo.Redact([q] + (body + [q])), post)
  {
    var w := UrlUserinfo.Redact(body);
    QuoteCopied(q, body + [q]);
    UrlUserinfo.DividedApart(body, q, "");
    assert [q] + "" == [q];
    BodyShown(q, body);
    KeyValueTheorems.ClosedQuoteOf(q, w);
    Assoc([q], w, [q]);
  }

  /** So does one whose quote is not closed. */
  lemma OpenStays(sep: char, q: char, body: string, post: string)
    requires q in KeyValue.QUOTES && q !in body && '\n' !in body && (post == "" || post[0] == '\n')
    ensures KeyValueTheorems.ValueForm(sep, UrlUserinfo.Redact([q] + body), post)
  {
    var w := UrlUserinfo.Redact(body);
    QuoteCopied(q, body);
    BodyShown(q, body);
    assert forall i | 1 <= i < |[q] + w| :: ([q] + w)[i] == w[i - 1];
  }

  lemma QuotedStays(sep: char, v: string, post: string)
    requires KeyValueTheorems.ValueForm(sep, v, post) && v[0] in KeyValue.QUOTES
    ensures KeyValueTheorems.ValueForm(sep, UrlUserinfo.Redact(v), post)
  {
    var q, b := v[0], v[1..];
    assert v == [q] + b && forall i | 0 <= i < |b| :: b[i] == v[i + 1];
    if KeyValueTheorems.ClosedQuote(v) {
      var body := b[..|b| - 1];
      assert b == body + [q];
      ClosedStays(sep, q, body, post);
    } else {
      OpenStays(sep, q, b, post);
    }
  }

  lemma PlainForm(sep: char, v: string, w: string, post: string)
    requires KeyValueTheorems.ValueForm(sep, v, post) && v[0] !in KeyValue.QUOTES && w != "" && w[0] == v[0]
    requires forall i | 0 <= i < |w| :: w[i] !in (if sep == ':' then KeyValue.LINE_ENDS else WHITE_SPACE)
    ensures KeyValueTheorems.ValueForm(sep, w, post)
  {
  }

  /** An unquoted value stays one. */
  lemma PlainStays(sep: char, v: string, post: string)
    requires KeyValueTheorems.ValueForm(sep, v, post) && v[0] !in KeyValue.QUOTES
    ensures KeyValueTheorems.ValueForm(sep, UrlUserinfo.Redact(v), post)
  {
    UrlUserinfo.FirstCharacterKept(v);
    NoneShown(v, if sep == ':' then KeyValue.LINE_ENDS else WHITE_SPACE);
    PlainForm(sep, v, UrlUserinfo.Redact(v), post);
  }

  /** The character behind a colon is kept. */
  lemma SecondCharacterKept(v: string)
    requires v != ""
    ensures |UrlUserinfo.Redact(":" + v)| > 1 && UrlUserinfo.Redact(":" + v)[1] == v[0]
  {
    var s := ":" + v;
    var found := Find(s, UrlUserinfo.SCHEME);
    if found.Some? {
      UrlPasswords.PartKeepsScheme(s, found.value);
    }
  }

  lemma GluedForm(shown: string, post: string)
    requires |shown| > 1 && shown[0] == ':' && shown[1] == '/'
    requires forall i | 0 <= i < |shown| :: shown[i] !in KeyValue.LINE_ENDS
    requires post == "" || post[0] in KeyValue.LINE_ENDS
    ensures shown == ":" + shown[1..] && KeyValueTheorems.ValueForm(':', shown[1..], post)
  {
  }

  /** With its separator a value may begin a scheme; it stays a value. */
  lemma GluedStays(v: string, post: string) returns (w: string)
    requires KeyValueTheorems.ValueForm(':', v, post) && v[0] == '/'
    ensures UrlUserinfo.Redact(":" + v) == ":" + w && KeyValueTheorems.ValueForm(':', w, post)
  {
    var s := ":" + v;
    assert forall i | 0 <= i < |s| :: s[i] !in KeyValue.LINE_ENDS by {
      assert forall i | 0 < i < |s| :: s[i] == v[i - 1];
    }
    NoneShown(s, KeyValue.LINE_ENDS);
    UrlUserinfo.FirstCharacterKept(s);
    SecondCharacterKept(v);
    GluedForm(UrlUserinfo.Redact(s), post);
    w := UrlUserinfo.Redact(s)[1..];
  }

  /** The separator, the blanks and a value behind the second pass. */
  lemma ValueStays(sep: char, blanks: string, v: string, post: string) returns (w: string)
    requires KeyValueTheorems.AllBlank(blanks) && KeyValueTheorems.ValueForm(sep, v, post)
    ensures UrlUserinfo.Redact([sep] + (blanks + v)) == [sep] + (blanks + w)
    ensures KeyValueTheorems.ValueForm(sep, w, post)
  {
    Assoc([sep], blanks, v);
    if sep == ':' && blanks == "" && v[0] == '/' {
      w := GluedStays(v, post);
      assert blanks + v == v && blanks + w == w;
    } else {
      FrontHasNoScheme(sep, blanks, v);
      FrontCopied([sep] + blanks, v);
      w := UrlUserinfo.Redact(v);
      Assoc([sep], blanks, w);
      if v[0] in KeyValue.QUOTES {
        QuotedStays(sep, v, post);
      } else {
        PlainStays(sep, v, post);
      }
    }
  }

  /** No scheme begins in the value or with its separator, or what the pass does there is settled behind it. */
  predicate StaysApart(sep: char, blanks: string, v: string, post: string) {
    NoneBegins(UrlUserinfo.SCHEME, [sep] + (blanks + v), post) || Settled(v, post)
  }

  lemma AssignmentStays(sep: char, blanks: string, v: string, post: string) returns (w: string)
    requires KeyValueTheorems.AllBlank(blanks) && KeyValueTheorems.ValueForm(sep, v, post)
    requires StaysApart(sep, blanks, v, post)
    ensures UrlUserinfo.Redact(([sep] + (blanks + v)) + post) == ([sep] + (blanks + w)) + UrlUserinfo.Redact(post)
    ensures KeyValueTheorems.ValueForm(sep, w, UrlUserinfo.Redact(post))
  {
    var all := [sep] + (blanks + v);
    if NoneBegins(UrlUserinfo.SCHEME, all, post) {
      FrontCopied(all, post);
      w := v;
    } else {
      assert all[|all| - 1] == v[|v| - 1];
      SettledApart(all, post);
      w := ValueStays(sep, blanks, v, post);
    }
    FormKept(sep, w, post);
  }

  lemma NoSchemeInFront(x: string, sep: char, rest: string)
    requires !Contains(x, UrlUserinfo.SCHEME) && sep in KeyValue.SEPARATORS
    ensures NoneBegins(UrlUserinfo.SCHEME, x, [sep] + rest)
  {
    var s := x + ([sep] + rest);
    forall j | 0 <= j < |x|
      ensures !At(s, j, UrlUserinfo.SCHEME)
    {
      if j + 3 <= |x| {
        AtPrefix(x, [sep] + rest, j, UrlUserinfo.SCHEME);
      } else {
        assert s[|x|] == sep;
        NotAt(s, j, UrlUserinfo.SCHEME, |x| - j);
      }
    }
  }

  lemma Flattened(x: string, sep: char, blanks: string, v: string, post: string)
    ensures x + (([sep] + (blanks + v)) + post) == (x + [sep]) + ((blanks + v) + post)
    ensures (x + [sep]) + ((blanks + v) + post) == x + ([sep] + (blanks + (v + post)))
  {
    Assoc([sep], blanks + v, post);
    Assoc(blanks, v, post);
    Assoc(x, [sep], (blanks + v) + post);
  }

  /** From where the pass is in front of an assignment, the assignment is left standing. */
  lemma PassLeaves(x: string, sep: char, blanks: string, v: string, post: string) returns (w: string)
    requires sep in KeyValue.SEPARATORS && KeyValueTheorems.AllBlank(blanks) && KeyValueTheorems.ValueForm(sep, v, post)
    requires !Contains(x, UrlUserinfo.SCHEME) && StaysApart(sep, blanks, v, post)
    ensures UrlUserinfo.Redact((x + [sep]) + ((blanks + v) + post)) ==
            x + ([sep] + (blanks + (w + UrlUserinfo.Redact(post))))
    ensures KeyValueTheorems.ValueForm(sep, w, UrlUserinfo.Redact(post))
  {
    w := AssignmentStays(sep, blanks, v, post);
    Flattened(x, sep, blanks, v, post);
    Flattened(x, sep, blanks, w, UrlUserinfo.Redact(post));
    Assoc([sep], blanks + v, post);
    NoSchemeInFront(x, sep, (blanks + v) + post);
    FrontCopied(x, ([sep] + (blanks + v)) + post);
  }

  /** The second pass leaves the assignment standing. */
  lemma BeforeTheLastPass(a: string, o: string, x: string, sep: char, blanks: string, v: string, post: string)
    returns (w: string)
    requires sep in KeyValue.SEPARATORS && KeyValueTheorems.AllBlank(blanks) && KeyValueTheorems.ValueForm(sep, v, post)
    requires !Contains(x, UrlUserinfo.SCHEME) && StaysApart(sep, blanks, v, post)
    requires UrlPasswords.Reaches(Assignment(a, x, sep, blanks, v, post), o, (x + [sep]) + ((blanks + v) + post))
    ensures UrlUserinfo.Redact(Assignment(a, x, sep, blanks, v, post)) ==
            Assignment(o, x, sep, blanks, w, UrlUserinfo.Redact(post))
    ensures KeyValueTheorems.ValueForm(sep, w, UrlUserinfo.Redact(post))
  {
    w := PassLeaves(x, sep, blanks, v, post);
    var rest := [sep] + (blanks + (w + UrlUserinfo.Redact(post)));
    UrlPasswords.ReachesRedact(Assignment(a, x, sep, blanks, v, post), o, (x + [sep]) + ((blanks + v) + post));
    Assoc(o, x, rest);
  }

  lemma AlsoReached(a: string, o: string, x: string, sep: char, blanks: string, v: string, v': string, post: string)
    requires UrlPasswords.Reaches(Assignment(a, x, sep, blanks, v, post), o, (x + [sep]) + ((blanks + v) + post))
    ensures UrlPasswords.Reaches(Assignment(a, x, sep, blanks, v', post), o, (x + [sep]) + ((blanks + v') + post))
  {
    Regrouped(a, x, sep, blanks, v, post);
    Regrouped(a, x, sep, blanks, v', post);
    UrlPasswords.ReachesElsewhere(a, o, x + [sep], (blanks + v) + post, (blanks + v') + post);
  }

  /** Behind the second pass, two values of the same place give the same result. */
  lemma LastPassHides(u: CharClasses, pre: string, out: string, sep: char, blanks: string,
                      v: string, w: string, w': string, post: string)
    requires sep in KeyValue.SEPARATORS && KeyValueTheorems.AllBlank(blanks)
    requires KeyValueTheorems.ValueForm(sep, w, post) && KeyValueTheorems.ValueForm(sep, w', post)
    requires var rest := [sep] + (blanks + (v + post));
             KeyValueTheorems.Reaches(u, "", pre + rest, out, rest) && KeyValue.SecretBefore(u, out)
    ensures KeyValue.Redact(u, pre + ([sep] + (blanks + (w + post)))) ==
            KeyValue.Redact(u, pre + ([sep] + (blanks + (w' + post))))
  {
    var rest, rest' := [sep] + (blanks + (v + post)), [sep] + (blanks + (w + post));
    KeyValueTheorems.ReachesElsewhere(u, "", pre, out, rest, rest');
    KeyValueTheorems.NonInterference(u, pre, out, sep, blanks, w, w', post);
  }

  /** The two later passes. */
  lemma LaterPassesHide(u: CharClasses, a: string, o: string, x: string, out: string, sep: char, blanks: string,
                        v: string, v': string, post: string)
    requires sep in KeyValue.SEPARATORS && KeyValueTheorems.AllBlank(blanks)
    requires KeyValueTheorems.ValueForm(sep, v, post) && KeyValueTheorems.ValueForm(sep, v', post)
    requires !Contains(x, UrlUserinfo.SCHEME) && StaysApart(sep, blanks, v, post) && StaysApart(sep, blanks, v', post)
    requires UrlPasswords.Reaches(Assignment(a, x, sep, blanks, v, post), o, (x + [sep]) + ((blanks + v) + post))
    requires var rest := [sep] + (blanks + (v + UrlUserinfo.Redact(post)));
             KeyValueTheorems.Reaches(u, "", (o + x) + rest, out, rest) && KeyValue.SecretBefore(u, out)
    ensures KeyValue.Redact(u, UrlUserinfo.Redact(Assignment(a, x, sep, blanks, v, post))) ==
            KeyValue.Redact(u, UrlUserinfo.Redact(Assignment(a, x, sep, blanks, v', post)))
  {
    AlsoReached(a, o, x, sep, blanks, v, v', post);
    var w := BeforeTheLastPass(a, o, x, sep, blanks, v, post);
    var w' := BeforeTheLastPass(a, o, x, sep, blanks, v', post);
    LastPassHides(u, o + x, out, sep, blanks, v, w, w', UrlUserinfo.Redact(post));
  }

  /** The first pass replaces the blocks and leaves an assignment in which none begins. */
  lemma FirstPassLeaves(bs: seq<Pem.Armour>, w: string, sep: char, blanks: string, v: string, post: string)
    requires forall i | 0 <= i < |bs| :: Pem.WellArmoured(bs[i])
    requires NoneBegins(Pem.BEGIN, (w + [sep]) + (blanks + v), post)
    ensures Pem.Redact(Assignment(Pem.BlocksText(bs), w, sep, blanks, v, post)) ==
            Assignment(Pem.BlocksShown(bs), w, sep, blanks, v, Pem.Redact(post))
  {
    var region := (w + [sep]) + (blanks + v);
    Regrouped(Pem.BlocksText(bs), w, sep, blanks, v, post);
    Assoc(w + [sep], blanks + v, post);
    Pem.BlocksReplaced(bs, region + post);
    Pem.PrefixCopied(region, post);
    Assoc(w + [sep], blanks + v, Pem.Redact(post));
    Regrouped(Pem.BlocksShown(bs), w, sep, blanks, v, Pem.Redact(post));
  }

  /**
   The value of a secret key does not reach the result, wherever it is in the
   text and whatever blocks and URLs are around it: two values of the same
   form give the same result, if no block begins in them, and if what the URL
   pass does in them is settled where they end.
   */
  lemma NonInterference(u: CharClasses, bs: seq<Pem.Armour>, w: string, a: string, x: string, o: string, out: string,
                        sep: char, blanks: string, v: string, v': string, post: string)
    requires sep in KeyValue.SEPARATORS && KeyValueTheorems.AllBlank(blanks)
    requires KeyValueTheorems.ValueForm(sep, v, post) && KeyValueTheorems.ValueForm(sep, v', post)
    requires forall i | 0 <= i < |bs| :: Pem.WellArmoured(bs[i])
    requires NoneBegins(Pem.BEGIN, (w + [sep]) + (blanks + v), post)
    requires NoneBegins(Pem.BEGIN, (w + [sep]) + (blanks + v'), post)
    requires Pem.BlocksShown(bs) + w == a + x && !Contains(x, UrlUserinfo.SCHEME)
    requires var after := Pem.Redact(post);
             && StaysApart(sep, blanks, v, after) && StaysApart(sep, blanks, v', after)
             && UrlPasswords.Reaches(Assignment(a, x, sep, blanks, v, after), o, (x + [sep]) + ((blanks + v) + after))
    requires var rest := [sep] + (blanks + (v + UrlUserinfo.Redact(Pem.Redact(post))));
             KeyValueTheorems.Reaches(u, "", (o + x) + rest, out, rest) && KeyValue.SecretBefore(u, out)
    ensures Sanitized(u, Assignment(Pem.BlocksText(bs), w, sep, blanks, v, post)) ==
            Sanitized(u, Assignment(Pem.BlocksText(bs), w, sep, blanks, v', post))
  {
    var after := Pem.Redact(post);
    FirstPassLeaves(bs, w, sep, blanks, v, post);
    FirstPassLeaves(bs, w, sep, blanks, v', post);
    FormKeptByBlocks(sep, v, post);
    FormKeptByBlocks(sep, v', post);
    LaterPassesHide(u, a, o, x, out, sep, blanks, v, v', after);
  }

  // --- By conditions on the text alone.

  /** `x` ends in the name of a secret key, perhaps closed by a quote, and no other secret is assigned in it. */
  ghost predicate NamesSecret(u: CharClasses, x: string, before: string, key: string, quotes: string) {
    && x == (before + key) + quotes && (quotes == "" || (|quotes| == 1 && quotes[0] in KeyValue.QUOTES))
    && KeyValueTheorems.Ordinary(u, x) && (before == "" || !KeyValue.KeyChar(u, before[|before| - 1]))
    && key != "" && (forall i | 0 <= i < |key| :: KeyValue.KeyChar(u, key[i])) && IsSecretKey(u, key)
  }

  /**
   Two assignments to the first secret of a text that differ in the value
   only. In front of it there may be URLs, as long as a divider stands behind
   the last of them.
   */
  ghost predicate AssignsSecret(u: CharClasses, a: string, x: string, sep: char, blanks: string,
                                v: string, v': string, post: string) {
    && (a == "" || UrlUserinfo.Divides(a[|a| - 1])) && !Contains(x, UrlUserinfo.SCHEME)
    && (exists before, key, quotes :: NamesSecret(u, UrlUserinfo.Redact(a) + x, before, key, quotes))
    && sep in KeyValue.SEPARATORS && KeyValueTheorems.AllBlank(blanks)
    && KeyValueTheorems.ValueForm(sep, v, post) && KeyValueTheorems.ValueForm(sep, v', post)
    && StaysApart(sep, blanks, v, post) && StaysApart(sep, blanks, v', post)
  }

  lemma NamedIsSecret(u: CharClasses, x: string, before: string, key: string, quotes: string)
    requires AgreesWithAscii(u) && NamesSecret(u, x, before, key, quotes)
    ensures KeyValue.SecretBefore(u, x)
  {
    KeyValueTheorems.JudgesTheName(u, before, key, if quotes == "" then '"' else quotes[0]);
    assert quotes == "" ==> x == before + key;
    assert quotes != "" ==> quotes == [quotes[0]];
  }

  /** Behind a divider the second pass starts afresh. */
  lemma BehindADivider(a: string, x: string, sep: char, blanks: string, v: string, post: string) returns (w: string)
    requires a == "" || UrlUserinfo.Divides(a[|a| - 1])
    requires sep in KeyValue.SEPARATORS && KeyValueTheorems.AllBlank(blanks) && KeyValueTheorems.ValueForm(sep, v, post)
    requires !Contains(x, UrlUserinfo.SCHEME) && StaysApart(sep, blanks, v, post)
    ensures UrlUserinfo.Redact(Assignment(a, x, sep, blanks, v, post)) ==
            Assignment(UrlUserinfo.Redact(a), x, sep, blanks, w, UrlUserinfo.Redact(post))
    ensures KeyValueTheorems.ValueForm(sep, w, UrlUserinfo.Redact(post))
  {
    w := PassLeaves(x, sep, blanks, v, post);
    var all := (x + [sep]) + ((blanks + v) + post);
    Regrouped(a, x, sep, blanks, v, post);
    if a == "" {
      assert a + all == all && UrlUserinfo.Redact(a) == "";
      assert "" + x == x;
    } else {
      SettledApart(a, all);
      Assoc(UrlUserinfo.Redact(a), x, [sep] + (blanks + (w + UrlUserinfo.Redact(post))));
    }
  }

  lemma FirstSecretOfLaterPasses(u: CharClasses, a: string, x: string, sep: char, blanks: string,
                                 v: string, v': string, post: string)
    requires AgreesWithAscii(u) && AssignsSecret(u, a, x, sep, blanks, v, v', post)
    ensures KeyValue.Redact(u, UrlUserinfo.Redact(Assignment(a, x, sep, blanks, v, post))) ==
            KeyValue.Redact(u, UrlUserinfo.Redact(Assignment(a, x, sep, blanks, v', post)))
  {
    var pre := UrlUserinfo.Redact(a) + x;
    var before, key, quotes :| NamesSecret(u, pre, before, key, quotes);
    var rest := [sep] + (blanks + (v + UrlUserinfo.Redact(post)));
    var w := BehindADivider(a, x, sep, blanks, v, post);
    var w' := BehindADivider(a, x, sep, blanks, v', post);
    assert pre[..0] == "" && pre[0..] == pre;
    KeyValueTheorems.OrdinaryPrefixCopied(u, pre, 0, rest);
    NamedIsSecret(u, pre, before, key, quotes);
    LastPassHides(u, pre, pre, sep, blanks, v, w, w', UrlUserinfo.Redact(post));
  }

  /** The first secret of a text with no block before or in it. */
  lemma FirstSecretHidden(u: CharClasses, a: string, x: string, sep: char, blanks: string,
                          v: string, v': string, post: string)
    requires AgreesWithAscii(u) && AssignsSecret(u, a, x, sep, blanks, v, v', Pem.Redact(post))
    requires NoneBegins(Pem.BEGIN, ((a + x) + [sep]) + (blanks + v), post)
    requires NoneBegins(Pem.BEGIN, ((a + x) + [sep]) + (blanks + v'), post)
    ensures Sanitized(u, Assignment(a, x, sep, blanks, v, post)) ==
            Sanitized(u, Assignment(a, x, sep, blanks, v', post))
  {
    assert "" + (a + x) == a + x;
    FirstPassLeaves([], a + x, sep, blanks, v, post);
    FirstPassLeaves([], a + x, sep, blanks, v', post);
    FirstSecretOfLaterPasses(u, a, x, sep, blanks, v, v', Pem.Redact(post));
  }

  /** Blocks, then lines in which none begins, then anything on the next lines. */
  lemma FirstPassOnLines(bs: seq<Pem.Armour>, head: string, line: string, rest: string)
    requires forall i | 0 <= i < |bs| :: Pem.WellArmoured(bs[i])
    requires NoneBegins(Pem.BEGIN, head + ("\n" + (line + "\n")), rest)
    ensures Pem.Redact(Pem.BlocksText(bs) + ((head + ("\n" + (line + "\n"))) + rest)) ==
            (Pem.BlocksShown(bs) + head) + ("\n" + (line + ("\n" + Pem.Redact(rest))))
  {
    var lines := head + ("\n" + (line + "\n"));
    Pem.BlocksReplaced(bs, lines + rest);
    Pem.PrefixCopied(lines, rest);
    Assoc(head, "\n" + (line + "\n"), Pem.Redact(rest));
    Assoc("\n", line + "\n", Pem.Redact(rest));
    Assoc(line, "\n", Pem.Redact(rest));
    Assoc(Pem.BlocksShown(bs), head, "\n" + (line + ("\n" + Pem.Redact(rest))));
  }

  lemma LaterPassesOnLines(u: CharClasses, a: string, b: string, c: string)
    requires AgreesWithAscii(u)
    ensures KeyValue.Redact(u, UrlUserinfo.Redact(a + ("\n" + (b + ("\n" + c))))) ==
            KeyValue.Redact(u, UrlUserinfo.Redact(a)) +
            ("\n" + (KeyValue.Redact(u, UrlUserinfo.Redact(b)) + ("\n" + KeyValue.Redact(u, UrlUserinfo.Redact(c)))))
  {
    UrlUserinfo.LineByLine(b, c);
    UrlUserinfo.LineByLine(a, b + ("\n" + c));
    var ua, ub, uc := UrlUserinfo.Redact(a), UrlUserinfo.Redact(b), UrlUserinfo.Redact(c);
    KeyValueTheorems.LineByLine(u, ub, uc);
    KeyValueTheorems.LineByLine(u, ua, ub + ("\n" + uc));
  }

  /** Two lines that differ only in the value of their first secret. */
  ghost predicate SecretLines(u: CharClasses, line: string, line': string) {
    exists a, x, sep, blanks, v, v', post ::
      && AssignsSecret(u, a, x, sep, blanks, v, v', post)
      && line == Assignment(a, x, sep, blanks, v, post) && line' == Assignment(a, x, sep, blanks, v', post)
  }

  /** They are treated alike: the secret does not show. */
  lemma SecretLinesAlike(u: CharClasses, line: string, line': string)
    requires AgreesWithAscii(u) && SecretLines(u, line, line')
    ensures KeyValue.Redact(u, UrlUserinfo.Redact(line)) == KeyValue.Redact(u, UrlUserinfo.Redact(line'))
  {
    var a, x, sep, blanks, v, v', post :| && AssignsSecret(u, a, x, sep, blanks, v, v', post)
      && line == Assignment(a, x, sep, blanks, v, post) && line' == Assignment(a, x, sep, blanks, v', post);
    FirstSecretOfLaterPasses(u, a, x, sep, blanks, v, v', post);
  }

  /**
   A line outside of blocks may be exchanged for one that the later passes
   treat alike, such as one with another first secret: earlier and later lines
   may hold anything, blocks, URLs and secrets.
   */
  lemma LineExchanged(u: CharClasses, bs: seq<Pem.Armour>, head: string, line: string, line': string, rest: string)
    requires AgreesWithAscii(u) && forall i | 0 <= i < |bs| :: Pem.WellArmoured(bs[i])
    requires NoneBegins(Pem.BEGIN, head + ("\n" + (line + "\n")), rest)
    requires NoneBegins(Pem.BEGIN, head + ("\n" + (line' + "\n")), rest)
    requires KeyValue.Redact(u, UrlUserinfo.Redact(line)) == KeyValue.Redact(u, UrlUserinfo.Redact(line'))
    ensures Sanitized(u, Pem.BlocksText(bs) + ((head + ("\n" + (line + "\n"))) + rest)) ==
            Sanitized(u, Pem.BlocksText(bs) + ((head + ("\n" + (line' + "\n"))) + rest))
  {
    FirstPassOnLines(bs, head, line, rest);
    FirstPassOnLines(bs, head, line', rest);
    LaterPassesOnLines(u, Pem.BlocksShown(bs) + head, line, Pem.Redact(rest));
    LaterPassesOnLines(u, Pem.BlocksShown(bs) + head, line', Pem.Redact(rest));
  }

  // --- Where the conditions are needed.

  /** A secret name that no block and no scheme has a part in. */
  ghost predicate PlainName(u: CharClasses, key: string) {
    && AgreesWithAscii(u) && key != "" && (forall i | 0 <= i < |key| :: KeyValue.KeyChar(u, key[i]))
    && IsSecretKey(u, key) && '-' !in key && ':' !in key
  }

  lemma NoDashNoBlock(text: string)
    requires '-' !in text
    ensures !Contains(text, Pem.BEGIN) && Pem.Redact(text) == text
  {
    forall j | 0 <= j <= |text|
      ensures !At(text, j, Pem.BEGIN)
    {
      NotAt(text, j, Pem.BEGIN, 0);
    }
    Pem.NoMarkerNoChange(text);
  }

  /** The third pass on one assignment. */
  lemma OneAssignment(u: CharClasses, key: string, v: string, post: string)
    requires PlainName(u, key) && KeyValueTheorems.ValueForm('=', v, post)
    requires forall i | 0 <= i < |post| :: post[i] !in KeyValue.SEPARATORS
    ensures KeyValue.Redact(u, key + ("=" + (v + post))) == (key + ("=" + REDACTED)) + post
  {
    KeyValueTheorems.NameFirst(u, key, "=" + (v + post));
    assert "" + (v + post) == v + post && "=" + "" == "=";
    KeyValueTheorems.ValueMasked(u, key, '=', "", v, post);
    KeyValueTheorems.NoSeparatorCopied(u, key + ("=" + REDACTED), post);
  }

  /** An ordinary value, and what becomes of the text. */
  lemma PlainAssignment(u: CharClasses, key: string, v: string, post: string)
    requires PlainName(u, key) && KeyValueTheorems.ValueForm('=', v, post)
    requires forall i | 0 <= i < |v + post| :: (v + post)[i] !in KeyValue.SEPARATORS && (v + post)[i] != '-'
    ensures Sanitized(u, key + ("=" + (v + post))) == (key + ("=" + REDACTED)) + post
  {
    var text := key + ("=" + (v + post));
    assert forall i | 0 <= i < |post| :: post[i] == (v + post)[|v| + i];
    NoDashNoBlock(text);
    UrlPasswords.NoColonNoScheme(text);
    OneAssignment(u, key, v, post);
  }

  lemma UnsettledText()
    ensures "://b:c" + "\rd@h" == UrlPasswords.Login("b") + ("c\rd" + ("@" + "h"))
    ensures UrlPasswords.LoginShown("b", "c\rd") + "h" == "://b:***@h"
    ensures UrlPasswords.CleanPassword("c\rd") && ':' !in "b"
    ensures KeyValueTheorems.ValueForm('=', "://b:***@h", "") && KeyValueTheorems.ValueForm('=', "q", "\rd@h")
  {
  }

  lemma UrlOfUnsettled(key: string, text: string)
    requires ':' !in key && text == key + ("=" + ("://b:c" + "\rd@h"))
    ensures UrlUserinfo.Redact(text) == key + ("=" + "://b:***@h")
  {
    var p, tail := key + "=", "c\rd" + ("@" + "h");
    UnsettledText();
    Assoc(key, "=", UrlPasswords.Login("b") + tail);
    Assoc(key, "=", "://b:***@h");
    UrlPasswords.NoColonNoScheme(p);
    UrlPasswords.NoColonNoScheme("h");
    UrlPasswords.LoginIsScheme("b", tail);
    UrlPasswords.LoginRedacted("b", "c\rd", "h");
    UrlPasswords.CopiedBefore(p, "b" + (":" + tail));
  }

  /** A scheme in a value that the value's end does not settle: what is behind it goes as well. */
  lemma SchemeRunsOn(u: CharClasses, key: string)
    requires PlainName(u, key)
    ensures Sanitized(u, key + ("=" + ("://b:c" + "\rd@h"))) == key + ("=" + REDACTED)
    ensures Sanitized(u, key + ("=" + ("q" + "\rd@h"))) == (key + ("=" + REDACTED)) + "\rd@h"
  {
    var text := key + ("=" + ("://b:c" + "\rd@h"));
    UnsettledText();
    assert forall i | 0 <= i < |"://b:c" + "\rd@h"| :: ("://b:c" + "\rd@h")[i] != '-';
    NoDashNoBlock(text);
    UrlOfUnsettled(key, text);
    assert "://b:***@h" + "" == "://b:***@h";
    OneAssignment(u, key, "://b:***@h", "");
    assert (key + ("=" + REDACTED)) + "" == key + ("=" + REDACTED);
    PlainAssignment(u, key, "q", "\rd@h");
  }

  lemma HasNoEnd(s: string)
    requires '-' !in s
    ensures !Contains(s, Pem.END)
  {
    forall j | 0 <= j <= |s|
      ensures !At(s, j, Pem.END)
    {
      NotAt(s, j, Pem.END, 0);
    }
  }

  lemma BlockText(key: string, text: string)
    requires '-' !in key && text == key + ("=" + (Pem.BEGIN + " x"))
    ensures Pem.Redact(text) == key + ("=" + REDACTED)
  {
    NoDashNoBlock(key + "=");
    NoDashNoBlock(" x");
    HasNoEnd(" x");
    Assoc(key, "=", Pem.BEGIN + " x");
    Pem.TruncatedBlockRedactsToTheEnd(key + "=", " x");
    Assoc(key, "=", REDACTED);
  }

  /** The later passes leave a mask alone. */
  lemma MaskAlone(u: CharClasses, key: string, masked: string)
    requires PlainName(u, key) && masked == key + ("=" + REDACTED)
    ensures KeyValue.Redact(u, UrlUserinfo.Redact(masked)) == masked
  {
    UrlPasswords.NoColonNoScheme(masked);
    assert REDACTED + "" == REDACTED && masked + "" == masked;
    OneAssignment(u, key, REDACTED, "");
  }

  /** A block that begins in a value takes what is behind it as well. */
  lemma BlockRunsOn(u: CharClasses, key: string)
    requires PlainName(u, key)
    ensures Sanitized(u, key + ("=" + (Pem.BEGIN + " x"))) == key + ("=" + REDACTED)
    ensures Sanitized(u, key + ("=" + ("q" + " x"))) == (key + ("=" + REDACTED)) + " x"
  {
    assert Sanitized(u, key + ("=" + (Pem.BEGIN + " x"))) == key + ("=" + REDACTED) by {
      BlockText(key, key + ("=" + (Pem.BEGIN + " x")));
      MaskAlone(u, key, key + ("=" + REDACTED));
    }
    assert Sanitized(u, key + ("=" + ("q" + " x"))) == (key + ("=" + REDACTED)) + " x" by {
      PlainAssignment(u, key, "q", " x");
    }
  }

  lemma PasswordText()
    ensures "password=hunter2" == "password" + ("=" + ("hunter2" + ""))
    ensures "password=***" == ("password" + ("=" + REDACTED)) + ""
    ensures KeyValueTheorems.ValueForm('=', "hunter2", "")
  {
  }

  /** The simplest case, in its own words. */
  lemma PasswordMasked(u: CharClasses, text: string)
    requires AgreesWithAscii(u) && text == "password=hunter2"
    ensures Sanitized(u, text) == "password=***"
  {
    PasswordText();
    SecretNames.SecretByAPart(u);
    PlainAssignment(u, "password", "hunter2", "");
  }
}
