/** Which names hold secrets: `segments` and `is_secret_key`. */
module SecretKeys {
  import opened Text

  /**
   The Unicode letter classes, as far as the sources consult them. Everything
   below holds for every classification that agrees with ASCII on ASCII.
   */
  datatype CharClasses =
    CharClasses(alphanumeric: set<char>, uppercase: set<char>, lowercase: set<char>, numeric: set<char>)

  predicate AsciiUpperCase(c: char) { 'A' <= c <= 'Z' }
  predicate AsciiLowerCase(c: char) { 'a' <= c <= 'z' }
  predicate AsciiDigit(c: char) { '0' <= c <= '9' }

  ghost predicate AgreesWithAscii(u: CharClasses) {
    forall c: char | c <= '\U{00007F}' ::
      && (c in u.alphanumeric <==> AsciiUpperCase(c) || AsciiLowerCase(c) || AsciiDigit(c))
      && (c in u.uppercase <==> AsciiUpperCase(c))
      && (c in u.lowercase <==> AsciiLowerCase(c))
      && (c in u.numeric <==> AsciiDigit(c))
  }

  const SECRET_SUBSTRINGS: seq<string> := [
    "password", "passwd", "secret", "token", "apikey", "privatekey", "passphrase", "requirepass", "credential", "auth",
    "pwd"
  ]

  const SECRET_SEGMENTS: seq<string> := ["key", "pass", "auth", "token", "secret", "pwd", "salt", "cookie", "session"]

  function Push(out: seq<string>, current: string): seq<string> {
    if current == "" then out else out + [current]
  }

  /**
   The words of `key`, given the word being collected and whether its last
   character was lowercase or numeric.
   */
  function Words(u: CharClasses, key: string, current: string, previousLower: bool): seq<string> {
    if key == "" then Push([], current)
    else if key[0] !in u.alphanumeric then
      Push([], current) + Words(u, key[1..], "", false)
    else
      var lower := key[0] in u.lowercase || key[0] in u.numeric;
      if key[0] in u.uppercase && previousLower then
        Push([], current) + Words(u, key[1..], [AsciiLower(key[0])], lower)
      else
        Words(u, key[1..], current + [AsciiLower(key[0])], lower)
  }

  function Segments(u: CharClasses, key: string): seq<string> {
    Words(u, key, "", false)
  }

  /** One turn of the loop. */
  lemma WordStep(u: CharClasses, out: seq<string>, key: string, current: string, previousLower: bool)
    requires key != ""
    ensures var low, lower := [AsciiLower(key[0])], key[0] in u.lowercase || key[0] in u.numeric;
            out + Words(u, key, current, previousLower) ==
            if key[0] !in u.alphanumeric then Push(out, current) + Words(u, key[1..], "", false)
            else if key[0] in u.uppercase && previousLower && current != "" then
              (out + [current]) + Words(u, key[1..], low, lower)
            else out + Words(u, key[1..], current + low, lower)
  {
    var low, lower := [AsciiLower(key[0])], key[0] in u.lowercase || key[0] in u.numeric;
    assert out + Push([], current) == Push(out, current);
    assert current == "" ==> current + low == low;
    if key[0] !in u.alphanumeric {
      Assoc(out, Push([], current), Words(u, key[1..], "", false));
    } else if key[0] in u.uppercase && previousLower {
      var rest := Words(u, key[1..], low, lower);
      Assoc(out, Push([], current), rest);
      assert [] + rest == rest;
    }
  }

  /** The `segments` loop. */
  method ComputeSegments(u: CharClasses, key: string) returns (out: seq<string>)
    ensures out == Segments(u, key)
  {
    out := [];
    var current := "";
    var previousLower := false;
    for i := 0 to |key|
      invariant out + Words(u, key[i..], current, previousLower) == Segments(u, key)
    {
      var ch := key[i];
      assert key[i..][1..] == key[i + 1..];
      WordStep(u, out, key[i..], current, previousLower);
      if ch !in u.alphanumeric {
        if current != "" {
          out := out + [current];
          current := "";
        }
        previousLower := false;
      } else {
        if ch in u.uppercase && previousLower && current != "" {
          out := out + [current];
          current := "";
        }
        assert current == "" ==> current + [AsciiLower(ch)] == [AsciiLower(ch)];
        previousLower := ch in u.lowercase || ch in u.numeric;
        current := current + [AsciiLower(ch)];
      }
    }
    if current != "" {
      out := out + [current];
    }
  }

  /** `key` with everything but its letters and digits dropped, in lowercase. */
  function Normalised(u: CharClasses, key: string): string {
    if key == "" then ""
    else (if key[0] in u.alphanumeric then [AsciiLower(key[0])] else "") + Normalised(u, key[1..])
  }

  function Joined(words: seq<string>): string {
    if words == [] then "" else words[0] + Joined(words[1..])
  }

  lemma {:induction false} JoinedAppend(a: seq<string>, b: seq<string>)
    ensures Joined(a + b) == Joined(a) + Joined(b)
  {
    if a == [] {
      assert a + b == b;
    } else {
      assert (a + b)[1..] == a[1..] + b;
      JoinedAppend(a[1..], b);
      Assoc(a[0], Joined(a[1..]), Joined(b));
    }
  }

  lemma JoinedPush(w: string)
    ensures Joined(Push([], w)) == w
  {
    if w != "" {
      assert Push([], w) == [w];
      assert Joined([w]) == w + Joined([]);
    }
  }

  lemma {:induction false} WordsJoin(u: CharClasses, key: string, current: string, previousLower: bool)
    ensures Joined(Words(u, key, current, previousLower)) == current + Normalised(u, key)
    decreases |key|
  {
    JoinedPush(current);
    if key == "" {
    } else {
      var c := [AsciiLower(key[0])];
      var lower := key[0] in u.lowercase || key[0] in u.numeric;
      var rest := Normalised(u, key[1..]);
      if key[0] !in u.alphanumeric {
        WordsJoin(u, key[1..], "", false);
        JoinedAppend(Push([], current), Words(u, key[1..], "", false));
      } else if key[0] in u.uppercase && previousLower {
        WordsJoin(u, key[1..], c, lower);
        JoinedAppend(Push([], current), Words(u, key[1..], c, lower));
      } else {
        WordsJoin(u, key[1..], current + c, lower);
        Assoc(current, c, rest);
      }
    }
  }

  /** The words of a name, run together, are the name stripped and lowered. */
  lemma SegmentsJoin(u: CharClasses, key: string)
    ensures Joined(Segments(u, key)) == Normalised(u, key)
  {
    WordsJoin(u, key, "", false);
  }

  /** A separator ends a word and starts afresh, whatever is on either side. */
  lemma {:induction false} SeparatorSplits(u: CharClasses, a: string, c: char, b: string, current: string,
                                           previousLower: bool)
    requires c !in u.alphanumeric
    ensures Words(u, a + ([c] + b), current, previousLower) == Words(u, a, current, previousLower) + Segments(u, b)
    decreases |a|
  {
    var s := a + ([c] + b);
    if a == "" {
      assert s == [c] + b && s[1..] == b;
    } else {
      assert s[1..] == a[1..] + ([c] + b);
      var low := [AsciiLower(a[0])];
      var lower := a[0] in u.lowercase || a[0] in u.numeric;
      if a[0] !in u.alphanumeric {
        SeparatorSplits(u, a[1..], c, b, "", false);
      } else if a[0] in u.uppercase && previousLower {
        SeparatorSplits(u, a[1..], c, b, low, lower);
      } else {
        SeparatorSplits(u, a[1..], c, b, current + low, lower);
      }
    }
  }

  /** A capital after a small letter or a digit starts a word. */
  lemma {:induction false} CamelCaseSplits(u: CharClasses, a: string, b: string, current: string, previousLower: bool)
    requires a != "" && b != "" && b[0] in u.alphanumeric && b[0] in u.uppercase
    requires var z := a[|a| - 1]; z in u.alphanumeric && (z in u.lowercase || z in u.numeric)
    ensures Words(u, a + b, current, previousLower) == Words(u, a, current, previousLower) + Segments(u, b)
    decreases |a|
  {
    var s := a + b;
    assert s[1..] == a[1..] + b;
    var low := [AsciiLower(a[0])];
    var lower := a[0] in u.lowercase || a[0] in u.numeric;
    if |a| == 1 {
      assert a[1..] == "" && s[1..] == b;
      var first := "" + [AsciiLower(b[0])];
      assert first == [AsciiLower(b[0])];
      var word := if a[0] in u.uppercase && previousLower then low else current + low;
      assert Words(u, b, word, true) == Push([], word) + Segments(u, b);
      assert Words(u, "", word, true) == Push([], word);
      Assoc(Push([], current), Push([], word), Segments(u, b));
    } else if a[0] !in u.alphanumeric {
      CamelCaseSplits(u, a[1..], b, "", false);
    } else if a[0] in u.uppercase && previousLower {
      CamelCaseSplits(u, a[1..], b, low, lower);
    } else {
      CamelCaseSplits(u, a[1..], b, current + low, lower);
    }
  }

  function StripDashes(key: string): string {
    if key != "" && key[0] == '-' then StripDashes(key[1..]) else key
  }

  predicate SecretWords(normalised: string, words: seq<string>) {
    || (exists i | 0 <= i < |SECRET_SUBSTRINGS| :: Contains(normalised, SECRET_SUBSTRINGS[i]))
    || (exists i | 0 <= i < |words| :: words[i] in SECRET_SEGMENTS)
  }

  /** `is_secret_key`. */
  predicate IsSecretKey(u: CharClasses, key: string) {
    var bare := StripDashes(key);
    SecretWords(Normalised(u, bare), Segments(u, bare))
  }

  lemma {:induction false} DashesAreSeparators(u: CharClasses, key: string)
    requires '-' !in u.alphanumeric
    ensures Segments(u, StripDashes(key)) == Segments(u, key)
  {
    if key == "" || key[0] != '-' {
    } else {
      DashesAreSeparators(u, key[1..]);
    }
  }

  /**
   The verdict depends on the words alone, so every way of writing the same
   words - `AUTH_TOKEN`, `auth-token`, `authToken`, `--auth.token` - gets the
   same one.
   */
  lemma VerdictDependsOnTheWords(u: CharClasses, a: string, b: string)
    requires AgreesWithAscii(u)
    requires Segments(u, a) == Segments(u, b)
    ensures IsSecretKey(u, a) == IsSecretKey(u, b)
  {
    assert '-' !in u.alphanumeric;
    DashesAreSeparators(u, a);
    DashesAreSeparators(u, b);
    SegmentsJoin(u, StripDashes(a));
    SegmentsJoin(u, StripDashes(b));
  }
}
