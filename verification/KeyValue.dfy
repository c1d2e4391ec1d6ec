/**
 The third pass: the value half of `KEY=VALUE` and `KEY: VALUE`. The scanner
 reads the key back from its own output, so a turn of it is a function of
 the output so far and the rest of the input.
 */
module KeyValue {
  import opened Text
  import opened Redaction
  import opened SecretKeys

  const SEPARATORS: set<char> := {'=', ':'}
  const QUOTES: set<char> := {'"', '\''}
  const BLANKS: set<char> := {' ', '\t'}
  const LINE_ENDS: set<char> := {'\n', '\r'}

  predicate KeyChar(u: CharClasses, c: char) {
    c in u.alphanumeric || c == '_' || c == '-' || c == '.'
  }

  /** The longest run of key characters at the end of `out`. */
  function TrailingKey(u: CharClasses, out: string): string {
    if out == "" || !KeyChar(u, out[|out| - 1]) then ""
    else TrailingKey(u, out[..|out| - 1]) + [out[|out| - 1]]
  }

  /** `out` without one closing quote. */
  function StepOverQuote(out: string): string {
    if out != "" && out[|out| - 1] in QUOTES then out[..|out| - 1] else out
  }

  /** The output so far ends in a key that reads as a secret. */
  predicate SecretBefore(u: CharClasses, out: string) {
    var key := TrailingKey(u, StepOverQuote(out));
    key != "" && IsSecretKey(u, key)
  }

  function BlankCount(s: string): (n: nat)
    ensures n <= |s| && (n < |s| ==> s[n] !in BLANKS)
    ensures forall j | 0 <= j < n :: s[j] in BLANKS
  {
    if s != "" && s[0] in BLANKS then 1 + BlankCount(s[1..]) else 0
  }

  /** How much of `s` is the value that starts it, behind separator `sep`. */
  function ValueLength(sep: char, s: string): (n: nat)
    requires s != ""
    ensures n <= |s|
  {
    if s[0] in QUOTES then
      var j := 1 + FirstIn(s[1..], {s[0], '\n'});
      if j < |s| && s[j] == s[0] then j + 1 else j
    else if sep == ':' then FirstIn(s, LINE_ENDS)
    else FirstIn(s, WHITE_SPACE)
  }

  /** One turn: `rest[..kept]` is copied and, if `mask`, `rest[kept..used]` becomes `***`. */
  datatype Turn = Turn(kept: nat, used: nat, mask: bool)

  /** The turn at a separator behind a secret key. */
  function MaskingTurn(rest: string): (t: Turn)
    requires rest != ""
    ensures 0 < t.kept <= t.used <= |rest| && (!t.mask ==> t.used == t.kept)
  {
    var k := 1 + BlankCount(rest[1..]);
    if k == |rest| || rest[k] in LINE_ENDS then Turn(k, k, false)
    else Turn(k, k + ValueLength(rest[0], rest[k..]), true)
  }

  function TurnOf(u: CharClasses, out: string, rest: string): (t: Turn)
    requires rest != ""
    ensures 0 < t.kept <= t.used <= |rest| && (!t.mask ==> t.used == t.kept)
  {
    if rest[0] !in SEPARATORS || !SecretBefore(u, out) then Turn(1, 1, false) else MaskingTurn(rest)
  }

  function TurnShows(rest: string, t: Turn): string
    requires t.kept <= |rest|
  {
    rest[..t.kept] + (if t.mask then REDACTED else "")
  }

  /** The whole output of the scanner from output `out` and input `rest`. */
  function Scan(u: CharClasses, out: string, rest: string): string
    decreases |rest|
  {
    if rest == "" then out
    else
      var t := TurnOf(u, out, rest);
      Scan(u, out + TurnShows(rest, t), rest[t.used..])
  }

  function Redact(u: CharClasses, text: string): string {
    Scan(u, "", text)
  }

  lemma OneTurn(u: CharClasses, out: string, rest: string, t: Turn)
    requires rest != "" && TurnOf(u, out, rest) == t
    ensures Scan(u, out, rest) == Scan(u, out + TurnShows(rest, t), rest[t.used..])
  {
  }

  lemma OneTurnTo(u: CharClasses, out: string, rest: string, t: Turn, shown: string, after: string)
    requires rest != "" && TurnOf(u, out, rest) == t && out + TurnShows(rest, t) == shown && rest[t.used..] == after
    ensures Scan(u, out, rest) == Scan(u, shown, after)
  {
  }

  /** The copying turn. */
  lemma CopyTurn(u: CharClasses, out: string, rest: string)
    requires rest != "" && (rest[0] !in SEPARATORS || !SecretBefore(u, out))
    ensures Scan(u, out, rest) == Scan(u, out + [rest[0]], rest[1..])
  {
    assert TurnShows(rest, Turn(1, 1, false)) == [rest[0]];
    OneTurn(u, out, rest, Turn(1, 1, false));
  }

  // --- The scanner as the source runs it.

  /** Walks `i` to the first character of `cs`, like the value loops. */
  method SkipTo(chars: string, i: nat, cs: set<char>) returns (j: nat)
    requires i <= |chars|
    ensures j == i + FirstIn(chars[i..], cs)
  {
    j := i;
    while j < |chars| && chars[j] !in cs
      invariant i <= j <= |chars|
      invariant forall k | i <= k < j :: chars[k] !in cs
    {
      j := j + 1;
    }
    FirstInIs(chars[i..], cs, j - i);
  }

  /** Copies the blanks behind the separator. */
  method CopyBlanks(chars: string, i: nat, out: string) returns (j: nat, out': string)
    requires i <= |chars|
    ensures j == i + BlankCount(chars[i..])
    ensures out' == out + chars[i..j]
  {
    j := i;
    out' := out;
    assert chars[i..i] == "";
    while j < |chars| && chars[j] in BLANKS
      invariant i <= j <= |chars|
      invariant j + BlankCount(chars[j..]) == i + BlankCount(chars[i..])
      invariant out' == out + chars[i..j]
    {
      assert chars[j..][1..] == chars[j + 1..];
      assert chars[i..j + 1] == chars[i..j] + [chars[j]];
      Assoc(out, chars[i..j], [chars[j]]);
      out' := out' + [chars[j]];
      j := j + 1;
    }
  }

  /** Skips the value at `i`. */
  method SkipValue(chars: string, i: nat, sep: char) returns (j: nat)
    requires i < |chars|
    ensures j == i + ValueLength(sep, chars[i..])
  {
    assert chars[i..][0] == chars[i];
    if chars[i] in QUOTES {
      assert chars[i..][1..] == chars[i + 1..];
      j := SkipTo(chars, i + 1, {chars[i], '\n'});
      assert j < |chars| ==> chars[i..][j - i] == chars[j];
      if j < |chars| && chars[j] == chars[i] {
        j := j + 1;
      }
    } else if sep == ':' {
      j := SkipTo(chars, i, LINE_ENDS);
    } else {
      j := SkipTo(chars, i, WHITE_SPACE);
    }
  }

  /** One turn of the loop at a separator behind a secret key. */
  method RedactValue(chars: string, i: nat, out: string) returns (j: nat, out': string)
    requires i < |chars|
    ensures var t := MaskingTurn(chars[i..]);
            j == i + t.used && out' == out + TurnShows(chars[i..], t)
  {
    ghost var rest := chars[i..];
    Slices(chars, i, i + 1);
    j, out' := CopyBlanks(chars, i + 1, out + [chars[i]]);
    ghost var k := j - i;
    Slices(chars, i, j);
    Assoc(out, [chars[i]], chars[i + 1..j]);
    if j == |chars| || chars[j] in LINE_ENDS {
      assert rest[..k] + "" == rest[..k];
      return;
    }
    Assoc(out, rest[..k], REDACTED);
    out' := out' + REDACTED;
    j := SkipValue(chars, j, chars[i]);
  }

  /** One turn of the loop: the state it leaves has the same outcome. */
  method Advance(u: CharClasses, chars: string, i: nat, out: string) returns (j: nat, out': string)
    requires i < |chars|
    ensures i < j <= |chars|
    ensures Scan(u, out', chars[j..]) == Scan(u, out, chars[i..])
  {
    ghost var rest := chars[i..];
    if chars[i] !in SEPARATORS || !SecretBefore(u, out) {
      CopyTurn(u, out, rest);
      assert rest[1..] == chars[i + 1..];
      return i + 1, out + [chars[i]];
    }
    j, out' := RedactValue(chars, i, out);
    assert rest[j - i..] == chars[j..];
    OneTurnTo(u, out, rest, TurnOf(u, out, rest), out', chars[j..]);
  }

  /** The `redact_key_value_pairs` loop computes `Redact`. */
  method RedactKeyValuePairs(u: CharClasses, text: string) returns (out: string)
    ensures out == Redact(u, text)
  {
    out := "";
    var i := 0;
    ghost var goal := Redact(u, text);
    assert text[0..] == text;
    while i < |text|
      invariant i <= |text|
      invariant Scan(u, out, text[i..]) == goal
    {
      i, out := Advance(u, text, i, out);
    }
    assert text[i..] == "";
  }
}
