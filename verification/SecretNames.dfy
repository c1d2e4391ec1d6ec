/**
 Exactly which names are secret, read off their characters: those in which
 one of eleven parts is written, whatever separators and capitals it is
 written with, and those that have one of nine words between separators, ends
 and camelCase boundaries.
 */
module SecretNames {
  import opened Text
  import opened SecretKeys

  const PARTS: seq<string> := [
    "password", "passwd", "secret", "token", "apikey", "privatekey", "passphrase", "requirepass", "credential", "auth",
    "pwd"
  ]
  const WORDS: seq<string> := ["key", "pass", "auth", "token", "secret", "pwd", "salt", "cookie", "session"]

  // --- Parts.

  /** The letters and digits of `s`, whatever their case and whatever stands between them, spell `w`. */
  predicate Writes(u: CharClasses, s: string, w: string) {
    if s == "" then w == ""
    else if s[0] !in u.alphanumeric then Writes(u, s[1..], w)
    else w != "" && AsciiLower(s[0]) == w[0] && Writes(u, s[1..], w[1..])
  }

  predicate HasPart(u: CharClasses, key: string, w: string) {
    exists a, b | 0 <= a <= b <= |key| :: Writes(u, key[a..b], w)
  }

  lemma {:induction false} WritesMeans(u: CharClasses, s: string, w: string)
    ensures Writes(u, s, w) <==> Normalised(u, s) == w
    decreases |s|
  {
    if s == "" {
    } else if s[0] !in u.alphanumeric {
      WritesMeans(u, s[1..], w);
      assert "" + Normalised(u, s[1..]) == Normalised(u, s[1..]);
    } else if w == "" {
    } else {
      WritesMeans(u, s[1..], w[1..]);
      assert w == [w[0]] + w[1..];
      var n := Normalised(u, s);
      assert n[0] == AsciiLower(s[0]) && n[1..] == Normalised(u, s[1..]);
    }
  }

  lemma {:induction false} NormalisedAppend(u: CharClasses, a: string, b: string)
    ensures Normalised(u, a + b) == Normalised(u, a) + Normalised(u, b)
    decreases |a|
  {
    if a == "" {
      assert a + b == b && "" + Normalised(u, b) == Normalised(u, b);
    } else {
      assert (a + b)[1..] == a[1..] + b;
      NormalisedAppend(u, a[1..], b);
      var first := if a[0] in u.alphanumeric then [AsciiLower(a[0])] else "";
      Assoc(first, Normalised(u, a[1..]), Normalised(u, b));
    }
  }

  /** Every beginning of the letters and digits is those of some beginning of the name. */
  lemma {:induction false} PrefixOfNormalised(u: CharClasses, s: string, n: nat) returns (a: nat)
    requires n <= |Normalised(u, s)|
    ensures a <= |s| && Normalised(u, s[..a]) == Normalised(u, s)[..n] && Normalised(u, s[a..]) == Normalised(u, s)[n..]
    decreases |s|
  {
    if n == 0 {
      a := 0;
      assert s[..0] == "" && s[0..] == s;
    } else {
      var k := if s[0] in u.alphanumeric then 1 else 0;
      var a' := PrefixOfNormalised(u, s[1..], n - k);
      a := a' + 1;
      assert s[..a] == [s[0]] + s[1..][..a'] && s[a..] == s[1..][a'..];
      assert s[..a][1..] == s[1..][..a'];
    }
  }

  lemma PartIsContained(u: CharClasses, key: string, w: string)
    requires HasPart(u, key, w)
    ensures Contains(Normalised(u, key), w)
  {
    var a, b :| 0 <= a <= b <= |key| && Writes(u, key[a..b], w);
    WritesMeans(u, key[a..b], w);
    assert key == key[..a] + (key[a..b] + key[b..]);
    NormalisedAppend(u, key[a..b], key[b..]);
    NormalisedAppend(u, key[..a], key[a..b] + key[b..]);
    var front, rest := Normalised(u, key[..a]), Normalised(u, key[b..]);
    assert (front + (w + rest))[|front|..|front| + |w|] == w;
    assert At(front + (w + rest), |front|, w);
  }

  lemma ContainedIsPart(u: CharClasses, key: string, w: string)
    requires Contains(Normalised(u, key), w)
    ensures HasPart(u, key, w)
  {
    var all := Normalised(u, key);
    var i :| 0 <= i <= |all| && At(all, i, w);
    var a := PrefixOfNormalised(u, key, i);
    assert all[i..][..|w|] == w;
    var n := PrefixOfNormalised(u, key[a..], |w|);
    assert key[a..a + n] == key[a..][..n];
    WritesMeans(u, key[a..a + n], w);
  }

  // --- Words.

  /** A word ends or begins here. */
  predicate Boundary(u: CharClasses, key: string, k: int) {
    0 < k < |key| &&
    (|| key[k - 1] !in u.alphanumeric || key[k] !in u.alphanumeric
     || (key[k] in u.uppercase && (key[k - 1] in u.lowercase || key[k - 1] in u.numeric)))
  }

  function Lowered(s: string): (r: string)
    ensures |r| == |s| && forall i | 0 <= i < |s| :: r[i] == AsciiLower(s[i])
  {
    seq(|s|, i requires 0 <= i < |s| => AsciiLower(s[i]))
  }

  /** No boundary and nothing but letters and digits. */
  predicate Solid(u: CharClasses, key: string, a: int, b: int)
    requires 0 <= a <= b <= |key|
  {
    (forall i | a <= i < b :: key[i] in u.alphanumeric) && (forall k | a < k < b :: !Boundary(u, key, k))
  }

  /** From `a` to `b` stands the word `w`, in any case. */
  predicate WordAt(u: CharClasses, key: string, a: int, b: int, w: string) {
    && 0 <= a < b <= |key| && Solid(u, key, a, b) && Lowered(key[a..b]) == w
    && (a == 0 || Boundary(u, key, a)) && (b == |key| || Boundary(u, key, b))
  }

  predicate HasWord(u: CharClasses, key: string, w: string) {
    exists a, b | 0 <= a < b <= |key| :: WordAt(u, key, a, b, w)
  }

  /** Some word at or behind `from`. */
  predicate WordFrom(u: CharClasses, key: string, from: int, w: string) {
    exists a, b | 0 <= a < b <= |key| :: from <= a && WordAt(u, key, a, b, w)
  }

  /** The word being collected at `i` began at `from`; none is if they are equal. */
  predicate Pending(u: CharClasses, key: string, from: nat, i: nat) {
    && from <= i <= |key| && Solid(u, key, from, i)
    && (from == 0 || from == |key| || Boundary(u, key, from))
    && (from == i ==> i == 0 || key[i - 1] !in u.alphanumeric)
  }

  predicate SmallBefore(u: CharClasses, key: string, from: nat, i: nat)
    requires from <= i <= |key|
  {
    from < i && (key[i - 1] in u.lowercase || key[i - 1] in u.numeric)
  }

  /** What is collected when `i` is reached and a word ends there. */
  lemma EndedWord(u: CharClasses, key: string, from: nat, i: nat, w: string)
    requires Pending(u, key, from, i) && (i == |key| || Boundary(u, key, i))
    ensures w in Push([], Lowered(key[from..i])) <==> WordAt(u, key, from, i, w)
  {
  }

  /** A word behind `from` is the one collected or begins at `i` or later. */
  lemma WordsSplit(u: CharClasses, key: string, from: nat, i: nat, w: string)
    requires Pending(u, key, from, i) && (i == |key| || Boundary(u, key, i) || from == i)
    ensures WordFrom(u, key, from, w) <==> WordAt(u, key, from, i, w) || WordFrom(u, key, i, w)
  {
    if WordFrom(u, key, from, w) {
      var a, b :| 0 <= a < b <= |key| && from <= a && WordAt(u, key, a, b, w);
      if a < i {
        assert a == from;
        assert b == i;
      }
    }
  }

  lemma NoWordAtSeparator(u: CharClasses, key: string, i: nat, w: string)
    requires i < |key| && key[i] !in u.alphanumeric
    ensures WordFrom(u, key, i, w) <==> WordFrom(u, key, i + 1, w)
  {
    if WordFrom(u, key, i, w) {
      var a, b :| 0 <= a < b <= |key| && i <= a && WordAt(u, key, a, b, w);
      assert a != i;
    }
  }

  lemma PendingOn(u: CharClasses, key: string, from: nat, i: nat)
    requires Pending(u, key, from, i) && i < |key|
    ensures key[i] !in u.alphanumeric ==> Pending(u, key, i + 1, i + 1) && (from < i ==> Boundary(u, key, i))
    ensures key[i] in u.alphanumeric && key[i] in u.uppercase && SmallBefore(u, key, from, i) ==>
            Boundary(u, key, i) && Pending(u, key, i, i + 1)
    ensures key[i] in u.alphanumeric && !(key[i] in u.uppercase && SmallBefore(u, key, from, i)) ==>
            Pending(u, key, from, i + 1)
  {
  }

  lemma LoweredOneMore(key: string, from: nat, i: nat)
    requires from <= i < |key|
    ensures Lowered(key[from..i + 1]) == Lowered(key[from..i]) + [AsciiLower(key[i])]
  {
  }

  /** The words the loop collects from `i` on are the words that stand there. */
  lemma {:induction false} CollectedWords(u: CharClasses, key: string, from: nat, i: nat, w: string)
    requires Pending(u, key, from, i)
    ensures w in Words(u, key[i..], Lowered(key[from..i]), SmallBefore(u, key, from, i)) <==> WordFrom(u, key, from, w)
    decreases |key| - i
  {
    var rest, current := key[i..], Lowered(key[from..i]);
    if i == |key| {
      EndedWord(u, key, from, i, w);
      WordsSplit(u, key, from, i, w);
    } else {
      var c := key[i];
      assert rest[0] == c && rest[1..] == key[i + 1..];
      PendingOn(u, key, from, i);
      LoweredOneMore(key, from, i);
      if c !in u.alphanumeric {
        assert key[i + 1..i + 1] == "";
        CollectedWords(u, key, i + 1, i + 1, w);
        NoWordAtSeparator(u, key, i, w);
        WordsSplit(u, key, from, i, w);
        if from < i {
          EndedWord(u, key, from, i, w);
        }
      } else if c in u.uppercase && SmallBefore(u, key, from, i) {
        LoweredOneMore(key, i, i);
        assert key[i..i] == "" && Lowered("") + [AsciiLower(c)] == [AsciiLower(c)];
        CollectedWords(u, key, i, i + 1, w);
        WordsSplit(u, key, from, i, w);
        EndedWord(u, key, from, i, w);
      } else {
        CollectedWords(u, key, from, i + 1, w);
      }
    }
  }

  /** The words of a name are exactly those that stand in it. */
  lemma SegmentsAreTheWords(u: CharClasses, key: string, w: string)
    ensures w in Segments(u, key) <==> HasWord(u, key, w)
  {
    assert key[0..] == key && key[0..0] == "" && Lowered("") == "";
    CollectedWords(u, key, 0, 0, w);
    if HasWord(u, key, w) {
      var a, b :| 0 <= a < b <= |key| && WordAt(u, key, a, b, w);
    }
  }

  // --- The verdict.

  lemma {:induction false} DashesAreNotWritten(u: CharClasses, key: string)
    requires '-' !in u.alphanumeric
    ensures Normalised(u, StripDashes(key)) == Normalised(u, key)
    decreases |key|
  {
    if key == "" || key[0] != '-' {
    } else {
      DashesAreNotWritten(u, key[1..]);
      assert "" + Normalised(u, key[1..]) == Normalised(u, key[1..]);
    }
  }

  lemma WordsMeet(words: seq<string>)
    ensures (exists i | 0 <= i < |words| :: words[i] in SECRET_SEGMENTS) <==>
            (exists i | 0 <= i < |WORDS| :: WORDS[i] in words)
  {
    if exists i | 0 <= i < |words| :: words[i] in SECRET_SEGMENTS {
      var i :| 0 <= i < |words| && words[i] in SECRET_SEGMENTS;
      var j :| 0 <= j < |WORDS| && WORDS[j] == words[i];
    }
    if exists i | 0 <= i < |WORDS| :: WORDS[i] in words {
      var j :| 0 <= j < |WORDS| && WORDS[j] in words;
      var i :| 0 <= i < |words| && words[i] == WORDS[j];
      assert SECRET_SEGMENTS[j] == WORDS[j];
    }
  }

  /** A name is secret if and only if one of the parts is written in it or one of the words stands in it. */
  lemma SecretExactly(u: CharClasses, key: string)
    requires AgreesWithAscii(u)
    ensures IsSecretKey(u, key) <==>
            || (exists i | 0 <= i < |PARTS| :: HasPart(u, key, PARTS[i]))
            || (exists i | 0 <= i < |WORDS| :: HasWord(u, key, WORDS[i]))
  {
    var words := Segments(u, key);
    DashesAreSeparators(u, key);
    DashesAreNotWritten(u, key);
    assert PARTS == SECRET_SUBSTRINGS && WORDS == SECRET_SEGMENTS;
    forall i | 0 <= i < |PARTS|
      ensures HasPart(u, key, PARTS[i]) <==> Contains(Normalised(u, key), SECRET_SUBSTRINGS[i])
    {
      if HasPart(u, key, PARTS[i]) {
        PartIsContained(u, key, PARTS[i]);
      }
      if Contains(Normalised(u, key), PARTS[i]) {
        ContainedIsPart(u, key, PARTS[i]);
      }
    }
    forall i | 0 <= i < |WORDS|
      ensures HasWord(u, key, WORDS[i]) <==> WORDS[i] in words
    {
      SegmentsAreTheWords(u, key, WORDS[i]);
    }
    WordsMeet(words);
  }

  /** A part written anywhere in a name makes it secret. */
  lemma WrittenIsSecret(u: CharClasses, a: string, x: string, b: string, w: string)
    requires AgreesWithAscii(u) && w in PARTS && Writes(u, x, w)
    ensures IsSecretKey(u, a + (x + b))
  {
    var key := a + (x + b);
    assert key[|a|..|a| + |x|] == x;
    assert HasPart(u, key, w);
    var i :| 0 <= i < |PARTS| && PARTS[i] == w;
    SecretExactly(u, key);
  }

  // --- Names of small letters.

  predicate SmallLetters(s: string) {
    forall i | 0 <= i < |s| :: 'a' <= s[i] <= 'z'
  }

  lemma {:induction false} SmallIsWritten(u: CharClasses, s: string)
    requires AgreesWithAscii(u) && SmallLetters(s)
    ensures Normalised(u, s) == s
    decreases |s|
  {
    if s == "" {
    } else {
      assert s[0] in u.alphanumeric && AsciiLower(s[0]) == s[0];
      SmallIsWritten(u, s[1..]);
      assert s == [s[0]] + s[1..];
    }
  }

  lemma SmallIsOneWord(u: CharClasses, s: string, w: string)
    requires AgreesWithAscii(u) && SmallLetters(s) && s != ""
    ensures HasWord(u, s, w) <==> w == s
  {
    assert forall i | 0 <= i < |s| :: s[i] in u.alphanumeric && s[i] !in u.uppercase && AsciiLower(s[i]) == s[i];
    assert forall k :: !Boundary(u, s, k);
    assert s[0..|s|] == s && Lowered(s) == s;
    assert w == s ==> WordAt(u, s, 0, |s|, w);
  }

  /** A name of small letters is secret if and only if it contains one of the parts or is one of the words. */
  lemma SmallSecretExactly(u: CharClasses, s: string)
    requires AgreesWithAscii(u) && SmallLetters(s) && s != ""
    ensures IsSecretKey(u, s) <==> (exists i | 0 <= i < |PARTS| :: Contains(s, PARTS[i])) || s in WORDS
  {
    SmallIsWritten(u, s);
    forall w
      ensures HasPart(u, s, w) <==> Contains(s, w)
    {
      if HasPart(u, s, w) {
        PartIsContained(u, s, w);
      }
      if Contains(s, w) {
        ContainedIsPart(u, s, w);
      }
    }
    forall w
      ensures HasWord(u, s, w) <==> w == s
    {
      SmallIsOneWord(u, s, w);
    }
    SecretExactly(u, s);
  }

  lemma ShorterHasNot(s: string, m: string)
    requires |s| < |m|
    ensures !Contains(s, m)
  {
  }

  lemma FirstLetterMissing(s: string, m: string)
    requires m != "" && m[0] !in s
    ensures !Contains(s, m)
  {
    forall j | 0 <= j <= |s|
      ensures !At(s, j, m)
    {
      NotAt(s, j, m, 0);
    }
  }

  lemma MonkeyHasNoPart()
    ensures forall i | 0 <= i < |PARTS| :: !Contains("monkey", PARTS[i])
  {
    forall i | 0 <= i < |PARTS|
      ensures !Contains("monkey", PARTS[i])
    {
      assert PARTS[i][0] in {'p', 's', 't', 'a', 'r', 'c'};
      FirstLetterMissing("monkey", PARTS[i]);
    }
  }

  /** At each place of `s` the character of `m` that is named differs. */
  lemma NowhereIn(s: string, m: string, differs: seq<nat>)
    requires |m| <= |s| && |differs| == |s| - |m| + 1
    requires forall j | 0 <= j < |differs| :: differs[j] < |m| && s[j + differs[j]] != m[differs[j]]
    ensures !Contains(s, m)
  {
    forall j | 0 <= j <= |s|
      ensures !At(s, j, m)
    {
      if j + |m| <= |s| {
        NotAt(s, j, m, differs[j]);
      }
    }
  }

  lemma PathHasNoPart(s: string)
    requires s == "path"
    ensures forall i | 0 <= i < |PARTS| :: !Contains(s, PARTS[i])
  {
    NowhereIn(s, "auth", [0]);
    NowhereIn(s, "pwd", [1, 0]);
    forall i | 0 <= i < |PARTS| && |PARTS[i]| > 4
      ensures !Contains(s, PARTS[i])
    {
      ShorterHasNot(s, PARTS[i]);
    }
  }

  lemma PassengerHasNoPart(s: string)
    requires s == "passenger"
    ensures forall i | 0 <= i < |PARTS| :: !Contains(s, PARTS[i])
  {
    NowhereIn(s, "password", [4, 0]);
    NowhereIn(s, "passwd", [4, 0, 0, 0]);
    NowhereIn(s, "secret", [0, 0, 1, 2]);
    FirstLetterMissing(s, "token");
    NowhereIn(s, "apikey", [0, 1, 0, 0]);
    ShorterHasNot(s, "privatekey");
    ShorterHasNot(s, "passphrase");
    ShorterHasNot(s, "requirepass");
    ShorterHasNot(s, "credential");
    NowhereIn(s, "auth", [0, 1, 0, 0, 0, 0]);
    NowhereIn(s, "pwd", [1, 0, 0, 0, 0, 0, 0]);
  }

  /** `key` in `monkey` and `pass` in `passenger` are not words, and `path` has nothing of the kind. */
  lemma OrdinaryNames(u: CharClasses)
    requires AgreesWithAscii(u)
    ensures !IsSecretKey(u, "monkey") && !IsSecretKey(u, "passenger") && !IsSecretKey(u, "path")
  {
    MonkeyHasNoPart();
    SmallSecretExactly(u, "monkey");
    PassengerHasNoPart("passenger");
    SmallSecretExactly(u, "passenger");
    PathHasNoPart("path");
    SmallSecretExactly(u, "path");
  }

  lemma SmallSecret(u: CharClasses, s: string, i: nat, j: nat)
    requires AgreesWithAscii(u) && SmallLetters(s) && j < |PARTS| && At(s, i, PARTS[j]) && i <= |s| && s != ""
    ensures IsSecretKey(u, s)
  {
    assert Contains(s, PARTS[j]);
    SmallSecretExactly(u, s);
  }

  /** A word between separators or at a camelCase boundary. */
  lemma SecretByAWord(u: CharClasses, key: string, a: nat, b: nat, j: nat)
    requires AgreesWithAscii(u) && j < |WORDS| && WordAt(u, key, a, b, WORDS[j])
    ensures IsSecretKey(u, key)
  {
    assert HasWord(u, key, WORDS[j]);
    SecretExactly(u, key);
  }

  /** A part, alone and in the middle of a name. */
  lemma SecretByAPart(u: CharClasses)
    requires AgreesWithAscii(u)
    ensures IsSecretKey(u, "password") && IsSecretKey(u, "mypasswdfile")
  {
    assert "password"[0..8] == PARTS[0];
    SmallSecret(u, "password", 0, 0);
    assert "mypasswdfile"[2..8] == PARTS[1];
    SmallSecret(u, "mypasswdfile", 2, 1);
  }

  /** A word behind a separator, and one in front of a capital. */
  lemma SecretBesideABoundary(u: CharClasses)
    requires AgreesWithAscii(u)
    ensures IsSecretKey(u, "SSH_KEY") && IsSecretKey(u, "sessionId")
  {
    assert "SSH_KEY"[4..7] == "KEY" && Lowered("KEY") == WORDS[0];
    SecretByAWord(u, "SSH_KEY", 4, 7, 0);
    assert "sessionId"[0..7] == "session" && Lowered("session") == WORDS[8];
    SecretByAWord(u, "sessionId", 0, 7, 8);
  }
}
