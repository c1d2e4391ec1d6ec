/**
 Strings as the sources use them: substring search, character search,
 trimming and the Unicode White_Space set behind `char::is_whitespace`.
 */
module Text {

  datatype Option<+T> = None | Some(value: T)

  lemma Assoc<T>(a: seq<T>, b: seq<T>, c: seq<T>)
    ensures (a + b) + c == a + (b + c)
  {
  }

  /** Taking from and dropping within the first part of a concatenation. */
  lemma WithinFirst<T>(a: seq<T>, b: seq<T>, k: nat)
    requires k <= |a|
    ensures (a + b)[..k] == a[..k] && (a + b)[k..] == a[k..] + b
  {
  }

  /** Taking up to and dropping from a place in the second part. */
  lemma WithinSecond<T>(a: seq<T>, b: seq<T>, k: nat)
    requires k <= |b|
    ensures (a + b)[..|a| + k] == a + b[..k] && (a + b)[|a| + k..] == b[k..]
  {
  }

  /** Where the parts of a concatenation of four are. */
  lemma FourParts<T>(a: seq<T>, b: seq<T>, c: seq<T>, d: seq<T>)
    ensures var s := a + (b + (c + d));
            && s[..|a|] == a && s[..|a| + |b|] == a + b
            && s[|a| + |b|..] == c + d && s[|a| + |b| + |c|..] == d
  {
    WithinFirst(a, b + (c + d), |a|);
    WithinSecond(a, b + (c + d), |b|);
    WithinFirst(b, c + d, |b|);
    WithinSecond(a, b + (c + d), |b| + |c|);
    WithinSecond(b, c + d, |c|);
    WithinSecond(c, d, 0);
  }

  /** A slice seen from its own start. */
  lemma Slices<T>(s: seq<T>, i: nat, j: nat)
    requires i < j <= |s|
    ensures s[i..][..j - i] == [s[i]] + s[i + 1..j] && s[i..][j - i..] == s[j..]
  {
  }

  /** `m` occurs in `s` at position `i`. */
  predicate At(s: string, i: int, m: string) {
    0 <= i && i + |m| <= |s| && s[i..i + |m|] == m
  }

  /** `m` occurs somewhere in `s`. */
  predicate Contains(s: string, m: string) {
    exists i | 0 <= i <= |s| :: At(s, i, m)
  }

  /** The first occurrence of `m` in `s` at or after `i`. */
  function FindFrom(s: string, m: string, i: nat): (r: Option<nat>)
    requires i <= |s|
    ensures r.Some? ==> i <= r.value && r.value + |m| <= |s|
    decreases |s| - i
  {
    if At(s, i, m) then Some(i) else if i == |s| then None else FindFrom(s, m, i + 1)
  }

  lemma {:induction false} FindFromMeans(s: string, m: string, i: nat)
    requires i <= |s|
    ensures var r := FindFrom(s, m, i);
            && (r.Some? ==> At(s, r.value, m) && forall j | i <= j < r.value :: !At(s, j, m))
            && (r.None? ==> forall j | i <= j <= |s| :: !At(s, j, m))
    decreases |s| - i
  {
    if At(s, i, m) || i >= |s| {
    } else {
      FindFromMeans(s, m, i + 1);
    }
  }

  /** `str::find` with a string pattern, counted in characters. */
  function Find(s: string, m: string): (r: Option<nat>)
    ensures r.Some? ==> r.value + |m| <= |s|
  {
    FindFrom(s, m, 0)
  }

  lemma FindMeans(s: string, m: string)
    ensures Find(s, m).Some? ==> At(s, Find(s, m).value, m) && forall j | 0 <= j < Find(s, m).value :: !At(s, j, m)
    ensures Find(s, m).None? <==> !Contains(s, m)
  {
    FindFromMeans(s, m, 0);
  }

  /** The position of the first character of `s` that is in `cs`, or its length. */
  function FirstIn(s: string, cs: set<char>): (i: nat)
    ensures i <= |s| && (i < |s| ==> s[i] in cs)
    ensures forall j | 0 <= j < i :: s[j] !in cs
  {
    if s == "" || s[0] in cs then 0 else 1 + FirstIn(s[1..], cs)
  }

  lemma FirstInIs(s: string, cs: set<char>, i: nat)
    requires i <= |s| && (i < |s| ==> s[i] in cs)
    requires forall j | 0 <= j < i :: s[j] !in cs
    ensures FirstIn(s, cs) == i
  {
  }

  lemma FindIs(s: string, m: string, i: nat)
    requires At(s, i, m) && forall j | 0 <= j < i :: !At(s, j, m)
    ensures Find(s, m) == Some(i)
  {
    FindMeans(s, m);
    assert Contains(s, m);
  }

  /** One wrong character rules an occurrence out. */
  lemma NotAt(s: string, i: nat, m: string, k: nat)
    requires k < |m| && (i + k < |s| ==> s[i + k] != m[k])
    ensures !At(s, i, m)
  {
    if i + |m| <= |s| {
      assert s[i..i + |m|][k] == s[i + k];
    }
  }

  /** An occurrence inside a prefix is an occurrence in the whole. */
  lemma AtPrefix(a: string, b: string, i: int, m: string)
    requires i + |m| <= |a|
    ensures At(a + b, i, m) == At(a, i, m)
  {
    if 0 <= i {
      assert (a + b)[i..i + |m|] == a[i..i + |m|];
    }
  }

  /** An occurrence inside a suffix is an occurrence in the whole. */
  lemma AtSuffix(a: string, b: string, i: int, m: string)
    requires |a| <= i
    ensures At(a + b, i, m) == At(b, i - |a|, m)
  {
    if i + |m| <= |a + b| {
      assert (a + b)[i..i + |m|] == b[i - |a|..i - |a| + |m|];
    }
  }

  /** An occurrence across a boundary is two occurrences that meet there. */
  lemma AtSplit(a: string, b: string, i: int, m: string)
    requires 0 <= i <= |a| <= i + |m|
    ensures At(a + b, i, m) == (At(a, i, m[..|a| - i]) && At(b, 0, m[|a| - i..]))
  {
    var k := |a| - i;
    assert m == m[..k] + m[k..];
    if i + |m| <= |a + b| {
      assert (a + b)[i..i + |m|] == a[i..] + b[..|m| - k];
      if (a + b)[i..i + |m|] == m {
        assert a[i..] == m[..k] && b[..|m| - k] == m[k..];
      }
    }
  }

  /** The characters with the Unicode property White_Space. */
  const WHITE_SPACE: set<char> := {
    '\t', '\n', '\U{00000B}', '\U{00000C}', '\r', ' ', '\U{000085}', '\U{0000A0}', '\U{001680}',
    '\U{002000}', '\U{002001}', '\U{002002}', '\U{002003}', '\U{002004}', '\U{002005}', '\U{002006}',
    '\U{002007}', '\U{002008}', '\U{002009}', '\U{00200A}', '\U{002028}', '\U{002029}', '\U{00202F}',
    '\U{00205F}', '\U{003000}'
  }

  function TrimStart(s: string): (r: string)
    ensures |r| <= |s| && r == s[|s| - |r|..]
    ensures r == "" || r[0] !in WHITE_SPACE
  {
    if s != "" && s[0] in WHITE_SPACE then TrimStart(s[1..]) else s
  }

  function TrimEnd(s: string): (r: string)
    ensures |r| <= |s| && r == s[..|r|]
    ensures r == "" || r[|r| - 1] !in WHITE_SPACE
  {
    if s != "" && s[|s| - 1] in WHITE_SPACE then TrimEnd(s[..|s| - 1]) else s
  }

  /** `str::trim`. */
  function Trim(s: string): (r: string) {
    TrimEnd(TrimStart(s))
  }

  lemma TrimStops(s: string)
    requires s != "" ==> s[0] !in WHITE_SPACE && s[|s| - 1] !in WHITE_SPACE
    ensures Trim(s) == s
  {
    assert TrimStart(s) == s;
    assert TrimEnd(s) == s;
  }

  /** A trimmed string has no white space at its ends and is left as it is. */
  lemma TrimSettles(s: string)
    ensures Trim(s) != "" ==> Trim(s)[0] !in WHITE_SPACE && Trim(s)[|Trim(s)| - 1] !in WHITE_SPACE
    ensures Trim(Trim(s)) == Trim(s)
  {
    var a := TrimStart(s);
    var n := TrimEnd(a);
    assert n != "" ==> n[0] == a[0];
    TrimStops(n);
  }

  lemma TrimTwice(s: string)
    ensures Trim(Trim(s)) == Trim(s)
  {
    TrimSettles(s);
  }

  predicate AllWhite(s: string) {
    forall i | 0 <= i < |s| :: s[i] in WHITE_SPACE
  }

  lemma {:induction false} TrimStartPadded(pad: string, x: string)
    requires AllWhite(pad) && (x == "" || x[0] !in WHITE_SPACE)
    ensures TrimStart(pad + x) == x
    decreases |pad|
  {
    if pad == "" {
      assert pad + x == x;
    } else {
      assert (pad + x)[1..] == pad[1..] + x;
      TrimStartPadded(pad[1..], x);
    }
  }

  lemma {:induction false} TrimEndPadded(x: string, pad: string)
    requires AllWhite(pad) && (x == "" || x[|x| - 1] !in WHITE_SPACE)
    ensures TrimEnd(x + pad) == x
    decreases |pad|
  {
    if pad == "" {
      assert x + pad == x;
    } else {
      var n := |pad| - 1;
      assert (x + pad)[..|x + pad| - 1] == x + pad[..n] && (x + pad)[|x + pad| - 1] == pad[n];
      TrimEndPadded(x, pad[..n]);
    }
  }

  /** White space around a text goes and the text stays. */
  lemma TrimPadded(a: string, x: string, b: string)
    requires AllWhite(a) && AllWhite(b) && x != "" && x[0] !in WHITE_SPACE && x[|x| - 1] !in WHITE_SPACE
    ensures Trim(a + (x + b)) == x
  {
    assert (x + b)[0] == x[0];
    TrimStartPadded(a, x + b);
    TrimEndPadded(x, b);
  }

  lemma TrimWhite(a: string)
    requires AllWhite(a)
    ensures Trim(a) == ""
  {
    assert a + "" == a;
    TrimStartPadded(a, "");
  }

  /** `str::to_ascii_lowercase` for one character. */
  function AsciiLower(c: char): char {
    if 'A' <= c <= 'Z' then c - 'A' + 'a' else c
  }

  function AsciiUpper(c: char): char {
    if 'a' <= c <= 'z' then c - 'a' + 'A' else c
  }
}
