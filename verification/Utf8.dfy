/**
 UTF-8 as it is decoded where nothing may fail: a character per well-formed
 sequence, and one replacement character per longest stretch that is the
 beginning of none or is broken off.
 */
module Utf8 {
  import opened Numbers
  import opened Text

  const REPLACEMENT: char := '\U{FFFD}'

  /** How many bytes a character that begins with this one has; 0 when none does. */
  function Width(first: Byte): nat {
    if first < 0x80 then 1
    else if 0xC2 <= first <= 0xDF then 2
    else if 0xE0 <= first <= 0xEF then 3
    else if 0xF0 <= first <= 0xF4 then 4
    else 0
  }

  predicate Continuation(b: Byte) {
    0x80 <= b <= 0xBF
  }

  /** Whether a character that begins with `first` may have `b` in place `i`. */
  predicate Follows(first: Byte, i: nat, b: Byte) {
    && Continuation(b)
    && (i == 1 && first == 0xE0 ==> 0xA0 <= b) && (i == 1 && first == 0xED ==> b <= 0x9F)
    && (i == 1 && first == 0xF0 ==> 0x90 <= b) && (i == 1 && first == 0xF4 ==> b <= 0x8F)
  }

  predicate Whole(s: seq<Byte>) {
    s != [] && |s| == Width(s[0]) && forall i | 1 <= i < |s| :: Follows(s[0], i, s[i])
  }

  /** A number with one more group of six bits. */
  function More(n: int, b: int): int {
    n * 0x40 + (b - 0x80)
  }

  function Code(s: seq<Byte>): int
    requires Whole(s)
  {
    if |s| == 1 then s[0]
    else if |s| == 2 then More(s[0] - 0xC0, s[1])
    else if |s| == 3 then More(More(s[0] - 0xE0, s[1]), s[2])
    else More(More(More(s[0] - 0xF0, s[1]), s[2]), s[3])
  }

  function Scalar(s: seq<Byte>): char
    requires Whole(s)
  {
    Code(s) as char
  }

  /** How far the text begins like one character, from `n` bytes that do. */
  function Extent(bytes: seq<Byte>, n: nat): (r: nat)
    requires 1 <= n <= |bytes|
    ensures n <= r <= |bytes| && (r == n || r <= Width(bytes[0]))
    ensures forall i | n <= i < r :: Follows(bytes[0], i, bytes[i])
    ensures r >= Width(bytes[0]) || r == |bytes| || !Follows(bytes[0], r, bytes[r])
    decreases |bytes| - n
  {
    if n < Width(bytes[0]) && n < |bytes| && Follows(bytes[0], n, bytes[n]) then Extent(bytes, n + 1) else n
  }

  /** The bytes that become the first character. */
  function Piece(bytes: seq<Byte>): (n: nat)
    requires bytes != []
    ensures 1 <= n <= |bytes|
  {
    Extent(bytes, 1)
  }

  function First(bytes: seq<Byte>): char
    requires bytes != []
  {
    if Piece(bytes) == Width(bytes[0]) then Scalar(bytes[..Piece(bytes)]) else REPLACEMENT
  }

  /** `String::from_utf8_lossy`. */
  function Decode(bytes: seq<Byte>): string {
    if bytes == [] then "" else [First(bytes)] + Decode(bytes[Piece(bytes)..])
  }

  /** The cut at `k` separates two characters of the decoded text. */
  predicate Boundary(bytes: seq<Byte>, k: nat)
    decreases |bytes|
  {
    k == 0 || (bytes != [] && Piece(bytes) <= k && Boundary(bytes[Piece(bytes)..], k - Piece(bytes)))
  }

  // --- What a cut does to the decoded text.

  lemma {:induction false} ExtentIs(bytes: seq<Byte>, n: nat, r: nat)
    requires 1 <= n <= r <= |bytes| && (r == n || r <= Width(bytes[0]))
    requires forall i | n <= i < r :: Follows(bytes[0], i, bytes[i])
    requires r >= Width(bytes[0]) || r == |bytes| || !Follows(bytes[0], r, bytes[r])
    ensures Extent(bytes, n) == r
    decreases r - n
  {
    if n == r {
    } else {
      assert Follows(bytes[0], n, bytes[n]);
      ExtentIs(bytes, n + 1, r);
    }
  }

  /** Cutting behind the first character leaves it as it is. */
  lemma CutBehind(bytes: seq<Byte>, k: nat)
    requires bytes != [] && Piece(bytes) <= k <= |bytes|
    ensures bytes[..k] != [] && Piece(bytes[..k]) == Piece(bytes) && First(bytes[..k]) == First(bytes)
  {
    ExtentIs(bytes[..k], 1, Piece(bytes));
    assert bytes[..k][..Piece(bytes)] == bytes[..Piece(bytes)];
  }

  /** Cutting it leaves a beginning that becomes a replacement character. */
  lemma CutInside(bytes: seq<Byte>, k: nat)
    requires bytes != [] && 0 < k < Piece(bytes)
    ensures Decode(bytes[..k]) == [REPLACEMENT]
  {
    ExtentIs(bytes[..k], 1, k);
    assert bytes[..k][k..] == [];
  }

  /** A continuation byte without a beginning is a replacement character by itself. */
  lemma Stray(bytes: seq<Byte>)
    requires bytes != [] && Continuation(bytes[0])
    ensures Decode(bytes) == [REPLACEMENT] + Decode(bytes[1..])
  {
  }

  /** The rest of a cut character becomes one replacement character per byte. */
  lemma {:induction false} Strays(bytes: seq<Byte>, n: nat)
    requires n <= |bytes| && forall i | 0 <= i < n :: Continuation(bytes[i])
    ensures |Decode(bytes)| == n + |Decode(bytes[n..])|
    decreases n
  {
    if n == 0 {
      assert bytes[0..] == bytes;
    } else {
      Stray(bytes);
      assert bytes[1..][n - 1..] == bytes[n..];
      Strays(bytes[1..], n - 1);
    }
  }

  lemma CutInsideGrows(bytes: seq<Byte>, k: nat)
    requires bytes != [] && 0 < k < Piece(bytes)
    ensures |Decode(bytes[..k])| + |Decode(bytes[k..])| == |Decode(bytes)| + (Piece(bytes) - k)
  {
    var n := Piece(bytes);
    CutInside(bytes, k);
    forall i | 0 <= i < n - k
      ensures Continuation(bytes[k..][i])
    {
      assert Follows(bytes[0], k + i, bytes[k + i]);
    }
    Strays(bytes[k..], n - k);
    assert bytes[k..][n - k..] == bytes[n..];
  }

  lemma CutLater(bytes: seq<Byte>, k: nat)
    requires bytes != [] && Piece(bytes) <= k <= |bytes|
    ensures var n := Piece(bytes);
            && Decode(bytes[..k]) == [First(bytes)] + Decode(bytes[n..][..k - n])
            && bytes[k..] == bytes[n..][k - n..]
            && (Boundary(bytes, k) <==> Boundary(bytes[n..], k - n))
  {
    CutBehind(bytes, k);
    assert bytes[..k][Piece(bytes)..] == bytes[Piece(bytes)..][..k - Piece(bytes)];
  }

  /** The two sides make up the whole, or more than it. */
  predicate MakesUp(exact: bool, left: string, right: string, whole: string) {
    if exact then left + right == whole else |left| + |right| > |whole|
  }

  lemma MakesUpMore(exact: bool, c: char, left: string, right: string, whole: string)
    requires MakesUp(exact, left, right, whole)
    ensures MakesUp(exact, [c] + left, right, [c] + whole)
  {
    Assoc([c], left, right);
  }

  /** What decoding the two sides of a cut gives. */
  predicate Fits(bytes: seq<Byte>, k: nat)
    requires k <= |bytes|
  {
    MakesUp(Boundary(bytes, k), Decode(bytes[..k]), Decode(bytes[k..]), Decode(bytes))
  }

  lemma CutAtStart(bytes: seq<Byte>)
    ensures Fits(bytes, 0)
  {
    assert bytes[..0] == [] && bytes[0..] == bytes;
    assert "" + Decode(bytes) == Decode(bytes);
  }

  lemma CutInsideFits(bytes: seq<Byte>, k: nat, n: nat)
    requires bytes != [] && n == Piece(bytes) && 0 < k < n
    ensures Fits(bytes, k)
  {
    CutInsideGrows(bytes, k);
  }

  lemma CutBehindFirst(bytes: seq<Byte>, k: nat, n: nat, rest: seq<Byte>, j: nat)
    requires bytes != [] && n == Piece(bytes) && k == n + j <= |bytes| && rest == bytes[n..]
    requires Fits(rest, j)
    ensures Fits(bytes, k)
  {
    CutLater(bytes, k);
    MakesUpMore(Boundary(rest, j), First(bytes), Decode(rest[..j]), Decode(rest[j..]), Decode(rest));
  }

  lemma {:induction false} EveryCutFits(bytes: seq<Byte>, k: nat)
    requires k <= |bytes|
    ensures Fits(bytes, k)
    decreases |bytes|
  {
    if k == 0 {
      CutAtStart(bytes);
    } else {
      var n := Piece(bytes);
      if k < n {
        CutInsideFits(bytes, k, n);
      } else {
        EveryCutFits(bytes[n..], k - n);
        CutBehindFirst(bytes, k, n, bytes[n..], k - n);
      }
    }
  }

  /**
   Decoding the two sides of a cut gives the text decoded as a whole exactly
   when the cut is between two characters; otherwise it gives a longer one.
   */
  lemma CutExactly(a: seq<Byte>, b: seq<Byte>)
    ensures Boundary(a + b, |a|) ==> Decode(a) + Decode(b) == Decode(a + b)
    ensures !Boundary(a + b, |a|) ==> |Decode(a)| + |Decode(b)| > |Decode(a + b)|
  {
    EveryCutFits(a + b, |a|);
    assert (a + b)[..|a|] == a && (a + b)[|a|..] == b;
  }

  // --- Any number of chunks.

  function Joined(chunks: seq<seq<Byte>>): seq<Byte> {
    if chunks == [] then [] else chunks[0] + Joined(chunks[1..])
  }

  function DecodedApart(chunks: seq<seq<Byte>>): string {
    if chunks == [] then "" else Decode(chunks[0]) + DecodedApart(chunks[1..])
  }

  /** Every chunk ends between two characters. */
  predicate CutBetween(chunks: seq<seq<Byte>>) {
    chunks != [] ==> Boundary(Joined(chunks), |chunks[0]|) && CutBetween(chunks[1..])
  }

  lemma {:induction false} ChunksExactly(chunks: seq<seq<Byte>>)
    ensures CutBetween(chunks) ==> DecodedApart(chunks) == Decode(Joined(chunks))
    ensures !CutBetween(chunks) ==> |DecodedApart(chunks)| > |Decode(Joined(chunks))|
    decreases |chunks|
  {
    if chunks == [] {
    } else {
      var head, rest := chunks[0], Joined(chunks[1..]);
      ChunksExactly(chunks[1..]);
      CutExactly(head, rest);
    }
  }

  /** Decoding chunk by chunk is decoding the whole exactly when no chunk ends inside a character. */
  lemma ApartIsWhole(chunks: seq<seq<Byte>>)
    ensures DecodedApart(chunks) == Decode(Joined(chunks)) <==> CutBetween(chunks)
  {
    ChunksExactly(chunks);
  }

  // --- Texts that were encoded.

  function EncodeChar(c: char): (s: seq<Byte>)
    ensures Whole(s) && Scalar(s) == c
  {
    var n := c as int;
    var n1 := n / 0x40;
    var n2 := n1 / 0x40;
    if n < 0x80 then [n]
    else if n < 0x800 then [0xC0 + n1, 0x80 + n % 0x40]
    else if n < 0x10000 then [0xE0 + n2, 0x80 + n1 % 0x40, 0x80 + n % 0x40]
    else [0xF0 + n2 / 0x40, 0x80 + n2 % 0x40, 0x80 + n1 % 0x40, 0x80 + n % 0x40]
  }

  function Encode(text: string): seq<Byte> {
    if text == "" then [] else EncodeChar(text[0]) + Encode(text[1..])
  }

  lemma EncodedFirst(c: char, rest: seq<Byte>)
    ensures var bytes := EncodeChar(c) + rest;
            Piece(bytes) == |EncodeChar(c)| && First(bytes) == c && bytes[Piece(bytes)..] == rest
  {
    var s := EncodeChar(c);
    ExtentIs(s + rest, 1, |s|);
    assert (s + rest)[..|s|] == s && (s + rest)[|s|..] == rest;
  }

  /** What was encoded is decoded to itself. */
  lemma {:induction false} RoundTrip(text: string)
    ensures Decode(Encode(text)) == text
    decreases |text|
  {
    if text == "" {
    } else {
      EncodedFirst(text[0], Encode(text[1..]));
      RoundTrip(text[1..]);
    }
  }

  lemma EncodedPrefix(text: string, i: nat)
    requires 0 < i <= |text|
    ensures |Encode(text[..i])| == |EncodeChar(text[0])| + |Encode(text[1..][..i - 1])|
  {
    assert text[..i][1..] == text[1..][..i - 1];
  }

  /** `k` bytes are the encoding of some characters of the text. */
  predicate EndsPrefix(text: string, k: nat) {
    exists i | 0 <= i <= |text| :: |Encode(text[..i])| == k
  }

  lemma EndsPrefixStep(text: string, k: nat)
    requires text != "" && k > 0
    ensures EndsPrefix(text, k) <==>
            k >= |EncodeChar(text[0])| && EndsPrefix(text[1..], k - |EncodeChar(text[0])|)
  {
    var w, rest := |EncodeChar(text[0])|, text[1..];
    if EndsPrefix(text, k) {
      var i :| 0 <= i <= |text| && |Encode(text[..i])| == k;
      EncodedPrefix(text, i);
      assert |Encode(rest[..i - 1])| == k - w;
    }
    if k >= w && EndsPrefix(rest, k - w) {
      var i :| 0 <= i <= |rest| && |Encode(rest[..i])| == k - w;
      EncodedPrefix(text, i + 1);
    }
  }

  /** In an encoded text the boundaries are the ends of the encoded prefixes. */
  lemma {:induction false} EncodedBoundaries(text: string, k: nat)
    ensures Boundary(Encode(text), k) <==> EndsPrefix(text, k)
    decreases |text|
  {
    if k == 0 {
      assert |Encode(text[..0])| == 0;
    } else if text == "" {
    } else {
      EncodedFirst(text[0], Encode(text[1..]));
      EndsPrefixStep(text, k);
      if k >= |EncodeChar(text[0])| {
        EncodedBoundaries(text[1..], k - |EncodeChar(text[0])|);
      }
    }
  }

  /** One character in two chunks: two replacement characters instead of it. */
  lemma CutInTwo()
    ensures Encode(['\U{0142}']) == [0xC5, 0x82]
    ensures DecodedApart([[0xC5], [0x82]]) == [REPLACEMENT, REPLACEMENT]
  {
    assert EncodeChar('\U{0142}') == [0xC5, 0x82];
    assert Encode([]) == [];
    assert [0xC5, 0x82] + [] == [0xC5, 0x82];
    var chunks: seq<seq<Byte>> := [[0xC5], [0x82]];
    assert chunks[1..] == [[0x82]] && [[0x82 as Byte]][1..] == [];
    assert Decode([0xC5]) == [REPLACEMENT] + Decode([0xC5][1..]);
    assert Decode([0x82]) == [REPLACEMENT] + Decode([0x82][1..]);
    assert DecodedApart([[0x82]]) == [REPLACEMENT] + "";
  }
}
