/**
 Time-based one-time codes: HOTP truncation (section 5.3 of RFC 4226) and the
 window check with its replay guard (section 5.2 of RFC 6238). The keyed MAC
 is a parameter.
 */
module Totp {
  import opened Numbers
  import opened Text

  type Digest = d: seq<Byte> | |d| == 20 witness seq(20, _ => 0)

  const STEP_SECONDS: int := 30
  const SKEW_STEPS: int := 1
  const DIGITS: nat := 6

  /** Four bytes of the digest, chosen by its last nibble, as a 31-bit number. */
  function Truncate(d: Digest): (v: nat)
    ensures v < 0x8000_0000
  {
    var o: int := d[19] % 16;
    var b0: int, b1: int, b2: int, b3: int := d[o] % 128, d[o + 1], d[o + 2], d[o + 3];
    b0 * 0x100_0000 + b1 * 0x1_0000 + b2 * 0x100 + b3
  }

  function BigEndian(bytes: seq<Byte>): nat {
    if bytes == [] then 0 else 256 * BigEndian(bytes[..|bytes| - 1]) + bytes[|bytes| - 1]
  }

  /** The four bytes at the offset as a big-endian number, its top bit dropped. */
  lemma TruncateMeans(d: Digest)
    ensures Truncate(d) == BigEndian(d[d[19] % 16..d[19] % 16 + 4]) % 0x8000_0000
  {
    var o: int := d[19] % 16;
    var b0: int, b1: int, b2: int, b3: int := d[o], d[o + 1], d[o + 2], d[o + 3];
    var four := d[o..o + 4];
    assert four[..3][..2][..1][..0] == [];
    assert four[..3][..2] == four[..2] && four[..2][..1] == four[..1];
    assert BigEndian(four[..1]) == b0;
    assert BigEndian(four[..2]) == 256 * b0 + b1;
    assert BigEndian(four[..3]) == 0x1_0000 * b0 + 0x100 * b1 + b2;
    assert BigEndian(four) == 0x100_0000 * b0 + 0x1_0000 * b1 + 0x100 * b2 + b3;
  }

  function Hotp(mac: nat -> Digest, counter: nat): (v: nat)
    ensures v < 1_000_000
  {
    Truncate(mac(counter)) % 1_000_000
  }

  /** The worked example of section 5.4 of RFC 4226. */
  lemma WorkedExample(mac: nat -> Digest, counter: nat)
    requires mac(counter) == [0x1f, 0x86, 0x98, 0x69, 0x0e, 0x02, 0xca, 0x16, 0x61, 0x85,
                              0x50, 0xef, 0x7f, 0x19, 0xda, 0x8e, 0x94, 0x5b, 0x55, 0x5a]
    ensures Truncate(mac(counter)) == 0x50ef7f19 && Hotp(mac, counter) == 872921
  {
  }

  function DigitChar(n: nat): char {
    '0' + (n % 10) as char
  }

  /** `n` in decimal with leading zeros, `width` digits. */
  function Padded(n: nat, width: nat): (s: string)
    ensures |s| == width
  {
    if width == 0 then "" else Padded(n / 10, width - 1) + [DigitChar(n)]
  }

  function Power10(width: nat): (p: nat)
    ensures p > 0
  {
    if width == 0 then 1 else 10 * Power10(width - 1)
  }

  lemma {:induction false} PaddedIsDigits(n: nat, width: nat)
    ensures AllDigits(Padded(n, width))
  {
    if width == 0 {
    } else {
      PaddedIsDigits(n / 10, width - 1);
    }
  }

  /** Six digits are the number they show, so equal codes are equal values. */
  lemma {:induction false} PaddedReadsBack(n: nat, width: nat)
    requires n < Power10(width)
    ensures AllDigits(Padded(n, width)) && Number(Padded(n, width)) == n
    decreases width
  {
    if width == 0 {
    } else {
      PaddedReadsBack(n / 10, width - 1);
      assert Padded(n, width)[..width - 1] == Padded(n / 10, width - 1);
    }
  }

  /** The code shown for a time step. */
  function CodeAt(mac: nat -> Digest, step: nat): string {
    Padded(Hotp(mac, step), DIGITS)
  }

  /** Two steps show the same code exactly when their values are the same. */
  lemma SameCodeSameValue(mac: nat -> Digest, a: nat, b: nat)
    ensures |CodeAt(mac, a)| == 6 && AllDigits(CodeAt(mac, a)) && Number(CodeAt(mac, a)) == Hotp(mac, a)
    ensures CodeAt(mac, a) == CodeAt(mac, b) <==> Hotp(mac, a) == Hotp(mac, b)
  {
    assert Power10(6) == 1_000_000;
    PaddedReadsBack(Hotp(mac, a), DIGITS);
    PaddedReadsBack(Hotp(mac, b), DIGITS);
  }

  /** The code as typed, without white space. */
  function Typed(code: string): string {
    if code == "" then ""
    else (if code[0] in WHITE_SPACE then "" else [code[0]]) + Typed(code[1..])
  }

  predicate WellFormed(digits: string) {
    |digits| == DIGITS && AllDigits(digits)
  }

  predicate Unused(step: int, after: Option<int>) {
    0 <= step && (after.Some? ==> after.value < step)
  }

  /** The first step from `step` to `last` that is unused and shows the code. */
  function Search(mac: nat -> Digest, digits: string, step: int, last: int, after: Option<int>): Option<int>
    decreases last - step
  {
    if step > last then None
    else if Unused(step, after) && CodeAt(mac, step) == digits then Some(step)
    else Search(mac, digits, step + 1, last, after)
  }

  /** `verify`. */
  function Verify(mac: nat -> Digest, code: string, now: int, after: Option<int>): Option<int> {
    var digits := Typed(code);
    var current := now / STEP_SECONDS;
    if !WellFormed(digits) then None
    else Search(mac, digits, current - SKEW_STEPS, current + SKEW_STEPS, after)
  }

  /** Step `step` is in the window around `now`, unused, and shows the code. */
  predicate Acceptable(mac: nat -> Digest, code: string, now: int, after: Option<int>, step: int) {
    var current := now / STEP_SECONDS;
    current - SKEW_STEPS <= step <= current + SKEW_STEPS && Unused(step, after) && CodeAt(mac, step) == Typed(code)
  }

  lemma {:induction false} SearchMeans(mac: nat -> Digest, digits: string, step: int, last: int, after: Option<int>)
    ensures var r := Search(mac, digits, step, last, after);
            && (r.Some? ==> step <= r.value <= last && Unused(r.value, after) && CodeAt(mac, r.value) == digits)
            && (forall k | step <= k <= last && Unused(k, after) && CodeAt(mac, k) == digits :: r.Some? && r.value <= k)
    decreases last - step
  {
    if step > last || (Unused(step, after) && CodeAt(mac, step) == digits) {
    } else {
      SearchMeans(mac, digits, step + 1, last, after);
    }
  }

  /**
   `verify` returns the least acceptable step, and nothing only if there is
   none: what was typed is then not the code of any unused step in the window.
   */
  lemma VerifyMeans(mac: nat -> Digest, code: string, now: int, after: Option<int>)
    ensures var r := Verify(mac, code, now, after);
            && (r.Some? ==> Acceptable(mac, code, now, after, r.value))
            && (forall k | Acceptable(mac, code, now, after, k) :: r.Some? && r.value <= k)
  {
    var digits, current := Typed(code), now / STEP_SECONDS;
    SearchMeans(mac, digits, current - SKEW_STEPS, current + SKEW_STEPS, after);
    forall k | Acceptable(mac, code, now, after, k)
      ensures WellFormed(digits)
    {
      PaddedIsDigits(Hotp(mac, k), DIGITS);
    }
  }

  lemma DigitIsNoSpace(c: char)
    requires '0' <= c <= '9'
    ensures c !in WHITE_SPACE
  {
  }

  lemma {:induction false} TypedIsDigits(s: string)
    requires AllDigits(s)
    ensures Typed(s) == s
  {
    if s == "" {
    } else {
      DigitIsNoSpace(s[0]);
      TypedIsDigits(s[1..]);
    }
  }

  /** The code an app shows now is accepted at its own step or, at most, one step earlier. */
  lemma CurrentCodeAccepted(mac: nat -> Digest, now: nat, after: Option<int>)
    requires Unused(now / STEP_SECONDS, after)
    ensures var r := Verify(mac, CodeAt(mac, now / STEP_SECONDS), now, after);
            r.Some? && now / STEP_SECONDS - 1 <= r.value <= now / STEP_SECONDS
  {
    var code := CodeAt(mac, now / STEP_SECONDS);
    PaddedIsDigits(Hotp(mac, now / STEP_SECONDS), DIGITS);
    TypedIsDigits(code);
    VerifyMeans(mac, code, now, after);
    assert Acceptable(mac, code, now, after, now / STEP_SECONDS);
  }
}
