/**
 Base32 as section 6 of RFC 4648 has it, without padding, against the
 source's packing loops over a 32-bit buffer that is never masked.
 */
module Base32 {
  import opened Numbers
  import opened Text

  // --- Bits, most significant first.

  function ToBits(v: nat, n: nat): (bits: seq<bool>)
    ensures |bits| == n
  {
    if n == 0 then [] else ToBits(v / 2, n - 1) + [v % 2 == 1]
  }

  function Value(bits: seq<bool>): nat {
    if bits == [] then 0
    else 2 * Value(bits[..|bits| - 1]) + (if bits[|bits| - 1] then 1 else 0)
  }

  lemma {:induction false} ValueBound(bits: seq<bool>)
    ensures Value(bits) < Pow2(|bits|)
  {
    if bits == [] {
    } else {
      ValueBound(bits[..|bits| - 1]);
    }
  }

  lemma {:induction false} BitsOfValue(bits: seq<bool>)
    ensures ToBits(Value(bits), |bits|) == bits
  {
    if bits == [] {
    } else {
      BitsOfValue(bits[..|bits| - 1]);
      assert bits == bits[..|bits| - 1] + [bits[|bits| - 1]];
    }
  }

  lemma {:induction false} ValueOfBits(v: nat, n: nat)
    requires v < Pow2(n)
    ensures Value(ToBits(v, n)) == v
    decreases n
  {
    if n == 0 {
    } else {
      ValueOfBits(v / 2, n - 1);
      assert ToBits(v, n)[..n - 1] == ToBits(v / 2, n - 1);
    }
  }

  lemma Double(x: nat, p: nat)
    ensures x * (2 * p) == 2 * (x * p)
  {
  }

  lemma {:induction false} ValueAppend(a: seq<bool>, b: seq<bool>)
    ensures Value(a + b) == Value(a) * Pow2(|b|) + Value(b)
    decreases |b|
  {
    if b == [] {
      assert a + b == a;
    } else {
      var n := |b| - 1;
      assert (a + b)[..|a + b| - 1] == a + b[..n];
      assert (a + b)[|a + b| - 1] == b[n];
      ValueAppend(a, b[..n]);
      Double(Value(a), Pow2(n));
    }
  }

  function Zeros(n: nat): (bits: seq<bool>)
    ensures |bits| == n
  {
    seq(n, _ => false)
  }

  lemma {:induction false} ZerosAreZero(n: nat)
    ensures Value(Zeros(n)) == 0
  {
    if n == 0 {
    } else {
      assert Zeros(n)[..n - 1] == Zeros(n - 1);
      ZerosAreZero(n - 1);
    }
  }

  function AllBits(bytes: seq<Byte>): seq<bool> {
    if bytes == [] then [] else ToBits(bytes[0], 8) + AllBits(bytes[1..])
  }

  lemma {:induction false} AllBitsLength(bytes: seq<Byte>)
    ensures |AllBits(bytes)| == 8 * |bytes|
  {
    if bytes == [] {
    } else {
      AllBitsLength(bytes[1..]);
    }
  }

  // --- The encoding as the standard has it.

  const ALPHABET: string := "ABCDEFGHIJKLMNOPQRSTUVWXYZ234567"

  /** The five-bit groups; the last one is filled up with zero bits. */
  function Groups(bits: seq<bool>): (gs: seq<nat>)
    decreases |bits|
  {
    if bits == [] then []
    else if |bits| < 5 then [Value(bits + Zeros(5 - |bits|))]
    else [Value(bits[..5])] + Groups(bits[5..])
  }

  lemma {:induction false} GroupsAreSmall(bits: seq<bool>)
    ensures forall i | 0 <= i < |Groups(bits)| :: Groups(bits)[i] < 32
    ensures |Groups(bits)| == (|bits| + 4) / 5
    decreases |bits|
  {
    assert Pow2(5) == 32;
    if bits == [] {
    } else if |bits| < 5 {
      ValueBound(bits + Zeros(5 - |bits|));
    } else {
      ValueBound(bits[..5]);
      GroupsAreSmall(bits[5..]);
    }
  }

  function Symbols(groups: seq<nat>): string
    requires forall i | 0 <= i < |groups| :: groups[i] < 32
  {
    if groups == [] then "" else [ALPHABET[groups[0]]] + Symbols(groups[1..])
  }

  function SymbolsOf(bits: seq<bool>): string {
    GroupsAreSmall(bits);
    Symbols(Groups(bits))
  }

  function Encode(bytes: seq<Byte>): string {
    SymbolsOf(AllBits(bytes))
  }

  // --- Decoding.

  /** The value of one symbol, in either case. */
  function SymbolValue(c: char): (v: Option<nat>)
    ensures v.Some? ==> v.value < 32
  {
    var up := AsciiUpper(c);
    if 'A' <= up <= 'Z' then Some(up as nat - 'A' as nat)
    else if '2' <= up <= '7' then Some(up as nat - '2' as nat + 26)
    else None
  }

  predicate Readable(text: string) {
    forall i | 0 <= i < |text| && text[i] != '=' :: SymbolValue(text[i]).Some?
  }

  /** The bits of a text, five per symbol; `=` has none. */
  function TextBits(text: string): seq<bool>
    requires Readable(text)
  {
    if text == "" then []
    else (if text[0] == '=' then [] else ToBits(SymbolValue(text[0]).value, 5)) + TextBits(text[1..])
  }

  /** Whole bytes; bits left over are dropped. */
  function Bytes(bits: seq<bool>): seq<Byte>
    decreases |bits|
  {
    if |bits| < 8 then []
    else
      ValueBound(bits[..8]);
      assert Pow2(8) == 256;
      [Value(bits[..8])] + Bytes(bits[8..])
  }

  function Decode(text: string): Option<seq<Byte>> {
    if Readable(text) then Some(Bytes(TextBits(text))) else None
  }

  // --- The 32-bit buffer.

  const WORD: nat := 0x1_0000_0000

  /** `(buffer << n) | low` on a `u32`, for `low` below `2^n`. */
  function ShiftIn(buffer: nat, factor: nat, low: nat): nat {
    (buffer * factor) % WORD + low
  }

  /** The low bits of the buffer are the pending ones; what is above them does not matter. */
  predicate Pending(buffer: nat, bits: seq<bool>) {
    buffer < WORD && buffer % Pow2(|bits|) == Value(bits)
  }

  lemma {:induction false} PowAdd(a: nat, b: nat)
    ensures Pow2(a + b) == Pow2(a) * Pow2(b)
  {
    if b == 0 {
    } else {
      PowAdd(a, b - 1);
      Double(Pow2(a), Pow2(b - 1));
    }
  }

  lemma WordIsPow2()
    ensures Pow2(5) == 32 && Pow2(8) == 256 && Pow2(32) == WORD
  {
    assert Pow2(8) == 256;
    PowAdd(8, 8);
    PowAdd(16, 16);
  }

  lemma Signs(d: int, m: nat)
    requires m > 0
    ensures d >= 1 ==> d * m >= m
    ensures d <= -1 ==> d * m + m <= 0
  {
  }

  /** Quotient and remainder are the only such pair. */
  lemma DivModUnique(x: nat, q: int, m: nat, r: nat)
    requires r < m && x == q * m + r
    ensures x / m == q && x % m == r
  {
    var d := x / m - q;
    assert d * m == r - x % m;
    Signs(d, m);
  }

  lemma Grow(a: nat, b: nat, f: nat)
    requires a <= b
    ensures a * f <= b * f
  {
  }

  lemma Below(a: nat, p: nat, f: nat, low: nat)
    requires a < p && low < f
    ensures a * f + low < p * f
  {
    assert a * f + f == (a + 1) * f;
    Grow(a + 1, p, f);
  }

  lemma Distribute(a: int, b: int, f: int)
    ensures (a + b) * f == a * f + b * f
  {
  }

  lemma Reassociate(a: int, b: int, c: int)
    ensures (a * b) * c == a * (b * c)
  {
  }

  /** Reducing by a multiple of `m` first does not change what is left modulo `m`. */
  lemma WrapThenReduce(buffer: nat, word: nat, m: nat, pn: nat, f: nat, k: nat, low: nat)
    requires pn > 0 && m == pn * f && k > 0 && word == k * m && word > 0 && low < f
    ensures ((buffer * f) % word + low) % m == (buffer % pn) * f + low
  {
    var q, pend, t, y := buffer / pn, buffer % pn, (buffer * f) / word, (buffer * f) % word;
    assert buffer * f == q * m + pend * f by {
      assert buffer == q * pn + pend;
      Distribute(q * pn, pend, f);
      Reassociate(q, pn, f);
    }
    assert y == buffer * f - t * word;
    assert t * word == (t * k) * m by {
      Reassociate(t, k, m);
    }
    assert (q - t * k) * m + (t * k) * m == q * m by {
      Distribute(q - t * k, t * k, m);
    }
    Below(pend, pn, f, low);
    DivModUnique(y + low, q - t * k, m, pend * f + low);
  }

  lemma ShiftKeepsPending(buffer: nat, n: nat, s: nat, low: nat)
    requires n + s <= 32 && low < Pow2(s)
    ensures ShiftIn(buffer, Pow2(s), low) % Pow2(n + s) == (buffer % Pow2(n)) * Pow2(s) + low
  {
    WordIsPow2();
    PowAdd(n, s);
    PowAdd(32 - n - s, n + s);
    WrapThenReduce(buffer, WORD, Pow2(n + s), Pow2(n), Pow2(s), Pow2(32 - n - s), low);
  }

  lemma LessByFactor(a: int, b: nat, f: nat)
    requires f > 0 && 0 <= a * f < b * f
    ensures 0 <= a < b
  {
    Signs(a, f);
    Signs(a - b, f);
    Distribute(a - b, b, f);
  }

  /** What is left after reducing is a multiple of `f`, so there is room for something below `f`. */
  lemma WrapLeavesRoom(buffer: nat, word: nat, w: nat, f: nat, low: nat)
    requires f > 0 && w > 0 && word == w * f && word > 0 && low < f
    ensures (buffer * f) % word + low < word
  {
    var t, y := (buffer * f) / word, (buffer * f) % word;
    assert y == buffer * f - t * word;
    assert t * word == (t * w) * f by {
      Reassociate(t, w, f);
    }
    assert (buffer - t * w) * f + (t * w) * f == buffer * f by {
      Distribute(buffer - t * w, t * w, f);
    }
    LessByFactor(buffer - t * w, w, f);
    Below(buffer - t * w, w, f, low);
  }

  lemma ShiftStaysInWord(buffer: nat, s: nat, low: nat)
    requires s <= 32 && low < Pow2(s)
    ensures ShiftIn(buffer, Pow2(s), low) < WORD
  {
    WordIsPow2();
    PowAdd(32 - s, s);
    WrapLeavesRoom(buffer, WORD, Pow2(32 - s), Pow2(s), low);
  }

  /** New bits come in at the low end. */
  lemma PendingMore(buffer: nat, bits: seq<bool>, v: nat, n: nat)
    requires Pending(buffer, bits) && |bits| + n <= 32 && v < Pow2(n)
    ensures Pending(ShiftIn(buffer, Pow2(n), v), bits + ToBits(v, n))
  {
    var more := bits + ToBits(v, n);
    assert Value(more) == Value(bits) * Pow2(n) + v by {
      ValueAppend(bits, ToBits(v, n));
      ValueOfBits(v, n);
    }
    assert ShiftIn(buffer, Pow2(n), v) < WORD by {
      ShiftStaysInWord(buffer, n, v);
    }
    ShiftKeepsPending(buffer, |bits|, n, v);
    assert |more| == |bits| + n;
  }

  lemma HighAndLow(buffer: nat, pm: nat, pn: nat, hi: nat, lo: nat)
    requires hi < pm && lo < pn && pm * pn > 0 && buffer % (pm * pn) == hi * pn + lo
    ensures (buffer / pn) % pm == hi && buffer % pn == lo
  {
    var q := buffer / (pm * pn);
    assert buffer == q * (pm * pn) + (hi * pn + lo);
    assert q * (pm * pn) + hi * pn == (q * pm + hi) * pn by {
      Reassociate(q, pm, pn);
      Distribute(q * pm, hi, pn);
    }
    DivModUnique(buffer, q * pm + hi, pn, lo);
    DivModUnique(q * pm + hi, q, pm, hi);
  }

  /** The first `m` pending bits are what is shifted down and masked out. */
  lemma TakeTop(buffer: nat, bits: seq<bool>, m: nat)
    requires m <= |bits| && Pending(buffer, bits)
    ensures var n := |bits| - m;
            (buffer / Pow2(n)) % Pow2(m) == Value(bits[..m]) && Pending(buffer, bits[m..])
  {
    var hi, lo := bits[..m], bits[m..];
    assert bits == hi + lo;
    ValueAppend(hi, lo);
    ValueBound(hi);
    ValueBound(lo);
    PowAdd(m, |lo|);
    HighAndLow(buffer, Pow2(m), Pow2(|lo|), Value(hi), Value(lo));
  }

  // --- The encoder.

  lemma EmitGroup(out: string, bits: seq<bool>)
    requires |bits| >= 5
    ensures Value(bits[..5]) < 32
    ensures out + SymbolsOf(bits) == (out + [ALPHABET[Value(bits[..5])]]) + SymbolsOf(bits[5..])
  {
    assert Pow2(5) == 32;
    ValueBound(bits[..5]);
    GroupsAreSmall(bits);
    assert Groups(bits)[1..] == Groups(bits[5..]);
    Assoc(out, [ALPHABET[Value(bits[..5])]], SymbolsOf(bits[5..]));
  }

  lemma OneSymbol(g: nat)
    requires g < 32
    ensures Symbols([g]) == [ALPHABET[g]]
  {
    assert [g][1..] == [];
  }

  lemma EmitLast(bits: seq<bool>)
    requires 0 < |bits| < 5
    ensures Value(bits + Zeros(5 - |bits|)) < 32
    ensures SymbolsOf(bits) == [ALPHABET[Value(bits + Zeros(5 - |bits|))]]
  {
    var g := Value(bits + Zeros(5 - |bits|));
    assert g < 32 by {
      assert Pow2(5) == 32;
      ValueBound(bits + Zeros(5 - |bits|));
    }
    assert Groups(bits) == [g];
    OneSymbol(g);
  }

  /** `ALPHABET[(buffer >> bits) & 31]` until fewer than five bits are pending. */
  method EmitWhole(out0: string, buffer: nat, bits0: nat, ghost pend0: seq<bool>, ghost rest: seq<bool>)
    returns (out: string, bits: nat, ghost pend: seq<bool>)
    requires |pend0| == bits0 && Pending(buffer, pend0)
    ensures bits < 5 && |pend| == bits && Pending(buffer, pend)
    ensures out + SymbolsOf(pend + rest) == out0 + SymbolsOf(pend0 + rest)
  {
    out, bits, pend := out0, bits0, pend0;
    while bits >= 5
      invariant |pend| == bits && Pending(buffer, pend)
      invariant out + SymbolsOf(pend + rest) == out0 + SymbolsOf(pend0 + rest)
    {
      assert Pow2(5) == 32;
      bits := bits - 5;
      TakeTop(buffer, pend, 5);
      EmitGroup(out, pend + rest);
      assert (pend + rest)[..5] == pend[..5] && (pend + rest)[5..] == pend[5..] + rest;
      out := out + [ALPHABET[(buffer / Pow2(bits)) % 32]];
      pend := pend[5..];
    }
  }

  lemma ZeroBits(n: nat)
    ensures ToBits(0, n) == Zeros(n)
  {
    ZerosAreZero(n);
    BitsOfValue(Zeros(n));
  }

  /** The last group, its missing bits shifted in as zeros. */
  method EmitRemainder(out0: string, buffer: nat, bits: nat, ghost pend: seq<bool>) returns (out: string)
    requires |pend| == bits < 5 && Pending(buffer, pend)
    ensures out == out0 + SymbolsOf(pend)
  {
    if bits == 0 {
      assert SymbolsOf(pend) == "";
      return out0;
    }
    PendingMore(buffer, pend, 0, 5 - bits);
    ZeroBits(5 - bits);
    EmitLast(pend);
    assert Pow2(5) == 32;
    return out0 + [ALPHABET[ShiftIn(buffer, Pow2(5 - bits), 0) % 32]];
  }

  lemma NextByte(pend: seq<bool>, bytes: seq<Byte>, i: nat)
    requires i < |bytes|
    ensures pend + AllBits(bytes[i..]) == (pend + ToBits(bytes[i], 8)) + AllBits(bytes[i + 1..])
  {
    assert bytes[i..][1..] == bytes[i + 1..];
    Assoc(pend, ToBits(bytes[i], 8), AllBits(bytes[i + 1..]));
  }

  /** `base32` emits exactly the groups of the standard. */
  method Base32(bytes: seq<Byte>) returns (out: string)
    ensures out == Encode(bytes)
  {
    out := "";
    var buffer, bits := 0, 0;
    ghost var pend: seq<bool> := [];
    assert bytes[0..] == bytes && pend + AllBits(bytes) == AllBits(bytes);
    for i := 0 to |bytes|
      invariant bits < 5 && |pend| == bits && Pending(buffer, pend)
      invariant out + SymbolsOf(pend + AllBits(bytes[i..])) == Encode(bytes)
    {
      assert Pow2(8) == 256;
      NextByte(pend, bytes, i);
      PendingMore(buffer, pend, bytes[i], 8);
      buffer := ShiftIn(buffer, 256, bytes[i]);
      out, bits, pend := EmitWhole(out, buffer, bits + 8, pend + ToBits(bytes[i], 8), AllBits(bytes[i + 1..]));
    }
    assert bytes[|bytes|..] == [] && pend + AllBits([]) == pend;
    out := EmitRemainder(out, buffer, bits, pend);
  }

  lemma {:induction false} SymbolsLength(groups: seq<nat>)
    requires forall i | 0 <= i < |groups| :: groups[i] < 32
    ensures |Symbols(groups)| == |groups|
  {
    if groups == [] {
    } else {
      SymbolsLength(groups[1..]);
    }
  }

  /** The length of the encoding: `ceil(8 n / 5)` symbols. */
  lemma EncodedLength(bytes: seq<Byte>)
    ensures |Encode(bytes)| == (8 * |bytes| + 4) / 5
  {
    AllBitsLength(bytes);
    GroupsAreSmall(AllBits(bytes));
    SymbolsLength(Groups(AllBits(bytes)));
  }

  // --- The decoder.

  lemma {:induction false} AllBitsSnoc(bytes: seq<Byte>, b: Byte)
    ensures AllBits(bytes + [b]) == AllBits(bytes) + ToBits(b, 8)
  {
    if bytes == [] {
      assert bytes + [b] == [b] && [b][1..] == [];
    } else {
      assert (bytes + [b])[1..] == bytes[1..] + [b];
      AllBitsSnoc(bytes[1..], b);
      Assoc(ToBits(bytes[0], 8), AllBits(bytes[1..]), ToBits(b, 8));
    }
  }

  lemma {:induction false} TextBitsSnoc(text: string, c: char)
    requires Readable(text) && (c != '=' ==> SymbolValue(c).Some?)
    ensures Readable(text + [c])
    ensures TextBits(text + [c]) == TextBits(text) + (if c == '=' then [] else ToBits(SymbolValue(c).value, 5))
  {
    var bits := if c == '=' then [] else ToBits(SymbolValue(c).value, 5);
    if text == "" {
      assert text + [c] == [c] && [c][1..] == "";
      assert bits + [] == bits && [] + bits == bits;
    } else {
      assert (text + [c])[1..] == text[1..] + [c];
      TextBitsSnoc(text[1..], c);
      var first := if text[0] == '=' then [] else ToBits(SymbolValue(text[0]).value, 5);
      Assoc(first, TextBits(text[1..]), bits);
    }
  }

  /** Whole bytes come back; fewer than eight bits behind them are dropped. */
  lemma {:induction false} BytesBack(bytes: seq<Byte>, pad: seq<bool>)
    requires |pad| < 8
    ensures Bytes(AllBits(bytes) + pad) == bytes
  {
    if bytes == [] {
      assert AllBits(bytes) + pad == pad;
    } else {
      var first, rest := ToBits(bytes[0], 8), AllBits(bytes[1..]) + pad;
      Assoc(first, AllBits(bytes[1..]), pad);
      assert (first + rest)[..8] == first && (first + rest)[8..] == rest;
      assert Pow2(8) == 256;
      ValueOfBits(bytes[0], 8);
      BytesBack(bytes[1..], pad);
      assert bytes == [bytes[0]] + bytes[1..];
    }
  }

  /** One symbol: five more bits, and a byte once eight are pending. */
  method TakeSymbol(buffer: nat, bits: nat, out: seq<Byte>, v: nat, ghost pend: seq<bool>)
    returns (buffer': nat, bits': nat, out': seq<Byte>, ghost pend': seq<bool>)
    requires |pend| == bits < 8 && Pending(buffer, pend) && v < 32
    ensures |pend'| == bits' < 8 && Pending(buffer', pend')
    ensures AllBits(out') + pend' == (AllBits(out) + pend) + ToBits(v, 5)
  {
    assert Pow2(5) == 32 && Pow2(8) == 256;
    PendingMore(buffer, pend, v, 5);
    buffer' := ShiftIn(buffer, 32, v);
    bits' := bits + 5;
    out' := out;
    pend' := pend + ToBits(v, 5);
    Assoc(AllBits(out), pend, ToBits(v, 5));
    if bits' >= 8 {
      bits' := bits' - 8;
      TakeTop(buffer', pend', 8);
      var byte: Byte := (buffer' / Pow2(bits')) % 256;
      AllBitsSnoc(out, byte);
      BitsOfValue(pend'[..8]);
      assert pend' == pend'[..8] + pend'[8..];
      Assoc(AllBits(out), pend'[..8], pend'[8..]);
      out' := out + [byte];
      pend' := pend'[8..];
    }
  }

  /** `base32_decode` reads exactly the bytes the symbols spell. */
  method Base32Decode(text: string) returns (r: Option<seq<Byte>>)
    ensures r == Decode(text)
  {
    var out: seq<Byte>, buffer, bits := [], 0, 0;
    ghost var pend: seq<bool> := [];
    for i := 0 to |text|
      invariant Readable(text[..i])
      invariant |pend| == bits < 8 && Pending(buffer, pend)
      invariant AllBits(out) + pend == TextBits(text[..i])
    {
      assert text[..i + 1] == text[..i] + [text[i]];
      if text[i] != '=' {
        var value := SymbolValue(text[i]);
        if value.None? {
          return None;
        }
        TextBitsSnoc(text[..i], text[i]);
        buffer, bits, out, pend := TakeSymbol(buffer, bits, out, value.value, pend);
      } else {
        TextBitsSnoc(text[..i], text[i]);
        assert TextBits(text[..i]) + [] == TextBits(text[..i]);
      }
    }
    assert text[..|text|] == text;
    BytesBack(out, pend);
    return Some(out);
  }

  // --- Round trip.

  lemma Letters(v: nat)
    requires v < 26
    ensures ALPHABET[v] == 'A' + v as char
  {
    if v < 13 {
      assert ALPHABET[v] == "ABCDEFGHIJKLM"[v];
    } else {
      assert ALPHABET[v] == "NOPQRSTUVWXYZ"[v - 13];
    }
  }

  lemma SymbolBack(v: nat)
    requires v < 32
    ensures SymbolValue(ALPHABET[v]) == Some(v) && ALPHABET[v] != '='
  {
    if v < 26 {
      Letters(v);
    } else {
      assert ALPHABET[v] == "234567"[v - 26];
    }
  }

  function GroupBits(groups: seq<nat>): seq<bool> {
    if groups == [] then [] else ToBits(groups[0], 5) + GroupBits(groups[1..])
  }

  lemma {:induction false} SymbolsReadBack(groups: seq<nat>)
    requires forall i | 0 <= i < |groups| :: groups[i] < 32
    ensures Readable(Symbols(groups)) && TextBits(Symbols(groups)) == GroupBits(groups)
  {
    if groups == [] {
    } else {
      SymbolBack(groups[0]);
      SymbolsReadBack(groups[1..]);
      assert Symbols(groups)[1..] == Symbols(groups[1..]);
    }
  }

  /** The groups spell the bits they were cut from, and fewer than five zeros. */
  lemma {:induction false} GroupsSpell(bits: seq<bool>) returns (pad: seq<bool>)
    ensures GroupBits(Groups(bits)) == bits + pad && |pad| < 5
    decreases |bits|
  {
    pad := [];
    if bits == [] {
      assert bits + pad == bits;
    } else if |bits| < 5 {
      pad := Zeros(5 - |bits|);
      BitsOfValue(bits + pad);
      assert GroupBits(Groups(bits)[1..]) == [];
      assert (bits + pad) + [] == bits + pad;
    } else {
      pad := GroupsSpell(bits[5..]);
      BitsOfValue(bits[..5]);
      assert Groups(bits)[1..] == Groups(bits[5..]);
      assert bits == bits[..5] + bits[5..];
      Assoc(bits[..5], bits[5..], pad);
    }
  }

  /** Every byte sequence survives encoding and decoding. */
  lemma RoundTrip(bytes: seq<Byte>)
    ensures Decode(Encode(bytes)) == Some(bytes)
  {
    var bits := AllBits(bytes);
    GroupsAreSmall(bits);
    SymbolsReadBack(Groups(bits));
    var pad := GroupsSpell(bits);
    BytesBack(bytes, pad);
  }
}
