/** Comparison without an early exit: every byte is looked at, the differences are or-ed together. */
module ConstantTime {

  /** The or of all byte differences. */
  function Differences(acc: bv8, a: seq<bv8>, b: seq<bv8>): bv8
    requires |a| == |b|
    decreases |a|
  {
    if a == [] then acc else Differences(acc | (a[0] ^ b[0]), a[1..], b[1..])
  }

  predicate Equal(a: seq<bv8>, b: seq<bv8>) {
    |a| == |b| && Differences(0, a, b) == 0
  }

  lemma OrIsZero(x: bv8, y: bv8)
    ensures x | y == 0 <==> x == 0 && y == 0
  {
  }

  lemma XorIsZero(x: bv8, y: bv8)
    ensures x ^ y == 0 <==> x == y
  {
  }

  lemma {:induction false} NoDifference(acc: bv8, a: seq<bv8>, b: seq<bv8>)
    requires |a| == |b|
    ensures Differences(acc, a, b) == 0 <==> acc == 0 && a == b
    decreases |a|
  {
    if a == [] {
    } else {
      NoDifference(acc | (a[0] ^ b[0]), a[1..], b[1..]);
      OrIsZero(acc, a[0] ^ b[0]);
      XorIsZero(a[0], b[0]);
      assert a == [a[0]] + a[1..] && b == [b[0]] + b[1..];
    }
  }

  /** It is equality. */
  lemma EqualIsEquality(a: seq<bv8>, b: seq<bv8>)
    ensures Equal(a, b) <==> a == b
  {
    if |a| == |b| {
      NoDifference(0, a, b);
    }
  }

  /** The agent's loop. */
  method ConstantTimeEq(a: seq<bv8>, b: seq<bv8>) returns (same: bool)
    ensures same <==> a == b
  {
    if |a| != |b| {
      return false;
    }
    var diff: bv8 := 0;
    for i := 0 to |a|
      invariant Differences(diff, a[i..], b[i..]) == Differences(0, a, b)
    {
      assert a[i..][1..] == a[i + 1..] && b[i..][1..] == b[i + 1..];
      diff := diff | (a[i] ^ b[i]);
    }
    EqualIsEquality(a, b);
    return diff == 0;
  }
}
