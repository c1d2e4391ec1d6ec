/**
 What a redaction pass does to a text, as a list of pieces: spans of the
 input that are kept as they are and spans that are replaced by `***`.
 Every pass of the sanitizer is described by such a list, so "nothing but
 disjoint spans replaced, in order" is a fact about the list.
 */
module Redaction {
  import opened Text

  const REDACTED: string := "***"

  datatype Piece = Kept(text: string) | Masked(text: string)

  /** The input the pieces were cut from. */
  function Original(ps: seq<Piece>): string {
    if ps == [] then "" else ps[0].text + Original(ps[1..])
  }

  /** What one piece shows. */
  function Shown(p: Piece): string {
    if p.Kept? then p.text else REDACTED
  }

  /** The output: kept spans verbatim, masked spans as `***`. */
  function Render(ps: seq<Piece>): string {
    if ps == [] then "" else Shown(ps[0]) + Render(ps[1..])
  }

  lemma {:induction false} RenderAppend(a: seq<Piece>, b: seq<Piece>)
    ensures Render(a + b) == Render(a) + Render(b)
  {
    if a == [] {
      assert a + b == b;
    } else {
      RenderAppend(a[1..], b);
      Assoc(Shown(a[0]), Render(a[1..]), Render(b));
      assert (a + b)[1..] == a[1..] + b;
    }
  }

  lemma {:induction false} OriginalAppend(a: seq<Piece>, b: seq<Piece>)
    ensures Original(a + b) == Original(a) + Original(b)
  {
    if a == [] {
      assert a + b == b;
    } else {
      OriginalAppend(a[1..], b);
      Assoc(a[0].text, Original(a[1..]), Original(b));
      assert (a + b)[1..] == a[1..] + b;
    }
  }

  lemma RenderCons(p: Piece, ps: seq<Piece>)
    ensures Render([p] + ps) == Shown(p) + Render(ps)
    ensures Original([p] + ps) == p.text + Original(ps)
  {
    assert ([p] + ps)[1..] == ps;
  }

  lemma RenderOne(p: Piece)
    ensures Render([p]) == Shown(p) && Original([p]) == p.text
  {
    RenderCons(p, []);
    assert [p] + [] == [p];
  }

  /** A star-free window cannot start inside a mask. */
  lemma MaskHasStars(r: string, i: nat, w: string)
    requires w != "" && '*' !in w && i < |REDACTED|
    ensures !At(REDACTED + r, i, w)
  {
    assert (REDACTED + r)[i] == '*' != w[0];
  }

  /**
   A star-free window of the output was contiguous in the input, and one at
   the very start of the output was at the very start of the input.
   */
  lemma {:induction false} WindowLifts(ps: seq<Piece>, i: nat, w: string) returns (j: nat)
    requires w != "" && '*' !in w
    requires At(Render(ps), i, w)
    ensures At(Original(ps), j, w)
    ensures i == 0 ==> j == 0
    decreases |ps|
  {
    j := 0;
    var t, head, r, o := ps[0].text, Shown(ps[0]), Render(ps[1..]), Original(ps[1..]);
    if i >= |head| {
      AtSuffix(head, r, i, w);
      var k := WindowLifts(ps[1..], i - |head|, w);
      j := k + |t|;
      AtSuffix(t, o, j, w);
    } else if ps[0].Masked? {
      MaskHasStars(r, i, w);
    } else if i + |w| <= |t| {
      AtPrefix(t, r, i, w);
      AtPrefix(t, o, i, w);
      j := i;
    } else {
      AtSplit(t, r, i, w);
      var k := WindowLifts(ps[1..], 0, w[|t| - i..]);
      AtSplit(t, o, i, w);
      j := i;
    }
  }

  /** Redaction invents nothing: a star-free marker in the output was in the input. */
  lemma NothingInvented(ps: seq<Piece>, m: string)
    requires m != "" && '*' !in m
    requires Contains(Render(ps), m)
    ensures Contains(Original(ps), m)
  {
    var i :| 0 <= i <= |Render(ps)| && At(Render(ps), i, m);
    var j := WindowLifts(ps, i, m);
    assert At(Original(ps), j, m);
  }
}
