/**
 * One-dimensional Haar passes of `TraitImage` (`haar1D`, `haar1D_inv`) and the line
 * passes that the two-dimensional transforms apply to every row and every column.
 *
 * A pass runs a loop `for (s = 0; s < K; s++)`; iteration `s` is a butterfly on the
 * pair of input cells `2s`, `2s + 1` (forward) or `s`, `s + D` (inverse).  The 2D
 * routines only run a butterfly when its guard `2s + 1 < L && s + K < L` holds, with
 * `L` the length of the line; in the 1D routines that guard always holds.
 */
module Haar1D {

  /** The guard of butterfly `s` in a pass with loop count `k` over a line of length `len`. */
  predicate SlotOk(len: nat, k: nat, s: nat)
  {
    2 * s + 1 < len && s + k < len
  }

  /**
   * Cell `c` of the destination line after the first `n` of the `k` iterations of the
   * forward pass: the average of pair `c` lands in cell `c`, the half-difference of
   * pair `c - k` lands in cell `c`, and a cell no iteration has written keeps its old
   * value `o[c]`.
   */
  function FwdAt(v: seq<real>, o: seq<real>, k: nat, n: nat, c: nat): real
    requires n <= k && c < |o|
  {
    if c < n && SlotOk(|v|, k, c) then (v[2 * c] + v[2 * c + 1]) / 2.0
    else if k <= c < k + n && SlotOk(|v|, k, c - k) then (v[2 * (c - k)] - v[2 * (c - k) + 1]) / 2.0
    else o[c]
  }

  /** The destination line after the whole forward pass. */
  function FwdLine(v: seq<real>, o: seq<real>, k: nat): (r: seq<real>)
    ensures |r| == |o|
  {
    seq(|o|, c requires 0 <= c < |o| => FwdAt(v, o, k, k, c))
  }

  /**
   * Cell `c` of the destination line after the first `n` of the `k` iterations of the
   * inverse pass: iteration `s` writes `v[s] + v[s + d]` to cell `2s` and
   * `v[s] - v[s + d]` to cell `2s + 1`.  The reads stay in the line either because the
   * offset is the loop count (the guard covers `s + k`) or because it is at most half
   * the line (the guard gives `s < |v| / 2`).
   */
  function InvAt(v: seq<real>, o: seq<real>, k: nat, d: nat, n: nat, c: nat): real
    requires n <= k && c < |o| && (d == k || d <= |v| / 2)
  {
    var s := c / 2;
    if s < n && SlotOk(|v|, k, s) then
      (if c % 2 == 0 then v[s] + v[s + d] else v[s] - v[s + d])
    else o[c]
  }

  /** The destination line after the whole inverse pass. */
  function InvLine(v: seq<real>, o: seq<real>, k: nat, d: nat): (r: seq<real>)
    requires d == k || d <= |v| / 2
    ensures |r| == |o|
  {
    seq(|o|, c requires 0 <= c < |o| => InvAt(v, o, k, d, k, c))
  }

  /** Running iteration `n` of a forward pass changes only cells `n` and `n + k`. */
  lemma FwdAtStep(v: seq<real>, o: seq<real>, k: nat, n: nat, c: nat)
    requires n < k && c < |o|
    ensures FwdAt(v, o, k, n + 1, c) ==
      (if c == n && SlotOk(|v|, k, n) then (v[2 * n] + v[2 * n + 1]) / 2.0
       else if c == n + k && SlotOk(|v|, k, n) then (v[2 * n] - v[2 * n + 1]) / 2.0
       else FwdAt(v, o, k, n, c))
  {
  }

  /** Running iteration `n` of an inverse pass changes only cells `2n` and `2n + 1`. */
  lemma InvAtStep(v: seq<real>, o: seq<real>, k: nat, d: nat, n: nat, c: nat)
    requires n < k && c < |o| && (d == k || d <= |v| / 2)
    ensures InvAt(v, o, k, d, n + 1, c) ==
      (if c == 2 * n && SlotOk(|v|, k, n) then v[n] + v[n + d]
       else if c == 2 * n + 1 && SlotOk(|v|, k, n) then v[n] - v[n + d]
       else InvAt(v, o, k, d, n, c))
  {
  }

  /**
   * `haar1D(x, y)`: for `N = x.length` and every `i < N/2`, `y[i]` is the average and
   * `y[i + N/2]` the half-difference of `x[2i]` and `x[2i+1]`; no other cell of `y` is
   * written (for odd `N` the cell `N - 1` keeps its value).
   */
  method Haar1D(x: array<real>, y: array<real>)
    requires x != y
    requires 2 * (x.Length / 2) <= y.Length
    modifies y
    ensures forall i :: 0 <= i < x.Length / 2 ==>
      y[i] == (x[2 * i] + x[2 * i + 1]) / 2.0 && y[i + x.Length / 2] == (x[2 * i] - x[2 * i + 1]) / 2.0
    ensures forall c :: 2 * (x.Length / 2) <= c < y.Length ==> y[c] == old(y[c])
    ensures y[..] == FwdLine(x[..], old(y[..]), x.Length / 2)
  {
    var n := x.Length;
    var n2 := n / 2;
    ghost var y0 := y[..];
    var i: nat := 0;
    while i < n2
      invariant 0 <= i <= n2
      invariant forall c :: 0 <= c < y.Length ==> y[c] == FwdAt(x[..], y0, n2, i, c)
    {
      y[i] := (x[2 * i] + x[2 * i + 1]) / 2.0;
      y[i + n2] := (x[2 * i] - x[2 * i + 1]) / 2.0;
      forall c | 0 <= c < y.Length
        ensures y[c] == FwdAt(x[..], y0, n2, i + 1, c)
      {
        FwdAtStep(x[..], y0, n2, i, c);
      }
      i := i + 1;
    }
    assert y[..] == FwdLine(x[..], y0, n2);
  }

  /**
   * `haar1D_inv(x, x_rec)`: for `N = x.length` and every `i < N/2`,
   * `x_rec[2i] = x[i] + x[i + N/2]` and `x_rec[2i+1] = x[i] - x[i + N/2]`; no other cell
   * of `x_rec` is written.
   */
  method Haar1DInv(x: array<real>, xRec: array<real>)
    requires x != xRec
    requires 2 * (x.Length / 2) <= xRec.Length
    modifies xRec
    ensures forall i :: 0 <= i < x.Length / 2 ==>
      xRec[2 * i] == x[i] + x[i + x.Length / 2] && xRec[2 * i + 1] == x[i] - x[i + x.Length / 2]
    ensures forall c :: 2 * (x.Length / 2) <= c < xRec.Length ==> xRec[c] == old(xRec[c])
    ensures xRec[..] == InvLine(x[..], old(xRec[..]), x.Length / 2, x.Length / 2)
  {
    var n := x.Length;
    var n2 := n / 2;
    ghost var r0 := xRec[..];
    var i: nat := 0;
    while i < n2
      invariant 0 <= i <= n2
      invariant forall c :: 0 <= c < xRec.Length ==> xRec[c] == InvAt(x[..], r0, n2, n2, i, c)
    {
      xRec[2 * i] := x[i] + x[i + n2];
      xRec[2 * i + 1] := x[i] - x[i + n2];
      forall c | 0 <= c < xRec.Length
        ensures xRec[c] == InvAt(x[..], r0, n2, n2, i + 1, c)
      {
        InvAtStep(x[..], r0, n2, n2, i, c);
      }
      i := i + 1;
    }
    assert xRec[..] == InvLine(x[..], r0, n2, n2);
  }

  /**
   * The forward pass of `haar1D` followed by the inverse pass of `haar1D_inv` gives back
   * the first `2 * (N/2)` cells of `x` exactly (over the reals), whatever `y` and `x_rec`
   * held before; the cells past them are left as `x_rec` had them.
   */
  lemma Haar1DRoundTrip(x: seq<real>, y0: seq<real>, o: seq<real>)
    requires |y0| == |x| && 2 * (|x| / 2) <= |o|
    ensures var y := FwdLine(x, y0, |x| / 2);
      forall c :: 0 <= c < |o| ==>
        InvLine(y, o, |y| / 2, |y| / 2)[c] == if c < 2 * (|x| / 2) then x[c] else o[c]
  {
    var k := |x| / 2;
    var y := FwdLine(x, y0, k);
    forall c | 0 <= c < |o|
      ensures InvLine(y, o, k, k)[c] == if c < 2 * k then x[c] else o[c]
    {
      var s := c / 2;
      if c < 2 * k {
        assert s < k && SlotOk(|y|, k, s);
        assert y[s] == (x[2 * s] + x[2 * s + 1]) / 2.0;
        assert y[s + k] == (x[2 * s] - x[2 * s + 1]) / 2.0;
      }
    }
  }
}
