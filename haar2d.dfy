/**
 * One level of the separable two-dimensional Haar transform of `TraitImage`
 * (`haar2D_mono`, `haar2D_mono_inv`).  Each routine runs a line pass over every row
 * into a zeroed scratch grid `z`, then a line pass over every column of `z` into the
 * destination.  As in the source, the row pass of both routines uses `H2 = h/2` as its
 * loop count and offset, and the column pass uses `W2 = w/2`; the inverse column pass
 * reads its second operand at offset `H2`.
 */
module Haar2D {
  import opened Matrices
  import opened Haar1D

  /** The scratch grid `z` after the forward row pass over `x`. */
  function RowsFwd(x: Matrix, h: nat, w: nat): (z: Matrix)
    requires IsGrid(x, h, w)
    ensures IsGrid(z, h, w)
  {
    seq(h, i requires 0 <= i < h => FwdLine(x[i], ZeroLine(w), h / 2))
  }

  /** The destination after the forward column pass over `z`, starting from `y0`. */
  function ColsFwd(z: Matrix, y0: Matrix, h: nat, w: nat): (y: Matrix)
    requires IsGrid(z, h, w) && IsGrid(y0, h, w)
    ensures IsGrid(y, h, w)
  {
    seq(h, r requires 0 <= r < h =>
      seq(w, c requires 0 <= c < w => FwdAt(Col(z, h, w, c), Col(y0, h, w, c), w / 2, w / 2, r)))
  }

  /** What `haar2D_mono(x, y)` leaves in `y` when `y` held `y0`. */
  function MonoFwd(x: Matrix, y0: Matrix, h: nat, w: nat): (y: Matrix)
    requires IsGrid(x, h, w) && IsGrid(y0, h, w)
    ensures IsGrid(y, h, w)
  {
    ColsFwd(RowsFwd(x, h, w), y0, h, w)
  }

  /** The scratch grid `z` after the inverse row pass over `x`. */
  function RowsInv(x: Matrix, h: nat, w: nat): (z: Matrix)
    requires IsGrid(x, h, w)
    ensures IsGrid(z, h, w)
  {
    seq(h, i requires 0 <= i < h => InvLine(x[i], ZeroLine(w), h / 2, h / 2))
  }

  /** The destination after the inverse column pass over `z`, starting from `r0`. */
  function ColsInv(z: Matrix, r0: Matrix, h: nat, w: nat): (r: Matrix)
    requires IsGrid(z, h, w) && IsGrid(r0, h, w)
    ensures IsGrid(r, h, w)
  {
    seq(h, i requires 0 <= i < h =>
      seq(w, c requires 0 <= c < w => InvAt(Col(z, h, w, c), Col(r0, h, w, c), w / 2, h / 2, w / 2, i)))
  }

  /** What `haar2D_mono_inv(x, x_rec)` leaves in `x_rec` when `x_rec` held `r0`. */
  function MonoInv(x: Matrix, r0: Matrix, h: nat, w: nat): (r: Matrix)
    requires IsGrid(x, h, w) && IsGrid(r0, h, w)
    ensures IsGrid(r, h, w)
  {
    ColsInv(RowsInv(x, h, w), r0, h, w)
  }

  /** One iteration of the row loop of `haar2D_mono`: the forward pass over row `i`. */
  method FwdRowPass(x: array2<real>, z: array2<real>, i: nat, k: nat)
    requires x != z && z.Length0 == x.Length0 && z.Length1 == x.Length1 && i < x.Length0
    modifies z
    ensures forall c :: 0 <= c < z.Length1 ==> z[i, c] == FwdAt(Grid(x)[i], old(Grid(z))[i], k, k, c)
    ensures forall r, c :: 0 <= r < z.Length0 && 0 <= c < z.Length1 && r != i ==> z[r, c] == old(z[r, c])
  {
    ghost var xs := Grid(x);
    ghost var z0 := Grid(z);
    var w := x.Length1;
    var j: nat := 0;
    while j < k
      invariant 0 <= j <= k
      invariant forall c :: 0 <= c < w ==> z[i, c] == FwdAt(xs[i], z0[i], k, j, c)
      invariant forall r, c :: 0 <= r < z.Length0 && 0 <= c < w && r != i ==> z[r, c] == old(z[r, c])
    {
      if 2 * j + 1 < w && j + k < w {
        z[i, j] := (x[i, 2 * j] + x[i, 2 * j + 1]) / 2.0;
        z[i, j + k] := (x[i, 2 * j] - x[i, 2 * j + 1]) / 2.0;
      }
      forall c | 0 <= c < w
        ensures z[i, c] == FwdAt(xs[i], z0[i], k, j + 1, c)
      {
        FwdAtStep(xs[i], z0[i], k, j, c);
      }
      j := j + 1;
    }
  }

  /** One iteration of the column loop of `haar2D_mono`: the forward pass over column `j`. */
  method FwdColPass(z: array2<real>, y: array2<real>, j: nat, k: nat)
    requires z != y && y.Length0 == z.Length0 && y.Length1 == z.Length1 && j < z.Length1
    modifies y
    ensures forall r :: 0 <= r < y.Length0 ==>
      y[r, j] == FwdAt(Col(Grid(z), z.Length0, z.Length1, j), Col(old(Grid(y)), z.Length0, z.Length1, j), k, k, r)
    ensures forall r, c :: 0 <= r < y.Length0 && 0 <= c < y.Length1 && c != j ==> y[r, c] == old(y[r, c])
  {
    ghost var zs := Grid(z);
    ghost var y0 := Grid(y);
    var h, w := z.Length0, z.Length1;
    ghost var zc := Col(zs, h, w, j);
    ghost var yc := Col(y0, h, w, j);
    var i: nat := 0;
    while i < k
      invariant 0 <= i <= k
      invariant forall r :: 0 <= r < h ==> y[r, j] == FwdAt(zc, yc, k, i, r)
      invariant forall r, c :: 0 <= r < h && 0 <= c < w && c != j ==> y[r, c] == old(y[r, c])
    {
      if 2 * i + 1 < h && i + k < h {
        assert zc[2 * i] == z[2 * i, j] && zc[2 * i + 1] == z[2 * i + 1, j];
        y[i, j] := (z[2 * i, j] + z[2 * i + 1, j]) / 2.0;
        y[i + k, j] := (z[2 * i, j] - z[2 * i + 1, j]) / 2.0;
      }
      forall r | 0 <= r < h
        ensures y[r, j] == FwdAt(zc, yc, k, i + 1, r)
      {
        FwdAtStep(zc, yc, k, i, r);
      }
      i := i + 1;
    }
    assert Grid(z) == zs;
  }

  /**
   * `haar2D_mono(x, y)`.  Every index the loops use stays inside the `h` by `w` arrays
   * for every `h` and `w`: the guards `2j+1 < w && j+H2 < w` and `2i+1 < h && i+W2 < h`
   * are what makes this so.
   */
  method Haar2DMono(x: array2<real>, y: array2<real>)
    requires x != y
    requires x.Length0 > 0
    requires y.Length0 == x.Length0 && y.Length1 == x.Length1
    modifies y
    ensures forall r, c :: 0 <= r < y.Length0 && 0 <= c < y.Length1 ==>
      y[r, c] == MonoFwd(old(Grid(x)), old(Grid(y)), x.Length0, x.Length1)[r][c]
  {
    var h := x.Length0;
    var w := x.Length1;
    var w2 := w / 2;
    var h2 := h / 2;
    ghost var xs := Grid(x);
    ghost var y0 := Grid(y);
    var z := new real[h, w]((_, _) => 0.0);
    ghost var zs := RowsFwd(xs, h, w);
    // rows
    var i: nat := 0;
    while i < h
      modifies z
      invariant 0 <= i <= h
      invariant forall r, c :: 0 <= r < i && 0 <= c < w ==> z[r, c] == zs[r][c]
      invariant forall r, c :: i <= r < h && 0 <= c < w ==> z[r, c] == 0.0
    {
      assert Grid(z)[i] == ZeroLine(w);
      FwdRowPass(x, z, i, h2);
      i := i + 1;
    }
    GridExt(Grid(z), zs, h, w);
    // columns
    var j: nat := 0;
    while j < w
      modifies y
      invariant 0 <= j <= w
      invariant forall r, c :: 0 <= r < h && 0 <= c < j ==> y[r, c] == ColsFwd(zs, y0, h, w)[r][c]
      invariant forall r, c :: 0 <= r < h && j <= c < w ==> y[r, c] == y0[r][c]
    {
      assert Col(Grid(y), h, w, j) == Col(y0, h, w, j);
      FwdColPass(z, y, j, w2);
      j := j + 1;
    }
  }

  /** One iteration of the row loop of `haar2D_mono_inv`: the inverse pass over row `i`. */
  method InvRowPass(x: array2<real>, z: array2<real>, i: nat, k: nat)
    requires x != z && z.Length0 == x.Length0 && z.Length1 == x.Length1 && i < x.Length0
    modifies z
    ensures forall c :: 0 <= c < z.Length1 ==> z[i, c] == InvAt(Grid(x)[i], old(Grid(z))[i], k, k, k, c)
    ensures forall r, c :: 0 <= r < z.Length0 && 0 <= c < z.Length1 && r != i ==> z[r, c] == old(z[r, c])
  {
    ghost var xs := Grid(x);
    ghost var z0 := Grid(z);
    var w := x.Length1;
    var j: nat := 0;
    while j < k
      invariant 0 <= j <= k
      invariant forall c :: 0 <= c < w ==> z[i, c] == InvAt(xs[i], z0[i], k, k, j, c)
      invariant forall r, c :: 0 <= r < z.Length0 && 0 <= c < w && r != i ==> z[r, c] == old(z[r, c])
    {
      if 2 * j + 1 < w && j + k < w {
        z[i, 2 * j] := x[i, j] + x[i, j + k];
        z[i, 2 * j + 1] := x[i, j] - x[i, j + k];
      }
      forall c | 0 <= c < w
        ensures z[i, c] == InvAt(xs[i], z0[i], k, k, j + 1, c)
      {
        InvAtStep(xs[i], z0[i], k, k, j, c);
      }
      j := j + 1;
    }
  }

  /**
   * One iteration of the column loop of `haar2D_mono_inv`: the inverse pass over
   * column `j`, with loop count `k` and read offset `d`.
   */
  method InvColPass(z: array2<real>, xRec: array2<real>, j: nat, k: nat, d: nat)
    requires z != xRec && xRec.Length0 == z.Length0 && xRec.Length1 == z.Length1 && j < z.Length1
    requires d == k || d <= z.Length0 / 2
    modifies xRec
    ensures forall r :: 0 <= r < xRec.Length0 ==>
      xRec[r, j] == InvAt(Col(Grid(z), z.Length0, z.Length1, j), Col(old(Grid(xRec)), z.Length0, z.Length1, j), k, d, k, r)
    ensures forall r, c :: 0 <= r < xRec.Length0 && 0 <= c < xRec.Length1 && c != j ==> xRec[r, c] == old(xRec[r, c])
  {
    ghost var zs := Grid(z);
    ghost var r0 := Grid(xRec);
    var h, w := z.Length0, z.Length1;
    ghost var zc := Col(zs, h, w, j);
    ghost var rc := Col(r0, h, w, j);
    var i: nat := 0;
    while i < k
      invariant 0 <= i <= k
      invariant forall r :: 0 <= r < h ==> xRec[r, j] == InvAt(zc, rc, k, d, i, r)
      invariant forall r, c :: 0 <= r < h && 0 <= c < w && c != j ==> xRec[r, c] == old(xRec[r, c])
    {
      if 2 * i + 1 < h && i + k < h {
        assert zc[i] == z[i, j] && zc[i + d] == z[i + d, j];
        xRec[2 * i, j] := z[i, j] + z[i + d, j];
        xRec[2 * i + 1, j] := z[i, j] - z[i + d, j];
      }
      forall r | 0 <= r < h
        ensures xRec[r, j] == InvAt(zc, rc, k, d, i + 1, r)
      {
        InvAtStep(zc, rc, k, d, i, r);
      }
      i := i + 1;
    }
    assert Grid(z) == zs;
  }

  /** `haar2D_mono_inv(x, x_rec)`; its indices, too, stay inside the arrays for every `h` and `w`. */
  method Haar2DMonoInv(x: array2<real>, xRec: array2<real>)
    requires x != xRec
    requires x.Length0 > 0
    requires xRec.Length0 == x.Length0 && xRec.Length1 == x.Length1
    modifies xRec
    ensures forall r, c :: 0 <= r < xRec.Length0 && 0 <= c < xRec.Length1 ==>
      xRec[r, c] == MonoInv(old(Grid(x)), old(Grid(xRec)), x.Length0, x.Length1)[r][c]
  {
    var h := x.Length0;
    var w := x.Length1;
    var w2 := w / 2;  // w >> 1 on a non-negative int
    var h2 := h / 2;
    ghost var xs := Grid(x);
    ghost var r0 := Grid(xRec);
    var z := new real[h, w]((_, _) => 0.0);
    ghost var zs := RowsInv(xs, h, w);
    // rows
    var i: nat := 0;
    while i < h
      modifies z
      invariant 0 <= i <= h
      invariant forall r, c :: 0 <= r < i && 0 <= c < w ==> z[r, c] == zs[r][c]
      invariant forall r, c :: i <= r < h && 0 <= c < w ==> z[r, c] == 0.0
    {
      assert Grid(z)[i] == ZeroLine(w);
      InvRowPass(x, z, i, h2);
      i := i + 1;
    }
    GridExt(Grid(z), zs, h, w);
    // columns
    var j: nat := 0;
    while j < w
      modifies xRec
      invariant 0 <= j <= w
      invariant forall r, c :: 0 <= r < h && 0 <= c < j ==> xRec[r, c] == ColsInv(zs, r0, h, w)[r][c]
      invariant forall r, c :: 0 <= r < h && j <= c < w ==> xRec[r, c] == r0[r][c]
    {
      assert Col(Grid(xRec), h, w, j) == Col(r0, h, w, j);
      InvColPass(z, xRec, j, w2, h2);
      j := j + 1;
    }
  }

  /**
   * Layout of one forward level on a square grid of even side `s = 2m`: the four
   * subbands hold, for the 2 by 2 block at `(2i, 2j)` with cells `a b / c d`, the
   * mean `(a+b+c+d)/4` at `(i, j)`, the horizontal detail `(a-b+c-d)/4` at `(i, j+m)`,
   * the vertical detail `(a+b-c-d)/4` at `(i+m, j)` and the diagonal detail
   * `(a-b-c+d)/4` at `(i+m, j+m)`.  Every cell is written, so `y0` plays no part.
   */
  lemma MonoFwdLayout(x: Matrix, y0: Matrix, s: nat, i: nat, j: nat)
    requires IsGrid(x, s, s) && IsGrid(y0, s, s) && s % 2 == 0
    requires i < s / 2 && j < s / 2
    ensures var y, m := MonoFwd(x, y0, s, s), s / 2;
      var a, b, c, d := x[2 * i][2 * j], x[2 * i][2 * j + 1], x[2 * i + 1][2 * j], x[2 * i + 1][2 * j + 1];
      && y[i][j] == (a + b + c + d) / 4.0
      && y[i][j + m] == (a - b + c - d) / 4.0
      && y[i + m][j] == (a + b - c - d) / 4.0
      && y[i + m][j + m] == (a - b - c + d) / 4.0
  {
    var m := s / 2;
    var z := RowsFwd(x, s, s);
    var y := MonoFwd(x, y0, s, s);
    var a, b, c, d := x[2 * i][2 * j], x[2 * i][2 * j + 1], x[2 * i + 1][2 * j], x[2 * i + 1][2 * j + 1];
    assert SlotOk(s, m, i) && SlotOk(s, m, j);
    assert z[2 * i][j] == (a + b) / 2.0 && z[2 * i][j + m] == (a - b) / 2.0;
    assert z[2 * i + 1][j] == (c + d) / 2.0 && z[2 * i + 1][j + m] == (c - d) / 2.0;
    assert y[i][j] == (z[2 * i][j] + z[2 * i + 1][j]) / 2.0;
    assert y[i][j + m] == (z[2 * i][j + m] + z[2 * i + 1][j + m]) / 2.0;
    assert y[i + m][j] == (z[2 * i][j] - z[2 * i + 1][j]) / 2.0;
    assert y[i + m][j + m] == (z[2 * i][j + m] - z[2 * i + 1][j + m]) / 2.0;
  }

  /**
   * Layout of one inverse level on a square grid of even side `s = 2m`: the 2 by 2
   * block at `(2i, 2j)` is rebuilt from the four subband cells `p = (i, j)`,
   * `q = (i, j+m)`, `u = (i+m, j)`, `v = (i+m, j+m)` as `p+q+u+v`, `p-q+u-v`,
   * `p+q-u-v` and `p-q-u+v`.  Every cell is written, so `r0` plays no part.
   */
  lemma MonoInvLayout(y: Matrix, r0: Matrix, s: nat, i: nat, j: nat)
    requires IsGrid(y, s, s) && IsGrid(r0, s, s) && s % 2 == 0
    requires i < s / 2 && j < s / 2
    ensures var r, m := MonoInv(y, r0, s, s), s / 2;
      var p, q, u, v := y[i][j], y[i][j + m], y[i + m][j], y[i + m][j + m];
      && r[2 * i][2 * j] == p + q + u + v
      && r[2 * i][2 * j + 1] == p - q + u - v
      && r[2 * i + 1][2 * j] == p + q - u - v
      && r[2 * i + 1][2 * j + 1] == p - q - u + v
  {
    var z := RowsInv(y, s, s);
    RowsInvPair(y, s, i, j);
    ColsInvPair(y, r0, s, i, j);
    InvCombine(y, z, MonoInv(y, r0, s, s), s, i, j);
  }

  /** Composing the row and the column butterflies of one inverse level at block `(i, j)`. */
  lemma InvCombine(y: Matrix, z: Matrix, r: Matrix, s: nat, i: nat, j: nat)
    requires IsGrid(y, s, s) && IsGrid(z, s, s) && IsGrid(r, s, s) && s % 2 == 0
    requires i < s / 2 && j < s / 2
    requires z[i][2 * j] == y[i][j] + y[i][j + s / 2]
    requires z[i][2 * j + 1] == y[i][j] - y[i][j + s / 2]
    requires z[i + s / 2][2 * j] == y[i + s / 2][j] + y[i + s / 2][j + s / 2]
    requires z[i + s / 2][2 * j + 1] == y[i + s / 2][j] - y[i + s / 2][j + s / 2]
    requires r[2 * i][2 * j] == z[i][2 * j] + z[i + s / 2][2 * j]
    requires r[2 * i + 1][2 * j] == z[i][2 * j] - z[i + s / 2][2 * j]
    requires r[2 * i][2 * j + 1] == z[i][2 * j + 1] + z[i + s / 2][2 * j + 1]
    requires r[2 * i + 1][2 * j + 1] == z[i][2 * j + 1] - z[i + s / 2][2 * j + 1]
    ensures var m := s / 2;
      var p, q, u, v := y[i][j], y[i][j + m], y[i + m][j], y[i + m][j + m];
      && r[2 * i][2 * j] == p + q + u + v
      && r[2 * i][2 * j + 1] == p - q + u - v
      && r[2 * i + 1][2 * j] == p + q - u - v
      && r[2 * i + 1][2 * j + 1] == p - q - u + v
  {
  }

  /**
   * The inverse row pass rebuilds cells `2j` and `2j + 1` of rows `i` and `i + s/2` from
   * their cells `j` and `j + s/2`.
   */
  lemma RowsInvPair(y: Matrix, s: nat, i: nat, j: nat)
    requires IsGrid(y, s, s) && s % 2 == 0 && i < s / 2 && j < s / 2
    ensures var z := RowsInv(y, s, s);
      && z[i][2 * j] == y[i][j] + y[i][j + s / 2]
      && z[i][2 * j + 1] == y[i][j] - y[i][j + s / 2]
      && z[i + s / 2][2 * j] == y[i + s / 2][j] + y[i + s / 2][j + s / 2]
      && z[i + s / 2][2 * j + 1] == y[i + s / 2][j] - y[i + s / 2][j + s / 2]
  {
    assert SlotOk(s, s / 2, j);
  }

  /**
   * The inverse column pass rebuilds cells `2i` and `2i + 1` of columns `2j` and `2j + 1`
   * from their cells `i` and `i + s/2`.
   */
  lemma ColsInvPair(y: Matrix, r0: Matrix, s: nat, i: nat, j: nat)
    requires IsGrid(y, s, s) && IsGrid(r0, s, s) && s % 2 == 0 && i < s / 2 && j < s / 2
    ensures var z, r := RowsInv(y, s, s), MonoInv(y, r0, s, s);
      && r[2 * i][2 * j] == z[i][2 * j] + z[i + s / 2][2 * j]
      && r[2 * i + 1][2 * j] == z[i][2 * j] - z[i + s / 2][2 * j]
      && r[2 * i][2 * j + 1] == z[i][2 * j + 1] + z[i + s / 2][2 * j + 1]
      && r[2 * i + 1][2 * j + 1] == z[i][2 * j + 1] - z[i + s / 2][2 * j + 1]
  {
    assert SlotOk(s, s / 2, i);
  }

  /**
   * The butterfly algebra behind the round trip: if `y` holds the four subband values
   * of the 2 by 2 block of `x` at `(2i, 2j)` and `r` rebuilds that block from them, then
   * `r` agrees with `x` on the block.
   */
  lemma ButterflyInverts(x: Matrix, y: Matrix, r: Matrix, s: nat, i: nat, j: nat)
    requires IsGrid(x, s, s) && IsGrid(y, s, s) && IsGrid(r, s, s) && s % 2 == 0
    requires i < s / 2 && j < s / 2
    requires var m := s / 2;
      var a, b, c, d := x[2 * i][2 * j], x[2 * i][2 * j + 1], x[2 * i + 1][2 * j], x[2 * i + 1][2 * j + 1];
      && y[i][j] == (a + b + c + d) / 4.0
      && y[i][j + m] == (a - b + c - d) / 4.0
      && y[i + m][j] == (a + b - c - d) / 4.0
      && y[i + m][j + m] == (a - b - c + d) / 4.0
    requires var m := s / 2;
      var p, q, u, v := y[i][j], y[i][j + m], y[i + m][j], y[i + m][j + m];
      && r[2 * i][2 * j] == p + q + u + v
      && r[2 * i][2 * j + 1] == p - q + u - v
      && r[2 * i + 1][2 * j] == p + q - u - v
      && r[2 * i + 1][2 * j + 1] == p - q - u + v
    ensures r[2 * i][2 * j] == x[2 * i][2 * j] && r[2 * i][2 * j + 1] == x[2 * i][2 * j + 1]
    ensures r[2 * i + 1][2 * j] == x[2 * i + 1][2 * j] && r[2 * i + 1][2 * j + 1] == x[2 * i + 1][2 * j + 1]
  {
  }

  /** `r` and `x` agree on the 2 by 2 block at `(2i, 2j)`. */
  predicate BlockAgrees(r: Matrix, x: Matrix, s: nat, i: nat, j: nat)
    requires IsGrid(r, s, s) && IsGrid(x, s, s) && 2 * i + 1 < s && 2 * j + 1 < s
  {
    && r[2 * i][2 * j] == x[2 * i][2 * j] && r[2 * i][2 * j + 1] == x[2 * i][2 * j + 1]
    && r[2 * i + 1][2 * j] == x[2 * i + 1][2 * j] && r[2 * i + 1][2 * j + 1] == x[2 * i + 1][2 * j + 1]
  }

  /** Grids of even side that agree on every 2 by 2 block are equal. */
  lemma BlocksAgree(r: Matrix, x: Matrix, s: nat)
    requires IsGrid(r, s, s) && IsGrid(x, s, s) && s % 2 == 0
    requires forall i, j :: 0 <= i < s / 2 && 0 <= j < s / 2 ==> BlockAgrees(r, x, s, i, j)
    ensures r == x
  {
    forall a, b | 0 <= a < s && 0 <= b < s
      ensures r[a][b] == x[a][b]
    {
      var i, j := a / 2, b / 2;
      assert BlockAgrees(r, x, s, i, j);
      if a % 2 == 0 {
        assert a == 2 * i;
        if b % 2 == 0 { assert b == 2 * j; } else { assert b == 2 * j + 1; }
      } else {
        assert a == 2 * i + 1;
        if b % 2 == 0 { assert b == 2 * j; } else { assert b == 2 * j + 1; }
      }
    }
    GridExt(r, x, s, s);
  }

  /**
   * On a square grid of even side, `haar2D_mono_inv` undoes `haar2D_mono` exactly (over
   * the reals), whatever the two destinations held before.
   */
  lemma MonoRoundTrip(x: Matrix, y0: Matrix, r0: Matrix, s: nat)
    requires IsGrid(x, s, s) && IsGrid(y0, s, s) && IsGrid(r0, s, s) && s % 2 == 0
    ensures MonoInv(MonoFwd(x, y0, s, s), r0, s, s) == x
  {
    var y := MonoFwd(x, y0, s, s);
    var r := MonoInv(y, r0, s, s);
    forall i, j | 0 <= i < s / 2 && 0 <= j < s / 2
      ensures BlockAgrees(r, x, s, i, j)
    {
      MonoFwdLayout(x, y0, s, i, j);
      MonoInvLayout(y, r0, s, i, j);
      ButterflyInverts(x, y, r, s, i, j);
    }
    BlocksAgree(r, x, s);
  }

  /**
   * `haar2D_mono` never reads a column at or past `2 * (h/2)`: its row loop runs `h/2`
   * times, not `w/2`.  On a grid wider than it is tall those columns are lost, so the
   * forward transform cannot be inverted there; this is why the round trip is stated
   * for square grids.
   */
  lemma MonoFwdIgnoresWideColumns(x1: Matrix, x2: Matrix, y0: Matrix, h: nat, w: nat)
    requires IsGrid(x1, h, w) && IsGrid(x2, h, w) && IsGrid(y0, h, w)
    requires forall i, c :: 0 <= i < h && 0 <= c < w && c < 2 * (h / 2) ==> x1[i][c] == x2[i][c]
    ensures MonoFwd(x1, y0, h, w) == MonoFwd(x2, y0, h, w)
  {
    var z1, z2 := RowsFwd(x1, h, w), RowsFwd(x2, h, w);
    forall i, c | 0 <= i < h && 0 <= c < w
      ensures z1[i][c] == z2[i][c]
    {
      var k := h / 2;
      if c < k && SlotOk(w, k, c) {
        assert 2 * c + 1 < 2 * k;
      } else if k <= c < 2 * k && SlotOk(w, k, c - k) {
        assert 2 * (c - k) + 1 < 2 * k;
      }
    }
    GridExt(z1, z2, h, w);
  }
}
