/**
 * Multiresolution Haar transform of `TraitImage` (`haar2D_multi`, `haar2D_multi_inv`).
 *
 * Level `n` works on the top-left block of side `h / 2^n` by `w / 2^n`: it copies the
 * block into a fresh grid `z`, runs one level of the 2D transform from `z` into a fresh
 * zeroed grid `z_res`, and copies `z_res` back over the block.  The forward routine
 * runs levels `0, 1, ..., niv_resol - 1`, the inverse routine the same levels from the
 * last down to `0`.
 */
module HaarMulti {
  import opened Matrices
  import opened Haar2D

  /** The grid after forward level `n` has run on `y`. */
  function LevelFwd(y: Matrix, h: nat, w: nat, n: nat): (r: Matrix)
    requires IsGrid(y, h, w)
    ensures IsGrid(r, h, w)
  {
    var mm, nn := LevelSide(h, n), LevelSide(w, n);
    Paste(y, h, w, MonoFwd(Block(y, h, w, mm, nn), Zeros(mm, nn), mm, nn), mm, nn)
  }

  /** The grid after inverse level `n` has run on `y`. */
  function LevelInv(y: Matrix, h: nat, w: nat, n: nat): (r: Matrix)
    requires IsGrid(y, h, w)
    ensures IsGrid(r, h, w)
  {
    var mm, nn := LevelSide(h, n), LevelSide(w, n);
    Paste(y, h, w, MonoInv(Block(y, h, w, mm, nn), Zeros(mm, nn), mm, nn), mm, nn)
  }

  /** The grid after forward levels `0` to `k - 1` have run on `x`. */
  function FwdLevels(x: Matrix, h: nat, w: nat, k: nat): (r: Matrix)
    requires IsGrid(x, h, w)
    ensures IsGrid(r, h, w)
  {
    if k == 0 then x else LevelFwd(FwdLevels(x, h, w, k - 1), h, w, k - 1)
  }

  /** Level `n` is the one that follows the first `n` levels. */
  lemma FwdLevelsNext(x: Matrix, h: nat, w: nat, n: nat)
    requires IsGrid(x, h, w)
    ensures FwdLevels(x, h, w, n + 1) == LevelFwd(FwdLevels(x, h, w, n), h, w, n)
  {
  }

  /** The grid after inverse levels `hi - 1` down to `lo` have run on `y`. */
  function InvDown(y: Matrix, h: nat, w: nat, lo: nat, hi: int): (r: Matrix)
    requires IsGrid(y, h, w)
    ensures IsGrid(r, h, w)
    decreases hi - lo
  {
    if hi <= lo then y else LevelInv(InvDown(y, h, w, lo + 1, hi), h, w, lo)
  }

  /** The number of levels a loop `for (n = 0; n < niv_resol; n++)` runs. */
  function LevelCount(nivResol: int): (k: nat)
    ensures nivResol >= 0 ==> k == nivResol
    ensures nivResol < 0 ==> k == 0
  {
    if nivResol < 0 then 0 else nivResol
  }

  /**
   * The nested copy loops of the multiresolution routines: the top-left `mm` by `nn`
   * cells of `src` are copied into `dst`, and nothing else in `dst` changes.
   */
  method CopyBlock(src: array2<real>, dst: array2<real>, mm: nat, nn: nat)
    requires src != dst
    requires mm <= src.Length0 && mm <= dst.Length0 && nn <= src.Length1 && nn <= dst.Length1
    modifies dst
    ensures forall r, c :: 0 <= r < dst.Length0 && 0 <= c < dst.Length1 ==>
      dst[r, c] == if r < mm && c < nn then src[r, c] else old(dst[r, c])
  {
    var i := 0;
    while i < mm
      invariant 0 <= i <= mm
      invariant forall r, c :: 0 <= r < dst.Length0 && 0 <= c < dst.Length1 ==>
        dst[r, c] == if r < i && c < nn then src[r, c] else old(dst[r, c])
    {
      var j := 0;
      while j < nn
        invariant 0 <= j <= nn
        invariant forall r, c :: 0 <= r < dst.Length0 && 0 <= c < dst.Length1 ==>
          dst[r, c] == if (r < i && c < nn) || (r == i && c < j) then src[r, c] else old(dst[r, c])
      {
        dst[i, j] := src[i, j];
        j := j + 1;
      }
      i := i + 1;
    }
  }

  /** One iteration of the level loop of `haar2D_multi`. */
  method FwdLevelStep(y: array2<real>, n: nat)
    requires LevelSide(y.Length0, n) > 0
    modifies y
    ensures Grid(y) == LevelFwd(old(Grid(y)), y.Length0, y.Length1, n)
  {
    var h, w := y.Length0, y.Length1;
    var mm, nn := h / Pow2(n), w / Pow2(n);  // (int) (h / Math.pow(2, n))
    LevelSideIsQuotient(h, n);
    LevelSideIsQuotient(w, n);
    ghost var y0 := Grid(y);
    ghost var b := Block(y0, h, w, mm, nn);
    var z := new real[mm, nn]((_, _) => 0.0);
    var zRes := new real[mm, nn]((_, _) => 0.0);
    CopyBlock(y, z, mm, nn);
    GridExt(Grid(z), b, mm, nn);
    GridExt(Grid(zRes), Zeros(mm, nn), mm, nn);
    Haar2DMono(z, zRes);
    CopyBlock(zRes, y, mm, nn);
    GridExt(Grid(y), LevelFwd(y0, h, w, n), h, w);
  }

  /** One iteration of the level loop of `haar2D_multi_inv`. */
  method InvLevelStep(xRec: array2<real>, n: nat)
    requires LevelSide(xRec.Length0, n) > 0
    modifies xRec
    ensures Grid(xRec) == LevelInv(old(Grid(xRec)), xRec.Length0, xRec.Length1, n)
  {
    var h, w := xRec.Length0, xRec.Length1;
    var mm, nn := h / Pow2(n), w / Pow2(n);  // (int) (h / Math.pow(2, n))
    LevelSideIsQuotient(h, n);
    LevelSideIsQuotient(w, n);
    ghost var r0 := Grid(xRec);
    ghost var b := Block(r0, h, w, mm, nn);
    var z := new real[mm, nn]((_, _) => 0.0);
    var zRes := new real[mm, nn]((_, _) => 0.0);
    CopyBlock(xRec, z, mm, nn);
    GridExt(Grid(z), b, mm, nn);
    GridExt(Grid(zRes), Zeros(mm, nn), mm, nn);
    Haar2DMonoInv(z, zRes);
    CopyBlock(zRes, xRec, mm, nn);
    GridExt(Grid(xRec), LevelInv(r0, h, w, n), h, w);
  }

  /**
   * `haar2D_multi(x, y, niv_resol)`.  The deepest level, `niv_resol - 1`, must still
   * have a block with at least one row, since the one-level routine reads `z[0]`.
   */
  method Haar2DMulti(x: array2<real>, y: array2<real>, nivResol: int)
    requires x != y
    requires x.Length0 > 0
    requires y.Length0 == x.Length0 && y.Length1 == x.Length1
    requires nivResol <= 0 || Pow2(nivResol - 1) <= x.Length0
    modifies y
    ensures Grid(y) == FwdLevels(Grid(x), x.Length0, x.Length1, LevelCount(nivResol))
  {
    var h := x.Length0;
    var w := x.Length1;
    CopyBlock(x, y, h, w);
    GridExt(Grid(y), Grid(x), h, w);
    FwdLevelLoop(y, LevelCount(nivResol));
  }

  /** The level loop of `haar2D_multi`, run `k` times on the copy of the input in `y`. */
  method FwdLevelLoop(y: array2<real>, k: nat)
    requires k == 0 || Pow2(k - 1) <= y.Length0
    modifies y
    ensures Grid(y) == FwdLevels(old(Grid(y)), y.Length0, y.Length1, k)
  {
    ghost var xs := Grid(y);
    for n := 0 to k
      invariant Grid(y) == FwdLevels(xs, y.Length0, y.Length1, n)
    {
      FwdLevelNext(y, xs, n, k);
    }
  }

  /** Level `n` of the loop, run after levels `0` to `n - 1`, leaves the first `n + 1` levels. */
  method FwdLevelNext(y: array2<real>, ghost xs: Matrix, n: nat, k: nat)
    requires IsGrid(xs, y.Length0, y.Length1)
    requires n < k && Pow2(k - 1) <= y.Length0
    requires Grid(y) == FwdLevels(xs, y.Length0, y.Length1, n)
    modifies y
    ensures Grid(y) == FwdLevels(xs, y.Length0, y.Length1, n + 1)
  {
    LevelsNonEmpty(y.Length0, n, k);
    FwdLevelsNext(xs, y.Length0, y.Length1, n);
    FwdLevelStep(y, n);
  }

  /**
   * `haar2D_multi_inv(x, x_rec, niv_resol)`, with the same demand on the deepest level.
   * `niv_resol` must also not be the least `int`: there `niv_resol - 1` wraps to the
   * greatest one, and the level it starts with has an empty block.
   */
  method Haar2DMultiInv(x: array2<real>, xRec: array2<real>, nivResol: int)
    requires x != xRec
    requires x.Length0 > 0
    requires xRec.Length0 == x.Length0 && xRec.Length1 == x.Length1
    requires nivResol > -0x8000_0000
    requires nivResol <= 0 || Pow2(nivResol - 1) <= x.Length0
    modifies xRec
    ensures Grid(xRec) == InvDown(Grid(x), x.Length0, x.Length1, 0, nivResol)
  {
    var h := x.Length0;
    var w := x.Length1;
    ghost var xs := Grid(x);
    CopyBlock(x, xRec, h, w);
    GridExt(Grid(xRec), xs, h, w);
    var n := nivResol - 1;
    while n > -1
      invariant n < nivResol && (n < -1 ==> n == nivResol - 1)
      invariant Grid(xRec) == InvDown(xs, h, w, if n < 0 then 0 else n + 1, nivResol)
    {
      LevelsNonEmpty(h, n, nivResol);
      InvLevelStep(xRec, n);
      n := n - 1;
    }
  }

  /**
   * On a square grid whose level-`n` block has an even side, inverse level `n` undoes
   * forward level `n`.
   */
  lemma LevelRoundTrip(y: Matrix, s: nat, n: nat)
    requires IsGrid(y, s, s) && LevelSide(s, n) % 2 == 0
    ensures LevelInv(LevelFwd(y, s, s, n), s, s, n) == y
  {
    var m := LevelSide(s, n);
    var b := Block(y, s, s, m, m);
    var f := MonoFwd(b, Zeros(m, m), m, m);
    BlockOfPaste(y, s, s, f, m, m);
    MonoRoundTrip(b, Zeros(m, m), Zeros(m, m), m);
    PasteTwice(y, s, s, f, b, m, m);
    PasteOwnBlock(y, s, s, m, m);
  }

  /**
   * Running the inverse levels `k - 1` down to `m` after the forward levels `0` to
   * `k - 1` leaves what the forward levels `0` to `m - 1` alone produce.
   */
  lemma {:induction false} InvDownUndoes(x: Matrix, s: nat, k: nat, m: nat)
    requires IsGrid(x, s, s) && s % Pow2(k) == 0 && m <= k
    ensures InvDown(FwdLevels(x, s, s, k), s, s, m, k) == FwdLevels(x, s, s, m)
    decreases k - m
  {
    if m < k {
      InvDownUndoes(x, s, k, m + 1);
      EvenSideBelow(s, m, k);
      LevelRoundTrip(FwdLevels(x, s, s, m), s, m);
    }
  }

  /**
   * `haar2D_multi_inv` undoes `haar2D_multi` with the same number of levels on a square
   * grid whose side is divisible by `2^k`, so that every level halves an even side.
   */
  lemma MultiRoundTrip(x: Matrix, s: nat, k: nat)
    requires IsGrid(x, s, s) && s % Pow2(k) == 0
    ensures InvDown(FwdLevels(x, s, s, k), s, s, 0, k) == x
  {
    InvDownUndoes(x, s, k, 0);
  }

  /**
   * The subbands that level `l` leaves outside its block of side `h / 2^l` by
   * `w / 2^l` are never touched again by the deeper levels: after `k >= l` levels the
   * grid is the grid after `l` levels with only that block rewritten.
   */
  lemma {:induction false} DetailsKept(x: Matrix, h: nat, w: nat, l: nat, k: nat)
    requires IsGrid(x, h, w) && l <= k
    ensures var f, g, l1, l2 := FwdLevels(x, h, w, l), FwdLevels(x, h, w, k), LevelSide(h, l), LevelSide(w, l);
      g == Paste(f, h, w, Block(g, h, w, l1, l2), l1, l2)
  {
    var f, l1, l2 := FwdLevels(x, h, w, l), LevelSide(h, l), LevelSide(w, l);
    if l == k {
      PasteOwnBlock(f, h, w, l1, l2);
    } else {
      DetailsKept(x, h, w, l, k - 1);
      LevelSideShrinks(h, l, k - 1);
      LevelSideShrinks(w, l, k - 1);
      var prev := FwdLevels(x, h, w, k - 1);
      var mm, nn := LevelSide(h, k - 1), LevelSide(w, k - 1);
      var b := MonoFwd(Block(prev, h, w, mm, nn), Zeros(mm, nn), mm, nn);
      assert FwdLevels(x, h, w, k) == Paste(prev, h, w, b, mm, nn);
      PasteWithin(prev, f, b, h, w, mm, nn, l1, l2);
    }
  }
}
