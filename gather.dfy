/**
 * The index-gathering helpers of `TraitImage` that build the normal equations of the
 * two-dimensional autoregressive predictor (`getR`, `getV`, `getCoeff2`).
 *
 * The input `r` is an autocorrelation grid of side `2w - 1`, lag `(0, 0)` in its centre
 * `(w - 1, w - 1)`.  The `w * w` neighbour positions `(i, j)`, `i, j < w`, are taken in
 * row-major order, so that position `(i, j)` gets the number `i * w + j`; the last one,
 * `(w - 1, w - 1)`, is the pixel being predicted and is skipped, which leaves `w * w - 1`
 * unknowns.  Both `w` and `h` are computed from `r.length`, the number of rows.
 */
module Gather {
  import opened Matrices


  /** `w = (r.length + 1) / 2`, the side of the neighbourhood. */
  function Side(len: nat): nat
  {
    (len + 1) / 2
  }

  /**
   * `W = H = (r.length + 1) * (r[0].length + 1) / 4 - 1`, the size of the system; the
   * product is the number of positions in `len0 + 1` rows of `len1 + 1`.
   */
  function SystemSize(len0: nat, len1: nat): int
  {
    RowStart(len0 + 1, len1 + 1) / 4 - 1
  }

  /** The number of the first position of row `i`, counting `w` positions a row. */
  function RowStart(i: nat, w: nat): nat
  {
    if i == 0 then 0 else RowStart(i - 1, w) + w
  }

  /** The number of position `(i, j)` in the row-major order over `w` columns. */
  function Rank(i: nat, j: nat, w: nat): nat
  {
    RowStart(i, w) + j
  }

  /**
   * The number of the predicted position `(w - 1, w - 1)`, which is also how many
   * positions are gathered.
   */
  function Last(w: nat): nat
    requires w >= 1
  {
    Rank(w - 1, w - 1, w)
  }

  /** The first position of row `i` is numbered `i * w`. */
  lemma {:induction false} RowStartIsProduct(i: nat, w: nat)
    ensures RowStart(i, w) == i * w
  {
    if i > 0 {
      RowStartIsProduct(i - 1, w);
      assert i * w == (i - 1) * w + w;
    }
  }

  /** A later row starts at least a whole row further on. */
  lemma {:induction false} RowStartGrows(i: nat, k: nat, w: nat)
    requires i < k
    ensures RowStart(i, w) + w <= RowStart(k, w)
  {
    if i < k - 1 {
      RowStartGrows(i, k - 1, w);
    }
  }

  /**
   * In an `h` by `w` grid no position has a larger number than the last one, and every
   * other position has a smaller one.
   */
  lemma RankBelow(i: nat, j: nat, h: nat, w: nat)
    requires i < h && j < w
    ensures Rank(i, j, w) <= Rank(h - 1, w - 1, w)
    ensures !(i == h - 1 && j == w - 1) ==> Rank(i, j, w) < Rank(h - 1, w - 1, w)
  {
    if i < h - 1 {
      RowStartGrows(i, h - 1, w);
    }
  }

  /** The number of the last position of an `h` by `w` grid is `h * w - 1`. */
  lemma LastIsProduct(h: nat, w: nat)
    requires h >= 1 && w >= 1
    ensures Rank(h - 1, w - 1, w) == h * w - 1
  {
    RowStartIsProduct(h - 1, w);
    assert (h - 1) * w + w == h * w;
  }

  /** Position `(i, j)` is the one numbered `Rank(i, j, w)`, the way `i * w + j` is. */
  lemma RankInverse(i: nat, j: nat, w: nat)
    requires j < w
    ensures Rank(i, j, w) / w == i && Rank(i, j, w) % w == j
  {
    RowStartIsProduct(i, w);
    DivUnique(Rank(i, j, w), w, i, j);
    assert Rank(i, j, w) == (Rank(i, j, w) / w) * w + Rank(i, j, w) % w;
  }

  /** The row of the position numbered `c`. */
  function RowOf(c: nat, w: nat): nat
    requires w >= 1
  {
    if c < w then 0 else RowOf(c - w, w) + 1
  }

  /** The column of the position numbered `c`. */
  function ColOf(c: nat, w: nat): nat
    requires w >= 1
  {
    if c < w then c else ColOf(c - w, w)
  }

  /** `RowOf` and `ColOf` name the position that has number `c`. */
  lemma {:induction false} RankOfPosition(c: nat, w: nat)
    requires w >= 1
    ensures ColOf(c, w) < w && Rank(RowOf(c, w), ColOf(c, w), w) == c
  {
    if c >= w {
      RankOfPosition(c - w, w);
    }
  }

  /** The position numbered `Rank(i, j, w)` is `(i, j)`. */
  lemma {:induction false} PositionOfRank(i: nat, j: nat, w: nat)
    requires j < w
    ensures RowOf(Rank(i, j, w), w) == i && ColOf(Rank(i, j, w), w) == j
  {
    if i > 0 {
      PositionOfRank(i - 1, j, w);
      assert Rank(i, j, w) - w == Rank(i - 1, j, w);
    }
  }

  /** A number up to the predicted position's names a position of the neighbourhood. */
  lemma Unrank(c: nat, w: nat)
    requires w >= 1 && c <= Last(w)
    ensures RowOf(c, w) < w && ColOf(c, w) < w && Rank(RowOf(c, w), ColOf(c, w), w) == c
  {
    RankOfPosition(c, w);
    if RowOf(c, w) >= w {
      RowStartGrows(w - 1, RowOf(c, w), w);
    }
  }

  /** The row and column of number `c` are `c / w` and `c % w`. */
  lemma RowColIsDivMod(c: nat, w: nat)
    requires w >= 1
    ensures RowOf(c, w) == c / w && ColOf(c, w) == c % w
  {
    RankOfPosition(c, w);
    RankInverse(RowOf(c, w), ColOf(c, w), w);
  }

  /**
   * The numbering visits every neighbour position but the predicted one exactly once:
   * each number below `Last(w)` names such a position, each such position has such a
   * number, and the two conversions undo each other.
   */
  lemma RowMajorOrder(w: nat)
    requires w >= 1
    ensures forall c :: 0 <= c < Last(w) ==>
      c / w < w && c % w < w && !(c / w == w - 1 && c % w == w - 1) && Rank(c / w, c % w, w) == c
    ensures forall i, j :: 0 <= i < w && 0 <= j < w && !(i == w - 1 && j == w - 1) ==>
      Rank(i, j, w) < Last(w) && Rank(i, j, w) / w == i && Rank(i, j, w) % w == j
  {
    forall c | 0 <= c < Last(w)
      ensures c / w < w && c % w < w && !(c / w == w - 1 && c % w == w - 1) && Rank(c / w, c % w, w) == c
    {
      Unrank(c, w);
      RowColIsDivMod(c, w);
    }
    forall i, j | 0 <= i < w && 0 <= j < w && !(i == w - 1 && j == w - 1)
      ensures Rank(i, j, w) < Last(w) && Rank(i, j, w) / w == i && Rank(i, j, w) % w == j
    {
      RankBelow(i, j, w, w);
      RankInverse(i, j, w);
    }
  }

  /** What the loops of `getR` and `getV` need of `r`: see `GatherableExactly`. */
  predicate Gatherable(len0: nat, len1: nat)
  {
    len0 > 0 && Last(Side(len0)) <= SystemSize(len0, len1)
    && 2 * Side(len0) - 1 <= len0 && 2 * Side(len0) - 1 <= len1
  }

  /**
   * The loops run without an out-of-bounds access exactly when `r[0]` exists and the
   * counter of gathered positions stays within the size `H` of the system; a grid
   * with that property is at least `2w - 1` by `2w - 1`, so every lag `r` is read at
   * is inside it.
   */
  lemma GatherableExactly(len0: nat, len1: nat)
    ensures Gatherable(len0, len1) <==> len0 > 0 && Last(Side(len0)) <= SystemSize(len0, len1)
  {
    if len0 > 0 && Last(Side(len0)) <= SystemSize(len0, len1) {
      var w, a, b := Side(len0), len0 + 1, len1 + 1;
      LastIsProduct(w, w);
      RowStartIsProduct(a, b);
      ColumnsEnough(a, b, w);
    }
  }

  /** A product `a * b` of at least `4 w^2` with `a <= 2w + 1` has `b >= 2w`. */
  lemma ColumnsEnough(a: nat, b: nat, w: nat)
    requires a <= 2 * w + 1 && 4 * (w * w) <= a * b
    ensures 2 * w <= b
  {
    if b < 2 * w {
      MulMono(a, 2 * w + 1, b);
      MulMono(b, 2 * w - 1, 2 * w + 1);
    }
  }

  /** `a <= b` gives `a * c <= b * c`. */
  lemma MulMono(a: nat, b: nat, c: nat)
    requires a <= b
    ensures a * c <= b * c
  {
    assert b * c == a * c + (b - a) * c;
  }

  /**
   * For the square grid of side `2k - 1` that the autocorrelation produces, the
   * counter ends exactly at the size of the system: `w = k` and `W = H = k * k - 1`.
   */
  lemma SquareOddSide(k: nat)
    requires k >= 1
    ensures Side(2 * k - 1) == k
    ensures SystemSize(2 * k - 1, 2 * k - 1) == k * k - 1 == Last(k)
    ensures Gatherable(2 * k - 1, 2 * k - 1)
  {
    LastIsProduct(k, k);
    RowStartIsProduct(2 * k, 2 * k);
    assert (2 * k) * (2 * k) == 4 * (k * k);
  }

  /** Entry `c` of `V`: the autocorrelation at the position numbered `c`, else zero. */
  function NeighbourAt(g: Matrix, len1: nat, c: nat): real
    requires IsGrid(g, |g|, len1) && Gatherable(|g|, len1)
  {
    var w := Side(|g|);
    if c < Last(w) then
      Unrank(c, w);
      g[RowOf(c, w)][ColOf(c, w)]
    else 0.0
  }

  /** The vector `getV` returns. */
  function Neighbours(g: Matrix, len1: nat): (v: seq<real>)
    requires IsGrid(g, |g|, len1) && Gatherable(|g|, len1)
    ensures |v| == SystemSize(|g|, len1)
  {
    seq(SystemSize(|g|, len1), c requires 0 <= c => NeighbourAt(g, len1, c))
  }

  /**
   * The autocorrelation at the lag between the positions numbered `c` and `d` of the
   * neighbourhood, read `w - 1` cells from the centre of `r`.
   */
  function LagAt(g: Matrix, len1: nat, c: nat, d: nat): real
    requires IsGrid(g, |g|, len1) && Gatherable(|g|, len1)
    requires c <= Last(Side(|g|)) && d <= Last(Side(|g|))
  {
    var w := Side(|g|);
    Unrank(c, w);
    Unrank(d, w);
    g[RowOf(c, w) - RowOf(d, w) + w - 1][ColOf(c, w) - ColOf(d, w) + w - 1]
  }

  /**
   * The matrix `getR` returns: entry `(c, d)` is the lag between the gathered
   * positions numbered `c` and `d`, and zero when either is not gathered.
   */
  function LagMatrix(g: Matrix, len1: nat): (m: Matrix)
    requires IsGrid(g, |g|, len1) && Gatherable(|g|, len1)
    ensures IsGrid(m, SystemSize(|g|, len1), SystemSize(|g|, len1))
  {
    var n, last := SystemSize(|g|, len1), Last(Side(|g|));
    seq(n, c requires 0 <= c < n => seq(n, d requires 0 <= d < n =>
      if c < last && d < last then LagAt(g, len1, c, d) else 0.0))
  }

  /** The diagonal of `R` is the centre of `r`, the autocorrelation at lag zero. */
  lemma LagDiagonal(g: Matrix, len1: nat, c: nat)
    requires IsGrid(g, |g|, len1) && Gatherable(|g|, len1) && c < Last(Side(|g|))
    ensures LagMatrix(g, len1)[c][c] == g[Side(|g|) - 1][Side(|g|) - 1]
  {
    Unrank(c, Side(|g|));
  }

  /**
   * `V` holds, for each gathered position, the lag that separates it from the
   * predicted position: it is the column of lags that `R` would have for the
   * position `getR` skips.
   */
  lemma NeighboursAreLagsToPredicted(g: Matrix, len1: nat, c: nat)
    requires IsGrid(g, |g|, len1) && Gatherable(|g|, len1) && c < Last(Side(|g|))
    ensures Neighbours(g, len1)[c] == LagAt(g, len1, c, Last(Side(|g|)))
  {
    var w := Side(|g|);
    Unrank(c, w);
    PositionOfRank(w - 1, w - 1, w);
    assert RowOf(Last(w), w) == w - 1 && ColOf(Last(w), w) == w - 1;
    assert Neighbours(g, len1)[c] == g[RowOf(c, w)][ColOf(c, w)];
  }

  /** Cell `(a, b)` of `g` equals its mirror image through the centre `(w - 1, w - 1)`. */
  predicate MirrorAt(g: Matrix, len1: nat, a: nat, b: nat)
    requires IsGrid(g, |g|, len1) && Gatherable(|g|, len1)
    requires a < 2 * Side(|g|) - 1 && b < 2 * Side(|g|) - 1
  {
    var w := Side(|g|);
    g[a][b] == g[2 * w - 2 - a][2 * w - 2 - b]
  }

  /** `g` is point-symmetric about the centre of its top-left `2w - 1` square. */
  predicate CentreSymmetric(g: Matrix, len1: nat)
    requires IsGrid(g, |g|, len1) && Gatherable(|g|, len1)
  {
    forall a: nat, b: nat :: a < 2 * Side(|g|) - 1 && b < 2 * Side(|g|) - 1 ==> MirrorAt(g, len1, a, b)
  }

  /**
   * When `r` is point-symmetric about its centre, as an autocorrelation is, the
   * matrix `R` of the normal equations is symmetric.
   */
  lemma LagMatrixSymmetric(g: Matrix, len1: nat)
    requires IsGrid(g, |g|, len1) && Gatherable(|g|, len1) && CentreSymmetric(g, len1)
    ensures var m, n := LagMatrix(g, len1), SystemSize(|g|, len1);
      forall c, d :: 0 <= c < n && 0 <= d < n ==> m[c][d] == m[d][c]
  {
    var last := Last(Side(|g|));
    forall c, d | 0 <= c < SystemSize(|g|, len1) && 0 <= d < SystemSize(|g|, len1)
      ensures LagMatrix(g, len1)[c][d] == LagMatrix(g, len1)[d][c]
    {
      if c < last && d < last {
        LagSymmetric(g, len1, c, d);
      }
    }
  }

  /** The lag from `c` to `d` mirrors the lag from `d` to `c` through the centre of `r`. */
  lemma LagSymmetric(g: Matrix, len1: nat, c: nat, d: nat)
    requires IsGrid(g, |g|, len1) && Gatherable(|g|, len1) && CentreSymmetric(g, len1)
    requires c <= Last(Side(|g|)) && d <= Last(Side(|g|))
    ensures LagAt(g, len1, c, d) == LagAt(g, len1, d, c)
  {
    var w := Side(|g|);
    Unrank(c, w);
    Unrank(d, w);
    var ic: int, jc: int, id: int, jd: int := RowOf(c, w), ColOf(c, w), RowOf(d, w), ColOf(d, w);
    assert LagAt(g, len1, c, d) == g[ic - id + w - 1][jc - jd + w - 1];
    assert LagAt(g, len1, d, c) == g[id - ic + w - 1][jd - jc + w - 1];
    assert MirrorAt(g, len1, ic - id + w - 1, jc - jd + w - 1);
  }

  /**
   * `getV(r)`: a fresh, zeroed `V` of length `H` that receives `r[i][j]` at the number
   * of every position `(i, j)` but the predicted one.
   */
  method GetV(r: array2<real>) returns (V: array<real>)
    requires Gatherable(r.Length0, r.Length1)
    ensures fresh(V)
    ensures V[..] == Neighbours(Grid(r), r.Length1)
  {
    var w, h := Side(r.Length0), Side(r.Length0);
    ghost var g := Grid(r);
    V := new real[SystemSize(r.Length0, r.Length1)](_ => 0.0);
    var cont := 0;
    for i := 0 to w
      invariant cont == if i == w then Last(w) else Rank(i, 0, w)
      invariant cont <= Last(w)
      invariant forall c :: 0 <= c < V.Length ==> V[c] == if c < cont then NeighbourAt(g, r.Length1, c) else 0.0
    {
      for j := 0 to h
        invariant cont == if i == w - 1 && j == h then Last(w) else Rank(i, j, w)
        invariant cont <= Last(w)
        invariant forall c :: 0 <= c < V.Length ==> V[c] == if c < cont then NeighbourAt(g, r.Length1, c) else 0.0
      {
        if !(i == w - 1 && j == h - 1) {
          RankBelow(i, j, w, w);
          PositionOfRank(i, j, w);
          V[cont] := r[i, j];
          cont := cont + 1;
        }
      }
    }
    assert V[..] == Neighbours(g, r.Length1);
  }

  /**
   * `getR(r)`: a fresh, zeroed `W` by `H` matrix `R` that receives, at row `c` and
   * column `d`, the lag between the positions numbered `c` and `d`, for every pair of
   * positions but the predicted one.
   */
  method GetR(r: array2<real>) returns (R: array2<real>)
    requires Gatherable(r.Length0, r.Length1)
    ensures fresh(R)
    ensures Grid(R) == LagMatrix(Grid(r), r.Length1)
  {
    var w, h := Side(r.Length0), Side(r.Length0);
    ghost var g := Grid(r);
    ghost var last := Last(w);
    var size := SystemSize(r.Length0, r.Length1);
    R := new real[size, size]((_, _) => 0.0);
    var cont := 0;
    for i := 0 to w
      invariant cont == if i == w then last else Rank(i, 0, w)
      invariant cont <= last
      invariant forall c, d :: 0 <= c < size && 0 <= d < size ==>
        R[c, d] == if c < cont && d < last then LagAt(g, r.Length1, c, d) else 0.0
    {
      cont := FillRows(r, R, g, i, cont);
    }
    GridExt(Grid(R), LagMatrix(g, r.Length1), size, size);
  }

  /**
   * One pass of the loop over `j` in `getR`, for row `i` of the neighbourhood: the rows
   * of `R` numbered from `cont0` on receive their lags, and `cont` ends at the number of
   * the next row's first position (or at the predicted position after the last row).
   */
  method FillRows(r: array2<real>, R: array2<real>, ghost g: Matrix, i: nat, cont0: nat) returns (cont: nat)
    requires r != R && g == Grid(r) && Gatherable(r.Length0, r.Length1)
    requires i < Side(r.Length0) && cont0 == Rank(i, 0, Side(r.Length0))
    requires R.Length0 == R.Length1 == SystemSize(r.Length0, r.Length1)
    modifies R
    ensures cont == if i == Side(r.Length0) - 1 then Last(Side(r.Length0)) else Rank(i + 1, 0, Side(r.Length0))
    ensures cont <= Last(Side(r.Length0))
    ensures forall c, d :: 0 <= c < R.Length0 && 0 <= d < R.Length1 ==>
      R[c, d] == if cont0 <= c < cont && d < Last(Side(r.Length0)) then LagAt(g, r.Length1, c, d) else old(R[c, d])
  {
    var w, h := Side(r.Length0), Side(r.Length0);
    ghost var last := Last(w);
    cont := cont0;
    RankBelow(i, 0, w, w);
    for j := 0 to h
      invariant cont == if i == w - 1 && j == h then last else Rank(i, j, w)
      invariant cont <= last
      invariant forall c, d :: 0 <= c < R.Length0 && 0 <= d < R.Length1 ==>
        R[c, d] == if cont0 <= c < cont && d < last then LagAt(g, r.Length1, c, d) else old(R[c, d])
    {
      if !(i == w - 1 && j == h - 1) {
        RankBelow(i, j, w, w);
        FillRow(r, R, g, i, j, cont);
        cont := cont + 1;
      }
    }
  }

  /**
   * The two inner loops of `getR` for the position `(i, j)` numbered `cont`: row `cont`
   * of `R` receives, at the number of every position `(k, l)` but the predicted one,
   * the lag `r[i - k + w - 1][j - l + h - 1]`; nothing else in `R` changes.
   */
  method FillRow(r: array2<real>, R: array2<real>, ghost g: Matrix, i: nat, j: nat, cont: nat)
    requires r != R && g == Grid(r) && Gatherable(r.Length0, r.Length1)
    requires i < Side(r.Length0) && j < Side(r.Length0) && cont == Rank(i, j, Side(r.Length0))
    requires cont < Last(Side(r.Length0)) && cont < R.Length0 && Last(Side(r.Length0)) <= R.Length1
    modifies R
    ensures forall c, d :: 0 <= c < R.Length0 && 0 <= d < R.Length1 ==>
      R[c, d] == if c == cont && d < Last(Side(r.Length0)) then LagAt(g, r.Length1, c, d) else old(R[c, d])
  {
    var w, h := Side(r.Length0), Side(r.Length0);
    ghost var last := Last(w);
    PositionOfRank(i, j, w);
    var contp := 0;
    for k := 0 to w
      invariant contp == if k == w then last else Rank(k, 0, w)
      invariant contp <= last
      invariant forall c, d :: 0 <= c < R.Length0 && 0 <= d < R.Length1 ==>
        R[c, d] == if c == cont && d < contp then LagAt(g, r.Length1, c, d) else old(R[c, d])
    {
      for l := 0 to h
        invariant contp == if k == w - 1 && l == h then last else Rank(k, l, w)
        invariant contp <= last
        invariant forall c, d :: 0 <= c < R.Length0 && 0 <= d < R.Length1 ==>
          R[c, d] == if c == cont && d < contp then LagAt(g, r.Length1, c, d) else old(R[c, d])
      {
        if !(k == w - 1 && l == h - 1) {
          RankBelow(k, l, w, w);
          PositionOfRank(k, l, w);
          R[cont, contp] := r[i - k + w - 1, j - l + h - 1];
          contp := contp + 1;
        }
      }
    }
  }

  /** The weight `getCoeff2` applies to cell `(i, j)` of an `h` by `w` grid. */
  function Weight(v: seq<real>, h: nat, w: nat, i: nat, j: nat): real
    requires i < h && j < w && h * w - 1 <= |v|
  {
    if i == h - 1 && j == w - 1 then 1.0
    else
      RankBelow(i, j, h, w);
      LastIsProduct(h, w);
      v[Rank(i, j, w)]
  }

  /** `m` with every cell but the last multiplied by the entry of `v` with its number. */
  function Weighted(m: Matrix, v: seq<real>, h: nat, w: nat): (r: Matrix)
    requires IsGrid(m, h, w) && h * w - 1 <= |v|
    ensures IsGrid(r, h, w)
  {
    seq(h, i requires 0 <= i < h => seq(w, j requires 0 <= j < w => m[i][j] * Weight(v, h, w, i, j)))
  }

  /**
   * `getCoeff2(V, coeff)`: cell `(i, j)` of `coeff` is multiplied by
   * `V[j + i * coeff[0].length]`, except the last cell, which keeps its value.
   */
  method GetCoeff2(V: array<real>, coeff: array2<real>)
    requires coeff.Length0 * coeff.Length1 - 1 <= V.Length
    modifies coeff
    ensures Grid(coeff) == Weighted(old(Grid(coeff)), V[..], coeff.Length0, coeff.Length1)
  {
    var h, w := coeff.Length0, coeff.Length1;
    ghost var m := Grid(coeff);
    ghost var v := V[..];
    ghost var target := Weighted(m, v, h, w);
    for i := 0 to h
      invariant forall a, b :: 0 <= a < h && 0 <= b < w ==>
        coeff[a, b] == if a < i then target[a][b] else m[a][b]
    {
      WeightRow(V, coeff, i);
      assert forall b :: 0 <= b < w ==> target[i][b] == m[i][b] * Weight(v, h, w, i, b);
    }
    GridExt(Grid(coeff), target, h, w);
  }

  /** The inner loop of `getCoeff2` over row `i`. */
  method WeightRow(V: array<real>, coeff: array2<real>, i: nat)
    requires i < coeff.Length0
    requires coeff.Length0 * coeff.Length1 - 1 <= V.Length
    modifies coeff
    ensures forall a, b :: 0 <= a < coeff.Length0 && 0 <= b < coeff.Length1 ==>
      coeff[a, b] == if a == i then old(coeff[a, b]) * Weight(V[..], coeff.Length0, coeff.Length1, a, b) else old(coeff[a, b])
  {
    var h, w := coeff.Length0, coeff.Length1;
    ghost var v := V[..];
    ghost var weights := seq(w, b requires 0 <= b < w => Weight(v, h, w, i, b));
    for j := 0 to w
      invariant forall a, b :: 0 <= a < h && 0 <= b < w && a != i ==> coeff[a, b] == old(coeff[a, b])
      invariant forall b :: 0 <= b < w ==> coeff[i, b] == if b < j then old(coeff[i, b]) * weights[b] else old(coeff[i, b])
    {
      if !(i == h - 1 && j == w - 1) {
        CellWeight(v, h, w, i, j);
        assert weights[j] == V[j + i * w];
        coeff[i, j] := coeff[i, j] * V[j + i * w];
      }
    }
    assert forall b :: 0 <= b < w ==> weights[b] == Weight(V[..], h, w, i, b);
  }

  /** Every cell but the last of an `h` by `w` grid has number `j + i * w`, below `h * w - 1`. */
  lemma CellIndex(i: nat, j: nat, h: nat, w: nat)
    requires i < h && j < w && !(i == h - 1 && j == w - 1)
    ensures j + i * w == Rank(i, j, w) < h * w - 1
  {
    RankBelow(i, j, h, w);
    LastIsProduct(h, w);
    RowStartIsProduct(i, w);
  }

  /** The entry `v[j + i * w]` that `getCoeff2` reads for cell `(i, j)` is its weight. */
  lemma CellWeight(v: seq<real>, h: nat, w: nat, i: nat, j: nat)
    requires i < h && j < w && !(i == h - 1 && j == w - 1) && h * w - 1 <= |v|
    ensures j + i * w < |v| && v[j + i * w] == Weight(v, h, w, i, j)
  {
    CellIndex(i, j, h, w);
  }

  /**
   * When the linear system has no solution, `getCoeff` passes a vector of ones, and
   * `getCoeff2` then leaves `coeff` as it was.
   */
  lemma WeightedByOnes(m: Matrix, v: seq<real>, h: nat, w: nat)
    requires IsGrid(m, h, w) && h * w - 1 <= |v|
    requires forall k :: 0 <= k < |v| ==> v[k] == 1.0
    ensures Weighted(m, v, h, w) == m
  {
    forall i, j | 0 <= i < h && 0 <= j < w
      ensures Weighted(m, v, h, w)[i][j] == m[i][j]
    {
      if !(i == h - 1 && j == w - 1) {
        RankBelow(i, j, h, w);
        LastIsProduct(h, w);
      }
    }
    GridExt(Weighted(m, v, h, w), m, h, w);
  }
}
