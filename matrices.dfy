/** Value-level view of the `double[][]` grids that the image routines work on. */
module Matrices {

  /** A grid of reals held as a sequence of rows. */
  type Matrix = seq<seq<real>>

  /** `m` has `h` rows of `w` cells each. */
  predicate IsGrid<T>(m: seq<seq<T>>, h: nat, w: nat)
  {
    |m| == h && forall i :: 0 <= i < h ==> |m[i]| == w
  }

  /** A line of `w` zeros: what `new double[w]` holds. */
  function ZeroLine(w: nat): (z: seq<real>)
    ensures |z| == w
  {
    seq(w, _ => 0.0)
  }

  /** An `h` by `w` grid of zeros: what `new double[h][w]` holds. */
  function Zeros(h: nat, w: nat): (z: Matrix)
    ensures IsGrid(z, h, w)
  {
    seq(h, _ => ZeroLine(w))
  }

  /** The current contents of a two-dimensional array, as a value. */
  ghost function Grid<T>(a: array2<T>): (m: seq<seq<T>>)
    reads a
    ensures IsGrid(m, a.Length0, a.Length1)
    ensures forall i, j :: 0 <= i < a.Length0 && 0 <= j < a.Length1 ==> m[i][j] == a[i, j]
  {
    GridRows(a, a.Length0)
  }

  /** The first `n` rows of `a`. */
  ghost function GridRows<T>(a: array2<T>, n: nat): (m: seq<seq<T>>)
    requires n <= a.Length0
    reads a
    ensures IsGrid(m, n, a.Length1)
    ensures forall i, j :: 0 <= i < n && 0 <= j < a.Length1 ==> m[i][j] == a[i, j]
  {
    if n == 0 then [] else GridRows(a, n - 1) + [RowCells(a, n - 1, a.Length1)]
  }

  /** The first `n` cells of row `i` of `a`. */
  ghost function RowCells<T>(a: array2<T>, i: nat, n: nat): (r: seq<T>)
    requires i < a.Length0 && n <= a.Length1
    reads a
    ensures |r| == n && forall j :: 0 <= j < n ==> r[j] == a[i, j]
  {
    if n == 0 then [] else RowCells(a, i, n - 1) + [a[i, n - 1]]
  }

  /** Column `c` of an `h` by `w` grid, read top to bottom. */
  function Col(m: Matrix, h: nat, w: nat, c: nat): (v: seq<real>)
    requires IsGrid(m, h, w) && c < w
    ensures |v| == h
  {
    seq(h, r requires 0 <= r < h => m[r][c])
  }

  /** The top-left `mm` by `nn` block of an `h` by `w` grid. */
  function Block(m: Matrix, h: nat, w: nat, mm: nat, nn: nat): (b: Matrix)
    requires IsGrid(m, h, w) && mm <= h && nn <= w
    ensures IsGrid(b, mm, nn)
  {
    seq(mm, i requires 0 <= i < mm => seq(nn, j requires 0 <= j < nn => m[i][j]))
  }

  /** `m` with its top-left `mm` by `nn` block replaced by `b`. */
  function Paste(m: Matrix, h: nat, w: nat, b: Matrix, mm: nat, nn: nat): (r: Matrix)
    requires IsGrid(m, h, w) && IsGrid(b, mm, nn) && mm <= h && nn <= w
    ensures IsGrid(r, h, w)
  {
    seq(h, i requires 0 <= i < h =>
      seq(w, j requires 0 <= j < w => if i < mm && j < nn then b[i][j] else m[i][j]))
  }

  /** Reading back the block just pasted gives the block. */
  lemma BlockOfPaste(m: Matrix, h: nat, w: nat, b: Matrix, mm: nat, nn: nat)
    requires IsGrid(m, h, w) && IsGrid(b, mm, nn) && mm <= h && nn <= w
    ensures Block(Paste(m, h, w, b, mm, nn), h, w, mm, nn) == b
  {
    GridExt(Block(Paste(m, h, w, b, mm, nn), h, w, mm, nn), b, mm, nn);
  }

  /** Pasting a grid's own block back changes nothing. */
  lemma PasteOwnBlock(m: Matrix, h: nat, w: nat, mm: nat, nn: nat)
    requires IsGrid(m, h, w) && mm <= h && nn <= w
    ensures Paste(m, h, w, Block(m, h, w, mm, nn), mm, nn) == m
  {
    GridExt(Paste(m, h, w, Block(m, h, w, mm, nn), mm, nn), m, h, w);
  }

  /** A second paste over the same block hides the first. */
  lemma PasteTwice(m: Matrix, h: nat, w: nat, b1: Matrix, b2: Matrix, mm: nat, nn: nat)
    requires IsGrid(m, h, w) && IsGrid(b1, mm, nn) && IsGrid(b2, mm, nn) && mm <= h && nn <= w
    ensures Paste(Paste(m, h, w, b1, mm, nn), h, w, b2, mm, nn) == Paste(m, h, w, b2, mm, nn)
  {
    GridExt(Paste(Paste(m, h, w, b1, mm, nn), h, w, b2, mm, nn), Paste(m, h, w, b2, mm, nn), h, w);
  }

  /**
   * If `m` differs from `f` only inside its top-left `l1` by `l2` block, then so does
   * `m` with a smaller block pasted over it.
   */
  lemma PasteWithin(m: Matrix, f: Matrix, b: Matrix, h: nat, w: nat, mm: nat, nn: nat, l1: nat, l2: nat)
    requires IsGrid(m, h, w) && IsGrid(f, h, w) && IsGrid(b, mm, nn)
    requires mm <= l1 <= h && nn <= l2 <= w
    requires m == Paste(f, h, w, Block(m, h, w, l1, l2), l1, l2)
    ensures var p := Paste(m, h, w, b, mm, nn);
      p == Paste(f, h, w, Block(p, h, w, l1, l2), l1, l2)
  {
    var p := Paste(m, h, w, b, mm, nn);
    forall i, j | 0 <= i < h && 0 <= j < w
      ensures p[i][j] == Paste(f, h, w, Block(p, h, w, l1, l2), l1, l2)[i][j]
    {
      if !(i < l1 && j < l2) {
        assert m[i][j] == f[i][j];
      }
    }
    GridExt(p, Paste(f, h, w, Block(p, h, w, l1, l2), l1, l2), h, w);
  }

  /** Two grids of the same shape that agree cell by cell are equal. */
  lemma GridExt<T>(a: seq<seq<T>>, b: seq<seq<T>>, h: nat, w: nat)
    requires IsGrid(a, h, w) && IsGrid(b, h, w)
    requires forall i, j :: 0 <= i < h && 0 <= j < w ==> a[i][j] == b[i][j]
    ensures a == b
  {
    forall i | 0 <= i < h
      ensures a[i] == b[i]
    {
      assert forall j :: 0 <= j < w ==> a[i][j] == b[i][j];
    }
  }

  /** `2^n`, the divisor of `Math.pow(2, n)`. */
  function Pow2(n: nat): (p: nat)
    ensures p >= 1
  {
    if n == 0 then 1 else 2 * Pow2(n - 1)
  }

  /** Halving `a / p` once more is the same as dividing `a` by `2p`. */
  lemma DivTwice(a: nat, p: nat)
    requires p > 0
    ensures a / (2 * p) == (a / p) / 2
  {
    var q, r := a / p, a % p;
    assert a == q * p + r;
    var q2, r2 := q / 2, q % 2;
    assert q == 2 * q2 + r2;
    assert a == q2 * (2 * p) + (r2 * p + r);
    assert 0 <= r2 * p + r < 2 * p;
    DivUnique(a, 2 * p, q2, r2 * p + r);
  }

  /** Floor division is the only quotient with a remainder in range. */
  lemma DivUnique(a: nat, d: nat, q: nat, r: nat)
    requires d > 0 && a == q * d + r && r < d
    ensures a / d == q
  {
    var q0, r0 := a / d, a % d;
    assert a == q0 * d + r0;
    if q0 < q {
      assert q * d == q0 * d + (q - q0) * d;
      MulAtLeast(q - q0, d);
    } else if q0 > q {
      assert q0 * d == q * d + (q0 - q) * d;
      MulAtLeast(q0 - q, d);
    }
  }

  /** A product with a positive factor `k` is at least the other factor. */
  lemma MulAtLeast(k: nat, d: nat)
    requires k >= 1
    ensures k * d >= d
  {
    assert k * d == (k - 1) * d + d;
  }

  /** Dividing a natural number by a positive one gives a natural number no larger. */
  lemma DivAtMost(a: nat, p: nat)
    requires p >= 1
    ensures 0 <= a / p <= a
  {
    var q := a / p;
    assert a == q * p + a % p;
    MulAtLeast(p, q);
  }

  /**
   * The side of the block that level `n` of a pyramid over a side `a` works on: each
   * level halves the side of the one above.
   */
  function LevelSide(a: nat, n: nat): (r: nat)
    ensures r <= a
  {
    if n == 0 then a else LevelSide(a, n - 1) / 2
  }

  /** The side of level `n` is `(int) (a / Math.pow(2, n))`, at most `a`. */
  lemma {:induction false} LevelSideIsQuotient(a: nat, n: nat)
    ensures LevelSide(a, n) == a / Pow2(n) <= a
  {
    if n > 0 {
      LevelSideIsQuotient(a, n - 1);
      DivTwice(a, Pow2(n - 1));
    }
    DivAtMost(a, Pow2(n));
  }

  /** `2^(a+b) = 2^a * 2^b`. */
  lemma {:induction false} Pow2Add(a: nat, b: nat)
    ensures Pow2(a + b) == Pow2(a) * Pow2(b)
  {
    if b > 0 {
      Pow2Add(a, b - 1);
      assert Pow2(a + b) == 2 * Pow2(a + (b - 1));
      assert Pow2(a) * Pow2(b) == Pow2(a) * (2 * Pow2(b - 1)) == 2 * (Pow2(a) * Pow2(b - 1));
    }
  }

  /** Deeper levels of the pyramid never have larger sides. */
  lemma {:induction false} LevelSideShrinks(a: nat, l: nat, n: nat)
    requires l <= n
    ensures LevelSide(a, n) <= LevelSide(a, l)
  {
    if l < n {
      LevelSideShrinks(a, l, n - 1);
    }
  }

  /**
   * If the deepest of `k` levels still divides `a` by at most `a`, every one of the `k`
   * levels has a side of at least one.
   */
  lemma LevelsNonEmpty(a: nat, n: nat, k: nat)
    requires n < k && Pow2(k - 1) <= a
    ensures LevelSide(a, n) >= 1
  {
    QuotientPositive(a, Pow2(k - 1));
    LevelSideIsQuotient(a, k - 1);
    LevelSideShrinks(a, n, k - 1);
  }

  /** A divisor no larger than the dividend leaves a quotient of at least one. */
  lemma QuotientPositive(a: nat, p: nat)
    requires 1 <= p <= a
    ensures a / p >= 1
  {
    assert a == (a / p) * p + a % p;
  }

  /** If `2^k` divides `a`, every level `n < k` of the pyramid has an even side. */
  lemma EvenSideBelow(a: nat, n: nat, k: nat)
    requires n < k && a % Pow2(k) == 0
    ensures LevelSide(a, n) % 2 == 0
  {
    var q, p, e := a / Pow2(k), Pow2(n), Pow2(k - n - 1);
    Pow2Add(n, k - n);
    assert Pow2(k - n) == 2 * e;
    assert a == q * Pow2(k) + a % Pow2(k);
    MulRegroup(q, p, e);
    DivUnique(a, p, 2 * (q * e), 0);
    LevelSideIsQuotient(a, n);
  }

  /** `q * (p * (2e)) = (2 (q e)) * p`. */
  lemma MulRegroup(q: nat, p: nat, e: nat)
    ensures q * (p * (2 * e)) == (2 * (q * e)) * p
  {
  }
}
