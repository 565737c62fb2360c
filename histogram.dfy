/**
 * The counting loop of `calculHisto` in `TraitImage`: every pixel value of the image,
 * read row by row, bumps its bucket among 256.
 */
module Histogram {
  import opened Matrices

  /** The number of buckets, one per 8-bit grey level. */
  const Buckets: nat := 256

  /** The cells of a grid read row by row, each row left to right. */
  function Cells<T>(m: seq<seq<T>>): (s: seq<T>)
  {
    if m == [] then [] else Cells(m[..|m| - 1]) + m[|m| - 1]
  }

  /** An `h` by `w` grid has `h * w` cells. */
  lemma {:induction false} CellsLength<T>(m: seq<seq<T>>, h: nat, w: nat)
    requires IsGrid(m, h, w)
    ensures |Cells(m)| == h * w
  {
    if h > 0 {
      CellsLength(m[..h - 1], h - 1, w);
      assert h * w == (h - 1) * w + w;
    }
  }

  /** The cells of the first `i + 1` rows are those of the first `i`, then row `i`. */
  lemma CellsPrefix<T>(m: seq<seq<T>>, i: nat)
    requires i < |m|
    ensures Cells(m[..i + 1]) == Cells(m[..i]) + m[i]
  {
    assert m[..i + 1][..i] == m[..i];
  }

  /** The sum of the entries of `t`. */
  function Sum(t: seq<int>): int
  {
    if t == [] then 0 else Sum(t[..|t| - 1]) + t[|t| - 1]
  }

  /** Adding one to a single entry adds one to the sum. */
  lemma {:induction false} SumBump(t: seq<int>, x: nat)
    requires x < |t|
    ensures Sum(t[x := t[x] + 1]) == Sum(t) + 1
  {
    var n := |t| - 1;
    var u := t[x := t[x] + 1];
    assert u[..n] == if x < n then t[..n][x := t[x] + 1] else t[..n];
    if x < n {
      SumBump(t[..n], x);
    }
  }

  /** A sequence of zeros sums to zero. */
  lemma {:induction false} SumZeros(t: seq<int>)
    requires forall k :: 0 <= k < |t| ==> t[k] == 0
    ensures Sum(t) == 0
  {
    if t != [] {
      SumZeros(t[..|t| - 1]);
    }
  }

  /**
   * The counting loop of `calculHisto(im)` over the pixel grid `donnee`: bucket `b` of
   * the result is the number of cells that hold `b`, and the buckets together count
   * every cell once.
   */
  method CalculHisto(donnee: array2<int>) returns (histo: array<int>)
    requires forall i, j :: 0 <= i < donnee.Length0 && 0 <= j < donnee.Length1 ==> 0 <= donnee[i, j] < Buckets
    ensures histo.Length == Buckets
    ensures forall b :: 0 <= b < Buckets ==> histo[b] == multiset(Cells(Grid(donnee)))[b]
    ensures Sum(histo[..]) == donnee.Length0 * donnee.Length1
  {
    histo := new int[Buckets](_ => 0);
    ghost var g := Grid(donnee);
    SumZeros(histo[..]);
    for i := 0 to donnee.Length0
      invariant forall b :: 0 <= b < Buckets ==> histo[b] == multiset(Cells(g[..i]))[b]
      invariant Sum(histo[..]) == |Cells(g[..i])|
    {
      CountRow(donnee, histo, i);
      CellsPrefix(g, i);
    }
    assert g[..donnee.Length0] == g;
    CellsLength(g, donnee.Length0, donnee.Length1);
  }

  /** The inner loop of `calculHisto` over row `i`: each of its cells bumps its bucket. */
  method CountRow(donnee: array2<int>, histo: array<int>, i: nat)
    requires i < donnee.Length0 && histo.Length == Buckets
    requires forall j :: 0 <= j < donnee.Length1 ==> 0 <= donnee[i, j] < Buckets
    modifies histo
    ensures forall b :: 0 <= b < Buckets ==> histo[b] == old(histo[b]) + multiset(Grid(donnee)[i])[b]
    ensures Sum(histo[..]) == old(Sum(histo[..])) + donnee.Length1
  {
    ghost var row := Grid(donnee)[i];
    for j := 0 to donnee.Length1
      invariant forall b :: 0 <= b < Buckets ==> histo[b] == old(histo[b]) + multiset(row[..j])[b]
      invariant Sum(histo[..]) == old(Sum(histo[..])) + j
    {
      var v := donnee[i, j];
      SumBump(histo[..], v);
      histo[v] := histo[v] + 1;
      assert row[..j + 1] == row[..j] + [v];
    }
    assert row[..donnee.Length1] == row;
  }
}
