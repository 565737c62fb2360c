/**
 * `decentrageImage` of `TraitImage`: the mean that `centrageImage` took away is added
 * back to every pixel of an `int[][]` image, after the cast `(int) moyenne`.  Both the
 * cast and the `+=` follow Java's rules for 32-bit `int`.
 */
module Recentre {
  import opened Matrices

  /** `2^32`, the modulus of Java `int` arithmetic. */
  const Modulus: int := 0x1_0000_0000

  /** A Java `int`. */
  newtype int32 = x: int | -0x8000_0000 <= x < 0x8000_0000

  /** The Java `int` that `x` wraps to: the one congruent to `x` modulo `2^32`. */
  function Wrap32(x: int): (r: int32)
    ensures (r as int - x) % Modulus == 0
    ensures -0x8000_0000 <= x < 0x8000_0000 ==> r as int == x
  {
    var u := (x + 0x8000_0000) % Modulus;
    assert x + 0x8000_0000 == ((x + 0x8000_0000) / Modulus) * Modulus + u;
    (u - 0x8000_0000) as int32
  }

  /** `(int) m` for a finite `double` `m`: rounded toward zero, saturated at the bounds. */
  function JavaIntCast(m: real): (r: int32)
    ensures 0.0 <= m < 2147483648.0 ==> r as real <= m < r as real + 1.0
    ensures -2147483649.0 < m <= 0.0 ==> r as real - 1.0 < m <= r as real
    ensures m >= 2147483647.0 ==> r == 0x7fff_ffff
    ensures m <= -2147483648.0 ==> r == -0x8000_0000
  {
    if m >= 2147483647.0 then 0x7fff_ffff
    else if m <= -2147483648.0 then -0x8000_0000
    else if m >= 0.0 then m.Floor as int32
    else -((-m).Floor) as int32
  }

  /** Two integers congruent modulo `2^32` wrap to the same Java `int`. */
  lemma WrapCongruent(x: int, y: int)
    requires (x - y) % Modulus == 0
    ensures Wrap32(x) == Wrap32(y)
  {
    var k := (x - y) / Modulus;
    assert x - y == k * Modulus;
    var a, b := x + 0x8000_0000, y + 0x8000_0000;
    assert a == b + k * Modulus;
    var qb, rb := b / Modulus, b % Modulus;
    assert b == qb * Modulus + rb;
    assert a == (qb + k) * Modulus + rb;
    ModUnique(a, qb + k, rb);
  }

  /** The remainder of `q * 2^32 + r` is `r` when `0 <= r < 2^32`. */
  lemma ModUnique(a: int, q: int, r: int)
    requires a == q * Modulus + r && 0 <= r < Modulus
    ensures a % Modulus == r
  {
    var q0, r0 := a / 0x1_0000_0000, a % 0x1_0000_0000;
    assert a == q0 * 0x1_0000_0000 + r0;
    assert (q - q0) * 0x1_0000_0000 == r0 - r;
  }

  /** Adding `d` to `x` with wrap-around, as `x += d` does on Java `int`s. */
  function AddInt(x: int32, d: int32): int32
  {
    Wrap32(x as int + d as int)
  }

  /** Every cell of `m` shifted by `d` with wrap-around. */
  function Shifted(m: seq<seq<int32>>, d: int32): (r: seq<seq<int32>>)
    ensures |r| == |m| && forall i :: 0 <= i < |m| ==> |r[i]| == |m[i]|
  {
    seq(|m|, i requires 0 <= i < |m| => seq(|m[i]|, j requires 0 <= j < |m[i]| => AddInt(m[i][j], d)))
  }

  /** Adding `a` and then `b` with wrap-around is adding their wrapped sum. */
  lemma AddIntAssociative(x: int32, a: int32, b: int32)
    ensures AddInt(AddInt(x, a), b) == AddInt(x, AddInt(a, b))
  {
    WrapCongruent(AddInt(x, a) as int + b as int, x as int + a as int + b as int);
    WrapCongruent(x as int + AddInt(a, b) as int, x as int + a as int + b as int);
  }

  /** Shifting by `a` and then by `b` is shifting by their wrapped sum. */
  lemma ShiftedTwice(m: seq<seq<int32>>, a: int32, b: int32)
    ensures Shifted(Shifted(m, a), b) == Shifted(m, AddInt(a, b))
  {
    forall i | 0 <= i < |m|
      ensures Shifted(Shifted(m, a), b)[i] == Shifted(m, AddInt(a, b))[i]
    {
      forall j | 0 <= j < |m[i]|
        ensures AddInt(AddInt(m[i][j], a), b) == AddInt(m[i][j], AddInt(a, b))
      {
        AddIntAssociative(m[i][j], a, b);
      }
    }
  }

  /**
   * Shifting back by the negated amount restores the image: adding the mean back
   * undoes subtracting it, whatever wraps on the way.
   */
  lemma ShiftedBack(m: seq<seq<int32>>, d: int32)
    ensures Shifted(Shifted(m, d), Wrap32(-(d as int))) == m
  {
    ShiftedTwice(m, d, Wrap32(-(d as int)));
    WrapCongruent(d as int + Wrap32(-(d as int)) as int, 0);
    forall i | 0 <= i < |m|
      ensures Shifted(m, 0)[i] == m[i]
    {
    }
  }

  /**
   * `decentrageImage(centrage, moyenne)`: every cell of `centrage` grows by
   * `(int) moyenne`, with Java's wrap-around.
   */
  method DecentrageImage(centrage: array2<int32>, moyenne: real)
    requires centrage.Length0 > 0
    modifies centrage
    ensures Grid(centrage) == Shifted(old(Grid(centrage)), JavaIntCast(moyenne))
  {
    var d := JavaIntCast(moyenne);
    ghost var m := Grid(centrage);
    for x := 0 to centrage.Length1
      invariant forall r, c :: 0 <= r < centrage.Length0 && 0 <= c < centrage.Length1 ==>
        centrage[r, c] == if c < x then AddInt(m[r][c], d) else m[r][c]
    {
      ShiftColumn(centrage, x, d);
    }
    GridExt(Grid(centrage), Shifted(m, d), centrage.Length0, centrage.Length1);
  }

  /** The inner loop of `decentrageImage` down column `x`. */
  method ShiftColumn(centrage: array2<int32>, x: nat, d: int32)
    requires x < centrage.Length1
    modifies centrage
    ensures forall r, c :: 0 <= r < centrage.Length0 && 0 <= c < centrage.Length1 ==>
      centrage[r, c] == if c == x then AddInt(old(centrage[r, c]), d) else old(centrage[r, c])
  {
    for y := 0 to centrage.Length0
      invariant forall r, c :: 0 <= r < centrage.Length0 && 0 <= c < centrage.Length1 ==>
        centrage[r, c] == if c == x && r < y then AddInt(old(centrage[r, c]), d) else old(centrage[r, c])
    {
      centrage[y, x] := AddInt(centrage[y, x], d);
    }
  }
}
