/** `mul_one` of `agg_basics.h`: the product of two fractions of 2^n - 1, without a division. */
module MulOne {
  import opened Basics

  /** A 32-bit unsigned product. */
  function Times32(a: nat, b: nat): nat {
    a * b % UINT_RANGE
  }

  /** A shift right by the exponent of `p`. */
  function ShiftRight(x: nat, p: nat): nat
    requires p >= 1
  {
    x / p
  }

  function Rounded(shift: nat, product: nat): nat
    requires shift >= 1
  {
    var q := (product + Pow2(shift - 1)) % UINT_RANGE;
    ShiftRight((q + ShiftRight(q, Pow2(shift))) % UINT_RANGE, Pow2(shift))
  }

  /** `mul_one<shift>::mul`, every operation in 32-bit unsigned arithmetic. */
  function Mul(shift: nat, a: nat, b: nat): nat
    requires shift >= 1
  {
    Rounded(shift, Times32(a, b))
  }

  /** r is the integer nearest to n / d, and no other integer is as near. */
  ghost predicate NearestQuotient(r: int, n: int, d: int) {
    -d < 2 * (n - r * d) < d
  }

  lemma Square(a: nat, b: nat, m: nat)
    requires a <= m && b <= m
    ensures 0 <= a * b <= m * m
  {
    assert a * b <= m * b <= m * m;
  }

  /** The heart of the matter, with the products up = u * p and rp = r * p as numbers of their own. */
  lemma RoundsLinearly(h: nat, p: nat, t: nat, u: nat, up: nat, v: nat, r: nat, rp: nat)
    requires h >= 1 && p == 2 * h && t + h == up + v && v < p && u < p && (u == 0 ==> up == 0)
    requires (u + v < p && r == u && rp == up) || (u + v >= p && r == u + 1 && rp == up + p)
    ensures -(p - 1) < 2 * (t - (rp - r)) < p - 1
  {
  }

  lemma LessOne(r: nat, p: nat)
    requires p >= 1
    ensures r * (p - 1) == r * p - r && (r + 1) * p == r * p + p
  {
  }

  lemma SquareLess(p: nat)
    requires p >= 1
    ensures (p - 1) * (p - 1) == p * p - 2 * p + 1
  {
  }

  lemma Grows(u: nat, p: nat)
    requires u >= p
    ensures u * p >= p * p
  {
  }

  /** The computation in unbounded integers, with p = 2h the power of two. */
  lemma Rounds(h: nat, p: nat, t: nat)
    requires h >= 1 && p == 2 * h && t <= (p - 1) * (p - 1)
    ensures var u := (t + h) / p; u < p && NearestQuotient((t + h + u) / p, t, p - 1)
  {
    var q := t + h;
    var u, v := q / p, q % p;
    DivMod(q, p);
    SquareLess(p);
    if u >= p { Grows(u, p); }
    var r := if u + v < p then u else u + 1;
    LessOne(u, p);
    LessOne(r, p);
    assert q + u == r * p + if u + v < p then u + v else u + v - p;
    RoundsLinearly(h, p, t, u, u * p, v, r, r * p);
    assert NearestQuotient(r, t, p - 1);
    hide NearestQuotient;
    QuotientIs(q + u, p, r, if u + v < p then u + v else u + v - p);
  }

  lemma Pow2Bound(n: nat)
    requires 1 <= n <= 16
    ensures Pow2(n) <= 65536
  {
    assert Pow2(4) == 16 && Pow2(8) == 256 && Pow2(12) == 4096 && Pow2(16) == 65536;
    Pow2Monotone(n, 16);
  }

  lemma Fits(p: nat)
    requires 1 <= p <= 65536
    ensures (p - 1) * (p - 1) <= 65535 * 65535
  {
    Square(p - 1, p - 1, 65535);
  }

  lemma NoWrap(t: nat, h: nat, p: nat)
    requires 1 <= h <= 32768 && 1 <= p <= 65536 && t <= 65535 * 65535 && (t + h) / p < p
    ensures t + h < UINT_RANGE && t + h + (t + h) / p < UINT_RANGE
    ensures t % UINT_RANGE == t && (t + h) % UINT_RANGE == t + h
    ensures (t + h + (t + h) / p) % UINT_RANGE == t + h + (t + h) / p
  {
  }

  lemma RoundsWithoutWrap(shift: nat, t: nat)
    requires shift >= 1 && Pow2(shift) <= 65536 && t <= (Pow2(shift) - 1) * (Pow2(shift) - 1) <= 65535 * 65535
    ensures t < UINT_RANGE && NearestQuotient(Rounded(shift, t), t, Pow2(shift) - 1)
  {
    var h, p := Pow2(shift - 1), Pow2(shift);
    assert p == 2 * h;
    hide Pow2, NearestQuotient;
    Rounds(h, p, t);
    NoWrap(t, h, p);
  }

  lemma MulOfProduct(shift: nat, a: nat, b: nat, t: nat)
    requires shift >= 1 && t == a * b < UINT_RANGE
    ensures Mul(shift, a, b) == Rounded(shift, t)
  {
    assert Times32(a, b) == t;
    hide Times32, Pow2, ShiftRight;
  }

  /** For every shift from 1 to 16 and all fractions a and b, the result is a * b / (2^shift - 1)
      rounded to the nearest integer; a tie cannot occur, and 32 bits are enough. */
  lemma MulRoundsToNearest(shift: nat, a: nat, b: nat)
    requires 1 <= shift <= 16 && a < Pow2(shift) && b < Pow2(shift)
    ensures NearestQuotient(Mul(shift, a, b), a * b, Pow2(shift) - 1)
  {
    Pow2Bound(shift);
    Square(a, b, Pow2(shift) - 1);
    Fits(Pow2(shift));
    RoundsWithoutWrap(shift, a * b);
    MulOfProduct(shift, a, b, a * b);
  }

  lemma AtLeastOne(x: int, y: int, d: int)
    requires d >= 1 && x < y
    ensures y * d - x * d >= d
  {
    var e := y - x - 1;
    assert y * d == x * d + d + e * d by { assert y == x + 1 + e; }
    assert e * d >= 0;
  }

  lemma NearestIsUnique(r: int, s: int, n: int, d: int)
    requires d >= 1 && NearestQuotient(r, n, d) && n == s * d
    ensures r == s
  {
    if r < s { AtLeastOne(r, s, d); }
    if s < r { AtLeastOne(s, r, d); }
  }

  /** Full coverage is neutral and no coverage absorbs. */
  lemma MulUnits(shift: nat, a: nat)
    requires 1 <= shift <= 16 && a < Pow2(shift)
    ensures Mul(shift, a, Pow2(shift) - 1) == a && Mul(shift, a, 0) == 0
  {
    var m := Pow2(shift) - 1;
    MulRoundsToNearest(shift, a, m);
    MulRoundsToNearest(shift, a, 0);
    assert m >= 1 by { assert Pow2(shift) == 2 * Pow2(shift - 1); }
    NearestIsUnique(Mul(shift, a, m), a, a * m, m);
    assert a * 0 == 0 * m;
    NearestIsUnique(Mul(shift, a, 0), 0, a * 0, m);
  }
}
