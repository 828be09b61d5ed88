/** The reciprocal tables of the stack blur: division by (r + 1)^2 becomes a multiplication
    and a shift, and everything about that replacement that depends on the table entries. */
module StackBlurTables {
  import opened Basics

  /** Column `c` of a row of sixteen table entries. */
  function Pick(c: nat, v0: nat, v1: nat, v2: nat, v3: nat, v4: nat, v5: nat, v6: nat, v7: nat, v8: nat, v9: nat,
                v10: nat, v11: nat, v12: nat, v13: nat, v14: nat, v15: nat): nat
    requires c < 16
  {
    match c
    case 0 => v0 case 1 => v1 case 2 => v2 case 3 => v3
    case 4 => v4 case 5 => v5 case 6 => v6 case 7 => v7
    case 8 => v8 case 9 => v9 case 10 => v10 case 11 => v11
    case 12 => v12 case 13 => v13 case 14 => v14 case _ => v15
  }

  /** `g_stack_blur8_mul`, sixteen to a row (the last one pads). */
  function Mul(r: nat): nat
    requires r < 255
  {
    if r < 16 then Pick(r - 0, 512, 512, 456, 512, 328, 456, 335, 512, 405, 328, 271, 456, 388, 335, 292, 512)
    else if r < 32 then Pick(r - 16, 454, 405, 364, 328, 298, 271, 496, 456, 420, 388, 360, 335, 312, 292, 273, 512)
    else if r < 48 then Pick(r - 32, 482, 454, 428, 405, 383, 364, 345, 328, 312, 298, 284, 271, 259, 496, 475, 456)
    else if r < 64 then Pick(r - 48, 437, 420, 404, 388, 374, 360, 347, 335, 323, 312, 302, 292, 282, 273, 265, 512)
    else if r < 80 then Pick(r - 64, 497, 482, 468, 454, 441, 428, 417, 405, 394, 383, 373, 364, 354, 345, 337, 328)
    else if r < 96 then Pick(r - 80, 320, 312, 305, 298, 291, 284, 278, 271, 265, 259, 507, 496, 485, 475, 465, 456)
    else if r < 112 then Pick(r - 96, 446, 437, 428, 420, 412, 404, 396, 388, 381, 374, 367, 360, 354, 347, 341, 335)
    else if r < 128 then Pick(r - 112, 329, 323, 318, 312, 307, 302, 297, 292, 287, 282, 278, 273, 269, 265, 261, 512)
    else if r < 144 then Pick(r - 128, 505, 497, 489, 482, 475, 468, 461, 454, 447, 441, 435, 428, 422, 417, 411, 405)
    else if r < 160 then Pick(r - 144, 399, 394, 389, 383, 378, 373, 368, 364, 359, 354, 350, 345, 341, 337, 332, 328)
    else if r < 176 then Pick(r - 160, 324, 320, 316, 312, 309, 305, 301, 298, 294, 291, 287, 284, 281, 278, 274, 271)
    else if r < 192 then Pick(r - 176, 268, 265, 262, 259, 257, 507, 501, 496, 491, 485, 480, 475, 470, 465, 460, 456)
    else if r < 208 then Pick(r - 192, 451, 446, 442, 437, 433, 428, 424, 420, 416, 412, 408, 404, 400, 396, 392, 388)
    else if r < 224 then Pick(r - 208, 385, 381, 377, 374, 370, 367, 363, 360, 357, 354, 350, 347, 344, 341, 338, 335)
    else if r < 240 then Pick(r - 224, 332, 329, 326, 323, 320, 318, 315, 312, 310, 307, 304, 302, 299, 297, 294, 292)
    else Pick(r - 240, 289, 287, 285, 282, 280, 278, 275, 273, 271, 269, 267, 265, 263, 261, 259, 259)
  }

  /** `g_stack_blur8_shr`. */
  function Shr(r: nat): nat
    requires r < 255
  {
    if r < 16 then Pick(r - 0, 9, 11, 12, 13, 13, 14, 14, 15, 15, 15, 15, 16, 16, 16, 16, 17)
    else if r < 32 then Pick(r - 16, 17, 17, 17, 17, 17, 17, 18, 18, 18, 18, 18, 18, 18, 18, 18, 19)
    else if r < 48 then Pick(r - 32, 19, 19, 19, 19, 19, 19, 19, 19, 19, 19, 19, 19, 19, 20, 20, 20)
    else if r < 64 then Pick(r - 48, 20, 20, 20, 20, 20, 20, 20, 20, 20, 20, 20, 20, 20, 20, 20, 21)
    else if r < 80 then Pick(r - 64, 21, 21, 21, 21, 21, 21, 21, 21, 21, 21, 21, 21, 21, 21, 21, 21)
    else if r < 96 then Pick(r - 80, 21, 21, 21, 21, 21, 21, 21, 21, 21, 21, 22, 22, 22, 22, 22, 22)
    else if r < 112 then Pick(r - 96, 22, 22, 22, 22, 22, 22, 22, 22, 22, 22, 22, 22, 22, 22, 22, 22)
    else if r < 128 then Pick(r - 112, 22, 22, 22, 22, 22, 22, 22, 22, 22, 22, 22, 22, 22, 22, 22, 23)
    else if r < 144 then Pick(r - 128, 23, 23, 23, 23, 23, 23, 23, 23, 23, 23, 23, 23, 23, 23, 23, 23)
    else if r < 160 then Pick(r - 144, 23, 23, 23, 23, 23, 23, 23, 23, 23, 23, 23, 23, 23, 23, 23, 23)
    else if r < 176 then Pick(r - 160, 23, 23, 23, 23, 23, 23, 23, 23, 23, 23, 23, 23, 23, 23, 23, 23)
    else if r < 192 then Pick(r - 176, 23, 23, 23, 23, 23, 24, 24, 24, 24, 24, 24, 24, 24, 24, 24, 24)
    else if r < 208 then Pick(r - 192, 24, 24, 24, 24, 24, 24, 24, 24, 24, 24, 24, 24, 24, 24, 24, 24)
    else if r < 224 then Pick(r - 208, 24, 24, 24, 24, 24, 24, 24, 24, 24, 24, 24, 24, 24, 24, 24, 24)
    else if r < 240 then Pick(r - 224, 24, 24, 24, 24, 24, 24, 24, 24, 24, 24, 24, 24, 24, 24, 24, 24)
    else Pick(r - 240, 24, 24, 24, 24, 24, 24, 24, 24, 24, 24, 24, 24, 24, 24, 24, 24)
  }

  /** The value of `1 << shr` for the shifts that occur in the table. */
  function Shifted(shr: nat): (p: nat)
    ensures p > 0
  {
    if shr == 9 then 512 else if shr == 11 then 2048 else if shr == 12 then 4096
    else if shr == 13 then 8192 else if shr == 14 then 16384 else if shr == 15 then 32768
    else if shr == 16 then 65536 else if shr == 17 then 131072 else if shr == 18 then 262144
    else if shr == 19 then 524288 else if shr == 20 then 1048576 else if shr == 21 then 2097152
    else if shr == 22 then 4194304 else if shr == 23 then 8388608 else 16777216
  }

  /** `Shifted` really is the power of two for every shift in the table. */
  lemma ShiftedIsPow2(r: nat)
    requires r < 255
    ensures Shifted(Shr(r)) == Pow2(Shr(r))
  {
    assert Pow2(9) == 512 && Pow2(11) == 2048 && Pow2(12) == 4096 && Pow2(13) == 8192 && Pow2(14) == 16384;
    assert Pow2(15) == 32768 && Pow2(16) == 65536 && Pow2(17) == 131072 && Pow2(18) == 262144;
    assert Pow2(19) == 524288 && Pow2(20) == 1048576 && Pow2(21) == 2097152;
    assert Pow2(22) == 4194304 && Pow2(23) == 8388608 && Pow2(24) == 16777216;
  }

  /** What the entries for one radius must satisfy, with n = r + 1 and p the power of two shifted by: m has nine bits,
      or is 512, and is the least number for which m / p is not below 1 / n^2; it exceeds that by less than one part in
      255, and the product still fits 32 bits. */
  predicate Entry(n: nat, m: nat, p: nat) {
    var t := n * n * m;
    256 < m <= 512 && t - n * n < p <= t && 255 * (t - p) < p && 255 * t < UINT_RANGE
  }

  predicate Tight(r: nat)
    requires r < 255
  {
    Entry(r + 1, Mul(r), Shifted(Shr(r)))
  }

  lemma Row0(r: nat) requires 0 <= r < 16 ensures Tight(r) {}
  lemma Row1(r: nat) requires 16 <= r < 32 ensures Tight(r) {}
  lemma Row2(r: nat) requires 32 <= r < 48 ensures Tight(r) {}
  lemma Row3(r: nat) requires 48 <= r < 64 ensures Tight(r) {}
  lemma Row4(r: nat) requires 64 <= r < 80 ensures Tight(r) {}
  lemma Row5(r: nat) requires 80 <= r < 96 ensures Tight(r) {}
  lemma Row6(r: nat) requires 96 <= r < 112 ensures Tight(r) {}
  lemma Row7(r: nat) requires 112 <= r < 128 ensures Tight(r) {}
  lemma Row8(r: nat) requires 128 <= r < 144 ensures Tight(r) {}
  lemma Row9(r: nat) requires 144 <= r < 160 ensures Tight(r) {}
  lemma Row10(r: nat) requires 160 <= r < 176 ensures Tight(r) {}
  lemma Row11(r: nat) requires 176 <= r < 192 ensures Tight(r) {}
  lemma Row12(r: nat) requires 192 <= r < 208 ensures Tight(r) {}
  lemma Row13(r: nat) requires 208 <= r < 224 ensures Tight(r) {}
  lemma Row14(r: nat) requires 224 <= r < 240 ensures Tight(r) {}
  lemma Row15(r: nat) requires 240 <= r < 255 ensures Tight(r) {}

  lemma EveryRow(r: nat)
    requires r < 255
    ensures Tight(r)
  {
    hide Tight;
    if r < 16 { Row0(r); }
    else if r < 32 { Row1(r); }
    else if r < 48 { Row2(r); }
    else if r < 64 { Row3(r); }
    else if r < 80 { Row4(r); }
    else if r < 96 { Row5(r); }
    else if r < 112 { Row6(r); }
    else if r < 128 { Row7(r); }
    else if r < 144 { Row8(r); }
    else if r < 160 { Row9(r); }
    else if r < 176 { Row10(r); }
    else if r < 192 { Row11(r); }
    else if r < 208 { Row12(r); }
    else if r < 224 { Row13(r); }
    else if r < 240 { Row14(r); }
    else { Row15(r); }
  }

  lemma PartsOf(n: nat, m: nat)
    ensures (m - 1) * n * n == n * n * m - n * n && n * n * m == m * n * n
  {
    assert n * n * m == m * (n * n) && m * (n * n) == m * n * n;
    assert (m - 1) * n * n == (m - 1) * (n * n);
    assert (m - 1) * (n * n) == m * (n * n) - n * n;
  }

  /** All 255 entries are tight. */
  lemma TablesAreTight(r: nat)
    requires r < 255
    ensures var n, m, p := r + 1, Mul(r), Pow2(Shr(r));
            && (m - 1) * n * n < p <= m * n * n && 256 < m <= 512
            && 255 * (m * n * n - p) < p && 255 * (m * n * n) < UINT_RANGE
  {
    EveryRow(r);
    ShiftedIsPow2(r);
    hide Mul, Shr, Shifted, Pow2;
    PartsOf(r + 1, Mul(r));
  }

  lemma NoOtherShift(d: nat, m: nat, k: nat, n: nat, l: nat)
    requires (m - 1) * d < Pow2(k) && 256 < m && Pow2(l) <= n * d && n <= 512
    ensures l <= k
  {
    if k < l {
      Pow2Monotone(k + 1, l);
      assert Pow2(k + 1) == 2 * Pow2(k);
      MulLe(256, m - 1, d);
      MulLe(n, 512, d);
    }
  }

  lemma NoOtherMultiplier(d: nat, m: nat, n: nat, p: nat)
    requires (m - 1) * d < p <= n * d
    ensures m <= n
  {
    if n < m { MulLe(n, m - 1, d); }
  }

  lemma OnlyOne(d: nat, m: nat, k: nat, n: nat, l: nat)
    requires 256 < m <= 512 && (m - 1) * d < Pow2(k) <= m * d
    requires 256 < n <= 512 && (n - 1) * d < Pow2(l) <= n * d
    ensures m == n && k == l
  {
    hide Pow2;
    NoOtherShift(d, m, k, n, l);
    NoOtherShift(d, n, l, m, k);
    NoOtherMultiplier(d, m, n, Pow2(k));
    NoOtherMultiplier(d, n, m, Pow2(k));
  }

  lemma Regroup(n: nat, m: int)
    ensures m * n * n == m * (n * n)
  {
  }

  lemma OnlyOneAt(n: nat, m: nat, k: nat, m1: nat, k1: nat)
    requires 256 < m <= 512 && (m - 1) * n * n < Pow2(k) <= m * n * n
    requires 256 < m1 <= 512 && (m1 - 1) * n * n < Pow2(k1) <= m1 * n * n
    ensures m == m1 && k == k1
  {
    hide Pow2;
    Regroup(n, m);
    Regroup(n, m - 1);
    Regroup(n, m1);
    Regroup(n, m1 - 1);
    OnlyOne(n * n, m, k, m1, k1);
  }

  /** No other entries would do: a multiplier of that size that is the least one for its shift is the one in
      the table. */
  lemma TablesAreUnique(r: nat, m: nat, k: nat)
    requires r < 255 && 256 < m <= 512 && (m - 1) * (r + 1) * (r + 1) < Pow2(k) <= m * (r + 1) * (r + 1)
    ensures m == Mul(r) && k == Shr(r)
  {
    TablesAreTight(r);
    hide Mul, Shr, Pow2;
    OnlyOneAt(r + 1, m, k, Mul(r), Shr(r));
  }

  /** The replacement of `sum / ((r + 1) * (r + 1))` at radius r, in unbounded integers. */
  function Reciprocal(sum: nat, r: nat): nat
    requires r < 255
  {
    hide Mul, Shr; sum * Mul(r) / Shifted(Shr(r))
  }

  lemma DivisionBrackets(a: nat, p: nat, q: nat)
    requires p > 0 && q == a / p
    ensures q * p <= a < (q + 1) * p
  {
    assert a == q * p + a % p;
    assert (q + 1) * p == q * p + p;
  }

  /** Rounded down, after multiplying. */
  lemma ReciprocalIsDivision(sum: nat, r: nat)
    requires r < 255
    ensures Reciprocal(sum, r) * Pow2(Shr(r)) <= sum * Mul(r) < (Reciprocal(sum, r) + 1) * Pow2(Shr(r))
  {
    hide Mul, Shr, Shifted, Pow2;
    var a, p, q := sum * Mul(r), Shifted(Shr(r)), Reciprocal(sum, r);
    assert q == a / p && p == Pow2(Shr(r)) by { ShiftedIsPow2(r); }
    hide Reciprocal;
    DivisionBrackets(a, p, q);
  }

  lemma DivideBetween(a: nat, p: nat, lo: nat, hi: nat)
    requires p > 0 && lo * p <= a < (hi + 1) * p
    ensures lo <= a / p <= hi
  {
    var q := a / p;
    DivisionBrackets(a, p, q);
    if q < lo { MulLe(q + 1, lo, p); }
    if q > hi { MulLe(hi + 1, q, p); }
  }

  lemma Associate(a: nat, d: nat, m: nat)
    ensures (a * d) * m == a * (d * m)
  {
  }

  lemma WeightedBetween(sum: nat, d: nat, m: nat, p: nat, lo: nat, hi: nat)
    requires p > 0 && hi <= 255 && lo * d <= sum <= hi * d
    requires p <= d * m && 255 * (d * m - p) < p
    ensures lo * p <= sum * m < (hi + 1) * p
    ensures sum * m <= 255 * (d * m)
  {
    var t := d * m;
    MulLe(p, t, lo);
    Associate(lo, d, m);
    MulLe(lo * d, sum, m);
    MulLe(sum, hi * d, m);
    Associate(hi, d, m);
    MulLe(hi, 255, t);
    MulLe(hi, 255, t - p);
    assert hi * t == hi * p + hi * (t - p);
    assert (hi + 1) * p == hi * p + p;
  }

  /** A sum between lo and hi times the total weight comes out between lo and hi, and the 32-bit
      product does not wrap: the fast division never leaves the range of the pixels averaged. */
  lemma ReciprocalStaysBetween(sum: nat, r: nat, lo: nat, hi: nat)
    requires r < 255 && hi <= 255
    requires lo * ((r + 1) * (r + 1)) <= sum <= hi * ((r + 1) * (r + 1))
    ensures lo <= Reciprocal(sum, r) <= hi
    ensures sum * Mul(r) < UINT_RANGE
  {
    EveryRow(r);
    hide Mul, Shr, Shifted;
    var d, m, p := (r + 1) * (r + 1), Mul(r), Shifted(Shr(r));
    WeightedBetween(sum, d, m, p, lo, hi);
    DivideBetween(sum * m, p, lo, hi);
  }

  lemma QuotientBounds(sum: nat, d: nat, q: nat)
    requires d > 0 && q == sum / d && sum <= 255 * d
    ensures q * d <= sum <= (q + 1) * d && q <= 255
  {
    assert sum == q * d + sum % d;
    assert (q + 1) * d == q * d + d;
    if q > 255 { MulLe(256, q, d); }
  }

  /** For every sum that 8-bit pixels can produce, the result is the exact quotient or one more. */
  lemma ReciprocalIsQuotient(sum: nat, r: nat)
    requires r < 255 && sum <= 255 * ((r + 1) * (r + 1))
    ensures var q := sum / ((r + 1) * (r + 1)); q <= Reciprocal(sum, r) <= q + 1 && Reciprocal(sum, r) <= 255
  {
    hide Reciprocal;
    var d := (r + 1) * (r + 1);
    var q := sum / d;
    QuotientBounds(sum, d, q);
    ReciprocalStaysBetween(sum, r, q, if q < 255 then q + 1 else 255);
  }

  lemma {:induction false} Pow2Twice(k: nat)
    ensures Pow2(9 + 2 * k) == 512 * (Pow2(k) * Pow2(k))
  {
    if k == 0 {
      assert Pow2(9) == 512;
    } else {
      Pow2Twice(k - 1);
      var p := Pow2(k - 1);
      assert Pow2(9 + 2 * k) == 2 * Pow2(8 + 2 * k) && Pow2(8 + 2 * k) == 2 * Pow2(9 + 2 * (k - 1));
      assert (2 * p) * (2 * p) == 4 * (p * p);
    }
  }

  lemma CancelDivision(a: nat, d: nat, c: nat)
    requires d > 0 && c > 0
    ensures a * c / (c * d) == a / d
  {
    DivMod(a, d);
    var q, r := a / d, a % d;
    assert a * c == q * (c * d) + r * c by {
      assert (q * d + r) * c == q * d * c + r * c;
      assert q * d * c == q * (c * d);
    }
    MulLe(r + 1, d, c);
    assert (r + 1) * c == r * c + c;
    QuotientIs(a * c, c * d, q, r * c);
  }

  /** At the radii where r + 1 is a power of two the result is the exact quotient. */
  lemma PowerRadiusIsExact(sum: nat, r: nat, k: nat)
    requires r < 255 && r + 1 == Pow2(k)
    ensures Mul(r) == 512 && Reciprocal(sum, r) == sum / ((r + 1) * (r + 1))
  {
    var d := (r + 1) * (r + 1);
    Pow2Twice(k);
    Regroup(r + 1, 512);
    Regroup(r + 1, 511);
    TablesAreUnique(r, 512, 9 + 2 * k);
    ShiftedIsPow2(r);
    hide Mul, Shr, Shifted, Pow2;
    CancelDivision(sum, d, 512);
  }
}
