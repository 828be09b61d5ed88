/** Options, and the arithmetic that several modules share. */
module Basics {

  datatype Option<+T> = None | Some(value: T)

  const UINT_RANGE := 0x1_0000_0000

  function Abs(v: int): nat {
    if v < 0 then -v else v
  }

  function Min(a: nat, b: nat): nat {
    if a < b then a else b
  }

  function Pow2(k: nat): (p: nat)
    ensures p >= 1
  {
    if k == 0 then 1 else 2 * Pow2(k - 1)
  }

  lemma {:induction false} Pow2Monotone(j: nat, k: nat)
    requires j <= k
    ensures Pow2(j) <= Pow2(k)
    decreases k
  {
    if j < k { Pow2Monotone(j, k - 1); }
  }

  lemma MulLe(x: int, y: int, c: nat)
    requires x <= y
    ensures x * c <= y * c
  {
  }

  lemma MulNext(x: int, c: int)
    ensures (x + 1) * c == x * c + c
  {
  }

  lemma DivMod(x: nat, c: nat)
    requires c >= 1
    ensures x == x / c * c + x % c && x % c < c
  {
  }

  lemma QuotientIs(x: nat, c: nat, q: nat, r: nat)
    requires c >= 1 && x == q * c + r && r < c
    ensures x / c == q
  {
    var p := x / c;
    DivMod(x, c);
    MulNext(q, c);
    MulNext(p, c);
    if p > q { MulLe(q + 1, p, c); }
    if p < q { MulLe(p + 1, q, c); }
  }

  lemma RemainderIs(x: nat, c: nat, q: nat, r: nat)
    requires c >= 1 && x == q * c + r && r < c
    ensures x % c == r
  {
    QuotientIs(x, c, q, r);
    DivMod(x, c);
  }
}
