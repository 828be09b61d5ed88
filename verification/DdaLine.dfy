/** The integer interpolators of `agg_dda_line.h`: the forward- and backward-adjusted
    `dda2_line_interpolator`, and the pixel walk of `line_bresenham_interpolator`. */
module DdaLine {
  import opened Basics

  /** C division: the quotient is truncated toward zero. */
  function TruncDiv(a: int, b: int): int
    requires b > 0
  {
    if a >= 0 then a / b else -((-a) / b)
  }

  function TruncMod(a: int, b: int): int
    requires b > 0
  {
    a - b * TruncDiv(a, b)
  }

  // ----- dda2_line_interpolator -----

  /** The fields of `dda2_line_interpolator`. */
  datatype Dda = Dda(cnt: int, lft: int, rem: int, mod: int, y: int)

  function Next(s: Dda): Dda {
    var m := s.mod + s.rem;
    if m > 0 then s.(mod := m - s.cnt, y := s.y + s.lft + 1) else s.(mod := m, y := s.y + s.lft)
  }

  function Prev(s: Dda): Dda {
    if s.mod <= s.rem then s.(mod := s.mod + s.cnt - s.rem, y := s.y - 1 - s.lft)
    else s.(mod := s.mod - s.rem, y := s.y - s.lft)
  }

  function AdjustForward(s: Dda): Dda { s.(mod := s.mod - s.cnt) }

  function AdjustBackward(s: Dda): Dda { s.(mod := s.mod + s.cnt) }

  function Backward(y1: int, y2: int, count: int): Dda {
    var cnt := if count <= 0 then 1 else count;
    var rem := TruncMod(y2 - y1, cnt);
    if rem <= 0 then Dda(cnt, TruncDiv(y2 - y1, cnt) - 1, rem + count, rem + count, y1)
    else Dda(cnt, TruncDiv(y2 - y1, cnt), rem, rem, y1)
  }

  function Forward(y1: int, y2: int, count: int): Dda {
    var s := Backward(y1, y2, count);
    s.(mod := s.mod - count)
  }

  /** One step of `s` adds d / cnt on average: lft whole units and rem / cnt, with 1 <= rem <= cnt. */
  ghost predicate Slope(s: Dda, d: int) {
    s.cnt >= 1 && s.lft * s.cnt + s.rem == d && 1 <= s.rem <= s.cnt
  }

  /** With both adjustments around it, `--` undoes `++` everywhere on a forward line. */
  lemma AdjustedDecrementUndoes(s: Dda, d: int)
    requires Slope(s, d) && -s.cnt < s.mod <= 0
    ensures AdjustForward(Prev(AdjustBackward(Next(s)))) == s
  {
  }

  class Dda2LineInterpolator {
    var cnt: int
    var lft: int
    var rem: int
    var mod: int
    var y: int

    ghost function State(): Dda
      reads this
    {
      Dda(cnt, lft, rem, mod, y)
    }

    constructor ForwardAdjusted(y1: int, y2: int, count: int)
      ensures State() == Forward(y1, y2, count)
    {
      cnt := if count <= 0 then 1 else count;
      new;
      lft := TruncDiv(y2 - y1, cnt);
      rem := TruncMod(y2 - y1, cnt);
      mod := rem;
      y := y1;
      if mod <= 0 {
        mod := mod + count;
        rem := rem + count;
        lft := lft - 1;
      }
      mod := mod - count;
    }

    constructor BackwardAdjusted(y1: int, y2: int, count: int)
      ensures State() == Backward(y1, y2, count)
    {
      cnt := if count <= 0 then 1 else count;
      new;
      lft := TruncDiv(y2 - y1, cnt);
      rem := TruncMod(y2 - y1, cnt);
      mod := rem;
      y := y1;
      if mod <= 0 {
        mod := mod + count;
        rem := rem + count;
        lft := lft - 1;
      }
    }

    method Increment()
      modifies this
      ensures State() == Next(old(State()))
    {
      mod := mod + rem;
      y := y + lft;
      if mod > 0 {
        mod := mod - cnt;
        y := y + 1;
      }
    }

    method Decrement()
      modifies this
      ensures State() == Prev(old(State()))
    {
      if mod <= rem {
        mod := mod + cnt;
        y := y - 1;
      }
      mod := mod - rem;
      y := y - lft;
    }

    /** `adjust_backward`, `--`, `adjust_forward`: undoes the last `++` of a forward-adjusted line. */
    method StepBack(ghost before: Dda, ghost d: int)
      requires Slope(before, d) && -before.cnt < before.mod <= 0 && State() == Next(before)
      modifies this
      ensures State() == before
    {
      mod := mod + cnt;
      Decrement();
      mod := mod - cnt;
      AdjustedDecrementUndoes(before, d);
    }
  }

  /** Where a forward-adjusted line from y1 that rises d in cnt steps is after k steps. */
  ghost predicate ForwardAt(s: Dda, y1: int, d: int, k: nat) {
    && Slope(s, d) && -s.cnt < s.mod <= 0
    && s.cnt * (s.y - y1) + s.mod == k * d + s.rem - s.cnt
  }

  /** The same for a backward-adjusted line and k backward steps. */
  ghost predicate BackwardAt(s: Dda, y1: int, d: int, k: nat) {
    && Slope(s, d) && 0 < s.mod <= s.cnt
    && s.cnt * (s.y - y1) + s.mod == s.rem - k * d
  }

  lemma TruncParts(a: int, b: int)
    requires b > 0
    ensures -b < TruncMod(a, b) < b && TruncDiv(a, b) * b + TruncMod(a, b) == a
  {
    if a < 0 {
      var q := (-a) / b;
      assert -a == q * b + (-a) % b;
      assert b * TruncDiv(a, b) == -(q * b);
    } else {
      assert a == (a / b) * b + a % b;
    }
  }

  lemma StartsInPlace(y1: int, y2: int, count: int)
    requires count >= 1
    ensures ForwardAt(Forward(y1, y2, count), y1, y2 - y1, 0)
    ensures BackwardAt(Backward(y1, y2, count), y1, y2 - y1, 0)
  {
    var d := y2 - y1;
    TruncParts(d, count);
    var s := Backward(y1, y2, count);
    var q := TruncDiv(d, count);
    assert (q - 1) * count == q * count - count;
  }

  lemma NextKeeps(s: Dda, y1: int, d: int, k: nat)
    requires ForwardAt(s, y1, d, k)
    ensures ForwardAt(Next(s), y1, d, k + 1)
  {
    var t := Next(s);
    var up := t.y - s.y;
    assert s.cnt * (t.y - y1) == s.cnt * (s.y - y1) + s.cnt * up;
    assert s.cnt * (s.lft + 1) == s.lft * s.cnt + s.cnt;
    assert (k + 1) * d == k * d + d;
  }

  lemma PrevKeeps(s: Dda, y1: int, d: int, k: nat)
    requires BackwardAt(s, y1, d, k)
    ensures BackwardAt(Prev(s), y1, d, k + 1)
  {
    var t := Prev(s);
    var down := s.y - t.y;
    assert s.cnt * (t.y - y1) == s.cnt * (s.y - y1) - s.cnt * down;
    assert s.cnt * (s.lft + 1) == s.lft * s.cnt + s.cnt;
    assert (k + 1) * d == k * d + d;
  }

  function Steps(s: Dda, k: nat): Dda {
    if k == 0 then s else Next(Steps(s, k - 1))
  }

  function StepsBack(s: Dda, k: nat): Dda {
    if k == 0 then s else Prev(StepsBack(s, k - 1))
  }

  lemma {:induction false} StepsStay(y1: int, y2: int, count: int, k: nat)
    requires count >= 1
    ensures ForwardAt(Steps(Forward(y1, y2, count), k), y1, y2 - y1, k)
    ensures Steps(Forward(y1, y2, count), k).cnt == count
    ensures Steps(Forward(y1, y2, count), k).rem == Forward(y1, y2, count).rem
    ensures Steps(Forward(y1, y2, count), k).lft == Forward(y1, y2, count).lft
  {
    if k == 0 {
      StartsInPlace(y1, y2, count);
    } else {
      StepsStay(y1, y2, count, k - 1);
      NextKeeps(Steps(Forward(y1, y2, count), k - 1), y1, y2 - y1, k - 1);
    }
  }

  lemma {:induction false} StepsBackStay(y1: int, y2: int, count: int, k: nat)
    requires count >= 1
    ensures BackwardAt(StepsBack(Backward(y1, y2, count), k), y1, y2 - y1, k)
    ensures StepsBack(Backward(y1, y2, count), k).cnt == count
    ensures StepsBack(Backward(y1, y2, count), k).rem == Backward(y1, y2, count).rem
  {
    if k == 0 {
      StartsInPlace(y1, y2, count);
    } else {
      StepsBackStay(y1, y2, count, k - 1);
      PrevKeeps(StepsBack(Backward(y1, y2, count), k - 1), y1, y2 - y1, k - 1);
    }
  }

  lemma AtLeastOne(cnt: int, a: int, b: int)
    requires cnt >= 1 && a > b
    ensures cnt * a >= cnt * b + cnt
  {
    var e := a - b - 1;
    assert a == b + 1 + e;
    assert cnt * (b + 1 + e) == cnt * b + cnt + cnt * e;
  }

  /** Equal multiples of cnt up to remainders from one range of cnt values are equal. */
  lemma SameMultiple(cnt: int, a: int, b: int, u: int, v: int)
    requires cnt >= 1 && cnt * a + u == cnt * b + v && -cnt < u - v < cnt
    ensures a == b && u == v
  {
    if a > b { AtLeastOne(cnt, a, b); }
    if a < b { AtLeastOne(cnt, b, a); }
  }

  /** After k steps y is less than one unit away from the true line, after cnt steps it is on y2, and
      from there the pattern of steps repeats. */
  lemma ForwardLine(y1: int, y2: int, count: int, k: nat)
    requires count >= 1
    ensures var s := Steps(Forward(y1, y2, count), k);
            -count < count * (s.y - y1) - k * (y2 - y1) < count
    ensures Steps(Forward(y1, y2, count), count) == Forward(y1, y2, count).(y := y2)
  {
    StepsStay(y1, y2, count, k);
    StepsStay(y1, y2, count, count);
    StartsInPlace(y1, y2, count);
    var s := Steps(Forward(y1, y2, count), count);
    SameMultiple(count, s.y - y1, y2 - y1, s.mod, s.rem - count);
  }

  /** The backward-adjusted line runs the same way down, and reaches y1 - (y2 - y1). */
  lemma BackwardLine(y1: int, y2: int, count: int, k: nat)
    requires count >= 1
    ensures var s := StepsBack(Backward(y1, y2, count), k);
            -count < count * (s.y - y1) + k * (y2 - y1) < count
    ensures StepsBack(Backward(y1, y2, count), count).y == y1 - (y2 - y1)
  {
    StepsBackStay(y1, y2, count, k);
    StepsBackStay(y1, y2, count, count);
    var s := StepsBack(Backward(y1, y2, count), count);
    assert count * (y1 - y2) == -(count * (y2 - y1));
    SameMultiple(count, s.y - y1, y1 - y2, s.mod, s.rem);
  }

  /** Without them `--` undoes `++` exactly when the `++` carried. */
  lemma BareDecrementUndoes(s: Dda, d: int)
    requires Slope(s, d) && -s.cnt < s.mod <= 0
    ensures Prev(Next(s)) == s <==> s.mod + s.rem > 0
  {
  }

  /** Without steps to divide the line into, every step moves by one less than the whole difference. */
  lemma {:induction false} NoCount(y1: int, y2: int, count: int, k: nat)
    requires count <= 0
    ensures var s := Steps(Forward(y1, y2, count), k);
            s.y == y1 + k * (y2 - y1 - 1) && s.lft == y2 - y1 - 1 && s.cnt == 1 && s.rem == count && s.mod <= 0
  {
    if k == 0 {
      assert TruncDiv(y2 - y1, 1) == y2 - y1 && TruncMod(y2 - y1, 1) == 0;
    } else {
      NoCount(y1, y2, count, k - 1);
      assert k * (y2 - y1 - 1) == (k - 1) * (y2 - y1 - 1) + (y2 - y1 - 1);
      hide Forward;
    }
  }

  lemma OneInTwo(lft: int, rem: int)
    requires lft * 2 + rem == 1 && 1 <= rem <= 2
    ensures rem == 1
  {
  }

  /** A line that rises by 1 in 2 steps: its first step does not carry, and `--` does not undo it. */
  lemma BareDecrementFails()
    ensures Prev(Next(Forward(0, 1, 2))) != Forward(0, 1, 2)
  {
    hide TruncDiv, TruncMod, Forward, Backward, Next, Prev;
    var s := Forward(0, 1, 2);
    StepsStay(0, 1, 2, 0);
    assert s.cnt == 2 && ForwardAt(s, 0, 1, 0);
    OneInTwo(s.lft, s.rem);
    hide ForwardAt, Slope, Steps;
    BareDecrementUndoes(s, 1);
  }

  // ----- line_bresenham_interpolator -----

  const SUBPIXEL_SCALE := 256

  /** The pixel of a subpixel coordinate: an arithmetic shift right by 8. */
  function LineLr(v: int): int {
    v / SUBPIXEL_SCALE
  }

  datatype Walk = Walk(x1Lr: int, y1Lr: int, ver: bool, len: nat, inc: int, dda: Dda)

  function StartWalk(x1: int, y1: int, x2: int, y2: int): Walk {
    var dx, dy := Abs(LineLr(x2) - LineLr(x1)), Abs(LineLr(y2) - LineLr(y1));
    var ver := dx < dy;
    var len := if ver then dy else dx;
    var inc := if ver then (if y2 > y1 then 1 else -1) else (if x2 > x1 then 1 else -1);
    Walk(LineLr(x1), LineLr(y1), ver, len, inc, if ver then Forward(x1, x2, len) else Forward(y1, y2, len))
  }

  /** A walk steps along the axis on which the pixels are farther apart, along x if they are equally far, as often as
      they are apart and towards the second point. */
  lemma WalkFollowsMajorAxis(x1: int, y1: int, x2: int, y2: int)
    ensures var w := StartWalk(x1, y1, x2, y2);
            var dx, dy := x2 / 256 - x1 / 256, y2 / 256 - y1 / 256;
            && (w.ver <==> Abs(dx) < Abs(dy)) && w.len == (if Abs(dx) < Abs(dy) then Abs(dy) else Abs(dx))
            && (w.len > 0 ==> w.inc * w.len == if w.ver then dy else dx)
  {
    var w := StartWalk(x1, y1, x2, y2);
    var len: int := w.len;
    assert w.inc == 1 || w.inc == -1;
    assert 1 * len == len && -1 * len == -len;
  }

  /** `hstep` for a line that is not steep, `vstep` for one that is. */
  function Step(w: Walk): Walk {
    if w.ver then w.(dda := Next(w.dda), y1Lr := w.y1Lr + w.inc)
    else w.(dda := Next(w.dda), x1Lr := w.x1Lr + w.inc)
  }

  /** The pixel a walk is on: the stepped coordinate and the interpolated one. */
  function PixelX(w: Walk): int { if w.ver then LineLr(w.dda.y) else w.x1Lr }

  function PixelY(w: Walk): int { if w.ver then w.y1Lr else LineLr(w.dda.y) }

  function WalkSteps(w: Walk, k: nat): Walk {
    if k == 0 then w else Step(WalkSteps(w, k - 1))
  }

  class LineBresenhamInterpolator {
    var x1Lr: int
    var y1Lr: int
    const x2Lr: int
    const y2Lr: int
    const ver: bool
    const len: nat
    const inc: int
    const interpolator: Dda2LineInterpolator

    ghost function State(): Walk
      reads this, interpolator
    {
      Walk(x1Lr, y1Lr, ver, len, inc, interpolator.State())
    }

    constructor (x1: int, y1: int, x2: int, y2: int)
      ensures State() == StartWalk(x1, y1, x2, y2) && fresh(interpolator)
      ensures x2Lr == LineLr(x2) && y2Lr == LineLr(y2)
    {
      x1Lr, y1Lr, x2Lr, y2Lr := LineLr(x1), LineLr(y1), LineLr(x2), LineLr(y2);
      var dx, dy := Abs(LineLr(x2) - LineLr(x1)), Abs(LineLr(y2) - LineLr(y1));
      var steep := dx < dy;
      var steps: nat := if steep then dy else dx;
      ver := steep;
      len := steps;
      inc := if steep then (if y2 > y1 then 1 else -1) else (if x2 > x1 then 1 else -1);
      interpolator := new Dda2LineInterpolator.ForwardAdjusted(
        if steep then x1 else y1, if steep then x2 else y2, steps);
    }

    method HStep()
      requires !ver
      modifies this, interpolator
      ensures State() == Step(old(State()))
    {
      interpolator.Increment();
      x1Lr := x1Lr + inc;
    }

    method VStep()
      requires ver
      modifies this, interpolator
      ensures State() == Step(old(State()))
    {
      interpolator.Increment();
      y1Lr := y1Lr + inc;
    }
  }

  lemma {:induction false} WalkParts(w: Walk, k: nat)
    ensures var v := WalkSteps(w, k);
            && v.ver == w.ver && v.inc == w.inc && v.dda == Steps(w.dda, k)
            && (w.ver ==> v.x1Lr == w.x1Lr && v.y1Lr == w.y1Lr + k * w.inc)
            && (!w.ver ==> v.y1Lr == w.y1Lr && v.x1Lr == w.x1Lr + k * w.inc)
  {
    if k > 0 { WalkParts(w, k - 1); }
  }

  lemma StepsByInc(a: int, b: int, n: nat)
    requires n == Abs(LineLr(b) - LineLr(a))
    ensures LineLr(a) + n * (if b > a then 1 else -1) == LineLr(b)
  {
  }

  /** A walk starts on the pixel of its first point, and `len` steps later is on the pixel of its
      last point; when it takes any step the interpolated coordinate ends exactly on the far one. */
  lemma WalkLands(x1: int, y1: int, x2: int, y2: int)
    ensures var w := StartWalk(x1, y1, x2, y2);
            var v := WalkSteps(w, w.len);
            && PixelX(w) == x1 / 256 && PixelY(w) == y1 / 256
            && PixelX(v) == x2 / 256 && PixelY(v) == y2 / 256
            && (w.len >= 1 ==> v.dda.y == if w.ver then x2 else y2)
  {
    var w := StartWalk(x1, y1, x2, y2);
    WalkParts(w, w.len);
    StepsByInc(if w.ver then y1 else x1, if w.ver then y2 else x2, w.len);
    if w.len >= 1 {
      ForwardLine(if w.ver then x1 else y1, if w.ver then x2 else y2, w.len, 0);
    }
  }

  // ----- 8-connectedness -----

  lemma SmallStep(y: int, z: int)
    requires -SUBPIXEL_SCALE <= z - y <= SUBPIXEL_SCALE
    ensures Abs(LineLr(z) - LineLr(y)) <= 1
  {
  }

  lemma LargeStep(y: int, z: int)
    ensures z - y >= SUBPIXEL_SCALE ==> LineLr(z) - LineLr(y) >= 1
    ensures z - y <= -SUBPIXEL_SCALE ==> LineLr(z) - LineLr(y) <= -1
  {
  }

  /** Every step is lft or lft + 1, and always lft + 1 when the line rises by a whole amount per step. */
  lemma StepSize(a: int, b: int, n: nat, k: nat)
    requires n >= 1
    ensures var s := Forward(a, b, n);
            var d := Steps(s, k + 1).y - Steps(s, k).y;
            && Slope(s, b - a) && (d == s.lft || d == s.lft + 1) && (s.rem == n ==> d == s.lft + 1)
  {
    StepsStay(a, b, n, k);
    StartsInPlace(a, b, n);
  }

  /** Either every step moves by at most a pixel, or every step moves at least a pixel the same way. */
  lemma StepKinds(n: nat, d: int, lft: int, rem: int)
    requires n >= 1 && lft * n + rem == d && 1 <= rem <= n
    ensures d <= 256 * n ==> lft + 1 <= 256
    ensures d > 256 * n ==> lft >= 256
    ensures d >= -256 * n ==> lft >= -256 || (lft == -257 && rem == n)
    ensures d < -256 * n ==> lft + 1 <= -256
  {
    if d <= 256 * n && lft >= 256 { MulLe(256, lft, n); }
    if d > 256 * n && lft <= 255 { MulLe(lft, 255, n); }
    if d >= -256 * n && lft <= -258 { MulLe(lft, -258, n); }
    if d < -256 * n && lft >= -256 { MulLe(-256, lft, n); }
  }

  /** When every step moves at least a pixel the same way, n steps move at least n pixels. */
  lemma {:induction false} LargeStepsAdd(a: int, b: int, n: nat, i: nat, j: nat)
    requires n >= 1 && i <= j
    ensures Forward(a, b, n).lft >= SUBPIXEL_SCALE ==>
              LineLr(Steps(Forward(a, b, n), j).y) - LineLr(Steps(Forward(a, b, n), i).y) >= j - i
    ensures Forward(a, b, n).lft + 1 <= -SUBPIXEL_SCALE ==>
              LineLr(Steps(Forward(a, b, n), j).y) - LineLr(Steps(Forward(a, b, n), i).y) <= i - j
    decreases j
  {
    if i < j {
      LargeStepsAdd(a, b, n, i, j - 1);
      StepSize(a, b, n, j - 1);
      LargeStep(Steps(Forward(a, b, n), j - 1).y, Steps(Forward(a, b, n), j).y);
    }
  }

  /** The interpolated pixel changes by at most one per step whenever the whole line moves it by no
      more pixels than there are steps. */
  lemma MinorConnected(a: int, b: int, n: nat, k: nat)
    requires n >= 1 && k < n && Abs(LineLr(b) - LineLr(a)) <= n
    ensures Abs(LineLr(Steps(Forward(a, b, n), k + 1).y) - LineLr(Steps(Forward(a, b, n), k).y)) <= 1
  {
    var s := Forward(a, b, n);
    var y, z := Steps(s, k).y, Steps(s, k + 1).y;
    StepSize(a, b, n, k);
    StepKinds(n, b - a, s.lft, s.rem);
    if -256 * n <= b - a <= 256 * n {
      SmallStep(y, z);
    } else {
      ForwardLine(a, b, n, k);
      LargeStepsAdd(a, b, n, 0, k);
      LargeStepsAdd(a, b, n, k, k + 1);
      LargeStepsAdd(a, b, n, k + 1, n);
      assert Steps(s, n).y == b && Steps(s, 0).y == a;
    }
  }

  /** The walk is 8-connected: each step moves the major pixel by exactly one, in one direction, and
      the minor pixel by at most one. */
  lemma WalkConnected(x1: int, y1: int, x2: int, y2: int, k: nat)
    requires k < StartWalk(x1, y1, x2, y2).len
    ensures var w := StartWalk(x1, y1, x2, y2);
            var u, v := WalkSteps(w, k), WalkSteps(w, k + 1);
            && (w.ver ==> PixelY(v) == PixelY(u) + w.inc && Abs(PixelX(v) - PixelX(u)) <= 1)
            && (!w.ver ==> PixelX(v) == PixelX(u) + w.inc && Abs(PixelY(v) - PixelY(u)) <= 1)
            && (w.inc == 1 || w.inc == -1)
  {
    var w := StartWalk(x1, y1, x2, y2);
    WalkParts(w, k);
    WalkParts(w, k + 1);
    MinorConnected(if w.ver then x1 else y1, if w.ver then x2 else y2, w.len, k);
  }
}
