/** The quarter-ellipse walk of `agg_ellipse_bresenham.h`. */
module EllipseBresenham {
  import opened Basics

  /** The ellipse form at (x, y), measured from its value at the start (0, -ry): zero on the ellipse. */
  function Form(rx: int, ry: int, x: int, y: int): int {
    ry * ry * (x * x) + rx * rx * (y * y) - rx * rx * (ry * ry)
  }

  /** The fields of `ellipse_bresenham_interpolator`; dx and dy are its last step. */
  datatype Walk = Walk(dx: int, dy: int, incX: int, incY: int, curF: int)

  function Start(rx: int, ry: int): Walk {
    Walk(0, 0, 0, -ry * (2 * (rx * rx)), 0)
  }

  /** The error term is the form at (x, y), and the increments are its slopes there. */
  ghost predicate StandsAt(w: Walk, rx: int, ry: int, x: int, y: int) {
    && w.curF == Form(rx, ry, x, y)
    && w.incX == 2 * (ry * ry) * x
    && w.incY == 2 * (rx * rx) * y
  }

  lemma Square(a: int, x: int)
    ensures a * ((x + 1) * (x + 1)) == a * (x * x) + 2 * a * x + a
  {
    assert (x + 1) * (x + 1) == x * x + 2 * x + 1;
  }

  lemma Neighbours(rx: int, ry: int, x: int, y: int)
    ensures Form(rx, ry, x + 1, y) == Form(rx, ry, x, y) + 2 * (ry * ry) * x + ry * ry
    ensures Form(rx, ry, x, y + 1) == Form(rx, ry, x, y) + 2 * (rx * rx) * y + rx * rx
    ensures Form(rx, ry, x + 1, y + 1)
         == Form(rx, ry, x, y) + 2 * (ry * ry) * x + ry * ry + 2 * (rx * rx) * y + rx * rx
    ensures 2 * (ry * ry) * (x + 1) == 2 * (ry * ry) * x + 2 * (ry * ry)
    ensures 2 * (rx * rx) * (y + 1) == 2 * (rx * rx) * y + 2 * (rx * rx)
  {
    Square(ry * ry, x);
    Square(rx * rx, y);
  }

  /** The choice of the next step as a function of the state. */
  function Next(w: Walk, rx: int, ry: int): Walk {
    var fx, fy := w.curF + w.incX + ry * ry, w.curF + w.incY + rx * rx;
    var fxy := fx + w.incY + rx * rx;
    var least := if Abs(fx) > Abs(fy) then Abs(fy) else Abs(fx);
    if least > Abs(fxy) then Walk(1, 1, w.incX + 2 * (ry * ry), w.incY + 2 * (rx * rx), fxy)
    else if Abs(fx) <= Abs(fy) then Walk(1, 0, w.incX + 2 * (ry * ry), w.incY, fx)
    else Walk(0, 1, w.incX, w.incY + 2 * (rx * rx), fy)
  }

  /** Which neighbour: the diagonal one if it is strictly better than both others, and otherwise the better one of
      these, or the one to the right if they are equally good. */
  lemma NextChoice(w: Walk, rx: int, ry: int, x: int, y: int)
    requires StandsAt(w, rx, ry, x, y)
    ensures var right, down := Abs(Form(rx, ry, x + 1, y)), Abs(Form(rx, ry, x, y + 1));
            var diagonal, next := Abs(Form(rx, ry, x + 1, y + 1)), Next(w, rx, ry);
            (next.dx, next.dy) == if diagonal < right && diagonal < down then (1, 1)
                                  else if right <= down then (1, 0)
                                  else (0, 1)
  {
    Neighbours(rx, ry, x, y);
    hide Form, Abs;
  }

  class EllipseBresenhamInterpolator {
    const rx2: int
    const ry2: int
    const twoRx2: int
    const twoRy2: int
    var dx: int
    var dy: int
    var incX: int
    var incY: int
    var curF: int

    ghost function State(): Walk
      reads this
    {
      Walk(dx, dy, incX, incY, curF)
    }

    ghost predicate Valid(rx: int, ry: int) {
      rx2 == rx * rx && ry2 == ry * ry && twoRx2 == 2 * rx2 && twoRy2 == 2 * ry2
    }

    constructor (rx: int, ry: int)
      ensures Valid(rx, ry) && State() == Start(rx, ry)
    {
      rx2, ry2 := rx * rx, ry * ry;
      twoRx2, twoRy2 := 2 * (rx * rx), 2 * (ry * ry);
      dx, dy, incX := 0, 0, 0;
      incY := -ry * (2 * (rx * rx));
      curF := 0;
    }

    /** `++`, from a state that stands at (x, y): the form is exact again at the new point, and of the
        three neighbours right, below and diagonal the new point has the least absolute error. */
    method Increment(ghost rx: int, ghost ry: int, ghost x: int, ghost y: int)
      requires Valid(rx, ry) && StandsAt(State(), rx, ry, x, y)
      modifies this
      ensures StandsAt(State(), rx, ry, x + dx, y + dy)
      ensures (dx, dy) in {(1, 0), (0, 1), (1, 1)}
      ensures Abs(curF) <= Abs(Form(rx, ry, x + 1, y))
      ensures Abs(curF) <= Abs(Form(rx, ry, x, y + 1))
      ensures Abs(curF) <= Abs(Form(rx, ry, x + 1, y + 1))
      ensures State() == Next(old(State()), rx, ry)
    {
      Neighbours(rx, ry, x, y);
      var fx := curF + incX + ry2;
      var mx := if fx < 0 then -fx else fx;
      var fy := curF + incY + rx2;
      var my := if fy < 0 then -fy else fy;
      var fxy := curF + incX + ry2 + incY + rx2;
      var mxy := if fxy < 0 then -fxy else fxy;
      var minM, flag := mx, true;
      if minM > my {
        minM, flag := my, false;
      }
      dx, dy := 0, 0;
      if minM > mxy {
        incX := incX + twoRy2;
        incY := incY + twoRx2;
        curF := fxy;
        dx, dy := 1, 1;
      } else if flag {
        incX := incX + twoRy2;
        curF := fx;
        dx := 1;
      } else {
        incY := incY + twoRx2;
        curF := fy;
        dy := 1;
      }
    }
  }

  function Run(rx: int, ry: int, k: nat): Walk {
    if k == 0 then Start(rx, ry) else Next(Run(rx, ry, k - 1), rx, ry)
  }

  function X(rx: int, ry: int, k: nat): int {
    if k == 0 then 0 else X(rx, ry, k - 1) + Run(rx, ry, k).dx
  }

  function Y(rx: int, ry: int, k: nat): int {
    if k == 0 then -ry else Y(rx, ry, k - 1) + Run(rx, ry, k).dy
  }

  lemma StartStands(rx: int, ry: int)
    ensures StandsAt(Start(rx, ry), rx, ry, 0, -ry)
  {
    assert (-ry) * (-ry) == ry * ry;
    assert -ry * (2 * (rx * rx)) == 2 * (rx * rx) * -ry;
  }

  lemma NextStands(w: Walk, rx: int, ry: int, x: int, y: int)
    requires StandsAt(w, rx, ry, x, y)
    ensures var v := Next(w, rx, ry);
            && StandsAt(v, rx, ry, x + v.dx, y + v.dy)
            && Abs(v.curF) <= Abs(Form(rx, ry, x + 1, y))
            && Abs(v.curF) <= Abs(Form(rx, ry, x, y + 1))
            && Abs(v.curF) <= Abs(Form(rx, ry, x + 1, y + 1))
  {
    Neighbours(rx, ry, x, y);
    hide Form;
  }

  /** Over every run the error term is exact: it never drifts from the form at the current point. */
  lemma {:induction false} RunStandsExactly(rx: int, ry: int, k: nat)
    ensures StandsAt(Run(rx, ry, k), rx, ry, X(rx, ry, k), Y(rx, ry, k))
    ensures k > 0 ==> var (x, y) := (X(rx, ry, k - 1), Y(rx, ry, k - 1));
                      && Abs(Run(rx, ry, k).curF) <= Abs(Form(rx, ry, x + 1, y))
                      && Abs(Run(rx, ry, k).curF) <= Abs(Form(rx, ry, x, y + 1))
                      && Abs(Run(rx, ry, k).curF) <= Abs(Form(rx, ry, x + 1, y + 1))
  {
    hide Form, StandsAt, Next;
    if k == 0 {
      StartStands(rx, ry);
    } else {
      RunStandsExactly(rx, ry, k - 1);
      NextStands(Run(rx, ry, k - 1), rx, ry, X(rx, ry, k - 1), Y(rx, ry, k - 1));
    }
  }

  // ----- Where the walk goes -----

  /** Half the sum of the two steepest changes of the form in the quarter, doubled. */
  function Slopes(rx: int, ry: int): int {
    2 * (ry * ry) * rx + ry * ry + 2 * (rx * rx) * ry - rx * rx
  }

  /** The point is in the quarter, and the form there is at most half of `Slopes` from zero. */
  ghost predicate InQuarter(rx: int, ry: int, x: int, y: int) {
    0 <= x <= rx && -ry <= y <= 0 && 2 * Abs(Form(rx, ry, x, y)) <= Slopes(rx, ry)
  }

  // The same with the squares as numbers of their own.
  lemma SizesLinearly(p: nat, q: nat, x: int, y: int, rx: int, ry: int)
    requires 0 <= x <= rx && -ry <= y < 0
    ensures 0 <= 2 * p * x + p && 0 <= -(2 * q * y + q)
    ensures 2 * p * x + p - (2 * q * y + q) <= 2 * p * rx + p + 2 * q * ry - q
    ensures p >= 1 ==> 2 * p * x + p > 0
  {
    MulLe(x, rx, 2 * p);
    MulLe(0, x, 2 * p);
    MulLe(-ry, y, 2 * q);
    MulLe(y, -1, 2 * q);
  }

  lemma NonNegativeSquare(a: int)
    ensures a * a >= 0 && (a >= 1 ==> a * a >= 1)
  {
  }

  // The changes of the form to the right and downwards.
  lemma StepSizes(rx: int, ry: int, x: int, y: int)
    requires 0 <= x <= rx && -ry <= y < 0
    ensures var a, b := Form(rx, ry, x + 1, y) - Form(rx, ry, x, y), Form(rx, ry, x, y) - Form(rx, ry, x, y + 1);
            && 0 <= a && 0 <= b && a + b <= Slopes(rx, ry)
            && Form(rx, ry, x + 1, y + 1) == Form(rx, ry, x, y) + a - b
            && (ry >= 1 ==> a > 0)
  {
    Neighbours(rx, ry, x, y);
    NonNegativeSquare(rx);
    NonNegativeSquare(ry);
    SizesLinearly(ry * ry, rx * rx, x, y, rx, ry);
    hide Form;
  }

  // On the right edge of the quarter the form is not negative.
  lemma EdgeForm(rx: int, ry: int, y: int)
    ensures Form(rx, ry, rx, y) == rx * rx * (y * y) && Form(rx, ry, rx, y) >= 0
  {
    NonNegativeSquare(rx);
    NonNegativeSquare(y);
    MulLe(0, rx * rx, y * y);
    assert ry * ry * (rx * rx) == rx * rx * (ry * ry);
  }

  lemma StepStaysInQuarter(w: Walk, rx: int, ry: int, x: int, y: int)
    requires rx >= 1 && ry >= 1 && StandsAt(w, rx, ry, x, y) && InQuarter(rx, ry, x, y) && y < 0
    ensures var v := Next(w, rx, ry);
            && v.dx >= 0 && v.dy >= 0 && v.dx + v.dy >= 1
            && InQuarter(rx, ry, x + v.dx, y + v.dy)
  {
    NextStands(w, rx, ry, x, y);
    StepSizes(rx, ry, x, y);
    Neighbours(rx, ry, x, y);
    if x == rx { EdgeForm(rx, ry, y + 1); }
    hide Form, Slopes;
  }

  lemma YGrows(rx: int, ry: int, k: nat)
    requires k > 0
    ensures Y(rx, ry, k - 1) <= Y(rx, ry, k)
  {
  }

  lemma StartInQuarter(rx: int, ry: int)
    requires rx >= 1 && ry >= 1
    ensures InQuarter(rx, ry, 0, -ry)
  {
    assert (-ry) * (-ry) == ry * ry;
    StepSizes(rx, ry, 0, -ry);
  }

  /** As long as the walk is above the axis, it stays in the quarter, close to the ellipse, and gets on. */
  lemma {:induction false} RunStaysInQuarter(rx: int, ry: int, k: nat)
    requires rx >= 1 && ry >= 1 && (k > 0 ==> Y(rx, ry, k - 1) < 0)
    ensures InQuarter(rx, ry, X(rx, ry, k), Y(rx, ry, k)) && X(rx, ry, k) + Y(rx, ry, k) + ry >= k
    ensures k > 0 ==> Y(rx, ry, k - 1) <= Y(rx, ry, k)
  {
    hide Form, StandsAt, Next, Slopes;
    if k == 0 {
      StartInQuarter(rx, ry);
    } else {
      var j := k - 1;
      if j > 0 && Y(rx, ry, j - 1) >= 0 {
        YGrows(rx, ry, j);
      }
      RunStaysInQuarter(rx, ry, j);
      RunStandsExactly(rx, ry, j);
      StepStaysInQuarter(Run(rx, ry, j), rx, ry, X(rx, ry, j), Y(rx, ry, j));
    }
  }

  lemma QuarterBounds(rx: int, ry: int, x: int, y: int)
    requires InQuarter(rx, ry, x, y)
    ensures 0 <= x <= rx && -ry <= y <= 0
  {
  }

  /** The whole quarter: after at most rx + ry steps the walk is on the axis for the first time, and until then it
      has stayed between 0 and rx to the right and between -ry and 0 down, with the form never farther from zero than
      half the sum of its two steepest changes. */
  lemma ReachesAxis(rx: int, ry: int) returns (k: nat)
    requires rx >= 1 && ry >= 1
    ensures 1 <= k <= rx + ry && Y(rx, ry, k) == 0
    ensures forall j: nat :: j < k ==> Y(rx, ry, j) < 0
    ensures forall j: nat :: j <= k ==> InQuarter(rx, ry, X(rx, ry, j), Y(rx, ry, j))
  {
    hide Form, InQuarter, Slopes, Run;
    k := 0;
    RunStaysInQuarter(rx, ry, 0);
    while Y(rx, ry, k) < 0
      invariant k <= rx + ry && X(rx, ry, k) + Y(rx, ry, k) + ry >= k
      invariant forall j: nat :: j < k ==> Y(rx, ry, j) < 0
      invariant forall j: nat :: j <= k ==> InQuarter(rx, ry, X(rx, ry, j), Y(rx, ry, j))
      decreases rx + ry - k
    {
      QuarterBounds(rx, ry, X(rx, ry, k), Y(rx, ry, k));
      RunStaysInQuarter(rx, ry, k + 1);
      k := k + 1;
    }
    QuarterBounds(rx, ry, X(rx, ry, k), Y(rx, ry, k));
  }
}
