/** The path-closing converter of `agg_conv_close_polygon.h`, over the path commands of `agg_basics.h`:
    a stream transducer that puts a closing command after every subpath that draws something. */
module ClosePolygon {
  import opened PathCommands

  lemma ClosingKeepsEndPoly(c: Cmd)
    requires IsEndPoly(c)
    ensures IsEndPoly(c | FLAG_CLOSE) && IsClosed(c | FLAG_CLOSE)
    ensures (c | FLAG_CLOSE) & !FLAG_CLOSE == c & !FLAG_CLOSE
  {}

  // What a consumer sees: only vertices carry coordinates.
  function Seen(v: Vertex): Vertex {
    if KindOf(v.cmd) in {Move, Draw} then v else Vertex(v.cmd, 0.0, 0.0)
  }

  function Closing(v: Vertex): Vertex { Vertex(v.cmd | FLAG_CLOSE, 0.0, 0.0) }

  const CLOSE := Vertex(END_POLY | FLAG_CLOSE, 0.0, 0.0)

  /** The stream the converter produces from a source, before the stops that then repeat forever.
      `open`: the current subpath has drawn something and has not been closed by the converter. */
  function Closed(src: seq<Vertex>, open: bool): (out: seq<Vertex>)
  {
    if src == [] then if open then [CLOSE, LAST] else []
    else
      var close := if open then [CLOSE] else [];
      match KindOf(src[0].cmd)
      case End => [Closing(src[0])] + Closed(src[1..], open)
      case Stop => close + [LAST] + Closed(src[1..], false)
      case Move => close + [src[0]] + Closed(src[1..], false)
      case Draw => [src[0]] + Closed(src[1..], true)
      case Odd => Closed(src[1..], open)
  }

  lemma Kinds()
    ensures KindOf(CLOSE.cmd) == End && KindOf(LAST.cmd) == Stop
    ensures forall v: Vertex :: KindOf(v.cmd) == End ==> KindOf(Closing(v).cmd) == End
  {
    forall v: Vertex | KindOf(v.cmd) == End ensures KindOf(Closing(v).cmd) == End {
      ClosingKeepsEndPoly(v.cmd);
    }
  }

  class CloseConverter {
    const source: seq<Vertex>
    var position: nat
    const slots: array<Vertex>
    var next: nat
    var lineTo: bool

    ghost predicate Valid()
      reads this, slots
    {
      && slots.Length == 2
      && position <= |source|
      && next <= 2
      && (next < 2 ==> !lineTo && KindOf(slots[1].cmd) in {Stop, Move})
      && (next == 0 ==> slots[0].cmd == CLOSE.cmd)
    }

    /** Everything still to come out. */
    ghost function Remaining(): (out: seq<Vertex>)
      requires Valid()
      reads this, slots
    {
      var rest := Closed(source[position..], lineTo);
      if next == 0 then [CLOSE, Seen(slots[1])] + rest
      else if next == 1 then [Seen(slots[1])] + rest
      else rest
    }

    constructor (source: seq<Vertex>)
      ensures Valid() && this.source == source && Remaining() == Closed(source, false) && fresh(slots)
    {
      this.source := source;
      slots := new Vertex[2](_ => LAST);
      position, next, lineTo := 0, 2, false;
    }

    method Rewind()
      requires Valid()
      modifies this
      ensures Valid() && Remaining() == Closed(source, false)
    {
      position, next, lineTo := 0, 2, false;
    }

    // The source: its vertices in order, then stops forever.
    method SourceVertex() returns (v: Vertex)
      requires Valid()
      modifies this`position
      ensures Valid()
      ensures if old(position) < |source| then v == source[old(position)] && position == old(position) + 1
              else v == LAST && position == old(position)
    {
      if position < |source| {
        v, position := source[position], position + 1;
      } else {
        v := LAST;
      }
    }

    /** One command of the closed stream; afterwards the rest of the stream is still to come. */
    method NextVertex() returns (v: Vertex)
      requires Valid()
      modifies this, slots
      ensures Valid()
      ensures Seen(v) == First(old(Remaining())) && Remaining() == Rest(old(Remaining()))
    {
      ghost var todo := Remaining();
      var done := false;
      v := LAST;
      while !done
        invariant Valid()
        invariant if done then Seen(v) == First(todo) && Remaining() == Rest(todo) else Remaining() == todo
        decreases !done, |source| - position, lineTo
      {
        if next < 2 {
          v, next, done := slots[next], next + 1, true;
        } else {
          v, done := Take();
        }
      }
    }

    /** Takes one source command. It is passed on at once, or swallowed, or it waits in the second slot
        behind a closing command. */
    method Take() returns (v: Vertex, done: bool)
      requires Valid() && next == 2
      modifies this, slots
      ensures Valid()
      ensures if done then Seen(v) == First(old(Remaining())) && Remaining() == Rest(old(Remaining()))
              else Remaining() == old(Remaining())
      ensures !done ==> old(position) < position || (old(position) == position && old(lineTo) && !lineTo)
    {
      hide KindOf;
      Kinds();
      ghost var before, open := source[position..], lineTo;
      v := SourceVertex();
      KindTests(v.cmd);
      ghost var after := source[position..];
      if before != [] {
        assert before[0] == v && before[1..] == after;
        ClosedStep(before, open);
      } else {
        assert after == [] && Closed([], false) == [] && Closed([], true) == [CLOSE, LAST];
      }
      hide Closed;
      done := true;
      if IsEndPoly(v.cmd) {
        assert KindOf(Closing(v).cmd) == End;
        v := v.(cmd := v.cmd | FLAG_CLOSE);
      } else if IsStop(v.cmd) {
        if lineTo {
          QueueClose(slots[0].x, slots[0].y, slots[1].(cmd := STOP));
          done := false;
        }
      } else if IsMoveTo(v.cmd) {
        if lineTo {
          QueueClose(0.0, 0.0, v);
          done := false;
        }
      } else if IsVertex(v.cmd) {
        lineTo := true;
      } else {
        done := false;
      }
    }

    // Puts a closing command and one command after it into the two slots.
    method QueueClose(x: real, y: real, after: Vertex)
      requires slots.Length == 2
      modifies this, slots
      ensures slots[0] == Vertex(END_POLY | FLAG_CLOSE, x, y) && slots[1] == after
      ensures next == 0 && !lineTo && position == old(position)
    {
      slots[0], slots[1] := Vertex(END_POLY | FLAG_CLOSE, x, y), after;
      next, lineTo := 0, false;
    }
  }

  // ---- What the closed stream keeps

  // The converter's state after a source command.
  function After(kind: Kind, open: bool): bool {
    match kind
    case Draw => true
    case End | Odd => open
    case _ => false
  }

  function Vertices(s: seq<Vertex>): seq<Vertex> {
    if s == [] then [] else (if IsVertex(s[0].cmd) then [s[0]] else []) + Vertices(s[1..])
  }

  // What the converter puts out for a source command before it takes the next one.
  function Emitted(v: Vertex, open: bool): seq<Vertex> {
    match KindOf(v.cmd)
    case End => [Closing(v)]
    case Draw => [v]
    case Odd => []
    case Move => if open then [CLOSE, v] else [v]
    case Stop => if open then [CLOSE, LAST] else [LAST]
  }

  lemma ClosedStep(src: seq<Vertex>, open: bool)
    requires src != []
    ensures Closed(src, open) == Emitted(src[0], open) + Closed(src[1..], After(KindOf(src[0].cmd), open))
  {
    hide KindOf;
    var close := if open then [CLOSE] else [];
    match KindOf(src[0].cmd)
    case End =>
    case Stop => assert close + [LAST] == Emitted(src[0], open);
    case Move => assert close + [src[0]] == Emitted(src[0], open);
    case Draw =>
    case Odd => assert [] + Closed(src[1..], open) == Closed(src[1..], open);
  }

  lemma {:induction false} VerticesConcat(a: seq<Vertex>, b: seq<Vertex>)
    ensures Vertices(a + b) == Vertices(a) + Vertices(b)
  {
    hide IsVertex;
    if a == [] {
      assert a + b == b;
    } else {
      VerticesConcat(a[1..], b);
      var first := if IsVertex(a[0].cmd) then [a[0]] else [];
      assert (a + b)[0] == a[0] && (a + b)[1..] == a[1..] + b;
      assert first + (Vertices(a[1..]) + Vertices(b)) == first + Vertices(a[1..]) + Vertices(b);
    }
  }

  lemma VerticesOfTwo(a: Vertex, b: Vertex)
    ensures Vertices([]) == []
    ensures Vertices([a]) == if IsVertex(a.cmd) then [a] else []
    ensures Vertices([b]) == if IsVertex(b.cmd) then [b] else []
    ensures Vertices([a, b]) == Vertices([a]) + Vertices([b])
  {
    hide IsVertex;
    assert [a][1..] == [] && [b][1..] == [] && [a, b][1..] == [b];
  }

  lemma EmittedVertices(v: Vertex, open: bool)
    ensures Vertices(Emitted(v, open)) == if IsVertex(v.cmd) then [v] else []
  {
    hide KindOf, IsVertex;
    Kinds();
    KindIsVertex(v.cmd);
    KindIsVertex(CLOSE.cmd);
    KindIsVertex(LAST.cmd);
    KindIsVertex(Closing(v).cmd);
    VerticesOfTwo(CLOSE, v);
    VerticesOfTwo(CLOSE, LAST);
    VerticesOfTwo(Closing(v), v);
  }

  /** Without its closing commands and stops the stream is the source's vertices, in order. */
  lemma {:induction false} VerticesKept(src: seq<Vertex>, open: bool)
    ensures Vertices(Closed(src, open)) == Vertices(src)
  {
    hide KindOf, IsVertex;
    if src == [] {
      EmittedVertices(LAST, open);
      Kinds();
      KindIsVertex(LAST.cmd);
    } else {
      hide Closed;
      var next := After(KindOf(src[0].cmd), open);
      VerticesKept(src[1..], next);
      ClosedStep(src, open);
      EmittedVertices(src[0], open);
      VerticesConcat(Emitted(src[0], open), Closed(src[1..], next));
    }
  }

  /** Every `end_poly` that leaves the converter carries the close flag. */
  lemma {:induction false} EveryEndCloses(src: seq<Vertex>, open: bool)
    ensures forall v :: v in Closed(src, open) && IsEndPoly(v.cmd) ==> IsClosed(v.cmd)
  {
    if src != [] {
      if KindOf(src[0].cmd) == End {
        ClosingKeepsEndPoly(src[0].cmd);
      }
      EveryEndCloses(src[1..], open);
      EveryEndCloses(src[1..], true);
      EveryEndCloses(src[1..], false);
    }
  }

  // Reads a stream with the state "drawn and not closed"; no move or stop may meet that state.
  predicate Guarded(out: seq<Vertex>, drawn: bool) {
    out != [] ==>
      match KindOf(out[0].cmd)
      case End => Guarded(out[1..], false)
      case Draw => Guarded(out[1..], true)
      case Odd => Guarded(out[1..], drawn)
      case _ => !drawn && Guarded(out[1..], false)
  }

  lemma GuardedStep(v: Vertex, tail: seq<Vertex>, drawn: bool)
    ensures Guarded([], drawn)
    ensures KindOf(v.cmd) == End && Guarded(tail, false) ==> Guarded([v] + tail, drawn)
    ensures KindOf(v.cmd) == Draw && Guarded(tail, true) ==> Guarded([v] + tail, drawn)
    ensures KindOf(v.cmd) in {Move, Stop} && !drawn && Guarded(tail, false) ==> Guarded([v] + tail, drawn)
  {
    hide KindOf;
    assert ([v] + tail)[1..] == tail;
  }

  lemma GuardedEmitted(v: Vertex, tail: seq<Vertex>, open: bool, drawn: bool)
    requires drawn ==> open
    requires Guarded(tail, if KindOf(v.cmd) == Odd then drawn else KindOf(v.cmd) == Draw)
    ensures Guarded(Emitted(v, open) + tail, drawn)
  {
    hide KindOf, Guarded;
    Kinds();
    match KindOf(v.cmd)
    case End => GuardedStep(Closing(v), tail, drawn);
    case Draw => GuardedStep(v, tail, drawn);
    case Odd => assert [] + tail == tail;
    case _ =>
      var one := if KindOf(v.cmd) == Move then v else LAST;
      GuardedStep(one, tail, false);
      GuardedStep(CLOSE, [one] + tail, drawn);
      assert [CLOSE, one] + tail == [CLOSE] + ([one] + tail);
  }

  lemma {:induction false} ClosedIsGuarded(src: seq<Vertex>, open: bool, drawn: bool)
    requires drawn ==> open
    ensures Guarded(Closed(src, open) + [LAST], drawn)
  {
    hide KindOf;
    Kinds();
    GuardedStep(LAST, [], false);
    if src == [] {
      assert Closed(src, open) + [LAST] == if open then [CLOSE] + ([LAST] + ([LAST] + [])) else [LAST] + [];
      GuardedStep(LAST, [LAST] + [], false);
      GuardedStep(CLOSE, [LAST] + ([LAST] + []), drawn);
    } else {
      hide Closed;
      var kind, v := KindOf(src[0].cmd), src[0];
      var next := After(kind, open);
      var tail := Closed(src[1..], next) + [LAST];
      ClosedIsGuarded(src[1..], next, if kind == Odd then drawn else kind == Draw);
      ClosedStep(src, open);
      assert Closed(src, open) + [LAST] == Emitted(v, open) + tail;
      GuardedEmitted(v, tail, open, drawn);
    }
  }

  lemma {:induction false} GuardedMeansClosed(out: seq<Vertex>, drawn: bool, j: nat)
    requires Guarded(out, drawn) && j < |out| && KindOf(out[j].cmd) in {Move, Stop}
    ensures drawn ==> exists k :: 0 <= k < j && IsEndPoly(out[k].cmd)
    ensures forall i :: 0 <= i < j && KindOf(out[i].cmd) == Draw ==>
              exists k :: i < k < j && IsEndPoly(out[k].cmd)
  {
    if j > 0 {
      assert KindOf(out[0].cmd) == End <==> IsEndPoly(out[0].cmd);
      var kind := KindOf(out[0].cmd);
      var next := if kind == Draw then true else if kind == Odd then drawn else false;
      GuardedMeansClosed(out[1..], next, j - 1);
      if drawn && kind in {Draw, Odd} {
        var k :| 0 <= k < j - 1 && IsEndPoly(out[1..][k].cmd);
        assert IsEndPoly(out[k + 1].cmd);
      }
      forall i | 0 <= i < j && KindOf(out[i].cmd) == Draw ensures exists k :: i < k < j && IsEndPoly(out[k].cmd) {
        if i == 0 {
          var k :| 0 <= k < j - 1 && IsEndPoly(out[1..][k].cmd);
          assert IsEndPoly(out[k + 1].cmd);
        } else {
          assert KindOf(out[1..][i - 1].cmd) == Draw;
          var k :| i - 1 < k < j - 1 && IsEndPoly(out[1..][k].cmd);
          assert IsEndPoly(out[k + 1].cmd);
        }
      }
    }
  }

  /** No subpath is left open: between a drawing command and any later move or stop, the stop that ends the
      stream included, there is an `end_poly`, and it carries the close flag. */
  lemma NoSubpathLeftOpen(src: seq<Vertex>, i: nat, j: nat)
    requires i < j <= |Closed(src, false)|
    requires var out := Closed(src, false) + [LAST]; KindOf(out[i].cmd) == Draw && KindOf(out[j].cmd) in {Move, Stop}
    ensures exists k :: i < k < j && IsEndPoly(Closed(src, false)[k].cmd) && IsClosed(Closed(src, false)[k].cmd)
  {
    var out := Closed(src, false) + [LAST];
    ClosedIsGuarded(src, false, false);
    GuardedMeansClosed(out, false, j);
    var k :| i < k < j && IsEndPoly(out[k].cmd);
    EveryEndCloses(src, false);
    assert out[k] == Closed(src, false)[k] && Closed(src, false)[k] in Closed(src, false);
  }

  // ---- Doubled closing commands

  lemma {:induction false} OddIgnored(src: seq<Vertex>, open: bool)
    ensures Closed(src, open) == Closed(Known(src), open)
  {
    hide KindOf;
    if src != [] {
      OddIgnored(src[1..], After(KindOf(src[0].cmd), open));
      ClosedStep(src, open);
      if KindOf(src[0].cmd) != Odd {
        assert Known(src) == [src[0]] + Known(src[1..]);
        assert Known(src)[1..] == Known(src[1..]);
        ClosedStep(Known(src), open);
      } else {
        assert Known(src) == Known(src[1..]);
      }
    }
  }

  // Whether the subpath at j has drawn something; a source's own `end_poly` does not change that.
  function OpenAt(src: seq<Vertex>, open: bool, j: nat): bool
    requires j <= |src|
  {
    if j == 0 then open else After(KindOf(src[j - 1].cmd), OpenAt(src, open, j - 1))
  }

  lemma {:induction false} OpenAtTail(src: seq<Vertex>, open: bool, j: nat)
    requires 1 <= j <= |src|
    ensures OpenAt(src, open, j) == OpenAt(src[1..], After(KindOf(src[0].cmd), open), j - 1)
  {
    hide KindOf;
    if j > 1 {
      OpenAtTail(src, open, j - 1);
    }
  }

  /** The subpath at j has drawn something exactly if a drawing command stands before j, and no move or stop between. */
  lemma {:induction false} OpenAtIs(src: seq<Vertex>, j: nat)
    requires j <= |src|
    ensures OpenAt(src, false, j) <==>
            exists i :: 0 <= i < j && 2 <= src[i].cmd <= 14 && forall k :: i < k < j ==> src[k].cmd > 1
  {
    if j > 0 {
      OpenAtIs(src, j - 1);
      KindsInNumbers(src[j - 1].cmd);
      hide KindOf;
      if OpenAt(src, false, j) && KindOf(src[j - 1].cmd) != Draw {
        var i :| 0 <= i < j - 1 && 2 <= src[i].cmd <= 14 && forall k :: i < k < j - 1 ==> src[k].cmd > 1;
        assert forall k :: i < k < j ==> src[k].cmd > 1;
      }
    }
  }

  // What the converter has put out before it takes the j-th source command.
  function Before(src: seq<Vertex>, open: bool, j: nat): seq<Vertex>
    requires j <= |src|
  {
    if j == 0 then [] else Before(src, open, j - 1) + Emitted(src[j - 1], OpenAt(src, open, j - 1))
  }

  lemma {:induction false} BeforeTail(src: seq<Vertex>, open: bool, j: nat)
    requires 1 <= j <= |src|
    ensures Before(src, open, j)
            == Emitted(src[0], open) + Before(src[1..], After(KindOf(src[0].cmd), open), j - 1)
  {
    hide KindOf, Emitted;
    if j == 1 {
      assert Before(src, open, 0) == [];
    } else {
      BeforeTail(src, open, j - 1);
      OpenAtTail(src, open, j - 1);
    }
  }

  lemma {:induction false} SplitAt(src: seq<Vertex>, open: bool, j: nat)
    requires j <= |src|
    ensures Closed(src, open) == Before(src, open, j) + Closed(src[j..], OpenAt(src, open, j))
    decreases |src|
  {
    hide KindOf, Emitted, Closed;
    if j == 0 {
      assert src[0..] == src;
    } else {
      var next := After(KindOf(src[0].cmd), open);
      SplitAt(src[1..], next, j - 1);
      BeforeTail(src, open, j);
      OpenAtTail(src, open, j);
      ClosedStep(src, open);
      assert src[1..][j - 1..] == src[j..];
    }
  }

  /** What comes out for the j-th source command, behind what came out for the ones before: an `end_poly` with its flags
      and the close flag; a vertex as it is; nothing for any other command; and a close in front of a move or a stop, if
      the subpath has drawn something. At the end of the source a close comes out under the same condition. */
  lemma CommandsKept(src: seq<Vertex>, j: nat)
    requires j < |src|
    ensures var c, open := src[j].cmd, OpenAt(src, false, j);
            var out := if c & 15 == 15 then [Vertex(c | 0x40, 0.0, 0.0)]
                       else if c == 0 then (if open then [Vertex(0x4F, 0.0, 0.0)] else []) + [Vertex(0, 0.0, 0.0)]
                       else if c == 1 then (if open then [Vertex(0x4F, 0.0, 0.0)] else []) + [src[j]]
                       else if c <= 14 then [src[j]]
                       else [];
            && Before(src, false, j + 1) == Before(src, false, j) + out
            && Closed(src, false) == Before(src, false, j) + out + Closed(src[j + 1..], OpenAt(src, false, j + 1))
    ensures Closed(src, false)
            == Before(src, false, |src|)
               + if OpenAt(src, false, |src|) then [Vertex(0x4F, 0.0, 0.0), Vertex(0, 0.0, 0.0)] else []
  {
    SplitAt(src, false, j + 1);
    SplitAt(src, false, |src|);
    assert src[|src|..] == [];
    KindsInNumbers(src[j].cmd);
    hide KindOf, OpenAt;
  }

  /** The source's `end_poly` at j is followed by another one, or it follows a drawing command of its subpath
      and the subpath ends right behind it. */
  predicate DoubleAt(src: seq<Vertex>, open: bool, j: nat) {
    && j < |src|
    && KindOf(src[j].cmd) == End
    && (if j + 1 == |src| then OpenAt(src, open, j)
        else KindOf(src[j + 1].cmd) == End || (OpenAt(src, open, j) && KindOf(src[j + 1].cmd) in {Move, Stop}))
  }

  // Two neighbouring closing commands.
  predicate Doubled(out: seq<Vertex>) {
    |out| >= 2 && ((KindOf(out[0].cmd) == End && KindOf(out[1].cmd) == End) || Doubled(out[1..]))
  }

  lemma DoubleAtTail(src: seq<Vertex>, open: bool, j: nat)
    requires 1 <= j
    requires src != []
    ensures DoubleAt(src, open, j) == DoubleAt(src[1..], After(KindOf(src[0].cmd), open), j - 1)
  {
    hide KindOf;
    if j < |src| {
      OpenAtTail(src, open, j);
    }
  }

  lemma DoubledStep(v: Vertex, tail: seq<Vertex>)
    ensures Doubled([v] + tail) <==>
            (tail != [] && KindOf(v.cmd) == End && KindOf(tail[0].cmd) == End) || Doubled(tail)
  {
    hide KindOf;
    assert ([v] + tail)[1..] == tail;
  }

  lemma DoubledEmitted(v: Vertex, tail: seq<Vertex>, open: bool)
    requires KindOf(v.cmd) != Odd
    ensures Doubled(Emitted(v, open) + tail) <==>
            (tail != [] && KindOf(v.cmd) == End && KindOf(tail[0].cmd) == End) || Doubled(tail)
  {
    hide KindOf, Doubled;
    Kinds();
    var one := if KindOf(v.cmd) == End then Closing(v) else if KindOf(v.cmd) == Stop then LAST else v;
    DoubledStep(one, tail);
    DoubledStep(CLOSE, [one] + tail);
    assert Emitted(v, open) + tail ==
           if KindOf(v.cmd) in {Move, Stop} && open then [CLOSE] + ([one] + tail) else [one] + tail;
  }

  lemma DoubleAtFront(src: seq<Vertex>, open: bool)
    requires src != []
    ensures (exists j: nat :: DoubleAt(src, open, j)) <==>
            DoubleAt(src, open, 0) || exists j: nat :: DoubleAt(src[1..], After(KindOf(src[0].cmd), open), j)
  {
    hide DoubleAt;
    var next := After(KindOf(src[0].cmd), open);
    if j: nat :| DoubleAt(src, open, j) {
      if j > 0 {
        DoubleAtTail(src, open, j);
      }
    }
    if j: nat :| DoubleAt(src[1..], next, j) {
      DoubleAtTail(src, open, j + 1);
    }
  }

  lemma FrontOfClosed(src: seq<Vertex>, open: bool)
    requires forall v :: v in src ==> KindOf(v.cmd) != Odd
    ensures (Closed(src, open) != [] && KindOf(Closed(src, open)[0].cmd) == End) <==>
            if src == [] then open else KindOf(src[0].cmd) == End || (open && KindOf(src[0].cmd) in {Move, Stop})
  {
    hide KindOf;
    Kinds();
  }

  lemma {:induction false} DoubledExactly(src: seq<Vertex>, open: bool)
    requires forall v :: v in src ==> KindOf(v.cmd) != Odd
    ensures Doubled(Closed(src, open)) <==> exists j: nat :: DoubleAt(src, open, j)
  {
    hide KindOf;
    Kinds();
    if src == [] {
      assert open ==> Closed(src, open)[1..] == [LAST];
    } else {
      var v, rest := src[0], src[1..];
      var next := After(KindOf(v.cmd), open);
      DoubledExactly(rest, next);
      DoubleAtFront(src, open);
      FrontOfClosed(rest, next);
      ClosedStep(src, open);
      hide Closed, Doubled;
      DoubledEmitted(v, Closed(rest, next), open);
    }
  }

  /** Exactly when a figure is closed twice in a row: a source `end_poly` behind a drawing command stands right
      before a move, a stop or the end, or two source `end_poly` are neighbours (odd commands not counted). */
  lemma ClosedTwice(src: seq<Vertex>)
    ensures Doubled(Closed(src, false)) <==> exists j: nat :: DoubleAt(Known(src), false, j)
  {
    OddIgnored(src, false);
    DoubledExactly(Known(src), false);
  }

  /** A closed triangle, as path storage makes it, comes out with two closing commands. */
  lemma ClosedTriangleClosedTwice(a: Vertex, b: Vertex, c: Vertex)
    requires a.cmd == MOVE_TO && b.cmd == 2 && c.cmd == 2
    ensures Closed([a, b, c, CLOSE], false) == [a, b, c, CLOSE, CLOSE, LAST]
  {
    assert [a, b, c, CLOSE][1..] == [b, c, CLOSE] && [b, c, CLOSE][1..] == [c, CLOSE] && [c, CLOSE][1..] == [CLOSE];
    assert Closed([CLOSE], true) == [CLOSE, CLOSE, LAST];
    assert Closed([c, CLOSE], true) == [c, CLOSE, CLOSE, LAST];
    assert Closed([b, c, CLOSE], false) == [b, c, CLOSE, CLOSE, LAST];
  }
}
