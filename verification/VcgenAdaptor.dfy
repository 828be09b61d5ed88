/** The generator adaptor of `agg_conv_adaptor_vcgen.h`: it cuts a source's stream into figures, feeds them to a
    vertex generator one after the other, and passes on what the generator makes of each. */
module VcgenAdaptor {
  import opened PathCommands

  // ---- The figures of a source

  /** What the accumulating loop leaves: the vertices after the figure's first, the point and the command the next
      figure starts from, and the source behind it. */
  datatype Scan = Scan(tail: seq<Vertex>, start: Vertex, last: Cmd, rest: seq<Vertex>)

  function Accumulated(src: seq<Vertex>, start: Vertex, last: Cmd): (scan: Scan)
    ensures |scan.rest| < |src| || (src == [] && scan.rest == [] && scan.last == STOP)
  {
    if src == [] then Scan([], start, STOP, [])
    else
      match KindOf(src[0].cmd)
      case Move => Scan([], src[0], src[0].cmd, src[1..])
      case Stop => Scan([], start, STOP, src[1..])
      case End => Scan([src[0]], start, last, src[1..])
      case Draw =>
        var scan := Accumulated(src[1..], start, src[0].cmd);
        scan.(tail := [src[0]] + scan.tail)
      case Odd => Accumulated(src[1..], start, last)
  }

  /** The figures of a source from a start point on; `last` is the stop once the source has ended. */
  function Figures(start: Vertex, last: Cmd, src: seq<Vertex>): seq<seq<Vertex>>
    decreases |src|, last != STOP
  {
    if IsStop(last) then []
    else
      var scan := Accumulated(src, start, last);
      [[start] + scan.tail] + Figures(scan.start, scan.last, scan.rest)
  }

  // The first command of a source, whatever it is, is taken as the move to its first figure.
  function Start(v: Vertex): Vertex { v.(cmd := MOVE_TO) }

  function AllFigures(src: seq<Vertex>): seq<seq<Vertex>> {
    if src == [] then [] else Figures(Start(src[0]), src[0].cmd, src[1..])
  }

  function BeforeStop(s: seq<Vertex>): seq<Vertex> {
    if s == [] || IsStop(s[0].cmd) then [] else [s[0]] + BeforeStop(s[1..])
  }

  /** The stream of the adaptor: what the generator makes of each figure, up to its stop. */
  function Output(make: seq<Vertex> -> seq<Vertex>, figures: seq<seq<Vertex>>): seq<Vertex> {
    if figures == [] then [] else BeforeStop(make(figures[0])) + Output(make, figures[1..])
  }

  // ---- The generator and the adaptor

  /** A vertex generator: collects vertices, and after a rewind gives out what it makes of them, then stops. */
  class Generator {
    const make: seq<Vertex> -> seq<Vertex>
    var fed: seq<Vertex>
    var pending: seq<Vertex>

    constructor (make: seq<Vertex> -> seq<Vertex>)
      ensures this.make == make && fed == [] && pending == []
    {
      this.make, fed, pending := make, [], [];
    }

    method RemoveAll()
      modifies this`fed
      ensures fed == []
    {
      fed := [];
    }

    method AddVertex(v: Vertex)
      modifies this`fed
      ensures fed == old(fed) + [v]
    {
      fed := fed + [v];
    }

    method Rewind()
      modifies this`pending
      ensures pending == make(fed)
    {
      pending := make(fed);
    }

    method NextVertex() returns (v: Vertex)
      modifies this`pending
      ensures v == First(old(pending)) && pending == Rest(old(pending))
    {
      v, pending := First(pending), Rest(pending);
    }
  }

  datatype Status = Initial | Accumulate | Generate

  lemma AccumulatedStep(src: seq<Vertex>, start: Vertex, last: Cmd)
    ensures var v, rest := First(src), Rest(src);
            var scan := Accumulated(src, start, last);
            match KindOf(v.cmd)
            case Move => scan == Scan([], v, v.cmd, rest)
            case Stop => scan == Scan([], start, STOP, rest)
            case End => scan == Scan([v], start, last, rest)
            case Draw => scan == Accumulated(rest, start, v.cmd).(tail := [v] + Accumulated(rest, start, v.cmd).tail)
            case Odd => scan == Accumulated(rest, start, last)
  {}

  lemma NothingMore(make: seq<Vertex> -> seq<Vertex>, start: Vertex, src: seq<Vertex>)
    ensures Output(make, Figures(start, STOP, src)) == []
  {}

  lemma OutputStep(make: seq<Vertex> -> seq<Vertex>, figure: seq<Vertex>, others: seq<seq<Vertex>>)
    ensures Output(make, [figure] + others) == BeforeStop(make(figure)) + Output(make, others)
  {
    assert ([figure] + others)[1..] == others;
  }

  class Adaptor {
    const source: seq<Vertex>
    const generator: Generator
    var position: nat
    var status: Status
    var lastCmd: Cmd
    var start: Vertex

    ghost predicate Valid()
      reads this
    {
      position <= |source| && (status != Initial ==> start.cmd == MOVE_TO)
    }

    /** Everything still to come out. */
    ghost function Remaining(): seq<Vertex>
      requires Valid()
      reads this, generator
    {
      var src := source[position..];
      match status
      case Initial => Output(generator.make, AllFigures(src))
      case Accumulate => Output(generator.make, Figures(start, lastCmd, src))
      case Generate => BeforeStop(generator.pending) + Output(generator.make, Figures(start, lastCmd, src))
    }

    constructor (source: seq<Vertex>, make: seq<Vertex> -> seq<Vertex>)
      ensures Valid() && this.source == source && generator.make == make && fresh(generator)
      ensures Remaining() == Output(make, AllFigures(source))
    {
      this.source := source;
      generator := new Generator(make);
      position, status, lastCmd, start := 0, Initial, STOP, LAST;
    }

    method Rewind()
      requires Valid()
      modifies this
      ensures Valid() && Remaining() == Output(generator.make, AllFigures(source))
    {
      position, status := 0, Initial;
    }

    // The source: its vertices in order, then stops forever.
    method SourceVertex() returns (v: Vertex)
      requires position <= |source|
      modifies this`position
      ensures position <= |source|
      ensures v == First(old(source[position..])) && source[position..] == Rest(old(source[position..]))
      ensures position == if old(position) < |source| then old(position) + 1 else old(position)
    {
      if position < |source| {
        v, position := source[position], position + 1;
      } else {
        v := LAST;
      }
    }

    /** One vertex of the stream; afterwards the rest of the stream is still to come. */
    method NextVertex() returns (v: Vertex)
      requires Valid()
      modifies this, generator
      ensures Valid()
      ensures v == First(old(Remaining())) && Remaining() == Rest(old(Remaining()))
    {
      hide Figures, AllFigures, Output;
      v := LAST;
      var done := false;
      ghost var todo := Remaining();
      while !done
        invariant Valid()
        invariant if done then v == First(todo) && Remaining() == Rest(todo) else Remaining() == todo
        decreases !done, status == Initial, |source| - position, lastCmd != STOP, status == Generate
      {
        if status == Initial {
          Begin();
        }
        if status == Accumulate {
          if IsStop(lastCmd) {
            NothingMore(generator.make, start, source[position..]);
            return LAST;
          }
          AccumulateFigure();
        }
        v := generator.NextVertex();
        if IsStop(v.cmd) {
          status := Accumulate;
        } else {
          done := true;
        }
      }
    }

    method Begin()
      requires Valid() && status == Initial
      modifies this
      ensures Valid() && status == Accumulate && Remaining() == old(Remaining())
    {
      ghost var before := source[position..];
      start := SourceVertex();
      lastCmd, start := start.cmd, Start(start);
      status := Accumulate;
    }

    /** Feeds the generator the next figure and sets it to give it out. */
    method AccumulateFigure()
      requires Valid() && status == Accumulate && !IsStop(lastCmd)
      modifies this, generator
      ensures Valid() && status == Generate && Remaining() == old(Remaining())
      ensures old(position) < position || (position == old(position) && lastCmd == STOP)
    {
      hide Accumulated, Output;
      ghost var src, first, last0 := source[position..], start, lastCmd;
      generator.RemoveAll();
      generator.AddVertex(start);
      ScanFigure();
      ghost var scan := Accumulated(src, first, last0);
      assert generator.fed == [first] + scan.tail;
      assert Figures(first, last0, src) == [[first] + scan.tail] + Figures(scan.start, scan.last, scan.rest);
      OutputStep(generator.make, [first] + scan.tail, Figures(scan.start, scan.last, scan.rest));
      generator.Rewind();
      status := Generate;
    }

    /** The inner loop: feeds the generator up to the next move, stop or `end_poly`. */
    method ScanFigure()
      requires Valid() && status == Accumulate
      modifies this, generator
      ensures Valid() && status == Accumulate
      ensures var scan := Accumulated(old(source[position..]), old(start), old(lastCmd));
              && generator.fed == old(generator.fed) + scan.tail
              && start == scan.start && lastCmd == scan.last && source[position..] == scan.rest
      ensures old(position) < position || (position == old(position) && lastCmd == STOP)
    {
      hide Accumulated;
      ghost var goal := Accumulated(source[position..], start, lastCmd);
      var more := true;
      while more
        invariant Valid() && status == Accumulate && old(position) <= position
        invariant !more && position == old(position) ==> lastCmd == STOP
        invariant var scan := if more then Accumulated(source[position..], start, lastCmd)
                              else Scan([], start, lastCmd, source[position..]);
                  generator.fed + scan.tail == old(generator.fed) + goal.tail && scan == goal.(tail := scan.tail)
        decreases more, |source| - position
      {
        more := FeedOne();
      }
    }

    // Takes one source command; `more`: the figure goes on.
    method FeedOne() returns (more: bool)
      requires Valid() && status == Accumulate
      modifies this, generator
      ensures Valid() && status == Accumulate
      ensures var goal := Accumulated(old(source[position..]), old(start), old(lastCmd));
              var scan := if more then Accumulated(source[position..], start, lastCmd)
                          else Scan([], start, lastCmd, source[position..]);
              generator.fed + scan.tail == old(generator.fed) + goal.tail && scan == goal.(tail := scan.tail)
      ensures old(position) < position || (position == old(position) && !more && lastCmd == STOP)
    {
      hide KindOf, IsVertex, Accumulated;
      AccumulatedStep(source[position..], start, lastCmd);
      ghost var fed := generator.fed;
      var v := SourceVertex();
      KindTests(v.cmd);
      KindIsVertex(v.cmd);
      more := false;
      if IsVertex(v.cmd) {
        lastCmd := v.cmd;
        if IsMoveTo(v.cmd) {
          start := v;
        } else {
          generator.AddVertex(v);
          more := true;
          ghost var tail := Accumulated(source[position..], start, lastCmd).tail;
          assert fed + ([v] + tail) == fed + [v] + tail;
        }
      } else if IsStop(v.cmd) {
        lastCmd := STOP;
      } else if IsEndPoly(v.cmd) {
        generator.AddVertex(v);
      } else {
        more := true;
      }
    }
  }

  // ---- What the generator is fed

  predicate EndsInPoly(figure: seq<Vertex>) {
    figure != [] && KindOf(figure[|figure| - 1].cmd) == End
  }

  /** All figures in a row, without the start that a figure repeats when the one before it ended in `end_poly`. */
  function Unrepeated(figures: seq<seq<Vertex>>, repeats: bool): seq<Vertex> {
    if figures == [] then []
    else (if repeats && figures[0] != [] then figures[0][1..] else figures[0])
         + Unrepeated(figures[1..], EndsInPoly(figures[0]))
  }

  lemma NoFigures(start: Vertex, src: seq<Vertex>, repeats: bool)
    ensures Unrepeated(Figures(start, STOP, src), repeats) == []
  {}

  lemma UnrepeatedStep(figure: seq<Vertex>, others: seq<seq<Vertex>>, repeats: bool)
    requires figure != []
    ensures Unrepeated([figure] + others, repeats)
         == (if repeats then figure[1..] else figure) + Unrepeated(others, EndsInPoly(figure))
  {
    hide EndsInPoly;
    assert ([figure] + others)[1..] == others;
  }

  // What is kept of the source behind a figure.
  function Behind(start: Vertex, scan: Scan): seq<Vertex> {
    if IsStop(scan.last) then []
    else (if EndsInPoly([start] + scan.tail) then [] else [scan.start]) + Known(BeforeStop(scan.rest))
  }

  // One figure takes from the source exactly the commands up to its end.
  ghost predicate ScanKept(src: seq<Vertex>, start: Vertex, scan: Scan) {
    && scan.start.cmd == MOVE_TO
    && Known(BeforeStop(src)) == scan.tail + Behind(start, scan)
  }

  // What is kept of a source, command by command.
  lemma KeptStep(src: seq<Vertex>)
    ensures var kept := Known(BeforeStop(src));
            if src == [] || KindOf(src[0].cmd) == Stop then kept == []
            else if KindOf(src[0].cmd) == Odd then kept == Known(BeforeStop(src[1..]))
            else kept == [src[0]] + Known(BeforeStop(src[1..]))
  {
    if src != [] {
      KindTests(src[0].cmd);
      if !IsStop(src[0].cmd) {
        assert ([src[0]] + BeforeStop(src[1..]))[1..] == BeforeStop(src[1..]);
      }
    }
  }

  lemma EndsWith(start: Vertex, tail: seq<Vertex>)
    requires KindOf(start.cmd) != End
    ensures EndsInPoly([start] + tail) == EndsInPoly(tail)
    ensures EndsInPoly(tail) <==> tail != [] && KindOf(tail[|tail| - 1].cmd) == End
  {
    assert [start] + tail != [];
    if tail != [] {
      assert ([start] + tail)[|tail|] == tail[|tail| - 1];
    }
  }

  lemma KeptBehindDraw(src: seq<Vertex>, start: Vertex, scan: Scan)
    requires start.cmd == MOVE_TO && src != [] && KindOf(src[0].cmd) == Draw && ScanKept(src[1..], start, scan)
    ensures ScanKept(src, start, scan.(tail := [src[0]] + scan.tail))
  {
    hide KindOf, BeforeStop, Known, EndsInPoly;
    KeptStep(src);
    KindTests(MOVE_TO);
    EndsWith(start, scan.tail);
    EndsWith(start, [src[0]] + scan.tail);
    EndsWith(src[0], scan.tail);
    var behind := Behind(start, scan);
    hide Behind;
    assert [src[0]] + (scan.tail + behind) == [src[0]] + scan.tail + behind;
  }

  lemma {:induction false} ScanKeeps(src: seq<Vertex>, start: Vertex, last: Cmd)
    requires !IsStop(last) && start.cmd == MOVE_TO
    ensures ScanKept(src, start, Accumulated(src, start, last))
  {
    hide KindOf, Accumulated, BeforeStop, Known, EndsInPoly;
    AccumulatedStep(src, start, last);
    KeptStep(src);
    KindTests(STOP);
    KindTests(MOVE_TO);
    if src != [] {
      KindTests(src[0].cmd);
      match KindOf(src[0].cmd)
      case Move => EndsWith(start, []);
      case Stop =>
      case End => EndsWith(start, [src[0]]);
      case Odd => ScanKeeps(src[1..], start, last);
      case Draw =>
        ScanKeeps(src[1..], start, src[0].cmd);
        KeptBehindDraw(src, start, Accumulated(src[1..], start, src[0].cmd));
    }
  }

  lemma {:induction false} FiguresUnrepeated(start: Vertex, last: Cmd, src: seq<Vertex>, repeats: bool)
    requires !IsStop(last) && start.cmd == MOVE_TO
    ensures Unrepeated(Figures(start, last, src), repeats)
         == (if repeats then [] else [start]) + Known(BeforeStop(src))
    decreases |src|
  {
    hide KindOf, BeforeStop, Known, Accumulated;
    var scan := Accumulated(src, start, last);
    var figure, others := [start] + scan.tail, Figures(scan.start, scan.last, scan.rest);
    ScanKeeps(src, start, last);
    UnrepeatedStep(figure, others, repeats);
    hide Unrepeated, EndsInPoly;
    if IsStop(scan.last) {
      NoFigures(scan.start, scan.rest, EndsInPoly(figure));
    } else {
      FiguresUnrepeated(scan.start, scan.last, scan.rest, EndsInPoly(figure));
    }
    assert figure[1..] == scan.tail;
  }

  /** Every source command before the stop reaches the generator once and in order; nothing else does but the
      repeated starts. The first command counts as a move. */
  lemma EachVertexFedOnce(src: seq<Vertex>)
    requires src != [] && !IsStop(src[0].cmd)
    ensures Unrepeated(AllFigures(src), false)
            == [Vertex(MOVE_TO, src[0].x, src[0].y)] + Known(BeforeStop(src[1..]))
  {
    FiguresUnrepeated(Start(src[0]), src[0].cmd, src[1..], false);
  }

  /** The shape of what the generator sees: a move, then drawing commands, then at most one `end_poly`; and a figure
      behind an `end_poly` starts where the one before it started. */
  ghost predicate WellShaped(figure: seq<Vertex>) {
    && figure != []
    && figure[0].cmd == MOVE_TO
    && (forall i :: 0 < i < |figure| - 1 ==> KindOf(figure[i].cmd) == Draw)
    && (|figure| > 1 ==> KindOf(figure[|figure| - 1].cmd) in {Draw, End})
  }

  lemma ShapeOfNone(start: Vertex)
    requires start.cmd == MOVE_TO
    ensures WellShaped([start] + []) && !EndsInPoly([start] + [])
  {
    assert [start] + [] == [start];
  }

  lemma ShapeOfEnd(start: Vertex, end: Vertex)
    requires start.cmd == MOVE_TO && KindOf(end.cmd) == End
    ensures WellShaped([start] + [end])
  {
    hide KindOf;
    assert [start] + [end] == [start, end];
  }

  lemma ShapeOfDraw(start: Vertex, draw: Vertex, tail: seq<Vertex>)
    requires start.cmd == MOVE_TO && KindOf(draw.cmd) == Draw && WellShaped([start] + tail)
    ensures WellShaped([start] + ([draw] + tail))
    ensures EndsInPoly([start] + ([draw] + tail)) ==> EndsInPoly([start] + tail)
  {
    hide KindOf;
    var figure, shorter := [start] + ([draw] + tail), [start] + tail;
    assert |figure| == |shorter| + 1 && figure[1] == draw;
    forall i | 1 < i < |figure| ensures figure[i] == shorter[i - 1] {}
    KindTests(MOVE_TO);
  }

  lemma {:induction false} TailShape(src: seq<Vertex>, start: Vertex, last: Cmd)
    requires start.cmd == MOVE_TO
    ensures var scan := Accumulated(src, start, last);
            && WellShaped([start] + scan.tail)
            && scan.start.cmd == MOVE_TO
            && (EndsInPoly([start] + scan.tail) ==> scan.start == start)
  {
    hide Accumulated, KindOf, WellShaped;
    AccumulatedStep(src, start, last);
    KindTests(STOP);
    ShapeOfNone(start);
    if src != [] {
      match KindOf(src[0].cmd)
      case Draw =>
        TailShape(src[1..], start, src[0].cmd);
        ShapeOfDraw(start, src[0], Accumulated(src[1..], start, src[0].cmd).tail);
      case Odd => TailShape(src[1..], start, last);
      case End => ShapeOfEnd(start, src[0]);
      case Move => KindTests(src[0].cmd);
      case Stop =>
    }
  }

  lemma {:induction false} FiguresWellShaped(start: Vertex, last: Cmd, src: seq<Vertex>)
    requires start.cmd == MOVE_TO
    ensures var figures := Figures(start, last, src);
            && (forall i :: 0 <= i < |figures| ==> WellShaped(figures[i]))
            && (figures != [] ==> figures[0][0] == start)
            && (forall i, j :: 0 <= i < j == i + 1 < |figures| && EndsInPoly(figures[i]) ==>
                  figures[j][0] == figures[i][0])
    decreases |src|, last != STOP
  {
    if !IsStop(last) {
      var scan := Accumulated(src, start, last);
      TailShape(src, start, last);
      FiguresWellShaped(scan.start, scan.last, scan.rest);
    }
  }
}
