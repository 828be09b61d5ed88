/** The path commands of `agg_basics.h`, and streams of vertices that end in stops. */
module PathCommands {

  type Cmd = bv32

  const STOP: Cmd := 0
  const MOVE_TO: Cmd := 1
  const END_POLY: Cmd := 0x0F
  const CMD_MASK: Cmd := 0x0F
  const FLAG_CLOSE: Cmd := 0x40

  datatype Vertex = Vertex(cmd: Cmd, x: real, y: real)

  predicate IsVertex(c: Cmd) { MOVE_TO <= c < END_POLY }

  predicate IsStop(c: Cmd) { c == STOP }

  predicate IsMoveTo(c: Cmd) { c == MOVE_TO }

  predicate IsEndPoly(c: Cmd) { c & CMD_MASK == END_POLY }

  predicate IsClosed(c: Cmd) { c & FLAG_CLOSE != 0 }

  /** The five ways a converter treats a command. A command outside the first four has flags but
      no `end_poly` in its low bits; converters swallow it. */
  datatype Kind = End | Stop | Move | Draw | Odd

  function KindOf(c: Cmd): Kind {
    if IsEndPoly(c) then End
    else if IsStop(c) then Stop
    else if IsMoveTo(c) then Move
    else if IsVertex(c) then Draw
    else Odd
  }

  lemma KindIsVertex(c: Cmd)
    ensures IsVertex(c) <==> KindOf(c) in {Move, Draw}
  {
    if IsEndPoly(c) {
      assert c & CMD_MASK <= c;
    }
  }

  /** The kinds in numbers: 0 is a stop, 1 a move, 2 to 14 draw, and any command whose low four bits are 15 is an
      `end_poly`; the others are swallowed. Bit 6 is the close flag. */
  lemma KindsInNumbers(c: Cmd)
    ensures KindOf(c) == Stop <==> c == 0
    ensures KindOf(c) == Move <==> c == 1
    ensures KindOf(c) == Draw <==> 2 <= c <= 14
    ensures KindOf(c) == End <==> c & 15 == 15
    ensures KindOf(c) == Odd <==> c > 15 && c & 15 != 15
    ensures IsClosed(c) <==> c & 64 == 64
  {
    assert c & 15 <= c;
    assert c == 15 ==> c & 15 == 15;
    assert c < 15 ==> c & 15 != 15;
  }

  lemma KindTests(c: Cmd)
    ensures IsEndPoly(c) <==> KindOf(c) == End
    ensures IsStop(c) <==> KindOf(c) == Stop
    ensures IsMoveTo(c) <==> KindOf(c) == Move
    ensures !IsEndPoly(c) && !IsStop(c) && !IsMoveTo(c) ==> (IsVertex(c) <==> KindOf(c) == Draw)
  {}

  // The commands that converters look at.
  function Known(src: seq<Vertex>): (known: seq<Vertex>)
    ensures forall v :: v in known ==> KindOf(v.cmd) != Odd
  {
    if src == [] then [] else (if KindOf(src[0].cmd) == Odd then [] else [src[0]]) + Known(src[1..])
  }

  const LAST := Vertex(STOP, 0.0, 0.0)

  // A stream that ends in stops forever, as its first command and the stream behind it.
  function First(out: seq<Vertex>): Vertex {
    if out == [] then LAST else out[0]
  }

  function Rest(out: seq<Vertex>): seq<Vertex> {
    if out == [] then [] else out[1..]
  }
}
