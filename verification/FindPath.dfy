/** `translate`: the depth-first search for a chain of translators, and the pipeline of two
    buffers that runs the chain. */
module FindPath {
  import opened Basics

  // ----- The translator roster -----

  datatype Format = Format(kind: nat, group: nat, quality: real, capability: real)

  /** What the roster answers. A translator without an entry is one whose formats cannot be had. */
  datatype Roster = Roster(all: seq<int>, inputs: map<int, seq<Format>>, outputs: map<int, seq<Format>>)

  /** Translator `id` accepts type `kind`. */
  predicate Accepts(r: Roster, id: int, kind: nat) {
    id in r.inputs && exists j :: 0 <= j < |r.inputs[id]| && r.inputs[id][j].kind == kind
  }

  ghost function Kinds(r: Roster): set<nat> {
    set id, j | id in r.outputs && 0 <= j < |r.outputs[id]| :: r.outputs[id][j].kind
  }

  /** Output types that a search below `kind` may still enter. */
  ghost function Unseen(r: Roster, seen: seq<nat>, kind: nat): set<nat> {
    set k | k in Kinds(r) && k !in seen && k != kind
  }

  // ----- Type lists -----

  function Without(list: seq<nat>, kind: nat): seq<nat> {
    if list == [] then []
    else if list[0] == kind then list[1..]
    else [list[0]] + Without(list[1..], kind)
  }

  lemma {:induction false} WithoutAt(list: seq<nat>, kind: nat, i: nat)
    requires i < |list| && list[i] == kind && kind !in list[..i]
    ensures Without(list, kind) == list[..i] + list[i + 1..]
  {
    if i > 0 {
      var rest := list[1..];
      assert list[..i] == [list[0]] + rest[..i - 1] && list[i + 1..] == rest[i..] && list[0] != kind;
      WithoutAt(rest, kind, i - 1);
    }
  }

  lemma {:induction false} WithoutNone(list: seq<nat>, kind: nat)
    requires kind !in list
    ensures Without(list, kind) == list
  {
    if list != [] {
      WithoutNone(list[1..], kind);
    }
  }

  class TypeList {
    var list: seq<nat>

    constructor ()
      ensures list == []
    {
      list := [];
    }

    /** Adds at the front. */
    method Add(kind: nat)
      modifies this
      ensures list == [kind] + old(list)
    {
      list := [kind] + list;
    }

    /** Removes the first occurrence. */
    method Remove(kind: nat)
      modifies this
      ensures list == Without(old(list), kind)
    {
      var i := 0;
      while i < |list|
        invariant 0 <= i <= |list| && list == old(list) && kind !in list[..i]
      {
        if list[i] == kind {
          WithoutAt(list, kind, i);
          list := list[..i] + list[i + 1..];
          return;
        }
        assert list[..i + 1] == list[..i] + [list[i]];
        i := i + 1;
      }
      assert list[..i] == list;
      WithoutNone(list, kind);
    }

    method FindType(kind: nat) returns (found: bool)
      ensures found == (kind in list)
    {
      found := kind in list;
    }

    method SetTo(types: TypeList)
      modifies this
      ensures list == old(types.list)
    {
      list := types.list;
    }
  }

  // ----- The search, as a function -----

  /** What a frame of the search has found so far; `fair` records that no direct hit has been put in front of a path
      found before. */
  datatype Best = Best(found: bool, path: seq<nat>, quality: real, fair: bool)

  const NOTHING := Best(false, [], -1.0, true)

  function Product(f: Format): real {
    f.quality * f.capability
  }

  /** All translators of `ids` in turn, from type `kind` of group `group`. */
  ghost function OverIds(r: Roster, target: nat, kind: nat, group: nat, seen: seq<nat>, ids: seq<int>, best: Best): Best
    decreases Unseen(r, seen, kind), 2, |ids|
  {
    if ids == [] then best
    else OverIds(r, target, kind, group, seen, ids[1..],
                 if Accepts(r, ids[0], kind) && ids[0] in r.outputs
                 then OverFormats(r, target, kind, group, seen, ids[0], 0, best) else best)
  }

  /** The output formats of one translator, from the j-th on. */
  ghost function OverFormats(r: Roster, target: nat, kind: nat, group: nat, seen: seq<nat>, id: int, j: nat,
                             best: Best): Best
    requires id in r.outputs && j <= |r.outputs[id]|
    decreases Unseen(r, seen, kind), 1, |r.outputs[id]| - j
  {
    if j == |r.outputs[id]| then best
    else OverFormats(r, target, kind, group, seen, id, j + 1,
                     Consider(r, target, kind, group, seen, id, j, best))
  }

  ghost predicate Eligible(f: Format, kind: nat, group: nat, seen: seq<nat>) {
    f.group == group && f.kind != kind && f.kind !in seen
  }

  lemma Deeper(r: Roster, seen: seq<nat>, kind: nat, id: int, j: nat)
    requires id in r.outputs && 0 <= j < |r.outputs[id]|
    requires r.outputs[id][j].kind != kind && r.outputs[id][j].kind !in seen
    ensures Unseen(r, [kind] + seen, r.outputs[id][j].kind) < Unseen(r, seen, kind)
  {
    assert r.outputs[id][j].kind in Unseen(r, seen, kind);
    assert r.outputs[id][j].kind !in Unseen(r, [kind] + seen, r.outputs[id][j].kind);
  }

  /** One output format: skipped, a direct hit, or a search of its own. */
  ghost function Consider(r: Roster, target: nat, kind: nat, group: nat, seen: seq<nat>, id: int, j: nat,
                          best: Best): Best
    requires id in r.outputs && j < |r.outputs[id]|
    decreases Unseen(r, seen, kind), 0, 0
  {
    var f := r.outputs[id][j];
    if !Eligible(f, kind, group, seen) then best
    else if f.kind == target then Best(true, [f.kind] + best.path, Product(f), best.path == [])
    else
      Deeper(r, seen, kind, id, j);
      var sub := OverIds(r, target, f.kind, f.group, [kind] + seen, r.all, NOTHING);
      if sub.found && best.quality < sub.quality * Product(f)
      then Best(true, [f.kind] + sub.path, sub.quality * Product(f), sub.fair) else best
  }

  // ----- The search, as the program runs it -----

  /** The recursive part of `FindPath`. `typesSeen` comes back exactly as it was; `path` is set on success. */
  method Search(r: Roster, target: nat, kind: nat, group: nat, ids: seq<int>, typesSeen: TypeList, path: TypeList)
    returns (ok: bool, pathQuality: real, ghost fair: bool)
    requires typesSeen != path
    modifies typesSeen, path
    ensures typesSeen.list == old(typesSeen.list)
    ensures var b := OverIds(r, target, kind, group, old(typesSeen.list), ids, NOTHING);
            && ok == b.found
            && (ok ==> path.list == b.path && pathQuality == b.quality && fair == b.fair)
            && (!ok ==> path.list == old(path.list))
    decreases Unseen(r, typesSeen.list, kind), 2
  {
    var bestPath := new TypeList();
    var bestQuality := -1.0;
    ok := false;
    pathQuality := 0.0;
    fair := true;
    ghost var seen := typesSeen.list;
    var i := 0;
    assert ids[0..] == ids;
    while i < |ids|
      invariant 0 <= i <= |ids| && fresh(bestPath)
      invariant typesSeen.list == seen && path.list == old(path.list)
      invariant OverIds(r, target, kind, group, seen, ids[i..], Best(ok, bestPath.list, bestQuality, fair))
             == OverIds(r, target, kind, group, seen, ids, NOTHING)
    {
      assert ids[i..][0] == ids[i] && ids[i..][1..] == ids[i + 1..];
      var id := ids[i];
      i := i + 1;
      if !Accepts(r, id, kind) { continue; }
      if id !in r.outputs { continue; }
      ok, bestQuality, fair := SearchFormats(r, target, kind, group, id, typesSeen, bestPath, ok, bestQuality, fair);
    }
    if ok {
      pathQuality := bestQuality;
      path.SetTo(bestPath);
    }
  }

  /** The loop over the output formats of one translator. */
  method SearchFormats(r: Roster, target: nat, kind: nat, group: nat, id: int, typesSeen: TypeList, bestPath: TypeList,
                       ok0: bool, bestQuality0: real, ghost fair0: bool)
    returns (ok: bool, bestQuality: real, ghost fair: bool)
    requires typesSeen != bestPath && id in r.outputs
    modifies typesSeen, bestPath
    ensures typesSeen.list == old(typesSeen.list)
    ensures Best(ok, bestPath.list, bestQuality, fair)
         == OverFormats(r, target, kind, group, old(typesSeen.list), id, 0,
                        Best(ok0, old(bestPath.list), bestQuality0, fair0))
    decreases Unseen(r, typesSeen.list, kind), 1
  {
    ghost var seen := typesSeen.list;
    ghost var start := Best(ok0, bestPath.list, bestQuality0, fair0);
    var formats := r.outputs[id];
    ok, bestQuality, fair := ok0, bestQuality0, fair0;
    typesSeen.Add(kind);
    var j := 0;
    while j < |formats|
      invariant 0 <= j <= |formats| && typesSeen.list == [kind] + seen
      invariant OverFormats(r, target, kind, group, seen, id, j, Best(ok, bestPath.list, bestQuality, fair))
             == OverFormats(r, target, kind, group, seen, id, 0, start)
    {
      var f := formats[j];
      ghost var before := Best(ok, bestPath.list, bestQuality, fair);
      ghost var after := Consider(r, target, kind, group, seen, id, j, before);
      assert OverFormats(r, target, kind, group, seen, id, j, before)
          == OverFormats(r, target, kind, group, seen, id, j + 1, after);
      j := j + 1;
      var isSeen := typesSeen.FindType(f.kind);
      assert isSeen <==> f.kind == kind || f.kind in seen;
      if f.group != group || isSeen {
        assert after == before;
        continue;
      }
      var formatQuality := f.quality * f.capability;
      if f.kind == target {
        fair := bestPath.list == [];
        bestPath.Add(f.kind);
        bestQuality := formatQuality;
        ok := true;
        assert Best(ok, bestPath.list, bestQuality, fair) == after;
        continue;
      }
      var sub := new TypeList();
      Deeper(r, seen, kind, id, j - 1);
      var found, quality, subFair := Search(r, target, f.kind, f.group, r.all, typesSeen, sub);
      if found {
        if bestQuality < quality * formatQuality {
          bestQuality := quality * formatQuality;
          fair := subFair;
          bestPath.SetTo(sub);
          bestPath.Add(f.kind);
          ok := true;
        }
      }
      assert Best(ok, bestPath.list, bestQuality, fair) == after;
    }
    typesSeen.Remove(kind);
  }

  datatype Info = Info(translator: int, kind: nat, group: nat)

  /** What asking the roster for the translators of a stream gives. */
  datatype Detection = NoTranslator | Detected(infos: seq<Info>)

  function Translators(infos: seq<Info>): (ids: seq<int>)
    ensures |ids| == |infos| && forall i :: 0 <= i < |ids| ==> ids[i] == infos[i].translator
  {
    if infos == [] then [] else [infos[0].translator] + Translators(infos[1..])
  }

  /** `FindPath` for the input stream. An empty list of translators counts as success with no path. */
  method FindPath(r: Roster, target: nat, detection: Detection, path: TypeList) returns (ok: bool)
    requires detection.Detected? && detection.infos != [] ==> r.all != []
    modifies path
    ensures detection.NoTranslator? ==> !ok
    ensures !ok ==> path.list == old(path.list)
    ensures detection == Detected([]) ==> ok && path.list == old(path.list)
    ensures detection.Detected? && detection.infos != [] ==>
              var info := detection.infos[0];
              var b := OverIds(r, target, info.kind, info.group, [], Translators(detection.infos), NOTHING);
              ok == b.found && (ok ==> path.list == b.path)
  {
    match detection
    case NoTranslator => ok := false;
    case Detected(infos) =>
      if infos == [] { return true; }
      var typesSeen := new TypeList();
      var quality;
      ghost var fair;
      ok, quality, fair := Search(r, target, infos[0].kind, infos[0].group, Translators(infos), typesSeen, path);
  }

  // ----- What a found path is -----

  /** A found path is nonempty, ends in the target, and enters no type seen above or left here. */
  ghost predicate Sound(b: Best, target: nat, kind: nat, seen: seq<nat>) {
    && (b.found ==> b.path != [] && b.path[|b.path| - 1] == target)
    && (!b.found ==> b == NOTHING)
    && (forall k :: k in b.path ==> k != kind && k !in seen)
  }

  /** Only the last type of the path is the target. */
  ghost predicate Clean(path: seq<nat>, target: nat) {
    forall i :: 0 <= i < |path| - 1 ==> path[i] != target
  }

  /** Translator `id` turns type `kind` into its j-th output format, within the group: the type is that of some input
      format of the translator, wherever it stands in its list. */
  ghost predicate Link(r: Roster, id: int, j: nat, kind: nat, group: nat) {
    && id in r.inputs && (exists i :: 0 <= i < |r.inputs[id]| && r.inputs[id][i].kind == kind)
    && id in r.outputs && j < |r.outputs[id]| && r.outputs[id][j].group == group
  }

  /** `path` is a chain of translations, the first by a translator of `ids`. */
  ghost predicate Route(r: Roster, kind: nat, group: nat, ids: seq<int>, path: seq<nat>)
    decreases path
  {
    path != [] && exists id, j: nat :: id in ids && Link(r, id, j, kind, group) && r.outputs[id][j].kind == path[0]
                                       && (path[1..] == [] || Route(r, path[0], group, r.all, path[1..]))
  }

  /** What every step of a search keeps. */
  ghost predicate Good(r: Roster, target: nat, kind: nat, group: nat, seen: seq<nat>, ids: seq<int>, b: Best) {
    && Sound(b, target, kind, seen)
    && (b.fair <==> Clean(b.path, target))
    && (b.found && b.fair ==> Route(r, kind, group, ids, b.path))
  }

  lemma {:induction false} GoodIds(r: Roster, target: nat, kind: nat, group: nat, seen: seq<nat>,
                                   ids: seq<int>, all: seq<int>, best: Best)
    requires Good(r, target, kind, group, seen, all, best) && forall id :: id in ids ==> id in all
    ensures Good(r, target, kind, group, seen, all, OverIds(r, target, kind, group, seen, ids, best))
    decreases Unseen(r, seen, kind), 2, |ids|
  {
    if ids != [] {
      var id := ids[0];
      var next := best;
      if Accepts(r, id, kind) && id in r.outputs {
        GoodFormats(r, target, kind, group, seen, id, 0, all, best);
        next := OverFormats(r, target, kind, group, seen, id, 0, best);
      }
      GoodIds(r, target, kind, group, seen, ids[1..], all, next);
    }
  }

  lemma {:induction false} GoodFormats(r: Roster, target: nat, kind: nat, group: nat, seen: seq<nat>,
                                       id: int, j: nat, all: seq<int>, best: Best)
    requires Accepts(r, id, kind) && id in r.outputs && j <= |r.outputs[id]| && id in all
    requires Good(r, target, kind, group, seen, all, best)
    ensures Good(r, target, kind, group, seen, all, OverFormats(r, target, kind, group, seen, id, j, best))
    decreases Unseen(r, seen, kind), 1, |r.outputs[id]| - j
  {
    if j < |r.outputs[id]| {
      GoodConsider(r, target, kind, group, seen, id, j, all, best);
      GoodFormats(r, target, kind, group, seen, id, j + 1, all, Consider(r, target, kind, group, seen, id, j, best));
    }
  }

  /** A direct hit is put in front of what was found before; the path stays clean exactly when
      nothing was. */
  lemma DirectHit(r: Roster, target: nat, kind: nat, group: nat, seen: seq<nat>, all: seq<int>, best: Best, id: int,
                  j: nat)
    requires Good(r, target, kind, group, seen, all, best) && id in all && Link(r, id, j, kind, group)
    requires r.outputs[id][j].kind == target && target != kind && target !in seen
    ensures Good(r, target, kind, group, seen, all,
                 Best(true, [target] + best.path, Product(r.outputs[id][j]), best.path == []))
  {
    var path := [target] + best.path;
    if best.path != [] {
      assert path[0] == target && 0 < |path| - 1;
    } else {
      assert path[1..] == [];
    }
    assert path[|path| - 1] == target;
  }

  lemma ExtendSub(r: Roster, target: nat, kind: nat, group: nat, seen: seq<nat>, all: seq<int>, sub: Best, id: int,
                  j: nat)
    requires id in all && Link(r, id, j, kind, group)
    requires var f := r.outputs[id][j];
             && Eligible(f, kind, group, seen) && f.kind != target && sub.found
             && Good(r, target, f.kind, f.group, [kind] + seen, r.all, sub)
    ensures var f := r.outputs[id][j];
            Good(r, target, kind, group, seen, all,
                 Best(true, [f.kind] + sub.path, sub.quality * Product(f), sub.fair))
  {
    var f := r.outputs[id][j];
    var path := [f.kind] + sub.path;
    assert path[1..] == sub.path;
    assert path[|path| - 1] == target;
    assert forall k :: k in sub.path ==> k !in [kind] + seen;
    assert kind in [kind] + seen && forall k :: k in seen ==> k in [kind] + seen;
    forall i | 0 <= i < |sub.path| - 1 && Clean(path, target) ensures sub.path[i] != target {
      assert path[i + 1] == sub.path[i];
    }
  }

  lemma {:induction false} GoodConsider(r: Roster, target: nat, kind: nat, group: nat, seen: seq<nat>,
                                        id: int, j: nat, all: seq<int>, best: Best)
    requires Accepts(r, id, kind) && id in r.outputs && j < |r.outputs[id]| && id in all
    requires Good(r, target, kind, group, seen, all, best)
    ensures Good(r, target, kind, group, seen, all, Consider(r, target, kind, group, seen, id, j, best))
    decreases Unseen(r, seen, kind), 0, 0
  {
    var f := r.outputs[id][j];
    if Eligible(f, kind, group, seen) {
      assert Link(r, id, j, kind, group);
      if f.kind == target {
        DirectHit(r, target, kind, group, seen, all, best, id, j);
      } else {
        Deeper(r, seen, kind, id, j);
        var sub := OverIds(r, target, f.kind, f.group, [kind] + seen, r.all, NOTHING);
        GoodIds(r, target, f.kind, f.group, [kind] + seen, r.all, r.all, NOTHING);
        if sub.found { ExtendSub(r, target, kind, group, seen, all, sub, id, j); }
      }
    }
  }

  /** Every success of the whole search: the path is nonempty, ends in the target and stays off the
      input type; it is a chain of translations with the target only at its end exactly when no direct
      hit was put in front of an earlier find. */
  lemma FoundPath(r: Roster, target: nat, kind: nat, group: nat, ids: seq<int>)
    ensures var b := OverIds(r, target, kind, group, [], ids, NOTHING);
            b.found ==>
              && b.path != [] && b.path[|b.path| - 1] == target && kind !in b.path
              && (b.fair <==> Clean(b.path, target))
              && (b.fair ==> Route(r, kind, group, ids, b.path))
  {
    GoodIds(r, target, kind, group, [], ids, ids, NOTHING);
  }

  // ----- The order of input formats -----

  /** Two rosters that differ in the order of their input formats only. */
  ghost predicate SameInputs(r: Roster, q: Roster) {
    && q.all == r.all && q.outputs == r.outputs && q.inputs.Keys == r.inputs.Keys
    && forall id :: id in r.inputs ==> multiset(q.inputs[id]) == multiset(r.inputs[id])
  }

  lemma AcceptsInAnyOrder(r: Roster, q: Roster, id: int, kind: nat)
    requires SameInputs(r, q) && Accepts(r, id, kind)
    ensures Accepts(q, id, kind)
  {
    var i :| 0 <= i < |r.inputs[id]| && r.inputs[id][i].kind == kind;
    var f := r.inputs[id][i];
    assert f in multiset(q.inputs[id]);
    var j :| 0 <= j < |q.inputs[id]| && q.inputs[id][j] == f;
  }

  /** The answer of the search does not depend on the order of the input formats. */
  lemma {:induction false} FoundInAnyOrder(r: Roster, q: Roster, target: nat, kind: nat, group: nat, seen: seq<nat>,
                                           ids: seq<int>, best: Best)
    requires SameInputs(r, q)
    ensures OverIds(q, target, kind, group, seen, ids, best) == OverIds(r, target, kind, group, seen, ids, best)
    decreases Unseen(r, seen, kind), 2, |ids|
  {
    if ids != [] {
      var id := ids[0];
      if Accepts(r, id, kind) { AcceptsInAnyOrder(r, q, id, kind); }
      if Accepts(q, id, kind) { AcceptsInAnyOrder(q, r, id, kind); }
      hide Accepts;
      var next := best;
      if Accepts(r, id, kind) && id in r.outputs {
        FormatsInAnyOrder(r, q, target, kind, group, seen, id, 0, best);
        next := OverFormats(r, target, kind, group, seen, id, 0, best);
      }
      FoundInAnyOrder(r, q, target, kind, group, seen, ids[1..], next);
    }
  }

  lemma {:induction false} FormatsInAnyOrder(r: Roster, q: Roster, target: nat, kind: nat, group: nat, seen: seq<nat>,
                                             id: int, j: nat, best: Best)
    requires SameInputs(r, q) && id in r.outputs && j <= |r.outputs[id]|
    ensures OverFormats(q, target, kind, group, seen, id, j, best)
         == OverFormats(r, target, kind, group, seen, id, j, best)
    decreases Unseen(r, seen, kind), 1, |r.outputs[id]| - j
  {
    if j < |r.outputs[id]| {
      var f := r.outputs[id][j];
      if Eligible(f, kind, group, seen) && f.kind != target {
        Deeper(r, seen, kind, id, j);
        FoundInAnyOrder(r, q, target, f.kind, f.group, [kind] + seen, r.all, NOTHING);
      }
      var next := Consider(r, target, kind, group, seen, id, j, best);
      assert Consider(q, target, kind, group, seen, id, j, best) == next by { hide OverIds, OverFormats; }
      FormatsInAnyOrder(r, q, target, kind, group, seen, id, j + 1, next);
    }
  }

  /** What entering the j-th output format of `id` and searching on from there is worth, if anything. */
  ghost function WorthOf(r: Roster, target: nat, kind: nat, group: nat, seen: seq<nat>, id: int, j: nat): Best
    requires id in r.outputs && j < |r.outputs[id]|
  {
    Consider(r, target, kind, group, seen, id, j, NOTHING)
  }

  // ----- A roster that breaks the search -----
  // Type 1 is the input, 3 the target. No translator turns 1 into 3: translator 5 turns 1 into 4. Translator 10 turns 4
  // into 2, very well, and into 3, badly; translator 20 turns 2 into 3, very well.

  function BadRoster(): Roster {
    Roster([5, 10, 20],
           map[5 := [Format(1, 0, 1.0, 1.0)], 10 := [Format(4, 0, 1.0, 1.0)], 20 := [Format(2, 0, 1.0, 1.0)]],
           map[5 := [Format(4, 0, 1.0, 1.0)], 10 := [Format(2, 0, 1.0, 1.0), Format(3, 0, 0.5, 0.5)],
               20 := [Format(3, 0, 1.0, 1.0)]])
  }

  /** Some translator turns type `kind` into the target in one step, so that no search is needed. */
  predicate Direct(r: Roster, target: nat, kind: nat) {
    exists id :: id in r.outputs && Accepts(r, id, kind)
                 && exists j :: 0 <= j < |r.outputs[id]| && r.outputs[id][j].kind == target
  }

  lemma BadRosterAccepts()
    ensures forall kind :: Accepts(BadRoster(), 5, kind) <==> kind == 1
    ensures forall kind :: Accepts(BadRoster(), 10, kind) <==> kind == 4
    ensures forall kind :: Accepts(BadRoster(), 20, kind) <==> kind == 2
  {
    var r := BadRoster();
    assert r.inputs[5][0].kind == 1 && r.inputs[10][0].kind == 4 && r.inputs[20][0].kind == 2;
  }

  // The search skips a translator that does not accept the type.
  lemma SkipId(r: Roster, target: nat, kind: nat, group: nat, seen: seq<nat>, id: int, ids: seq<int>, best: Best)
    requires !Accepts(r, id, kind)
    ensures OverIds(r, target, kind, group, seen, [id] + ids, best)
            == OverIds(r, target, kind, group, seen, ids, best)
  {
    assert ([id] + ids)[1..] == ids;
    hide OverFormats;
  }

  // The search takes the only translator that accepts the type.
  lemma TakeId(r: Roster, target: nat, kind: nat, group: nat, seen: seq<nat>, id: int, ids: seq<int>, best: Best)
    requires Accepts(r, id, kind) && id in r.outputs
    ensures OverIds(r, target, kind, group, seen, [id] + ids, best)
            == OverIds(r, target, kind, group, seen, ids, OverFormats(r, target, kind, group, seen, id, 0, best))
  {
    assert ([id] + ids)[1..] == ids;
    hide OverFormats;
  }

  /** The search on type 2: translator 20 hits the target. */
  lemma BadRosterInner()
    ensures OverIds(BadRoster(), 3, 2, 0, [4, 1], [5, 10, 20], NOTHING) == Best(true, [3], 1.0, true)
  {
    var r, hit := BadRoster(), Best(true, [3], 1.0, true);
    BadRosterAccepts();
    assert OverFormats(r, 3, 2, 0, [4, 1], 20, 0, NOTHING) == hit by {
      assert Consider(r, 3, 2, 0, [4, 1], 20, 0, NOTHING) == hit;
      assert OverFormats(r, 3, 2, 0, [4, 1], 20, 1, hit) == hit;
    }
    assert OverIds(r, 3, 2, 0, [4, 1], [], hit) == hit;
    hide OverFormats, OverIds, BadRoster;
    SkipId(r, 3, 2, 0, [4, 1], 5, [10, 20], NOTHING);
    SkipId(r, 3, 2, 0, [4, 1], 10, [20], NOTHING);
    TakeId(r, 3, 2, 0, [4, 1], 20, [], NOTHING);
    assert [5, 10, 20] == [5] + [10, 20] && [10, 20] == [10] + [20] && [20] == [20] + [];
  }

  lemma BadRosterFind()
    ensures Consider(BadRoster(), 3, 4, 0, [1], 10, 0, NOTHING) == Best(true, [2, 3], 1.0, true)
  {
    BadRosterInner();
    hide OverIds;
    assert [4] + [1] == [4, 1];
  }

  lemma BadRosterHit()
    ensures Consider(BadRoster(), 3, 4, 0, [1], 10, 1, Best(true, [2, 3], 1.0, true))
        == Best(true, [3, 2, 3], 0.25, false)
  {
    hide OverIds;
  }

  /** The formats of translator 10 on type 4: a find through type 2, and a direct hit. */
  lemma BadRosterFormats()
    ensures OverFormats(BadRoster(), 3, 4, 0, [1], 10, 0, NOTHING) == Best(true, [3, 2, 3], 0.25, false)
    ensures WorthOf(BadRoster(), 3, 4, 0, [1], 10, 0).quality == 1.0
  {
    var r := BadRoster();
    var first, second := Best(true, [2, 3], 1.0, true), Best(true, [3, 2, 3], 0.25, false);
    BadRosterFind();
    BadRosterHit();
    hide Consider;
    assert OverFormats(r, 3, 4, 0, [1], 10, 2, second) == second;
    assert OverFormats(r, 3, 4, 0, [1], 10, 1, first) == second;
    assert OverFormats(r, 3, 4, 0, [1], 10, 0, NOTHING) == second;
  }

  /** The search on type 4. */
  lemma BadRosterMiddle()
    ensures OverIds(BadRoster(), 3, 4, 0, [1], [5, 10, 20], NOTHING) == Best(true, [3, 2, 3], 0.25, false)
  {
    var r, best := BadRoster(), Best(true, [3, 2, 3], 0.25, false);
    BadRosterAccepts();
    BadRosterFormats();
    assert 10 in r.outputs && OverIds(r, 3, 4, 0, [1], [], best) == best;
    hide OverFormats, OverIds, BadRoster, WorthOf;
    SkipId(r, 3, 4, 0, [1], 5, [10, 20], NOTHING);
    TakeId(r, 3, 4, 0, [1], 10, [20], NOTHING);
    SkipId(r, 3, 4, 0, [1], 20, [], best);
    assert [5, 10, 20] == [5] + [10, 20] && [10, 20] == [10] + [20] && [20] == [20] + [];
  }

  lemma BadRosterFirst()
    ensures Consider(BadRoster(), 3, 1, 0, [], 5, 0, NOTHING) == Best(true, [4, 3, 2, 3], 0.25, false)
  {
    BadRosterMiddle();
    hide OverIds, OverFormats;
    assert [1] + [] == [1] && [4] + [3, 2, 3] == [4, 3, 2, 3];
  }

  lemma BadRosterOuter()
    ensures OverFormats(BadRoster(), 3, 1, 0, [], 5, 0, NOTHING) == Best(true, [4, 3, 2, 3], 0.25, false)
  {
    var r, best := BadRoster(), Best(true, [4, 3, 2, 3], 0.25, false);
    BadRosterFirst();
    hide Consider, OverIds;
    assert OverFormats(r, 3, 1, 0, [], 5, 1, best) == best;
    assert |r.outputs[5]| == 1;
  }

  lemma BadRosterNoRoute()
    ensures !Route(BadRoster(), 1, 0, [5], [4, 3, 2, 3])
  {
    var r := BadRoster();
    BadRosterAccepts();
    hide Accepts;
    assert [4, 3, 2, 3][1..] == [3, 2, 3] && [3, 2, 3][1..] == [2, 3];
    assert !Route(r, 3, 0, r.all, [2, 3]);
    assert !Route(r, 4, 0, r.all, [3, 2, 3]);
  }

  lemma BadRosterIndirect()
    ensures !Direct(BadRoster(), 3, 1)
  {
    BadRosterAccepts();
    hide Accepts;
  }

  /** With no direct translation, the path found is 4, 3, 2, 3, with the quality of the bad step from 4 to 3: it has the
      target before its end, is no chain of translations, and is worth less than 4, 2, 3, which was found first. */
  lemma SearchCanBreak()
    ensures !Direct(BadRoster(), 3, 1)
    ensures var b := OverIds(BadRoster(), 3, 1, 0, [], [5], NOTHING);
            && b == Best(true, [4, 3, 2, 3], 0.25, false)
            && !Clean(b.path, 3) && !Route(BadRoster(), 1, 0, [5], b.path)
            && WorthOf(BadRoster(), 3, 4, 0, [1], 10, 0).quality == 1.0
  {
    var r, path := BadRoster(), [4, 3, 2, 3];
    var best := Best(true, path, 0.25, false);
    BadRosterIndirect();
    BadRosterNoRoute();
    BadRosterOuter();
    BadRosterFormats();
    BadRosterAccepts();
    hide Direct, OverFormats, WorthOf, Accepts, Route;
    assert OverIds(r, 3, 1, 0, [], [], best) == best && 5 in r.outputs;
    hide OverIds, BadRoster;
    TakeId(r, 3, 1, 0, [], 5, [], NOTHING);
    assert [5] == [5] + [];
    assert path[1] == 3;
  }

  // ----- Running the path -----

  /** A translation of some content into a type, or nothing if it fails. */
  type Translation = (seq<int>, nat) -> Option<seq<int>>

  class Stream {
    var content: seq<int>

    constructor (content: seq<int>)
      ensures this.content == content
    {
      this.content := content;
    }
  }

  /** The translations along `path`, one after the other. */
  function Compose(tr: Translation, content: seq<int>, path: seq<nat>): Option<seq<int>>
    decreases path
  {
    if path == [] then Some(content)
    else match tr(content, path[0])
      case None => None
      case Some(next) => Compose(tr, next, path[1..])
  }

  /** What the i-th step reads. */
  function Source(i: nat, input: seq<int>, buf0: seq<int>, buf1: seq<int>): seq<int> {
    if i == 0 then input else if i % 2 == 1 then buf0 else buf1
  }

  /** The pipeline from its i-th step on: what ends up in the output file, given what the input file,
      the two buffers and the output file hold. */
  function Pipeline(tr: Translation, target: nat, path: seq<nat>, i: nat,
                    input: seq<int>, buf0: seq<int>, buf1: seq<int>, out: seq<int>): Option<seq<int>>
    requires i <= |path|
    decreases |path| - i
  {
    if i == |path| then Some(out)
    else match tr(Source(i, input, buf0, buf1), path[i])
      case None => None
      case Some(next) =>
        if path[i] == target then Pipeline(tr, target, path, i + 1, input, buf0, buf1, out + next)
        else if i % 2 == 0 then Pipeline(tr, target, path, i + 1, input, next, buf1, out)
        else Pipeline(tr, target, path, i + 1, input, buf0, next, out)
  }

  /** `Indirectly`, after the path has been found: two buffers fill each other until the target type
      goes to the output file. */
  method RunPath(tr: Translation, target: nat, path: seq<nat>, input: Stream, output: Stream) returns (ok: bool)
    requires input != output
    modifies output
    ensures var result := Pipeline(tr, target, path, 0, input.content, [], [], old(output.content));
            ok == result.Some? && (ok ==> output.content == result.value)
  {
    var buffer0 := new Stream([]);
    var buffer1 := new Stream([]);
    var inputStream, outputStream := input, buffer0;
    var i := 0;
    while i < |path|
      invariant 0 <= i <= |path| && fresh(buffer0) && fresh(buffer1) && buffer0 != buffer1
      invariant input.content == old(input.content)
      invariant inputStream == if i == 0 then input else if i % 2 == 1 then buffer0 else buffer1
      invariant outputStream == if i % 2 == 0 then buffer0 else buffer1
      invariant Pipeline(tr, target, path, i, input.content, buffer0.content, buffer1.content, output.content)
             == Pipeline(tr, target, path, 0, input.content, [], [], old(output.content))
    {
      var kind := path[i];
      if kind == target {
        outputStream := output;
      } else {
        outputStream.content := [];
      }
      var result := tr(inputStream.content, kind);
      match result {
        case None => return false;
        case Some(next) =>
          assert [] + next == next;
          outputStream.content := outputStream.content + next;
      }
      inputStream := if i % 2 == 0 then buffer0 else buffer1;
      outputStream := if (i + 1) % 2 == 0 then buffer0 else buffer1;
      i := i + 1;
    }
    ok := true;
  }

  /** From here on, only the last type of the path is the target. */
  ghost predicate CleanFrom(path: seq<nat>, i: nat, target: nat) {
    i < |path| && path[|path| - 1] == target && forall k :: i <= k < |path| - 1 ==> path[k] != target
  }

  /** Along a path with the target only at its end, the pipeline computes the composition, from any step on. */
  lemma {:induction false} CleanPipeline(tr: Translation, target: nat, path: seq<nat>, i: nat,
                                         input: seq<int>, buf0: seq<int>, buf1: seq<int>, out: seq<int>)
    requires CleanFrom(path, i, target)
    ensures Pipeline(tr, target, path, i, input, buf0, buf1, out)
         == match Compose(tr, Source(i, input, buf0, buf1), path[i..])
            case None => None
            case Some(result) => Some(out + result)
    decreases |path| - i
  {
    assert path[i..][0] == path[i] && path[i..][1..] == path[i + 1..];
    match tr(Source(i, input, buf0, buf1), path[i])
    case None =>
    case Some(next) =>
      if i == |path| - 1 {
        assert path[i + 1..] == [];
      } else if i % 2 == 0 {
        CleanPipeline(tr, target, path, i + 1, input, next, buf1, out);
      } else {
        CleanPipeline(tr, target, path, i + 1, input, buf0, next, out);
      }
  }

  /** `Indirectly`: finds the path and runs it. Without a path nothing is written. */
  method Indirectly(r: Roster, tr: Translation, target: nat, detection: Detection, input: Stream, output: Stream)
    returns (ok: bool)
    requires detection.Detected? && detection.infos != [] ==> r.all != []
    requires input != output
    modifies output
    ensures detection.NoTranslator? ==> !ok && output.content == old(output.content)
    ensures detection.Detected? && detection.infos != [] ==>
              var info := detection.infos[0];
              var b := OverIds(r, target, info.kind, info.group, [], Translators(detection.infos), NOTHING);
              && (!b.found ==> !ok && output.content == old(output.content))
              && (b.found ==>
                    var result := Pipeline(tr, target, b.path, 0, input.content, [], [], old(output.content));
                    ok == result.Some? && (ok ==> output.content == result.value))
  {
    var path := new TypeList();
    ok := FindPath(r, target, detection, path);
    if !ok { return; }
    ok := RunPath(tr, target, path.list, input, output);
  }

  /** A fair search and the pipeline together: the output file receives the composition of a chain of
      translators of the roster, from the input's type to the target. */
  lemma FairSearchTranslates(r: Roster, target: nat, kind: nat, group: nat, ids: seq<int>,
                             tr: Translation, input: seq<int>)
    requires var b := OverIds(r, target, kind, group, [], ids, NOTHING); b.found && b.fair
    ensures var path := OverIds(r, target, kind, group, [], ids, NOTHING).path;
            && Route(r, kind, group, ids, path) && path[|path| - 1] == target
            && Pipeline(tr, target, path, 0, input, [], [], []) == Compose(tr, input, path)
  {
    FoundPath(r, target, kind, group, ids);
    var path := OverIds(r, target, kind, group, [], ids, NOTHING).path;
    CleanPipeline(tr, target, path, 0, input, [], [], []);
    assert path[0..] == path;
    match Compose(tr, input, path)
    case None =>
    case Some(result) => assert [] + result == result;
  }

  // ----- What a late hit writes -----

  lemma {:induction false} ComposeLast(tr: Translation, content: seq<int>, path: seq<nat>, kind: nat)
    ensures Compose(tr, content, path + [kind])
            == match Compose(tr, content, path)
               case None => None
               case Some(next) => tr(next, kind)
    decreases |path|
  {
    var all := path + [kind];
    if path == [] {
      assert all[1..] == [];
    } else {
      assert all[1..] == path[1..] + [kind];
      match tr(content, path[0])
      case None =>
      case Some(next) => ComposeLast(tr, next, path[1..], kind);
    }
  }

  /** What buffer `b` holds after the translations along `path`: the one filled last holds their composition, the other
      one what the last translation read, unless that was the input file. */
  function Buffer(tr: Translation, input: seq<int>, path: seq<nat>, b: nat): seq<int> {
    var n := |path|;
    var filled := if n % 2 != b then Compose(tr, input, path)
                  else if n >= 2 then Compose(tr, input, path[..n - 1])
                  else Some([]);
    if n == 0 || filled == None then [] else filled.value
  }

  // The pipeline runs along the front of a path.
  lemma {:induction false} PipelineFront(tr: Translation, target: nat, path: seq<nat>, n: nat, input: seq<int>,
                                         out: seq<int>)
    requires n <= |path| && target !in path[..n] && Compose(tr, input, path[..n]).Some?
    ensures Pipeline(tr, target, path, 0, input, [], [], out)
            == Pipeline(tr, target, path, n, input, Buffer(tr, input, path[..n], 0), Buffer(tr, input, path[..n], 1),
                        out)
    ensures Source(n, input, Buffer(tr, input, path[..n], 0), Buffer(tr, input, path[..n], 1))
            == Compose(tr, input, path[..n]).value
    decreases n
  {
    if n > 0 {
      var front := path[..n - 1];
      assert path[..n] == front + [path[n - 1]] && path[..n][..n - 1] == front;
      ComposeLast(tr, input, front, path[n - 1]);
      PipelineFront(tr, target, path, n - 1, input, out);
      assert path[n - 1] in path[..n];
      hide Compose;
    }
  }

  /** What the output file receives along a path that goes through the target to the target: the composition up to the
      first target, and behind it what the rest of the path makes of the other buffer. That buffer is empty, if at most
      one translation came before the first target, and holds what the last of them read, if there were more. */
  function ThroughTarget(tr: Translation, target: nat, pre: seq<nat>, rest: seq<nat>,
                         input: seq<int>): Option<seq<int>> {
    match Compose(tr, input, pre + [target])
    case None => None
    case Some(first) =>
      var stale := if |pre| < 2 then Some([]) else Compose(tr, input, pre[..|pre| - 1]);
      match stale
      case None => None
      case Some(content) =>
        match Compose(tr, content, rest)
        case None => None
        case Some(second) => Some(first + second)
  }

  lemma {:induction false} PipelineFails(tr: Translation, target: nat, path: seq<nat>, n: nat, input: seq<int>,
                                         out: seq<int>)
    requires n <= |path| && target !in path[..n] && Compose(tr, input, path[..n]) == None
    ensures Pipeline(tr, target, path, 0, input, [], [], out) == None
    decreases n
  {
    if n > 0 {
      var front := path[..n - 1];
      assert path[..n] == front + [path[n - 1]];
      ComposeLast(tr, input, front, path[n - 1]);
      hide Compose, Buffer;
      if Compose(tr, input, front) == None {
        PipelineFails(tr, target, path, n - 1, input, out);
      } else {
        PipelineFront(tr, target, path, n - 1, input, out);
      }
    }
  }

  /** The output file receives just that: the translation into the target, and behind it that of stale content. */
  lemma UnfairPipeline(tr: Translation, target: nat, pre: seq<nat>, rest: seq<nat>, input: seq<int>)
    requires target !in pre && CleanFrom(rest, 0, target)
    ensures Pipeline(tr, target, pre + [target] + rest, 0, input, [], [], [])
            == ThroughTarget(tr, target, pre, rest, input)
  {
    var path, n := pre + [target] + rest, |pre|;
    assert path[..n] == pre && path[n] == target && path[n + 1..] == rest;
    ComposeLast(tr, input, pre, target);
    if Compose(tr, input, pre) == None {
      PipelineFails(tr, target, path, n, input, []);
    } else {
      PipelineFront(tr, target, path, n, input, []);
      var buf0, buf1 := Buffer(tr, input, pre, 0), Buffer(tr, input, pre, 1);
      match tr(Compose(tr, input, pre).value, target)
      case None =>
      case Some(first) =>
        assert [] + first == first;
        CleanPipeline(tr, target, path, n + 1, input, buf0, buf1, first);
        if n >= 2 {
          assert pre == pre[..n - 1] + [pre[n - 1]];
          ComposeLast(tr, input, pre[..n - 1], pre[n - 1]);
        }
    }
    hide Compose;
  }
}
