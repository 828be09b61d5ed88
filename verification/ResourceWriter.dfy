/** The write state of `xres.cpp`: output files, inclusion and exclusion patterns, and the resources that a
    command line puts into each output file. */
module ResourceWriter {
  import opened Basics

  const ANY_TYPE: int := 0x414E5954
  const DEFAULT_OUTPUT := "xres.output.rsrc"

  datatype Key = Key(typeCode: int, id: int)

  datatype Resource = Resource(name: Option<string>, data: seq<bv8>)

  type Contents = map<Key, Resource>

  datatype Pattern = Pattern(key: Key, wildcard: bool) {
    predicate Matches(other: Key) {
      (key.typeCode == other.typeCode || key.typeCode == ANY_TYPE) && (wildcard || key.id == other.id)
    }
  }

  /** What one command asks of the state. An input file is the resources read from it, added one by one. */
  datatype Step = SetOutput(path: string) | Include(pattern: Pattern) | Exclude(pattern: Pattern)
                | Add(key: Key, resource: Resource)

  // ---- What a run means, read off the list of its steps

  // The settings in force before step n.
  function OutputAt(steps: seq<Step>, n: nat): string
    requires n <= |steps|
  {
    if n == 0 then DEFAULT_OUTPUT
    else if steps[n - 1].SetOutput? then steps[n - 1].path else OutputAt(steps, n - 1)
  }

  function InclusionAt(steps: seq<Step>, n: nat): Option<Pattern>
    requires n <= |steps|
  {
    if n == 0 then None else if steps[n - 1].Include? then Some(steps[n - 1].pattern) else InclusionAt(steps, n - 1)
  }

  function ExclusionAt(steps: seq<Step>, n: nat): Option<Pattern>
    requires n <= |steps|
  {
    if n == 0 then None else if steps[n - 1].Exclude? then Some(steps[n - 1].pattern) else ExclusionAt(steps, n - 1)
  }

  predicate Passes(inclusion: Option<Pattern>, exclusion: Option<Pattern>, key: Key) {
    !((inclusion.Some? && !inclusion.value.Matches(key)) || (exclusion.Some? && exclusion.value.Matches(key)))
  }

  // Step i adds a resource under this key, and the patterns in force let it through.
  predicate Writes(steps: seq<Step>, i: nat, key: Key) {
    && i < |steps|
    && steps[i].Add? && steps[i].key == key
    && Passes(InclusionAt(steps, i), ExclusionAt(steps, i), key)
  }

  // No change of the output file from step i on, before step n.
  predicate SameSegment(steps: seq<Step>, i: nat, n: nat) {
    i <= n <= |steps| && forall j :: i <= j < n ==> !steps[j].SetOutput?
  }

  /** The resources gathered for the current output file before step n. */
  function Gathered(steps: seq<Step>, n: nat): Contents
    requires n <= |steps|
  {
    if n == 0 || steps[n - 1].SetOutput? then map[]
    else
      var before, step := Gathered(steps, n - 1), steps[n - 1];
      if step.Add? && Writes(steps, n - 1, step.key) then before[step.key := step.resource] else before
  }

  // The last step before n that adds to this output file, accepted or not.
  function LastAttempt(steps: seq<Step>, n: nat, path: string): (at: Option<nat>)
    requires n <= |steps|
    ensures at.Some? ==> at.value < n && steps[at.value].Add? && OutputAt(steps, at.value) == path
    ensures forall i :: (if at.Some? then at.value + 1 else 0) <= i < n && steps[i].Add? ==> OutputAt(steps, i) != path
  {
    if n == 0 then None
    else if steps[n - 1].Add? && OutputAt(steps, n - 1) == path then Some(n - 1)
    else LastAttempt(steps, n - 1, path)
  }

  /** What a file holds after the run: untouched without an attempt to add to it, and otherwise exactly the
      resources of the segment of commands that the last attempt belongs to. */
  ghost predicate HoldsAfter(steps: seq<Step>, n: nat, before: map<string, Contents>, disk: map<string, Contents>,
                             path: string)
    requires n <= |steps|
  {
    match LastAttempt(steps, n, path)
    case None => (path in disk <==> path in before) && (path in disk ==> disk[path] == before[path])
    case Some(at) => path in disk && disk[path] == Gathered(steps, at + 1)
  }

  ghost predicate Holds(steps: seq<Step>, before: map<string, Contents>, disk: map<string, Contents>) {
    forall path :: HoldsAfter(steps, |steps|, before, disk, path)
  }

  // Step i writes the key into the segment that is open before step n.
  predicate WritesInto(steps: seq<Step>, i: nat, n: nat, key: Key) {
    i < n && SameSegment(steps, i, n) && Writes(steps, i, key)
  }

  // The last write to the key in the segment that is open before step n.
  function LastWrite(steps: seq<Step>, n: nat, key: Key): Option<nat>
    requires n <= |steps|
  {
    if n == 0 || steps[n - 1].SetOutput? then None
    else if Writes(steps, n - 1, key) then Some(n - 1) else LastWrite(steps, n - 1, key)
  }

  lemma SegmentStep(steps: seq<Step>, i: nat, n: nat)
    requires 0 < n <= |steps| && !steps[n - 1].SetOutput?
    ensures i < n ==> (SameSegment(steps, i, n) <==> SameSegment(steps, i, n - 1))
    ensures SameSegment(steps, n - 1, n)
  {
    if i < n && SameSegment(steps, i, n - 1) {
      assert forall j :: i <= j < n ==> !steps[j].SetOutput?;
    }
  }

  lemma {:induction false} LastWriteIsLast(steps: seq<Step>, n: nat, key: Key, i: nat)
    requires n <= |steps|
    ensures var at := LastWrite(steps, n, key);
            && (at.Some? ==> WritesInto(steps, at.value, n, key))
            && (WritesInto(steps, i, n, key) ==> at.Some? && i <= at.value)
  {
    if n > 0 && !steps[n - 1].SetOutput? {
      hide SameSegment, Writes;
      SegmentStep(steps, i, n);
      SegmentStep(steps, n - 1, n);
      LastWriteIsLast(steps, n - 1, key, i);
      var at := LastWrite(steps, n - 1, key);
      if at.Some? {
        SegmentStep(steps, at.value, n);
      }
    }
  }

  lemma {:induction false} GatheredIsLastWrite(steps: seq<Step>, n: nat, key: Key)
    requires n <= |steps|
    ensures LastWrite(steps, n, key).Some? ==> LastWrite(steps, n, key).value < n
    ensures key in Gathered(steps, n) <==> LastWrite(steps, n, key).Some?
    ensures key in Gathered(steps, n) ==>
              var i := LastWrite(steps, n, key).value;
              steps[i].Add? && Gathered(steps, n)[key] == steps[i].resource
  {
    if n > 0 && !steps[n - 1].SetOutput? {
      GatheredIsLastWrite(steps, n - 1, key);
    }
  }

  /** Of the writes to one key in a segment the last one wins, and a key that no write names is not there. */
  lemma {:induction false} LastWriteWins(steps: seq<Step>, n: nat, key: Key)
    requires n <= |steps|
    ensures (exists i: nat :: WritesInto(steps, i, n, key)) <==> key in Gathered(steps, n)
    ensures key in Gathered(steps, n) ==>
              exists i: nat :: WritesInto(steps, i, n, key) && Gathered(steps, n)[key] == steps[i].resource
                               && forall j: nat :: WritesInto(steps, j, n, key) ==> j <= i
  {
    hide Gathered, LastWrite, WritesInto;
    GatheredIsLastWrite(steps, n, key);
    forall i: nat
      ensures WritesInto(steps, i, n, key) ==> LastWrite(steps, n, key).Some? && i <= LastWrite(steps, n, key).value
    {
      LastWriteIsLast(steps, n, key, i);
    }
    LastWriteIsLast(steps, n, key, 0);
  }

  /** A pattern without an id is for every id of its type, one with an id for that id alone, and one of the any-type for
      every type. A key is in a segment exactly if some step of the segment adds it that the inclusion pattern then in
      force, if there is one, is for, and the exclusion pattern, if there is one, is not for. */
  lemma KeyInSegment(steps: seq<Step>, n: nat, key: Key)
    requires n <= |steps|
    ensures key in Gathered(steps, n) <==>
            exists i: nat :: i < n && SameSegment(steps, i, n) && steps[i].Add? && steps[i].key == key
              && (InclusionAt(steps, i).Some? ==>
                    var p := InclusionAt(steps, i).value;
                    && (p.key.typeCode == key.typeCode || p.key.typeCode == 0x414E5954)
                    && (p.wildcard || p.key.id == key.id))
              && (ExclusionAt(steps, i).Some? ==>
                    var p := ExclusionAt(steps, i).value;
                    || (p.key.typeCode != key.typeCode && p.key.typeCode != 0x414E5954)
                    || (!p.wildcard && p.key.id != key.id))
  {
    hide Gathered, InclusionAt, ExclusionAt, SameSegment;
    LastWriteWins(steps, n, key);
    if i: nat :| WritesInto(steps, i, n, key) {
      assert SameSegment(steps, i, n);
    }
    if i: nat :| i < n && SameSegment(steps, i, n) && steps[i].Add? && steps[i].key == key
                 && Passes(InclusionAt(steps, i), ExclusionAt(steps, i), key) {
      assert WritesInto(steps, i, n, key);
    }
  }

  /** The settings in force are those of the last step that changed them. */
  lemma {:induction false} SettingsAreLatest(steps: seq<Step>, n: nat, i: nat)
    requires i < n <= |steps|
    ensures steps[i].Include? && (forall j :: i < j < n ==> !steps[j].Include?) ==>
              InclusionAt(steps, n) == Some(steps[i].pattern)
    ensures steps[i].Exclude? && (forall j :: i < j < n ==> !steps[j].Exclude?) ==>
              ExclusionAt(steps, n) == Some(steps[i].pattern)
    ensures steps[i].SetOutput? && (forall j :: i < j < n ==> !steps[j].SetOutput?) ==>
              OutputAt(steps, n) == steps[i].path
  {
    if i < n - 1 {
      SettingsAreLatest(steps, n - 1, i);
    }
  }

  /** Before any change there is no pattern, and the output file is the default one. */
  lemma {:induction false} SettingsAtFirst(steps: seq<Step>, n: nat)
    requires n <= |steps|
    ensures (forall j :: 0 <= j < n ==> !steps[j].Include?) ==> InclusionAt(steps, n) == None
    ensures (forall j :: 0 <= j < n ==> !steps[j].Exclude?) ==> ExclusionAt(steps, n) == None
    ensures (forall j :: 0 <= j < n ==> !steps[j].SetOutput?) ==> OutputAt(steps, n) == "xres.output.rsrc"
  {
    if n > 0 {
      SettingsAtFirst(steps, n - 1);
    }
  }

  // ---- The state

  function InputSteps(entries: seq<(Key, Resource)>): seq<Step> {
    seq(|entries|, i requires 0 <= i < |entries| => Add(entries[i].0, entries[i].1))
  }

  // What does not depend on later steps.
  lemma {:induction false} Prefix(steps: seq<Step>, more: seq<Step>, n: nat)
    requires n <= |steps|
    ensures OutputAt(steps + more, n) == OutputAt(steps, n)
    ensures InclusionAt(steps + more, n) == InclusionAt(steps, n)
    ensures ExclusionAt(steps + more, n) == ExclusionAt(steps, n)
    ensures Gathered(steps + more, n) == Gathered(steps, n)
  {
    if n > 0 {
      Prefix(steps, more, n - 1);
    }
  }

  lemma {:induction false} AttemptPrefix(steps: seq<Step>, more: seq<Step>, n: nat, path: string)
    requires n <= |steps|
    ensures LastAttempt(steps + more, n, path) == LastAttempt(steps, n, path)
  {
    if n > 0 {
      Prefix(steps, more, n - 1);
      AttemptPrefix(steps, more, n - 1, path);
    }
  }

  lemma HoldsAfterPrefix(steps: seq<Step>, step: Step, before: map<string, Contents>, disk: map<string, Contents>,
                         path: string)
    ensures HoldsAfter(steps + [step], |steps|, before, disk, path) == HoldsAfter(steps, |steps|, before, disk, path)
  {
    AttemptPrefix(steps, [step], |steps|, path);
    var at := LastAttempt(steps, |steps|, path);
    if at.Some? {
      Prefix(steps, [step], at.value + 1);
    }
  }

  lemma SettingsHold(steps: seq<Step>, step: Step, before: map<string, Contents>, disk: map<string, Contents>)
    requires !step.Add? && Holds(steps, before, disk)
    ensures Holds(steps + [step], before, disk)
  {
    var t, n := steps + [step], |steps|;
    forall path: string ensures HoldsAfter(t, |t|, before, disk, path) {
      assert HoldsAfter(steps, n, before, disk, path);
      HoldsAfterPrefix(steps, step, before, disk, path);
      assert LastAttempt(t, n + 1, path) == LastAttempt(t, n, path);
    }
  }

  // One more step that only changes settings.
  lemma SettingsStep(steps: seq<Step>, step: Step, before: map<string, Contents>, disk: map<string, Contents>)
    requires !step.Add? && Holds(steps, before, disk)
    ensures var n := |steps|;
            && OutputAt(steps + [step], n + 1) == (if step.SetOutput? then step.path else OutputAt(steps, n))
            && InclusionAt(steps + [step], n + 1)
               == (if step.Include? then Some(step.pattern) else InclusionAt(steps, n))
            && ExclusionAt(steps + [step], n + 1)
               == (if step.Exclude? then Some(step.pattern) else ExclusionAt(steps, n))
            && Gathered(steps + [step], n + 1) == (if step.SetOutput? then map[] else Gathered(steps, n))
    ensures Holds(steps + [step], before, disk)
  {
    Prefix(steps, [step], |steps|);
    assert (steps + [step])[|steps|] == step;
    SettingsHold(steps, step, before, disk);
    hide Holds;
  }

  function WithStep(steps: seq<Step>, step: Step): Contents
    requires step.Add?
  {
    var n := |steps|;
    if Passes(InclusionAt(steps, n), ExclusionAt(steps, n), step.key) then Gathered(steps, n)[step.key := step.resource]
    else Gathered(steps, n)
  }

  lemma HoldsStep(t: seq<Step>, n: nat, before: map<string, Contents>, disk: map<string, Contents>,
                  after: map<string, Contents>, path: string)
    requires |t| == n + 1 && t[n].Add? && HoldsAfter(t, n, before, disk, path)
    requires after == disk[OutputAt(t, n) := Gathered(t, n + 1)]
    ensures HoldsAfter(t, n + 1, before, after, path)
  {
    hide Gathered, OutputAt;
    if path == OutputAt(t, n) {
      assert LastAttempt(t, n + 1, path) == Some(n);
    } else {
      assert LastAttempt(t, n + 1, path) == LastAttempt(t, n, path);
    }
  }

  lemma AddHolds(steps: seq<Step>, step: Step, before: map<string, Contents>, disk: map<string, Contents>,
                 after: map<string, Contents>)
    requires step.Add? && Holds(steps, before, disk)
    requires after == disk[OutputAt(steps, |steps|) := WithStep(steps, step)]
    ensures Holds(steps + [step], before, after)
  {
    var t, n := steps + [step], |steps|;
    assert t[n] == step;
    Prefix(steps, [step], n);
    assert Gathered(t, n + 1) == WithStep(steps, step);
    hide Gathered, OutputAt, WithStep, HoldsAfter;
    forall path: string ensures HoldsAfter(t, |t|, before, after, path) {
      assert HoldsAfter(steps, n, before, disk, path);
      HoldsAfterPrefix(steps, step, before, disk, path);
      HoldsStep(t, n, before, disk, after, path);
    }
  }

  // One more attempt to add a resource.
  lemma AddStep(steps: seq<Step>, step: Step, before: map<string, Contents>, disk: map<string, Contents>,
                after: map<string, Contents>)
    requires step.Add? && Holds(steps, before, disk)
    requires after == disk[OutputAt(steps, |steps|) := WithStep(steps, step)]
    ensures var n := |steps|;
            && OutputAt(steps + [step], n + 1) == OutputAt(steps, n)
            && InclusionAt(steps + [step], n + 1) == InclusionAt(steps, n)
            && ExclusionAt(steps + [step], n + 1) == ExclusionAt(steps, n)
            && Gathered(steps + [step], n + 1) == WithStep(steps, step)
    ensures Holds(steps + [step], before, after)
  {
    Prefix(steps, [step], |steps|);
    assert (steps + [step])[|steps|] == step;
    AddHolds(steps, step, before, disk, after);
    hide Holds;
  }

  class WriteFileState {
    var disk: map<string, Contents>
    var outputPath: string
    var resources: Option<Contents>
    var inclusion: Option<Pattern>
    var exclusion: Option<Pattern>

    constructor (disk: map<string, Contents>)
      ensures this.disk == disk && Follows([], disk)
    {
      this.disk := disk;
      outputPath, resources, inclusion, exclusion := DEFAULT_OUTPUT, None, None, None;
    }

    // The file system as it will be once the open output file is written.
    ghost function Flushed(): map<string, Contents>
      reads this
    {
      if resources.Some? then disk[outputPath := resources.value] else disk
    }

    /** The state is the one that these steps lead to. */
    ghost predicate Follows(steps: seq<Step>, before: map<string, Contents>)
      reads this
    {
      var n := |steps|;
      && outputPath == OutputAt(steps, n)
      && inclusion == InclusionAt(steps, n)
      && exclusion == ExclusionAt(steps, n)
      && Gathered(steps, n) == (if resources.Some? then resources.value else map[])
      && Holds(steps, before, Flushed())
    }

    method FlushOutput()
      modifies this`disk, this`resources
      ensures disk == old(Flushed()) && resources == None
    {
      if resources.Some? {
        disk := disk[outputPath := resources.value];
        resources := None;
      }
    }

    method PrepareOutput()
      modifies this`resources
      ensures resources == if old(resources).Some? then old(resources) else Some(map[])
    {
      if resources.None? {
        resources := Some(map[]);
      }
    }

    method SetOutput(path: string, ghost steps: seq<Step>, ghost before: map<string, Contents>)
      requires Follows(steps, before)
      modifies this
      ensures Follows(steps + [Step.SetOutput(path)], before)
    {
      hide Holds;
      FlushOutput();
      outputPath := path;
      SettingsStep(steps, Step.SetOutput(path), before, Flushed());
    }

    method SetInclusionPattern(pattern: Pattern, ghost steps: seq<Step>, ghost before: map<string, Contents>)
      requires Follows(steps, before)
      modifies this
      ensures Follows(steps + [Include(pattern)], before)
    {
      hide Holds;
      inclusion := Some(pattern);
      assert Flushed() == old(Flushed());
      SettingsStep(steps, Include(pattern), before, Flushed());
    }

    method SetExclusionPattern(pattern: Pattern, ghost steps: seq<Step>, ghost before: map<string, Contents>)
      requires Follows(steps, before)
      modifies this
      ensures Follows(steps + [Exclude(pattern)], before)
    {
      hide Holds;
      exclusion := Some(pattern);
      assert Flushed() == old(Flushed());
      SettingsStep(steps, Exclude(pattern), before, Flushed());
    }

    method AddResource(key: Key, resource: Resource, ghost steps: seq<Step>, ghost before: map<string, Contents>)
      requires Follows(steps, before)
      modifies this
      ensures Follows(steps + [Add(key, resource)], before)
    {
      hide Holds;
      ghost var was := Flushed();
      PrepareOutput();
      if Passes(inclusion, exclusion, key) {
        resources := Some(resources.value[key := resource]);
      }
      AddStep(steps, Add(key, resource), before, was, Flushed());
    }

    /** Adds the resources of an input file in their order. */
    method ProcessInput(entries: seq<(Key, Resource)>, ghost steps: seq<Step>, ghost before: map<string, Contents>)
      requires Follows(steps, before)
      modifies this
      ensures Follows(steps + InputSteps(entries), before)
    {
      assert steps + InputSteps(entries[..0]) == steps;
      for i := 0 to |entries|
        invariant Follows(steps + InputSteps(entries[..i]), before)
      {
        AddResource(entries[i].0, entries[i].1, steps + InputSteps(entries[..i]), before);
        assert steps + InputSteps(entries[..i]) + [Add(entries[i].0, entries[i].1)]
            == steps + InputSteps(entries[..i + 1]);
      }
      assert entries[..|entries|] == entries;
    }
  }

  // ---- A whole run

  datatype Command = Output(path: string) | Input(entries: seq<(Key, Resource)>) | Only(pattern: Pattern)
                   | Without(pattern: Pattern) | Put(key: Key, resource: Resource)

  function StepsOf(command: Command): seq<Step> {
    match command
    case Output(path) => [SetOutput(path)]
    case Input(entries) => InputSteps(entries)
    case Only(pattern) => [Include(pattern)]
    case Without(pattern) => [Exclude(pattern)]
    case Put(key, resource) => [Add(key, resource)]
  }

  function AllSteps(commands: seq<Command>): seq<Step> {
    if commands == [] then [] else AllSteps(commands[..|commands| - 1]) + StepsOf(commands[|commands| - 1])
  }

  /** Runs the commands and writes the last output file: every file ends up with what the whole list means for it. */
  method Execute(commands: seq<Command>, before: map<string, Contents>) returns (disk: map<string, Contents>)
    ensures Holds(AllSteps(commands), before, disk)
  {
    hide Holds;
    var state := new WriteFileState(before);
    for i := 0 to |commands|
      invariant state.Follows(AllSteps(commands[..i]), before)
    {
      ghost var steps := AllSteps(commands[..i]);
      assert commands[..i + 1][..i] == commands[..i];
      match commands[i]
      case Output(path) => state.SetOutput(path, steps, before);
      case Input(entries) => state.ProcessInput(entries, steps, before);
      case Only(pattern) => state.SetInclusionPattern(pattern, steps, before);
      case Without(pattern) => state.SetExclusionPattern(pattern, steps, before);
      case Put(key, resource) => state.AddResource(key, resource, steps, before);
    }
    assert commands[..|commands|] == commands;
    state.FlushOutput();
    disk := state.disk;
  }
}
