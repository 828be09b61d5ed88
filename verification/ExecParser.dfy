/** `exec`: turning one command string into an argument vector, with quoting, escapes, leading
    environment assignments and a check against several commands. */
module ExecParser {
  import opened Basics

  const NUL := '\0'

  /** The character at `pos` of a C string, the terminator included. */
  function At(s: string, pos: nat): char {
    if pos < |s| then s[pos] else NUL
  }

  ghost predicate NulFree(s: string) {
    '\0' !in s
  }

  // ----- The growing buffers -----

  /** `currentArg` with its length and capacity. */
  class CharBuffer {
    var data: array<char>
    var len: nat

    /** There is always a spare slot, once there is a buffer at all. */
    ghost predicate Valid()
      reads this
    {
      len < data.Length || (len == 0 && data.Length == 0)
    }

    ghost function Content(): string
      reads this, data
      requires Valid()
    {
      data[..len]
    }

    constructor ()
      ensures Valid() && Content() == [] && fresh(data) && data.Length == 0
    {
      data := new char[0];
      len := 0;
      new;
    }

    /** `append_char`: grows by 32 when the slot after the next one would be missing. */
    method Append(c: char)
      requires Valid()
      modifies this, data
      ensures Valid() && Content() == old(Content()) + [c]
      ensures data == old(data) || fresh(data)
      ensures data.Length == old(data.Length) + if old(len) + 1 >= old(data.Length) then 32 else 0
    {
      if len + 1 >= data.Length {
        var bigger := new char[data.Length + 32];
        var i := 0;
        while i < len
          invariant 0 <= i <= len && fresh(bigger) && bigger.Length == data.Length + 32
          invariant len == old(len) && data == old(data) && data[..] == old(data[..])
          invariant bigger[..i] == data[..i]
        {
          bigger[i] := data[i];
          i := i + 1;
        }
        data := bigger;
      }
      data[len] := c;
      len := len + 1;
    }

    /** Ends the argument with a null character; the argument is what stands before it. */
    method Terminate() returns (arg: string)
      requires Valid()
      modifies this, data
      ensures Valid() && arg == old(Content()) && Content() == arg + [NUL]
      ensures data == old(data) || fresh(data)
    {
      Append(NUL);
      arg := data[..len - 1];
      assert arg == Content()[..len - 1];
    }
  }

  /** `args`: the arguments followed by a null entry. */
  class ArgVector {
    var data: array<Option<string>>
    var len: nat

    ghost predicate Valid()
      reads this, data
    {
      && (data.Length == 0 ==> len == 0)
      && (data.Length > 0 ==> len < data.Length && data[len] == None)
      && (forall i :: 0 <= i < len ==> data[i].Some?)
    }

    function Content(): (args: seq<string>)
      reads this, data
      requires Valid()
      ensures |args| == len
    {
      seq(len, i requires 0 <= i < len && Valid() reads this, data => data[i].value)
    }

    constructor ()
      ensures Valid() && Content() == [] && fresh(data)
    {
      data := new Option<string>[0];
      len := 0;
      new;
    }

    /** Adds an argument and the null entry after it, growing by 8 when either would not fit. */
    method Push(arg: string)
      requires Valid()
      modifies this, data
      ensures Valid() && Content() == old(Content()) + [arg]
      ensures data == old(data) || fresh(data)
      ensures data.Length == old(data.Length) + if old(len) + 2 >= old(data.Length) then 8 else 0
      ensures data.Length > len
    {
      ghost var before := Content();
      if len + 2 >= data.Length {
        var bigger := new Option<string>[data.Length + 8](_ => None);
        var i := 0;
        while i < len
          invariant 0 <= i <= len && fresh(bigger) && bigger.Length == data.Length + 8
          invariant len == old(len) && data == old(data) && data[..] == old(data[..])
          invariant forall k :: 0 <= k < i ==> bigger[k] == data[k]
        {
          bigger[i] := data[i];
          i := i + 1;
        }
        data := bigger;
      }
      data[len] := Some(arg);
      data[len + 1] := None;
      len := len + 1;
      assert Content() == before + [arg];
    }
  }

  // ----- The parse, as a function -----

  datatype Error = MismatchedQuotes | ReadsPastEnd | SeveralCommands | ExpansionNotAtStart | OtherVariable
      | UnsetVariable

  /** What is handed to `execvp`, with the environment as changed, or why there is nothing to hand over. */
  datatype Outcome = Parsed(args: seq<string>, env: map<string, string>) | Failed(error: Error)

  datatype State = State(args: seq<string>, cur: string, newlineAt: int, env: map<string, string>, modified: bool)

  datatype Ended = Going(state: State) | Stopped(error: Error)

  function Initial(env: map<string, string>): State {
    State([], "", -1, env, false)
  }

  predicate IsNewline(c: char) { c == '\r' || c == '\n' }

  predicate IsAlnum(c: char) {
    '0' <= c <= '9' || 'a' <= c <= 'z' || 'A' <= c <= 'Z'
  }

  /** The index of the first `c`, or the length. */
  function Find(s: string, c: char): (i: nat)
    ensures i <= |s| && (i < |s| ==> s[i] == c) && c !in s[..i]
  {
    if s == "" then 0 else if s[0] == c then 0
    else
      var i := Find(s[1..], c);
      assert s[..i + 1] == [s[0]] + s[1..][..i];
      i + 1
  }

  function SetEnv(env: map<string, string>, name: string, value: string): map<string, string> {
    if name == "" then env else env[name := value]
  }

  /** A leading NAME=VALUE, where VALUE may start with $NAME. */
  function Assign(newlineAt: int, env: map<string, string>, name: string, value: string): Ended {
    var dollar := Find(value, '$');
    if dollar == |value| then Going(State([], "", newlineAt, SetEnv(env, name, value), true))
    else if dollar != 0 then Stopped(ExpansionNotAtStart)
    else
      var rest := value[1..];
      if !(name <= rest) || IsAlnum(At(rest, |name|)) then Stopped(OtherVariable)
      else if name !in env then Stopped(UnsetVariable)
      else Going(State([], "", newlineAt, SetEnv(env, name, env[name] + rest[|name|..]), true))
  }

  /** White space or the end of the string: the current argument, if any, is complete. */
  function EndArg(st: State): Ended {
    if st.cur == "" then Going(st)
    else if st.newlineAt == |st.args| then Stopped(SeveralCommands)
    else
      var eq := Find(st.cur, '=');
      if st.args == [] && eq < |st.cur| then Assign(st.newlineAt, st.env, st.cur[..eq], st.cur[eq + 1..])
      else Going(st.(args := st.args + [st.cur], cur := ""))
  }

  datatype Quoted = Closed(pos: nat, cur: string) | Bad(error: Error)

  /** Inside quotes, from the character after the opening one. */
  function ParseQuoted(s: string, pos: nat, end: char, cur: string): (q: Quoted)
    requires pos <= |s|
    ensures q.Closed? ==> pos <= q.pos < |s| && s[q.pos] == end
    decreases |s| - pos
  {
    if pos == |s| then Bad(MismatchedQuotes)
    else if s[pos] == end then Closed(pos, cur)
    else if s[pos] == '\\' then
      if pos + 1 == |s| then Bad(ReadsPastEnd) else ParseQuoted(s, pos + 2, end, cur + [s[pos + 1]])
    else ParseQuoted(s, pos + 1, end, cur + [s[pos]])
  }

  /** One turn of the loop: on to another position, or the end. */
  datatype Turn = Go(pos: nat, state: State) | Halt(outcome: Outcome)

  function Step(s: string, pos: nat, st: State): (turn: Turn)
    requires pos <= |s|
    ensures turn.Go? ==> pos < turn.pos <= |s|
  {
    var c := At(s, pos);
    if pos < |s| && IsNewline(c) && st.args == [] && st.cur == "" && !st.modified then Go(pos + 1, st)
    else if pos == |s| || IsNewline(c) || c == ' ' || c == '\t' then
      match EndArg(if pos < |s| && IsNewline(c) then st.(newlineAt := |st.args| + 1) else st)
      case Stopped(error) => Halt(Failed(error))
      case Going(next) => if pos == |s| then Halt(Parsed(next.args, next.env)) else Go(pos + 1, next)
    else if c == '\'' || c == '"' then
      match ParseQuoted(s, pos + 1, c, st.cur)
      case Bad(error) => Halt(Failed(error))
      case Closed(at, cur) => Go(at + 1, st.(cur := cur))
    else if c == '\\' then
      if pos + 1 == |s| then Halt(Parsed(st.args, st.env))
      else if IsNewline(s[pos + 1]) then Go(pos + 2, st)
      else Go(pos + 2, st.(cur := st.cur + [s[pos + 1]]))
    else Go(pos + 1, st.(cur := st.cur + [c]))
  }

  function ParseFrom(s: string, pos: nat, st: State): Outcome
    requires pos <= |s|
    decreases |s| - pos
  {
    match Step(s, pos, st)
    case Halt(outcome) => outcome
    case Go(at, next) => ParseFrom(s, at, next)
  }

  // ----- The parse, as the program runs it -----

  /** `parse_quoted`: `pos0` is at the opening quote; on success `pos` is at the closing one. */
  method ParseQuotedInto(s: string, pos0: nat, current: CharBuffer) returns (error: Option<Error>, pos: nat)
    requires pos0 < |s| && NulFree(s) && current.Valid()
    modifies current, current.data
    ensures current.Valid() && (current.data == old(current.data) || fresh(current.data))
    ensures match ParseQuoted(s, pos0 + 1, s[pos0], old(current.Content()))
            case Bad(e) => error == Some(e)
            case Closed(at, cur) => error == None && pos == at && current.Content() == cur
  {
    var end := s[pos0];
    pos := pos0;
    error := None;
    ghost var goal := ParseQuoted(s, pos0 + 1, end, current.Content());
    while true
      invariant pos0 <= pos < |s| && current.Valid()
      invariant current.data == old(current.data) || fresh(current.data)
      invariant ParseQuoted(s, pos + 1, end, current.Content()) == goal
      decreases |s| - pos
    {
      pos := pos + 1;
      var c := At(s, pos);
      if c == NUL {
        assert pos == |s|;
        error := Some(MismatchedQuotes);
        return;
      }
      if c == end { return; }
      if c == '\\' {
        pos := pos + 1;
        if pos == |s| {
          // the program appends the terminator here and reads on behind it
          error := Some(ReadsPastEnd);
          return;
        }
      }
      current.Append(s[pos]);
    }
  }

  /** The handling of a leading NAME=VALUE. */
  method AssignVariable(name: string, value0: string, ghost newlineAt: int, env0: map<string, string>)
    returns (error: Option<Error>, env: map<string, string>)
    ensures match Assign(newlineAt, env0, name, value0)
            case Stopped(e) => error == Some(e)
            case Going(st) => error == None && st == State([], "", newlineAt, env, true)
  {
    error, env := None, env0;
    var value := value0;
    var dollar := Find(value, '$');
    if dollar < |value| {
      if dollar != 0 {
        return Some(ExpansionNotAtStart), env;
      }
      value := value[1..];
      if !(name <= value) || IsAlnum(At(value, |name|)) {
        return Some(OtherVariable), env;
      }
      if name !in env {
        return Some(UnsetVariable), env;
      }
      value := env[name] + value[|name|..];
    }
    env := SetEnv(env, name, value);
  }

  /** The white space case of the loop in `main`. */
  method FinishArgument(args: ArgVector, current: CharBuffer, newlineAt: int, env0: map<string, string>,
                        modified0: bool)
    returns (error: Option<Error>, env: map<string, string>, modified: bool, next: CharBuffer)
    requires args.Valid() && current.Valid()
    modifies args, args.data, current, current.data
    ensures args.Valid() && next.Valid()
    ensures args.data == old(args.data) || fresh(args.data)
    ensures next == current || fresh(next)
    ensures next.data == old(current.data) || fresh(next.data)
    ensures match EndArg(State(old(args.Content()), old(current.Content()), newlineAt, env0, modified0))
            case Stopped(e) => error == Some(e)
            case Going(st) => error == None && st == State(args.Content(), next.Content(), newlineAt, env, modified)
  {
    error, env, modified, next := None, env0, modified0, current;
    if current.len == 0 { return; }
    if newlineAt == args.len {
      error := Some(SeveralCommands);
      return;
    }
    ghost var argsWas := args.Content();
    var arg := current.Terminate();
    assert args.Content() == argsWas;
    hide Assign;
    var eq := Find(arg, '=');
    if args.len == 0 && eq < |arg| {
      error, env := AssignVariable(arg[..eq], arg[eq + 1..], newlineAt, env);
      if error.Some? { return; }
      modified := true;
      next := new CharBuffer();
      return;
    }
    args.Push(arg);
    next := new CharBuffer();
  }

  /** An ordinary or escaped character; an escaped line break counts for nothing. */
  method TakeChar(s: string, pos0: nat, current: CharBuffer) returns (pos: nat)
    requires pos0 < |s| && current.Valid()
    modifies current, current.data
    ensures current.Valid() && (current.data == old(current.data) || fresh(current.data))
    ensures pos == pos0 + if s[pos0] == '\\' then 1 else 0
    ensures current.Content() == old(current.Content()) +
              if s[pos0] == '\\' && IsNewline(At(s, pos)) then [] else [At(s, pos)]
  {
    var c := At(s, pos0);
    pos := pos0;
    if c == '\\' { pos := pos + 1; }
    if c == '\\' && IsNewline(At(s, pos)) {
    } else {
      current.Append(At(s, pos));
    }
  }

  /** `Step`, sorted by the cases of the switch in `main`. */
  lemma TurnCases(s: string, pos: nat, st: State)
    requires NulFree(s) && pos <= |s|
    ensures var c := At(s, pos);
            var turn := Step(s, pos, st);
            if IsNewline(c) && st.args == [] && st.cur == "" && !st.modified then turn == Go(pos + 1, st)
            else if IsNewline(c) || c == ' ' || c == '\t' || c == NUL then
              turn == match EndArg(if IsNewline(c) then st.(newlineAt := |st.args| + 1) else st)
                      case Stopped(error) => Halt(Failed(error))
                      case Going(next) => if c == NUL then Halt(Parsed(next.args, next.env)) else Go(pos + 1, next)
            else if c == '\'' || c == '"' then
              turn == match ParseQuoted(s, pos + 1, c, st.cur)
                      case Bad(error) => Halt(Failed(error))
                      case Closed(at, cur) => Go(at + 1, st.(cur := cur))
            else
              var at := if c == '\\' then pos + 1 else pos;
              turn == if at == |s| then Halt(Parsed(st.args, st.env))
                      else if c == '\\' && IsNewline(s[at]) then Go(at + 1, st)
                      else Go(at + 1, st.(cur := st.cur + [s[at]]))
  {
  }

  /** One turn of the loop in `main`; `done` when it leaves the loop. */
  method TakeTurn(s: string, pos0: nat, args: ArgVector, current: CharBuffer,
                  newlineAt0: int, env0: map<string, string>, modified0: bool)
    returns (error: Option<Error>, done: bool, pos: nat, next: CharBuffer,
             newlineAt: int, env: map<string, string>, modified: bool)
    requires NulFree(s) && pos0 <= |s| && args.Valid() && current.Valid()
    modifies args, args.data, current, current.data
    ensures args.Valid() && next.Valid()
    ensures args.data == old(args.data) || fresh(args.data)
    ensures next == current || fresh(next)
    ensures next.data == old(current.data) || fresh(next.data)
    ensures match Step(s, pos0, State(old(args.Content()), old(current.Content()), newlineAt0, env0, modified0))
            case Halt(Failed(e)) => error == Some(e)
            case Halt(Parsed(list, vars)) => error == None && done && list == args.Content() && vars == env
            case Go(at, st) => error == None && !done && at == pos
                               && st == State(args.Content(), next.Content(), newlineAt, env, modified)
  {
    error, done, pos, next, newlineAt, env, modified := None, false, pos0, current, newlineAt0, env0, modified0;
    var c := At(s, pos);
    assert pos < |s| ==> c != NUL;
    ghost var st := State(args.Content(), current.Content(), newlineAt, env, modified);
    TurnCases(s, pos, st);
    hide Step, EndArg, ParseQuoted;
    if IsNewline(c) && args.len == 0 && current.len == 0 && !modified {
    } else if IsNewline(c) || c == ' ' || c == '\t' || c == NUL {
      if IsNewline(c) { newlineAt := args.len + 1; }
      error, env, modified, next := FinishArgument(args, current, newlineAt, env, modified);
      if error.Some? { return; }
    } else if c == '\'' || c == '"' {
      error, pos := ParseQuotedInto(s, pos, current);
      if error.Some? { return; }
      assert args.Content() == st.args;
    } else {
      pos := TakeChar(s, pos, current);
      assert args.Content() == st.args;
    }
    assert At(s, pos) == NUL <==> pos == |s|;
    if At(s, pos) == NUL {
      done := true;
    } else {
      pos := pos + 1;
    }
  }

  /** The loop in `main`, up to the call of `execvp`. */
  method Parse(s: string, environment: map<string, string>) returns (outcome: Outcome)
    requires NulFree(s)
    ensures outcome == ParseFrom(s, 0, Initial(environment))
  {
    hide Step;
    var args := new ArgVector();
    var current := new CharBuffer();
    var newlineAt, env, modified := -1, environment, false;
    var pos: nat := 0;
    while true
      invariant 0 <= pos <= |s| && args.Valid() && current.Valid()
      invariant fresh(args) && fresh(args.data) && fresh(current) && fresh(current.data)
      invariant ParseFrom(s, pos, State(args.Content(), current.Content(), newlineAt, env, modified))
             == ParseFrom(s, 0, Initial(environment))
      decreases |s| - pos
    {
      var error, done;
      error, done, pos, current, newlineAt, env, modified := TakeTurn(s, pos, args, current, newlineAt, env, modified);
      if error.Some? { return Failed(error.value); }
      if done { break; }
    }
    outcome := Parsed(args.Content(), env);
  }

  // ----- Round trip -----

  /** A backslash before every double quote and backslash. */
  function Escape(arg: string): string {
    if arg == "" then ""
    else (if arg[0] == '"' || arg[0] == '\\' then ['\\', arg[0]] else [arg[0]]) + Escape(arg[1..])
  }

  function Quote(arg: string): string {
    "\"" + Escape(arg) + "\""
  }

  /** The arguments, quoted and joined by spaces. */
  function Command(args: seq<string>): string {
    if args == [] then "" else if |args| == 1 then Quote(args[0]) else Quote(args[0]) + " " + Command(args[1..])
  }

  /** What handing the arguments over one by one, without any string, would do. */
  function AddAll(st: State, args: seq<string>): Outcome
    decreases args
  {
    if args == [] then Parsed(st.args, st.env)
    else match EndArg(st.(cur := args[0]))
      case Stopped(error) => Failed(error)
      case Going(next) => AddAll(next, args[1..])
  }

  lemma Slice(s: string, pos: nat, t: string, i: nat, j: nat)
    requires pos + |t| <= |s| && s[pos..pos + |t|] == t && i <= j <= |t|
    ensures s[pos + i..pos + j] == t[i..j]
  {
    forall k | i <= k < j ensures s[pos + k] == t[k] {
      assert s[pos..pos + |t|][k] == t[k];
    }
  }

  // The escaped form of the first character, and the rest of the escaped argument behind it.
  lemma EscapeHead(s: string, pos: nat, arg: string)
    requires arg != "" && pos + |Escape(arg)| <= |s| && s[pos..pos + |Escape(arg)|] == Escape(arg)
    ensures var n := if arg[0] == '"' || arg[0] == '\\' then 2 else 1;
            && |Escape(arg)| == n + |Escape(arg[1..])|
            && s[pos] == (if n == 2 then '\\' else arg[0]) && s[pos + n - 1] == arg[0]
            && s[pos + n..pos + |Escape(arg)|] == Escape(arg[1..])
  {
    var e := Escape(arg);
    var n := if arg[0] == '"' || arg[0] == '\\' then 2 else 1;
    assert s[pos] == s[pos..pos + |e|][0] && s[pos + n - 1] == s[pos..pos + |e|][n - 1];
    Slice(s, pos, e, n, |e|);
    assert e[n..] == Escape(arg[1..]);
  }

  lemma QuotedStep(s: string, pos: nat, c: char, cur: string)
    requires var n := if c == '"' || c == '\\' then 2 else 1;
             pos + n <= |s| && s[pos] == (if n == 2 then '\\' else c) && s[pos + n - 1] == c
    ensures ParseQuoted(s, pos, '"', cur)
            == ParseQuoted(s, pos + if c == '"' || c == '\\' then 2 else 1, '"', cur + [c])
  {
  }

  lemma {:induction false} QuotedBack(s: string, pos: nat, arg: string, cur: string)
    requires pos + |Escape(arg)| < |s| && s[pos..pos + |Escape(arg)|] == Escape(arg) && s[pos + |Escape(arg)|] == '"'
    ensures ParseQuoted(s, pos, '"', cur) == Closed(pos + |Escape(arg)|, cur + arg)
    decreases |arg|
  {
    if arg == "" {
      assert cur + arg == cur;
    } else {
      var n := if arg[0] == '"' || arg[0] == '\\' then 2 else 1;
      EscapeHead(s, pos, arg);
      QuotedStep(s, pos, arg[0], cur);
      hide ParseQuoted;
      QuotedBack(s, pos + n, arg[1..], cur + [arg[0]]);
      assert cur + [arg[0]] + arg[1..] == cur + arg;
    }
  }

  /** Over a quoted argument in one turn. */
  lemma QuoteStep(s: string, pos: nat, arg: string, st: State)
    requires pos + |Quote(arg)| <= |s| && s[pos..pos + |Quote(arg)|] == Quote(arg) && st.cur == ""
    ensures Step(s, pos, st) == Go(pos + |Quote(arg)|, st.(cur := arg))
  {
    var q, n := Quote(arg), |Escape(arg)|;
    assert q[0] == '"' && q[n + 1] == '"' && q[1..n + 1] == Escape(arg);
    assert s[pos] == s[pos..pos + |q|][0] && s[pos + n + 1] == s[pos..pos + |q|][n + 1];
    Slice(s, pos, q, 1, n + 1);
    QuotedBack(s, pos + 1, arg, "");
    assert "" + arg == arg;
  }

  lemma SpaceStep(s: string, pos: nat, st: State)
    requires pos < |s| && s[pos] == ' '
    ensures Step(s, pos, st) == match EndArg(st)
                                case Stopped(error) => Halt(Failed(error))
                                case Going(next) => Go(pos + 1, next)
  {
  }

  lemma EndStep(s: string, st: State)
    ensures Step(s, |s|, st) == match EndArg(st)
                                case Stopped(error) => Halt(Failed(error))
                                case Going(next) => Halt(Parsed(next.args, next.env))
  {
  }

  lemma CommandHead(s: string, pos: nat, args: seq<string>)
    requires pos <= |s| && args != [] && s[pos..] == Command(args)
    ensures var q := Quote(args[0]);
            && pos + |q| <= |s| && s[pos..pos + |q|] == q
            && (|args| == 1 ==> pos + |q| == |s|)
            && (|args| > 1 ==> pos + |q| < |s| && s[pos + |q|] == ' ' && s[pos + |q| + 1..] == Command(args[1..]))
  {
    hide Quote;
    var q, t := Quote(args[0]), s[pos..];
    assert t[..|q|] == q;
    assert s[pos..pos + |q|] == t[..|q|];
    if |args| > 1 {
      assert t == (q + " ") + Command(args[1..]);
      assert s[pos + |q|] == t[|q|];
      assert s[pos + |q| + 1..] == t[|q| + 1..];
    }
  }

  lemma EndArgOfNothing(st: State)
    requires st.cur == ""
    ensures EndArg(st) == Going(st)
  {
  }

  lemma EndArgEmpties(st: State)
    ensures match EndArg(st)
            case Stopped(error) => true
            case Going(next) => next.cur == "" && next.newlineAt == st.newlineAt
  {
  }

  /** Reading back a quoted command does exactly what handing over its arguments would, for all
      argument lists: empty arguments, leading assignments and errors included. */
  lemma {:induction false} CommandBack(s: string, pos: nat, args: seq<string>, st: State)
    requires pos <= |s| && s[pos..] == Command(args) && st.cur == ""
    ensures ParseFrom(s, pos, st) == AddAll(st, args)
    decreases |args|
  {
    hide Step, EndArg, Quote;
    if args == [] {
      EndStep(s, st);
      EndArgOfNothing(st);
    } else {
      var q := Quote(args[0]);
      CommandHead(s, pos, args);
      QuoteStep(s, pos, args[0], st);
      var at, after := pos + |q|, st.(cur := args[0]);
      if |args| == 1 {
        EndStep(s, after);
        assert args[1..] == [];
      } else {
        SpaceStep(s, at, after);
        EndArgEmpties(after);
        match EndArg(after)
        case Stopped(error) =>
        case Going(next) => CommandBack(s, at + 1, args[1..], next);
      }
    }
  }

  lemma RoundTrip(args: seq<string>, env: map<string, string>)
    ensures ParseFrom(Command(args), 0, Initial(env)) == AddAll(Initial(env), args)
  {
    CommandBack(Command(args), 0, args, Initial(env));
  }

  /** The arguments that survive: empty ones are lost. */
  function NonEmpty(args: seq<string>): seq<string> {
    if args == [] then [] else (if args[0] == "" then [] else [args[0]]) + NonEmpty(args[1..])
  }

  lemma NotFound(s: string, c: char)
    requires c !in s
    ensures Find(s, c) == |s|
  {
  }

  lemma AddOnePlain(st: State, arg: string)
    requires st.cur == "" && st.newlineAt == -1 && arg != "" && (st.args == [] ==> '=' !in arg)
    ensures EndArg(st.(cur := arg)) == Going(st.(args := st.args + [arg]))
  {
    if st.args == [] { NotFound(arg, '='); }
  }

  lemma NonEmptyStep(args: seq<string>)
    requires args != []
    ensures args[0] == "" ==> NonEmpty(args) == NonEmpty(args[1..])
    ensures args[0] != "" ==> NonEmpty(args) == [args[0]] + NonEmpty(args[1..])
  {
  }

  lemma {:induction false} AddAllPlain(st: State, args: seq<string>)
    requires st.cur == "" && st.newlineAt == -1
    requires st.args == [] ==> NonEmpty(args) == [] || '=' !in NonEmpty(args)[0]
    ensures AddAll(st, args) == Parsed(st.args + NonEmpty(args), st.env)
    decreases |args|
  {
    if args == [] {
      assert st.args + NonEmpty(args) == st.args;
    } else {
      NonEmptyStep(args);
      hide Find, Assign, EndArg, NonEmpty;
      if args[0] == "" {
        EndArgOfNothing(st);
        assert st.(cur := "") == st;
        AddAllPlain(st, args[1..]);
      } else {
        var next := st.(args := st.args + [args[0]]);
        AddOnePlain(st, args[0]);
        assert st.args + NonEmpty(args) == next.args + NonEmpty(args[1..]);
        AddAllPlain(next, args[1..]);
      }
    }
  }

  /** A command whose first nonempty argument has no `=` comes back as its nonempty arguments, and the
      environment stays as it was. */
  lemma PlainRoundTrip(args: seq<string>, env: map<string, string>)
    requires NonEmpty(args) == [] || '=' !in NonEmpty(args)[0]
    ensures ParseFrom(Command(args), 0, Initial(env)) == Parsed(NonEmpty(args), env)
  {
    RoundTrip(args, env);
    AddAllPlain(Initial(env), args);
  }

  lemma {:induction false} FindFirst(name: string, value: string)
    requires '=' !in name
    ensures Find(name + "=" + value, '=') == |name|
    decreases |name|
  {
    var s := name + "=" + value;
    if name == "" {
      assert s[0] == '=';
    } else {
      assert s[1..] == name[1..] + "=" + value;
      FindFirst(name[1..], value);
    }
  }

  lemma FindPlace(s: string, c: char)
    ensures Find(s, c) == |s| <==> c !in s
    ensures Find(s, c) == 0 <==> s == "" || s[0] == c
  {
  }

  /** What becomes of a command whose first argument is `name=value`. */
  function AssignmentOutcome(name: string, value: string, env: map<string, string>, args: seq<string>): Outcome {
    if '$' !in value then Parsed(args, if name == "" then env else env[name := value])
    else if value[0] != '$' then Failed(ExpansionNotAtStart)
    else
      var n := |name| + 1;
      if |value| < n || value[1..n] != name then Failed(OtherVariable)
      else if |value| > n && ('0' <= value[n] <= '9' || 'a' <= value[n] <= 'z' || 'A' <= value[n] <= 'Z') then
        Failed(OtherVariable)
      else if name !in env then Failed(UnsetVariable)
      else Parsed(args, if name == "" then env else env[name := env[name] + value[n..]])
  }

  lemma AssignIs(env: map<string, string>, name: string, value: string, args: seq<string>)
    ensures var ended, outcome := Assign(-1, env, name, value), AssignmentOutcome(name, value, env, args);
            if outcome.Failed? then ended == Stopped(outcome.error)
            else outcome.args == args && ended == Going(State([], "", -1, outcome.env, true))
  {
    FindPlace(value, '$');
    if value != "" && value[0] == '$' {
      var rest, n := value[1..], |name| + 1;
      assert name <= rest <==> |value| >= n && value[1..n] == name by {
        if |value| >= n { assert rest[..|name|] == value[1..n]; }
      }
      if |value| >= n { assert rest[|name|..] == value[n..]; }
    }
    hide Find;
  }

  /** A leading argument with an `=`, whatever stands behind it: without a `$` the value is taken as it is; a `$` must
      be its first character, and be followed by the name itself, and then by nothing or by a character that is no
      letter or digit, and the variable must be set: it is then replaced by the old value. The argument never reaches
      the arguments. */
  lemma AssignmentExactly(name: string, value: string, args: seq<string>, env: map<string, string>)
    requires '=' !in name && (NonEmpty(args) == [] || '=' !in NonEmpty(args)[0])
    ensures ParseFrom(Command([name + "=" + value] + args), 0, Initial(env))
        == AssignmentOutcome(name, value, env, NonEmpty(args))
  {
    var first := name + "=" + value;
    var all := [first] + args;
    RoundTrip(all, env);
    assert all[1..] == args;
    FindFirst(name, value);
    AssignIs(env, name, value, NonEmpty(args));
    assert EndArg(Initial(env).(cur := first)) == Assign(-1, env, name, value) by {
      assert first[..|name|] == name && first[|name| + 1..] == value;
      hide Find, Assign;
    }
    hide Find, Assign, EndArg, ParseFrom, Command;
    match AssignmentOutcome(name, value, env, NonEmpty(args))
    case Failed(_) =>
    case Parsed(_, next) => AddAllPlain(State([], "", -1, next, true), args);
  }

  /** NAME=$NAME... puts the old value in front of what follows. */
  lemma ExpansionRoundTrip(name: string, suffix: string, args: seq<string>, env: map<string, string>)
    requires name != "" && '=' !in name && name in env && (NonEmpty(args) == [] || '=' !in NonEmpty(args)[0])
    requires suffix != "" ==> !('0' <= suffix[0] <= '9' || 'a' <= suffix[0] <= 'z' || 'A' <= suffix[0] <= 'Z')
    ensures ParseFrom(Command([name + "=$" + name + suffix] + args), 0, Initial(env))
        == Parsed(NonEmpty(args), env[name := env[name] + suffix])
  {
    var value, n := "$" + name + suffix, |name| + 1;
    AssignmentExactly(name, value, args, env);
    assert name + "=" + value == name + "=$" + name + suffix;
    assert value[0] == '$' && value[1..n] == name && value[n..] == suffix;
    hide ParseFrom, Command;
  }

  /** With an `=` in the first nonempty argument and no `$` after it, that argument is an assignment
      and the rest is parsed as before: it never reaches the argument list. */
  lemma AssignmentRoundTrip(name: string, value: string, args: seq<string>, env: map<string, string>)
    requires '=' !in name && '$' !in value && (NonEmpty(args) == [] || '=' !in NonEmpty(args)[0])
    ensures ParseFrom(Command([name + "=" + value] + args), 0, Initial(env))
        == Parsed(NonEmpty(args), SetEnv(env, name, value))
  {
    var first := name + "=" + value;
    var all := [first] + args;
    RoundTrip(all, env);
    assert all[1..] == args;
    FindFirst(name, value);
    NotFound(value, '$');
    var next := State([], "", -1, SetEnv(env, name, value), true);
    assert EndArg(Initial(env).(cur := first)) == Going(next) by {
      assert first[..|name|] == name && first[|name| + 1..] == value;
    }
    AddAllPlain(next, args);
  }
}
