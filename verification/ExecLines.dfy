/** `exec`: a command string as lines of words, and exactly which commands are refused as several. */
module ExecLines {
  import opened Basics
  import opened ExecParser

  // ----- The lines of a command string -----

  /** The words of one line, none of them empty; `ended` if the line break itself ended the last of them. */
  datatype Line = Line(words: seq<string>, ended: bool)

  predicate WellFormed(line: Line) {
    (line.ended ==> line.words != []) && forall i :: 0 <= i < |line.words| ==> line.words[i] != ""
  }

  ghost predicate AllWellFormed(lines: seq<Line>) {
    lines != [] && forall k :: 0 <= k < |lines| ==> WellFormed(lines[k])
  }

  /** The lines up to the end of the string, or up to where the quoting fails. */
  datatype Lexed = Lexed(lines: seq<Line>, error: Option<Error>)

  function WordOf(cur: string): seq<string> {
    if cur == "" then [] else [cur]
  }

  function Prepend(words: seq<string>, lines: seq<Line>): seq<Line>
    requires lines != []
  {
    [Line(words + lines[0].words, lines[0].ended)] + lines[1..]
  }

  /** Quotes, escapes, white space and line breaks alone decide on the words and lines. */
  function Lex(s: string, pos: nat, cur: string): (lexed: Lexed)
    requires pos <= |s|
    ensures lexed.lines != []
    decreases |s| - pos
  {
    if pos == |s| then Lexed([Line(WordOf(cur), false)], None)
    else
      var c := s[pos];
      if IsNewline(c) then
        var rest := Lex(s, pos + 1, "");
        Lexed([Line(WordOf(cur), cur != "")] + rest.lines, rest.error)
      else if c == ' ' || c == '\t' then
        var rest := Lex(s, pos + 1, "");
        Lexed(Prepend(WordOf(cur), rest.lines), rest.error)
      else if c == '\'' || c == '"' then
        match ParseQuoted(s, pos + 1, c, cur)
        case Bad(error) => Lexed([Line([], false)], Some(error))
        case Closed(at, word) => Lex(s, at + 1, word)
      else if c == '\\' then
        if pos + 1 == |s| then Lexed([Line([], false)], None)
        else if IsNewline(s[pos + 1]) then Lex(s, pos + 2, cur)
        else Lex(s, pos + 2, cur + [s[pos + 1]])
      else Lex(s, pos + 1, cur + [c])
  }

  lemma {:induction false} QuoteErrors(s: string, pos: nat, end: char, cur: string)
    requires pos <= |s|
    ensures ParseQuoted(s, pos, end, cur) != Bad(SeveralCommands)
    decreases |s| - pos
  {
    if pos < |s| && s[pos] != end {
      if s[pos] != '\\' {
        QuoteErrors(s, pos + 1, end, cur + [s[pos]]);
      } else if pos + 1 < |s| {
        QuoteErrors(s, pos + 2, end, cur + [s[pos + 1]]);
      }
    }
  }

  lemma {:induction false} LexWellFormed(s: string, pos: nat, cur: string)
    requires pos <= |s|
    ensures var lexed := Lex(s, pos, cur);
            && AllWellFormed(lexed.lines) && !lexed.lines[|lexed.lines| - 1].ended
            && lexed.error != Some(SeveralCommands)
    decreases |s| - pos
  {
    if pos < |s| {
      var c := s[pos];
      if IsNewline(c) || c == ' ' || c == '\t' {
        LexWellFormed(s, pos + 1, "");
      } else if c == '\'' || c == '"' {
        QuoteErrors(s, pos + 1, c, cur);
        match ParseQuoted(s, pos + 1, c, cur)
        case Bad(_) =>
        case Closed(at, word) => LexWellFormed(s, at + 1, word);
      } else if c != '\\' {
        LexWellFormed(s, pos + 1, cur + [c]);
      } else if pos + 1 < |s| {
        LexWellFormed(s, pos + 2, if IsNewline(s[pos + 1]) then cur else cur + [s[pos + 1]]);
      }
    }
  }

  // ----- Running the lines -----

  /** The words of a line that no line break ends, and the one that the line break ends. */
  function Loose(line: Line): seq<string> {
    if line.ended && line.words != [] then line.words[..|line.words| - 1] else line.words
  }

  function Last(line: Line): string {
    if line.ended && line.words != [] then line.words[|line.words| - 1] else ""
  }

  function TakeWords(st: State, words: seq<string>): Ended
    decreases |words|
  {
    if words == [] then Going(st)
    else match EndArg(st.(cur := words[0]))
      case Stopped(error) => Stopped(error)
      case Going(next) => TakeWords(next, words[1..])
  }

  /** A line break, and the word it ends, if any. */
  function AtBreak(st: State, word: string): Ended {
    if word == "" && st.args == [] && !st.modified then Going(st)
    else EndArg(st.(cur := word, newlineAt := |st.args| + 1))
  }

  function AtEnd(args: seq<string>, env: map<string, string>, error: Option<Error>): Outcome {
    if error.Some? then Failed(error.value) else Parsed(args, env)
  }

  function RunLines(st: State, lines: seq<Line>, error: Option<Error>): Outcome
    requires lines != []
    decreases |lines|
  {
    match TakeWords(st, Loose(lines[0]))
    case Stopped(e) => Failed(e)
    case Going(next) =>
      if |lines| == 1 then AtEnd(next.args, next.env, error)
      else match AtBreak(next, Last(lines[0]))
        case Stopped(e) => Failed(e)
        case Going(after) => RunLines(after, lines[1..], error)
  }

  /** On to these lines, unless something stopped the command. */
  function Continue(ended: Ended, lines: seq<Line>, error: Option<Error>): Outcome
    requires lines != []
  {
    match ended
    case Stopped(e) => Failed(e)
    case Going(next) => RunLines(next, lines, error)
  }

  // The lines with one more word in front.
  lemma RunFirstWord(st: State, word: string, lines: seq<Line>, error: Option<Error>)
    requires lines != [] && WellFormed(lines[0])
    ensures RunLines(st, Prepend([word], lines), error) == Continue(EndArg(st.(cur := word)), lines, error)
  {
    hide EndArg, AtBreak;
    var line := Prepend([word], lines)[0];
    assert Last(line) == Last(lines[0]) && Loose(line) == [word] + Loose(lines[0]);
    assert ([word] + Loose(lines[0]))[1..] == Loose(lines[0]);
    assert Prepend([word], lines)[1..] == lines[1..];
  }

  lemma RunBreak(st: State, cur: string, lines: seq<Line>, error: Option<Error>)
    requires lines != []
    ensures RunLines(st, [Line(WordOf(cur), cur != "")] + lines, error) == Continue(AtBreak(st, cur), lines, error)
  {
    hide AtBreak, EndArg;
    var all := [Line(WordOf(cur), cur != "")] + lines;
    assert Loose(all[0]) == [] && Last(all[0]) == cur && all[1..] == lines;
  }

  lemma RunEnd(st: State, cur: string, error: Option<Error>)
    requires st.cur == ""
    ensures RunLines(st, [Line(WordOf(cur), false)], error)
            == if EndArg(st.(cur := cur)).Stopped? then Failed(EndArg(st.(cur := cur)).error)
               else AtEnd(EndArg(st.(cur := cur)).state.args, EndArg(st.(cur := cur)).state.env, error)
  {
    EndArgOfNothing(st);
    hide EndArg;
    if cur == "" {
      assert st.(cur := cur) == st;
    } else {
      assert [cur][1..] == [] && Loose(Line([cur], false)) == [cur];
      assert TakeWords(st, [cur]) == EndArg(st.(cur := cur)) by {
        if EndArg(st.(cur := cur)).Going? {
          assert TakeWords(EndArg(st.(cur := cur)).state, []) == EndArg(st.(cur := cur));
        }
      }
    }
  }

  lemma BreakTurn(s: string, pos: nat, st: State)
    requires pos < |s| && IsNewline(s[pos])
    ensures var ended := AtBreak(st.(cur := ""), st.cur);
            Step(s, pos, st) == if ended.Stopped? then Halt(Failed(ended.error)) else Go(pos + 1, ended.state)
    ensures AtBreak(st.(cur := ""), st.cur).Going? ==> AtBreak(st.(cur := ""), st.cur).state.cur == ""
  {
    assert st.(cur := "").(cur := st.cur, newlineAt := |st.args| + 1) == st.(newlineAt := |st.args| + 1);
    EndArgEmpties(st.(newlineAt := |st.args| + 1));
    hide EndArg, ParseQuoted;
  }

  lemma BlankTurn(s: string, pos: nat, st: State)
    requires pos < |s| && (s[pos] == ' ' || s[pos] == '\t')
    ensures Step(s, pos, st)
            == if EndArg(st).Stopped? then Halt(Failed(EndArg(st).error)) else Go(pos + 1, EndArg(st).state)
    ensures EndArg(st).Going? ==> EndArg(st).state.cur == ""
  {
    EndArgEmpties(st);
    hide EndArg, ParseQuoted;
  }

  /** A turn that is not at white space only adds to the current word. */
  lemma WordTurn(s: string, pos: nat, st: State)
    requires pos < |s| && !IsNewline(s[pos]) && s[pos] != ' ' && s[pos] != '\t'
    ensures var turn, lexed := Step(s, pos, st), Lex(s, pos, st.cur);
            if turn.Go? then
              turn.state == st.(cur := turn.state.cur) && lexed == Lex(s, turn.pos, turn.state.cur)
            else lexed.lines == [Line([], false)] && turn.outcome == AtEnd(st.args, st.env, lexed.error)
  {
    hide EndArg, ParseQuoted;
  }

  /** The loop over the characters does what its lines do, one after the other. */
  lemma {:induction false} ParseIsRun(s: string, pos: nat, st: State)
    requires pos <= |s|
    ensures ParseFrom(s, pos, st) == RunLines(st.(cur := ""), Lex(s, pos, st.cur).lines, Lex(s, pos, st.cur).error)
    decreases |s| - pos
  {
    var bare := st.(cur := "");
    assert bare.(cur := st.cur) == st;
    if pos == |s| {
      EndStep(s, st);
      hide Step, EndArg, RunLines;
      RunEnd(bare, st.cur, None);
    } else if IsNewline(s[pos]) {
      var lexed := Lex(s, pos + 1, "");
      BreakTurn(s, pos, st);
      RunBreak(bare, st.cur, lexed.lines, lexed.error);
      hide Step, EndArg, RunLines, AtBreak;
      if Step(s, pos, st).Go? { ParseIsRun(s, pos + 1, Step(s, pos, st).state); }
    } else if s[pos] == ' ' || s[pos] == '\t' {
      var lexed := Lex(s, pos + 1, "");
      LexWellFormed(s, pos + 1, "");
      BlankTurn(s, pos, st);
      if st.cur == "" {
        EndArgOfNothing(st);
        assert [] + lexed.lines[0].words == lexed.lines[0].words;
        assert Prepend([], lexed.lines) == lexed.lines;
      } else {
        RunFirstWord(bare, st.cur, lexed.lines, lexed.error);
      }
      hide Step, EndArg, RunLines;
      if Step(s, pos, st).Go? { ParseIsRun(s, pos + 1, Step(s, pos, st).state); }
    } else {
      WordTurn(s, pos, st);
      RunEnd(bare, "", Lex(s, pos, st.cur).error);
      EndArgOfNothing(bare);
      hide Step, EndArg, RunLines, Lex;
      if Step(s, pos, st).Go? { ParseIsRun(s, Step(s, pos, st).pos, Step(s, pos, st).state); }
    }
  }

  // ----- Behind the first argument -----

  lemma FindsMember(s: string, c: char)
    ensures Find(s, c) < |s| <==> c in s
  {
  }

  // The state after a word that is not taken for a second command.
  lemma Pushed(st: State, word: string)
    requires word != "" && st.newlineAt != |st.args| && (st.args == [] ==> '=' !in word)
    ensures EndArg(st.(cur := word)) == Going(st.(args := st.args + [word], cur := ""))
  {
    FindsMember(word, '=');
  }

  function AllWords(lines: seq<Line>): seq<string> {
    if lines == [] then [] else lines[0].words + AllWords(lines[1..])
  }

  /** Line k is refused: of its words that no line break ends, there are more than none, if the line break in front of
      it ended an argument, and more than one, if it did not. */
  predicate RefusedLine(lines: seq<Line>, k: nat) {
    1 <= k < |lines| && |Loose(lines[k])| > if lines[k - 1].ended then 0 else 1
  }

  // Whether n more arguments are too many.
  predicate TooMany(st: State, n: nat) {
    st.newlineAt >= |st.args| && n > st.newlineAt - |st.args|
  }

  lemma {:induction false} WordsBehind(st: State, words: seq<string>)
    requires st.cur == "" && st.args != [] && forall i :: 0 <= i < |words| ==> words[i] != ""
    ensures TakeWords(st, words)
            == if TooMany(st, |words|) then Stopped(SeveralCommands) else Going(st.(args := st.args + words))
    decreases |words|
  {
    if words == [] {
      assert st.args + words == st.args;
    } else if st.newlineAt != |st.args| {
      Pushed(st, words[0]);
      hide EndArg;
      var next := st.(args := st.args + [words[0]]);
      WordsBehind(next, words[1..]);
      assert next.args + words[1..] == st.args + words;
    }
  }

  lemma BreakBehind(st: State, word: string)
    requires st.cur == "" && st.args != []
    ensures AtBreak(st, word) == Going(st.(args := st.args + WordOf(word), newlineAt := |st.args| + 1))
  {
    var broken := st.(newlineAt := |st.args| + 1);
    if word == "" {
      EndArgOfNothing(broken);
    } else {
      Pushed(broken, word);
    }
  }

  /** Some line is refused. */
  ghost predicate AnyRefused(lines: seq<Line>) {
    exists k: nat :: RefusedLine(lines, k)
  }

  lemma RefusedLater(lines: seq<Line>)
    requires lines != []
    ensures AnyRefused(lines) <==> RefusedLine(lines, 1) || AnyRefused(lines[1..])
  {
    hide Loose;
    if AnyRefused(lines) {
      var k: nat :| RefusedLine(lines, k);
      if k > 1 {
        assert RefusedLine(lines[1..], k - 1);
      }
    }
    if AnyRefused(lines[1..]) {
      var k: nat :| RefusedLine(lines[1..], k);
      assert RefusedLine(lines, k + 1);
    }
  }

  lemma LineWords(line: Line)
    requires WellFormed(line)
    ensures line.words == Loose(line) + WordOf(Last(line))
    ensures forall i :: 0 <= i < |Loose(line)| ==> Loose(line)[i] != ""
    ensures line.ended <==> Last(line) != ""
  {
  }

  // The state behind a line without too many words.
  function Behind(st: State, line: Line): (after: State)
    ensures after.cur == st.cur && (st.args != [] ==> after.args != [])
  {
    st.(args := st.args + line.words, newlineAt := |st.args| + |Loose(line)| + 1)
  }

  lemma LineBehind(st: State, line: Line)
    requires st.cur == "" && st.args != [] && WellFormed(line) && !TooMany(st, |Loose(line)|)
    ensures TakeWords(st, Loose(line)) == Going(st.(args := st.args + Loose(line)))
    ensures AtBreak(st.(args := st.args + Loose(line)), Last(line)) == Going(Behind(st, line))
  {
    LineWords(line);
    hide EndArg, TakeWords, AtBreak, WellFormed, Loose, Last;
    WordsBehind(st, Loose(line));
    var next := st.(args := st.args + Loose(line));
    BreakBehind(next, Last(line));
    assert next.args + WordOf(Last(line)) == st.args + line.words;
  }

  lemma RoomBehind(st: State, line: Line, n: nat)
    requires WellFormed(line)
    ensures TooMany(Behind(st, line), n) <==> n > if line.ended then 0 else 1
  {
    LineWords(line);
    hide Loose, Last, WellFormed;
    assert |line.words| == |Loose(line)| + if line.ended then 1 else 0;
  }

  // The first line of several.
  lemma RunOn(st: State, lines: seq<Line>, error: Option<Error>)
    requires st.cur == "" && st.args != [] && |lines| > 1 && WellFormed(lines[0]) && !TooMany(st, |Loose(lines[0])|)
    ensures RunLines(st, lines, error) == RunLines(Behind(st, lines[0]), lines[1..], error)
  {
    LineBehind(st, lines[0]);
    hide EndArg, TakeWords, AtBreak, Loose, Last, WellFormed, TooMany;
  }

  // The last line.
  lemma RunLast(st: State, lines: seq<Line>, error: Option<Error>)
    requires st.cur == "" && st.args != [] && |lines| == 1 && WellFormed(lines[0]) && !lines[0].ended
    ensures RunLines(st, lines, error)
            == if TooMany(st, |Loose(lines[0])|) then Failed(SeveralCommands)
               else AtEnd(st.args + AllWords(lines), st.env, error)
  {
    WordsBehind(st, lines[0].words);
    assert lines[0].words + [] == lines[0].words;
    hide EndArg, TakeWords, AtBreak, TooMany;
  }

  lemma RunTooMany(st: State, lines: seq<Line>, error: Option<Error>)
    requires st.cur == "" && st.args != [] && lines != [] && WellFormed(lines[0]) && TooMany(st, |Loose(lines[0])|)
    ensures RunLines(st, lines, error) == Failed(SeveralCommands)
  {
    LineWords(lines[0]);
    WordsBehind(st, Loose(lines[0]));
    hide EndArg, TakeWords, AtBreak, TooMany;
  }

  // What lines do behind an argument.
  ghost function BehindOutcome(st: State, lines: seq<Line>, error: Option<Error>): Outcome
    requires lines != []
  {
    if TooMany(st, |Loose(lines[0])|) || AnyRefused(lines) then Failed(SeveralCommands)
    else AtEnd(st.args + AllWords(lines), st.env, error)
  }

  lemma BehindStep(st: State, lines: seq<Line>, error: Option<Error>)
    requires |lines| > 1 && WellFormed(lines[0]) && !TooMany(st, |Loose(lines[0])|)
    ensures BehindOutcome(st, lines, error) == BehindOutcome(Behind(st, lines[0]), lines[1..], error)
  {
    var line, rest := lines[0], lines[1..];
    RefusedLater(lines);
    RoomBehind(st, line, |Loose(rest[0])|);
    assert Behind(st, line).args + AllWords(rest) == st.args + AllWords(lines);
    hide AnyRefused, TooMany, Loose, WellFormed;
  }

  /** Behind an argument: the first line has the room that the last line break left, each later line that of the line
      break in front of it; if none has too many words, they all are arguments. */
  lemma {:induction false} RunBehind(st: State, lines: seq<Line>, error: Option<Error>)
    requires st.cur == "" && st.args != [] && AllWellFormed(lines) && !lines[|lines| - 1].ended
    ensures RunLines(st, lines, error)
            == if TooMany(st, |Loose(lines[0])|) || AnyRefused(lines) then Failed(SeveralCommands)
               else AtEnd(st.args + AllWords(lines), st.env, error)
    decreases |lines|
  {
    hide RunLines, WellFormed, TooMany, Loose;
    if TooMany(st, |Loose(lines[0])|) {
      RunTooMany(st, lines, error);
    } else if |lines| == 1 {
      RunLast(st, lines, error);
    } else {
      hide AnyRefused, AllWords, Behind;
      RunOn(st, lines, error);
      RunBehind(Behind(st, lines[0]), lines[1..], error);
      BehindStep(st, lines, error);
    }
  }

  // ----- In front of the first argument -----

  predicate IsAssignment(word: string) {
    '=' in word
  }

  function AssignWord(newlineAt: int, env: map<string, string>, word: string): Ended
    requires IsAssignment(word)
  {
    FindsMember(word, '=');
    var eq := Find(word, '=');
    Assign(newlineAt, env, word[..eq], word[eq + 1..])
  }

  /** What one word with an `=` makes of the environment. */
  function Assigned(env: map<string, string>, word: string): Outcome
    requires IsAssignment(word)
  {
    FindsMember(word, '=');
    var eq := Find(word, '=');
    AssignmentOutcome(word[..eq], word[eq + 1..], env, [])
  }

  lemma AssignedIs(env: map<string, string>, word: string)
    requires IsAssignment(word)
    ensures var ended, outcome := AssignWord(-1, env, word), Assigned(env, word);
            if outcome.Failed? then ended == Stopped(outcome.error) && outcome.error != SeveralCommands
            else ended.Going? && ended.state.env == outcome.env
  {
    FindsMember(word, '=');
    var eq := Find(word, '=');
    AssignIs(env, word[..eq], word[eq + 1..], []);
    hide Find, Assign;
  }

  /** What the words mean one after the other, on one line: the leading assignments change the environment, or fail, and
      the other words are the arguments. */
  function OnOneLine(env: map<string, string>, words: seq<string>): Outcome
    decreases |words|
  {
    if words == [] || !IsAssignment(words[0]) then Parsed(words, env)
    else match Assigned(env, words[0])
      case Failed(error) => Failed(error)
      case Parsed(_, next) => OnOneLine(next, words[1..])
  }

  function WithoutFirst(lines: seq<Line>): (rest: seq<Line>)
    requires lines != [] && lines[0].words != []
    ensures |rest| == |lines| && rest[0].words == lines[0].words[1..] && rest[1..] == lines[1..]
  {
    [Line(lines[0].words[1..], lines[0].ended && |lines[0].words| > 1)] + lines[1..]
  }

  /** The lines without the leading assignments. */
  function Arguments(lines: seq<Line>): (rest: seq<Line>)
    ensures |rest| == |lines|
    decreases |lines|, if lines == [] then 0 else |lines[0].words|
  {
    if lines == [] then []
    else
      var line := lines[0];
      if line.words == [] then [Line([], false)] + Arguments(lines[1..])
      else if IsAssignment(line.words[0]) then Arguments(WithoutFirst(lines))
      else lines
  }

  // Line k is refused, and the line break in front of it counts: it is not skipped in front of everything.
  predicate RefusedBehindWord(lines: seq<Line>, k: nat, live: bool) {
    RefusedLine(Arguments(lines), k) && (live || exists j :: 0 <= j < k && lines[j].words != [])
  }

  /** The command is taken for several: in the lines without the leading assignments some line has too many words behind
      the line break in front of it, and there is a word, argument or assignment, in front of that line break. */
  ghost predicate SeveralLines(lines: seq<Line>) {
    exists k: nat :: RefusedBehindWord(lines, k, false)
  }

  // The same in the middle of a command; `live` behind an assignment, `broken` behind a line break after it.
  ghost predicate RefusedFront(lines: seq<Line>, live: bool, broken: bool)
    requires lines != []
  {
    (broken && |Loose(Arguments(lines)[0])| > 1) || exists k: nat :: RefusedBehindWord(lines, k, live)
  }

  lemma BlankShift(lines: seq<Line>, k: nat, live: bool)
    requires |lines| > 1 && lines[0].words == []
    ensures k > 1 ==> (RefusedBehindWord(lines, k, live) <==> RefusedBehindWord(lines[1..], k - 1, live))
    ensures RefusedBehindWord(lines, 1, live) <==> live && |Loose(Arguments(lines[1..])[0])| > 1
  {
    var rest := Arguments(lines[1..]);
    assert Arguments(lines) == [Line([], false)] + rest;
    hide Arguments, Loose;
    if 1 < k < |lines| {
      if j :| 0 <= j < k && lines[j].words != [] {
        assert lines[1..][j - 1].words != [];
      }
      if j :| 0 <= j < k - 1 && lines[1..][j].words != [] {
        assert lines[j + 1].words != [];
      }
    }
  }

  lemma FrontBlank(lines: seq<Line>, live: bool, broken: bool)
    requires |lines| > 1 && lines[0].words == []
    ensures RefusedFront(lines, live, broken) <==> RefusedFront(lines[1..], live, live)
  {
    assert Loose(Arguments(lines)[0]) == [];
    hide Arguments, Loose, RefusedBehindWord;
    if k: nat :| RefusedBehindWord(lines, k, live) {
      assert k >= 1;
      BlankShift(lines, k, live);
      if k > 1 { assert RefusedBehindWord(lines[1..], k - 1, live); }
    }
    if k: nat :| RefusedBehindWord(lines[1..], k, live) {
      assert k >= 1;
      BlankShift(lines, k + 1, live);
      assert RefusedBehindWord(lines, k + 1, live);
    }
    BlankShift(lines, 1, live);
  }

  lemma FrontAssignment(lines: seq<Line>, live: bool, broken: bool)
    requires lines != [] && lines[0].words != [] && IsAssignment(lines[0].words[0])
    ensures RefusedFront(lines, live, broken) <==> RefusedFront(WithoutFirst(lines), true, broken)
  {
    var rest := WithoutFirst(lines);
    assert Arguments(lines) == Arguments(rest);
    hide Arguments, WithoutFirst;
    forall k: nat ensures RefusedBehindWord(lines, k, live) <==> RefusedBehindWord(rest, k, true) {
    }
  }

  lemma FrontArgument(lines: seq<Line>, live: bool, broken: bool)
    requires lines != [] && lines[0].words != [] && !IsAssignment(lines[0].words[0])
    ensures RefusedFront(lines, live, broken) <==> (broken && |Loose(lines[0])| > 1) || AnyRefused(lines)
  {
    assert Arguments(lines) == lines;
    hide Arguments;
    forall k: nat ensures RefusedBehindWord(lines, k, live) <==> RefusedLine(lines, k) {
    }
  }

  lemma OneBlank(line: Line, live: bool, broken: bool)
    requires line.words == []
    ensures !RefusedFront([line], live, broken)
  {
  }

  // A state in front of the first argument.
  predicate InFront(st: State) {
    st.args == [] && st.cur == "" && (st.newlineAt == -1 || (st.newlineAt == 1 && st.modified))
  }

  lemma EndArgAssigns(st: State, word: string)
    requires st.args == [] && st.newlineAt != 0 && IsAssignment(word)
    ensures EndArg(st.(cur := word)) == AssignWord(st.newlineAt, st.env, word)
  {
    FindsMember(word, '=');
    hide Assign, Find;
  }

  lemma AssignSame(a: int, b: int, env: map<string, string>, word: string)
    requires IsAssignment(word)
    ensures var one, two := AssignWord(a, env, word), AssignWord(b, env, word);
            && (one.Stopped? <==> two.Stopped?)
            && (one.Stopped? ==> one == two && one.error != SeveralCommands)
            && (one.Going? ==> one.state == State([], "", a, two.state.env, true))
  {
    hide Find, IsAlnum, SetEnv;
  }

  /** Assignments do not depend on line breaks, and are never refused as a second command. */
  lemma AssignsAnywhere(st: State, word: string)
    requires InFront(st) && IsAssignment(word)
    ensures var ended, next := EndArg(st.(cur := word)), AssignWord(-1, st.env, word);
            && (ended.Stopped? <==> next.Stopped?)
            && (ended.Stopped? ==> ended == next && ended.error != SeveralCommands)
            && (ended.Going? ==> ended.state == State([], "", st.newlineAt, next.state.env, true))
  {
    EndArgAssigns(st, word);
    AssignSame(st.newlineAt, -1, st.env, word);
    hide EndArg, AssignWord;
  }

  // A line break behind an assignment is one behind nothing.
  lemma BreakEnds(st: State, word: string)
    requires InFront(st) && IsAssignment(word)
    ensures AtBreak(st, word) == AssignWord(1, st.env, word)
  {
    var broken := st.(newlineAt := 1);
    assert word != "" && broken.(cur := word) == st.(cur := word, newlineAt := 1);
    EndArgAssigns(broken, word);
    hide EndArg, AssignWord;
  }

  lemma BreakBehindAssignment(st: State)
    requires InFront(st) && st.modified
    ensures AtBreak(st, "") == Going(st.(newlineAt := 1))
  {
    EndArgOfNothing(st.(newlineAt := 1));
    assert st.(newlineAt := 1) == st.(cur := "", newlineAt := 1);
    hide EndArg;
  }

  lemma BreakAssignment(st: State, word: string)
    requires InFront(st) && IsAssignment(word)
    ensures var ended := EndArg(st.(cur := word));
            AtBreak(st, word) == if ended.Stopped? then ended else AtBreak(ended.state, "")
  {
    hide EndArg, AssignWord, AtBreak;
    EndArgAssigns(st, word);
    BreakEnds(st, word);
    AssignSame(st.newlineAt, -1, st.env, word);
    AssignSame(1, -1, st.env, word);
    var ended := EndArg(st.(cur := word));
    if ended.Going? { BreakBehindAssignment(ended.state); }
  }

  // An assignment that the line break behind it ends.
  lemma RunBrokenAssignment(st: State, word: string, lines: seq<Line>, error: Option<Error>)
    requires InFront(st) && IsAssignment(word) && lines != []
    ensures RunLines(st, [Line([word], true)] + lines, error)
            == Continue(EndArg(st.(cur := word)), [Line([], false)] + lines, error)
  {
    hide EndArg, AtBreak, RunLines;
    BreakAssignment(st, word);
    assert word != "";
    RunBreak(st, word, lines, error);
    var ended := EndArg(st.(cur := word));
    if ended.Going? { RunBreak(ended.state, "", lines, error); }
  }

  lemma RunAssignment(st: State, lines: seq<Line>, error: Option<Error>)
    requires InFront(st) && AllWellFormed(lines) && !lines[|lines| - 1].ended
    requires lines[0].words != [] && IsAssignment(lines[0].words[0])
    ensures RunLines(st, lines, error)
            == Continue(EndArg(st.(cur := lines[0].words[0])), WithoutFirst(lines), error)
  {
    var word, rest := lines[0].words[0], WithoutFirst(lines);
    hide RunLines, EndArg, Continue;
    if lines[0].ended && |lines[0].words| == 1 {
      RunBrokenAssignment(st, word, lines[1..], error);
      assert lines[0].words == [word] && lines[0].words[1..] == [];
      assert lines == [Line([word], true)] + lines[1..];
    } else {
      RunFirstWord(st, word, rest, error);
      assert [word] + rest[0].words == lines[0].words;
      assert Prepend([word], rest) == lines;
    }
  }

  // What lines do in front of the first argument.
  ghost function FrontOutcome(env: map<string, string>, lines: seq<Line>, live: bool, broken: bool,
                              error: Option<Error>): Outcome
    requires lines != []
  {
    var plain := OnOneLine(env, AllWords(lines));
    if plain.Failed? then plain
    else if RefusedFront(lines, live, broken) then Failed(SeveralCommands)
    else AtEnd(plain.args, plain.env, error)
  }

  lemma RestWellFormed(lines: seq<Line>)
    requires AllWellFormed(lines) && !lines[|lines| - 1].ended
    ensures |lines| > 1 ==> AllWellFormed(lines[1..]) && !lines[1..][|lines| - 2].ended
    ensures lines[0].words != [] ==>
              AllWellFormed(WithoutFirst(lines)) && !WithoutFirst(lines)[|lines| - 1].ended
  {
  }

  // The first argument, ended by the line break behind it.
  lemma RunBrokenArgument(st: State, lines: seq<Line>, error: Option<Error>)
    requires InFront(st) && AllWellFormed(lines) && !lines[|lines| - 1].ended
    requires |lines[0].words| == 1 && !IsAssignment(lines[0].words[0]) && lines[0].ended
    ensures RunLines(st, lines, error)
            == if AnyRefused(lines) then Failed(SeveralCommands) else AtEnd(AllWords(lines), st.env, error)
  {
    var word, rest := lines[0].words[0], lines[1..];
    RestWellFormed(lines);
    RefusedLater(lines);
    Pushed(st.(newlineAt := 1), word);
    assert st.args + [word] == lines[0].words;
    var next := State(lines[0].words, "", 1, st.env, st.modified);
    assert AtBreak(st, word) == Going(next) by {
      assert st.(newlineAt := 1).(cur := word) == st.(cur := word, newlineAt := 1);
    }
    assert Loose(lines[0]) == [] && Last(lines[0]) == word;
    assert RunLines(st, lines, error) == RunLines(next, rest, error) by { hide AtBreak; }
    hide RunLines, AtBreak, EndArg, AnyRefused;
    RunBehind(next, rest, error);
  }

  // Only the number of words that no line break ends matters, and not of the first line.
  lemma SameRefused(a: seq<Line>, b: seq<Line>)
    requires |a| == |b| && a != [] && a[1..] == b[1..] && a[0].ended == b[0].ended
    ensures AnyRefused(a) <==> AnyRefused(b)
  {
    hide Loose;
    RefusedLater(a);
    RefusedLater(b);
    hide AnyRefused;
    assert forall k :: 1 <= k < |a| ==> a[k] == a[1..][k - 1] && b[k] == b[1..][k - 1];
  }

  lemma FirstOf(words: seq<string>, more: seq<string>)
    requires words != []
    ensures words + more == [words[0]] + (words[1..] + more)
    ensures (words + more)[0] == words[0] && (words + more)[1..] == words[1..] + more
  {
  }

  lemma FirstWordOf(lines: seq<Line>)
    requires lines != [] && lines[0].words != []
    ensures AllWords(lines) == [lines[0].words[0]] + AllWords(WithoutFirst(lines))
    ensures AllWords(lines) != [] && AllWords(lines)[0] == lines[0].words[0]
    ensures AllWords(lines)[1..] == AllWords(WithoutFirst(lines))
  {
    FirstOf(lines[0].words, AllWords(lines[1..]));
    assert AllWords(WithoutFirst(lines)) == WithoutFirst(lines)[0].words + AllWords(WithoutFirst(lines)[1..]);
    hide AllWords, WithoutFirst;
  }

  lemma RunArgument(st: State, lines: seq<Line>, error: Option<Error>)
    requires InFront(st) && AllWellFormed(lines) && !lines[|lines| - 1].ended
    requires lines[0].words != [] && !IsAssignment(lines[0].words[0])
    ensures RunLines(st, lines, error)
            == if (st.newlineAt == 1 && |Loose(lines[0])| > 1) || AnyRefused(lines) then Failed(SeveralCommands)
               else AtEnd(AllWords(lines), st.env, error)
  {
    if lines[0].ended && |lines[0].words| == 1 {
      RunBrokenArgument(st, lines, error);
      assert Loose(lines[0]) == [];
    } else {
      var word, rest := lines[0].words[0], WithoutFirst(lines);
      RestWellFormed(lines);
      assert [word] + rest[0].words == lines[0].words;
      assert Prepend([word], rest) == lines;
      Pushed(st, word);
      assert st.args + [word] == [word];
      var next := st.(args := [word]);
      assert |Loose(lines[0])| == |Loose(rest[0])| + 1;
      FirstWordOf(lines);
      hide RunLines, EndArg, AllWords, Loose, AnyRefused, Prepend;
      RunFirstWord(st, word, rest, error);
      RunBehind(next, rest, error);
      SameRefused(lines, rest);
    }
  }

  function BehindBlank(st: State): State {
    if st.modified then st.(newlineAt := 1) else st
  }

  lemma RunBlank(st: State, lines: seq<Line>, error: Option<Error>)
    requires InFront(st) && lines != [] && lines[0].words == []
    ensures |lines| == 1 ==> RunLines(st, lines, error) == AtEnd([], st.env, error)
    ensures |lines| > 1 ==> RunLines(st, lines, error) == RunLines(BehindBlank(st), lines[1..], error)
  {
    assert AtBreak(st, "") == Going(BehindBlank(st)) by { EndArgOfNothing(BehindBlank(st)); }
    hide AtBreak, EndArg;
  }

  lemma OutcomeAssignment(env: map<string, string>, lines: seq<Line>, live: bool, broken: bool, error: Option<Error>)
    requires lines != [] && lines[0].words != [] && IsAssignment(lines[0].words[0])
    ensures var next := AssignWord(-1, env, lines[0].words[0]);
            FrontOutcome(env, lines, live, broken, error)
            == if next.Stopped? then Failed(next.error)
               else FrontOutcome(next.state.env, WithoutFirst(lines), true, broken, error)
  {
    FirstWordOf(lines);
    FrontAssignment(lines, live, broken);
    AssignedIs(env, lines[0].words[0]);
    hide AllWords, RefusedFront, AssignWord, Assigned, WithoutFirst;
  }

  lemma OutcomeArgument(env: map<string, string>, lines: seq<Line>, live: bool, broken: bool, error: Option<Error>)
    requires lines != [] && lines[0].words != [] && !IsAssignment(lines[0].words[0])
    ensures FrontOutcome(env, lines, live, broken, error)
            == if (broken && |Loose(lines[0])| > 1) || AnyRefused(lines) then Failed(SeveralCommands)
               else AtEnd(AllWords(lines), env, error)
  {
    FirstWordOf(lines);
    FrontArgument(lines, live, broken);
    hide AllWords, RefusedFront, AnyRefused, WithoutFirst, Loose;
  }

  lemma OutcomeBlank(env: map<string, string>, lines: seq<Line>, live: bool, broken: bool, error: Option<Error>)
    requires lines != [] && lines[0].words == []
    ensures |lines| == 1 ==> FrontOutcome(env, lines, live, broken, error) == AtEnd([], env, error)
    ensures |lines| > 1 ==>
              FrontOutcome(env, lines, live, broken, error) == FrontOutcome(env, lines[1..], live, live, error)
  {
    if |lines| == 1 {
      OneBlank(lines[0], live, broken);
      assert lines == [lines[0]];
      assert AllWords(lines) == [];
    } else {
      FrontBlank(lines, live, broken);
      assert AllWords(lines) == AllWords(lines[1..]);
    }
    hide AllWords, RefusedFront;
  }

  ghost predicate RunsAsFront(st: State, lines: seq<Line>, error: Option<Error>)
    requires lines != []
  {
    RunLines(st, lines, error) == FrontOutcome(st.env, lines, st.modified, st.newlineAt == 1, error)
  }

  lemma FrontStepBlank(st: State, lines: seq<Line>, error: Option<Error>)
    requires InFront(st) && lines != [] && lines[0].words == []
    ensures |lines| == 1 || RunsAsFront(BehindBlank(st), lines[1..], error) ==> RunsAsFront(st, lines, error)
  {
    RunBlank(st, lines, error);
    OutcomeBlank(st.env, lines, st.modified, st.newlineAt == 1, error);
    hide RunLines, FrontOutcome;
  }

  lemma FrontStepAssignment(st: State, lines: seq<Line>, error: Option<Error>)
    requires InFront(st) && AllWellFormed(lines) && !lines[|lines| - 1].ended
    requires lines[0].words != [] && IsAssignment(lines[0].words[0])
    ensures var ended := EndArg(st.(cur := lines[0].words[0]));
            && (ended.Going? ==> InFront(ended.state))
            && (ended.Stopped? || RunsAsFront(ended.state, WithoutFirst(lines), error) ==>
                  RunsAsFront(st, lines, error))
  {
    OutcomeAssignment(st.env, lines, st.modified, st.newlineAt == 1, error);
    RunAssignment(st, lines, error);
    AssignsAnywhere(st, lines[0].words[0]);
    hide RunLines, FrontOutcome, EndArg, AssignWord, AllWellFormed, WithoutFirst;
  }

  lemma FrontStepArgument(st: State, lines: seq<Line>, error: Option<Error>)
    requires InFront(st) && AllWellFormed(lines) && !lines[|lines| - 1].ended
    requires lines[0].words != [] && !IsAssignment(lines[0].words[0])
    ensures RunsAsFront(st, lines, error)
  {
    OutcomeArgument(st.env, lines, st.modified, st.newlineAt == 1, error);
    RunArgument(st, lines, error);
    hide RunLines, FrontOutcome, AllWellFormed, AnyRefused, AllWords, Loose;
  }

  /** Every state in front of the first argument, and every list of lines. */
  lemma {:induction false} RunFront(st: State, lines: seq<Line>, error: Option<Error>)
    requires InFront(st) && AllWellFormed(lines) && !lines[|lines| - 1].ended
    ensures RunsAsFront(st, lines, error)
    decreases |lines|, |lines[0].words|
  {
    RestWellFormed(lines);
    hide EndArg, AllWellFormed, RunsAsFront;
    if lines[0].words == [] {
      FrontStepBlank(st, lines, error);
      if |lines| > 1 { RunFront(BehindBlank(st), lines[1..], error); }
    } else if IsAssignment(lines[0].words[0]) {
      FrontStepAssignment(st, lines, error);
      var ended := EndArg(st.(cur := lines[0].words[0]));
      if ended.Going? { RunFront(ended.state, WithoutFirst(lines), error); }
    } else {
      FrontStepArgument(st, lines, error);
    }
  }

  /** What `exec` makes of any command string: what its words mean on one line, unless it is refused as several
      commands, or its quoting fails. */
  lemma ParseExactly(s: string, env: map<string, string>)
    ensures var lexed := Lex(s, 0, "");
            var plain := OnOneLine(env, AllWords(lexed.lines));
            ParseFrom(s, 0, Initial(env))
            == if plain.Failed? then plain
               else if SeveralLines(lexed.lines) then Failed(SeveralCommands)
               else AtEnd(plain.args, plain.env, lexed.error)
  {
    var lexed := Lex(s, 0, "");
    ParseIsRun(s, 0, Initial(env));
    LexWellFormed(s, 0, "");
    RunFront(Initial(env), lexed.lines, lexed.error);
    hide RunLines, Lex, ParseFrom, RefusedBehindWord;
  }

  lemma {:induction false} OneLineNotRefused(env: map<string, string>, words: seq<string>)
    ensures OnOneLine(env, words) != Failed(SeveralCommands)
    decreases |words|
  {
    if words != [] && IsAssignment(words[0]) {
      AssignedIs(env, words[0]);
      hide AssignWord, Assigned;
      match Assigned(env, words[0])
      case Failed(_) =>
      case Parsed(_, next) => OneLineNotRefused(next, words[1..]);
    }
  }

  /** A command string is refused as several commands exactly then. */
  lemma RefusedExactly(s: string, env: map<string, string>)
    ensures var lines := Lex(s, 0, "").lines;
            ParseFrom(s, 0, Initial(env)) == Failed(SeveralCommands)
            <==> OnOneLine(env, AllWords(lines)).Parsed? && SeveralLines(lines)
  {
    ParseExactly(s, env);
    OneLineNotRefused(env, AllWords(Lex(s, 0, "").lines));
    LexWellFormed(s, 0, "");
    hide ParseFrom, SeveralLines, OnOneLine;
  }

  // ----- Lines of arguments -----

  lemma {:induction false} NoAssignments(lines: seq<Line>)
    requires forall k :: 0 <= k < |lines| ==> WellFormed(lines[k])
    requires AllWords(lines) != [] ==> !IsAssignment(AllWords(lines)[0])
    ensures Arguments(lines) == lines
    decreases |lines|
  {
    if lines != [] && lines[0].words == [] {
      assert AllWords(lines) == AllWords(lines[1..]);
      NoAssignments(lines[1..]);
      assert lines[0] == Line([], false);
    }
  }

  /** Lines of arguments, quoted and joined by spaces, and joined by line breaks. */
  function Script(commands: seq<seq<string>>): string
    requires commands != []
  {
    if |commands| == 1 then Command(commands[0]) else Command(commands[0]) + "\n" + Script(commands[1..])
  }

  function LineOf(args: seq<string>): Line {
    Line(NonEmpty(args), args != [] && args[|args| - 1] != "")
  }

  function LinesOf(commands: seq<seq<string>>): seq<Line>
    requires commands != []
  {
    if |commands| == 1 then [Line(NonEmpty(commands[0]), false)] else [LineOf(commands[0])] + LinesOf(commands[1..])
  }

  lemma LexQuote(s: string, pos: nat, arg: string)
    requires pos + |Quote(arg)| <= |s| && s[pos..pos + |Quote(arg)|] == Quote(arg)
    ensures Lex(s, pos, "") == Lex(s, pos + |Quote(arg)|, arg)
  {
    var q, n := Quote(arg), |Escape(arg)|;
    assert q[0] == '"' && q[n + 1] == '"' && q[1..n + 1] == Escape(arg);
    assert s[pos] == s[pos..pos + |q|][0] && s[pos + n + 1] == s[pos..pos + |q|][n + 1];
    Slice(s, pos, q, 1, n + 1);
    QuotedBack(s, pos + 1, arg, "");
    assert "" + arg == arg;
    hide ParseQuoted;
  }

  lemma CommandFront(s: string, pos: nat, args: seq<string>)
    requires args != [] && pos + |Command(args)| <= |s| && s[pos..pos + |Command(args)|] == Command(args)
    ensures var q, end := Quote(args[0]), pos + |Command(args)|;
            && pos + |q| <= end && s[pos..pos + |q|] == q
            && (|args| == 1 ==> pos + |q| == end)
            && (|args| > 1 ==>
                  && pos + |q| < end && s[pos + |q|] == ' '
                  && pos + |q| + 1 + |Command(args[1..])| == end && s[pos + |q| + 1..end] == Command(args[1..]))
  {
    hide Quote;
    var q, t := Quote(args[0]), Command(args);
    if |args| == 1 {
      assert t == q;
    } else {
      assert t == (q + " ") + Command(args[1..]);
      Slice(s, pos, t, 0, |q|);
      Slice(s, pos, t, |q| + 1, |t|);
      assert t[..|q|] == q && t[|q| + 1..] == Command(args[1..]);
      assert s[pos + |q|] == s[pos..pos + |t|][|q|];
    }
  }

  lemma LexAt(s: string, pos: nat, cur: string)
    requires pos <= |s|
    ensures pos == |s| ==> Lex(s, pos, cur) == Lexed([Line(WordOf(cur), false)], None)
    ensures pos < |s| && (s[pos] == ' ' || s[pos] == '\t') ==>
              Lex(s, pos, cur) == Lexed(Prepend(WordOf(cur), Lex(s, pos + 1, "").lines), Lex(s, pos + 1, "").error)
    ensures pos < |s| && (s[pos] == '\n' || s[pos] == '\r') ==>
              && Lex(s, pos, cur).lines == [Line(WordOf(cur), cur != "")] + Lex(s, pos + 1, "").lines
              && Lex(s, pos, cur).error == Lex(s, pos + 1, "").error
  {
    hide ParseQuoted, Prepend;
  }

  lemma LineOfMore(arg: string, args: seq<string>)
    ensures NonEmpty([arg]) == WordOf(arg) && LineOf([arg]) == Line(WordOf(arg), arg != "")
    ensures NonEmpty([arg] + args) == WordOf(arg) + NonEmpty(args)
    ensures args != [] ==> LineOf([arg] + args) == Line(WordOf(arg) + LineOf(args).words, LineOf(args).ended)
  {
    assert [arg][1..] == [] && ([arg] + args)[1..] == args;
  }

  lemma PrependMore(words: seq<string>, line: Line, lines: seq<Line>)
    ensures Prepend(words, [line] + lines) == [Line(words + line.words, line.ended)] + lines
  {
    assert ([line] + lines)[1..] == lines;
  }

  // A line of these arguments ends at `end`, and what follows it is read on.
  predicate ReadAs(lexed: Lexed, s: string, args: seq<string>, end: nat) {
    && end <= |s|
    && lexed == if end == |s| then Lexed([Line(NonEmpty(args), false)], None)
                else Lexed([LineOf(args)] + Lex(s, end + 1, "").lines, Lex(s, end + 1, "").error)
  }

  lemma ReadMore(arg: string, more: seq<string>, lexed: Lexed, s: string, end: nat)
    requires more != [] && ReadAs(lexed, s, more, end)
    ensures lexed.lines != []
    ensures ReadAs(Lexed(Prepend(WordOf(arg), lexed.lines), lexed.error), s, [arg] + more, end)
  {
    LineOfMore(arg, more);
    hide NonEmpty, LineOf, WordOf, Prepend;
    if end == |s| {
      PrependMore(WordOf(arg), Line(NonEmpty(more), false), []);
      assert [Line(NonEmpty(more), false)] + [] == [Line(NonEmpty(more), false)];
    } else {
      PrependMore(WordOf(arg), LineOf(more), Lex(s, end + 1, "").lines);
    }
    hide Lex;
  }

  lemma ReadLast(arg: string, s: string, end: nat)
    requires end <= |s| && (end < |s| ==> IsNewline(s[end]))
    ensures ReadAs(Lex(s, end, arg), s, [arg], end)
  {
    LexAt(s, end, arg);
    LineOfMore(arg, []);
    hide Lex, LineOf, NonEmpty, WordOf;
  }

  lemma LexMore(s: string, pos: nat, args: seq<string>)
    requires |args| > 1 && pos + |Command(args)| <= |s| && s[pos..pos + |Command(args)|] == Command(args)
    ensures var next, end := pos + |Quote(args[0])| + 1, pos + |Command(args)|;
            && next + |Command(args[1..])| == end && s[next..end] == Command(args[1..])
            && (ReadAs(Lex(s, next, ""), s, args[1..], end) ==> ReadAs(Lex(s, pos, ""), s, args, end))
  {
    var at, end := pos + |Quote(args[0])|, pos + |Command(args)|;
    CommandFront(s, pos, args);
    LexQuote(s, pos, args[0]);
    LexAt(s, at, args[0]);
    assert [args[0]] + args[1..] == args;
    hide Quote, Lex, Command, ReadAs, WordOf, Prepend;
    if ReadAs(Lex(s, at + 1, ""), s, args[1..], end) {
      ReadMore(args[0], args[1..], Lex(s, at + 1, ""), s, end);
    }
  }

  lemma LexOne(s: string, pos: nat, arg: string)
    requires pos + |Quote(arg)| <= |s| && s[pos..pos + |Quote(arg)|] == Quote(arg)
    requires pos + |Quote(arg)| < |s| ==> IsNewline(s[pos + |Quote(arg)|])
    ensures ReadAs(Lex(s, pos, ""), s, [arg], pos + |Quote(arg)|)
  {
    LexQuote(s, pos, arg);
    ReadLast(arg, s, pos + |Quote(arg)|);
    hide Quote, Lex, ReadAs;
  }

  /** A line of quoted arguments is read back as its nonempty arguments. */
  lemma {:induction false} LexCommand(s: string, pos: nat, args: seq<string>)
    requires pos + |Command(args)| <= |s| && s[pos..pos + |Command(args)|] == Command(args)
    requires pos + |Command(args)| < |s| ==> IsNewline(s[pos + |Command(args)|])
    ensures ReadAs(Lex(s, pos, ""), s, args, pos + |Command(args)|)
    decreases |args|
  {
    if args == [] {
      LexAt(s, pos, "");
      hide Lex;
    } else if |args| == 1 {
      assert args == [args[0]];
      LexOne(s, pos, args[0]);
      hide Lex, ReadAs, Quote;
    } else {
      hide Quote, Lex, Command, ReadAs;
      LexMore(s, pos, args);
      LexCommand(s, pos + |Quote(args[0])| + 1, args[1..]);
    }
  }

  lemma ScriptFront(s: string, pos: nat, commands: seq<seq<string>>)
    requires commands != [] && pos <= |s| && s[pos..] == Script(commands)
    ensures var end := pos + |Command(commands[0])|;
            && end <= |s| && s[pos..end] == Command(commands[0])
            && (|commands| == 1 ==> end == |s|)
            && (|commands| > 1 ==> end < |s| && s[end] == '\n' && s[end + 1..] == Script(commands[1..]))
  {
    hide Command;
    var t, q := Script(commands), Command(commands[0]);
    assert t[..|q|] == q && s[pos..pos + |q|] == s[pos..][..|q|];
    if |commands| > 1 {
      assert t == (q + "\n") + Script(commands[1..]);
      assert s[pos + |q|] == s[pos..][|q|] && s[pos + |q| + 1..] == s[pos..][|q| + 1..];
    }
  }

  lemma ScriptStep(s: string, pos: nat, commands: seq<seq<string>>)
    requires commands != [] && pos <= |s| && s[pos..] == Script(commands)
    ensures var end := pos + |Command(commands[0])|;
            && ReadAs(Lex(s, pos, ""), s, commands[0], end)
            && (|commands| == 1 ==> end == |s|)
            && (|commands| > 1 ==> end < |s| && s[end + 1..] == Script(commands[1..]))
  {
    ScriptFront(s, pos, commands);
    LexCommand(s, pos, commands[0]);
    hide Lex, Command, ReadAs;
  }

  lemma ReadLines(lexed: Lexed, s: string, commands: seq<seq<string>>, end: nat)
    requires commands != [] && ReadAs(lexed, s, commands[0], end)
    requires |commands| == 1 ==> end == |s|
    requires |commands| > 1 ==> end < |s| && Lex(s, end + 1, "") == Lexed(LinesOf(commands[1..]), None)
    ensures lexed == Lexed(LinesOf(commands), None)
  {
    hide Lex, LineOf, NonEmpty;
  }

  /** The lines of a script are read back. */
  lemma {:induction false} LexScript(s: string, pos: nat, commands: seq<seq<string>>)
    requires commands != [] && pos <= |s| && s[pos..] == Script(commands)
    ensures Lex(s, pos, "") == Lexed(LinesOf(commands), None)
    decreases |commands|
  {
    hide Lex, Command, Script, LinesOf, ReadAs, NonEmpty;
    ScriptStep(s, pos, commands);
    var end := pos + |Command(commands[0])|;
    if |commands| > 1 {
      LexScript(s, end + 1, commands[1..]);
    }
    ReadLines(Lex(s, pos, ""), s, commands, end);
  }

  // The line break behind these arguments ends the last of them.
  predicate EndsArgument(args: seq<string>) {
    args != [] && args[|args| - 1] != ""
  }

  function AllArguments(commands: seq<seq<string>>): seq<string> {
    if commands == [] then [] else NonEmpty(commands[0]) + AllArguments(commands[1..])
  }

  /** Line k has arguments of a second command: behind the first argument, there are more than none, if the line in
      front of it is not blank, and more than one, if it is; the last argument in front of a line break is not
      counted. */
  predicate SecondCommand(commands: seq<seq<string>>, k: nat) {
    && 1 <= k < |commands|
    && (exists j :: 0 <= j < k && NonEmpty(commands[j]) != [])
    && |NonEmpty(commands[k])| - (if k + 1 < |commands| && EndsArgument(commands[k]) then 1 else 0)
       > if EndsArgument(commands[k - 1]) then 0 else 1
  }

  lemma {:induction false} LinesAt(commands: seq<seq<string>>, k: nat)
    requires k < |commands|
    ensures |LinesOf(commands)| == |commands|
    ensures LinesOf(commands)[k] == if k == |commands| - 1 then Line(NonEmpty(commands[k]),
                                                                     false) else LineOf(commands[k])
    decreases |commands|
  {
    hide LineOf, NonEmpty;
    if |commands| > 1 {
      LinesAt(commands[1..], if k == 0 then 0 else k - 1);
    }
  }

  lemma {:induction false} WordsOfLines(commands: seq<seq<string>>)
    requires commands != []
    ensures AllWords(LinesOf(commands)) == AllArguments(commands)
    decreases |commands|
  {
    hide NonEmpty;
    if |commands| > 1 {
      WordsOfLines(commands[1..]);
      assert LinesOf(commands)[1..] == LinesOf(commands[1..]);
    } else {
      assert LinesOf(commands)[1..] == [] && commands[1..] == [];
    }
  }

  lemma {:induction false} LastSurvives(args: seq<string>)
    requires EndsArgument(args)
    ensures NonEmpty(args) != [] && NonEmpty(args)[|NonEmpty(args)| - 1] == args[|args| - 1]
    decreases |args|
  {
    if |args| > 1 {
      LastSurvives(args[1..]);
    }
  }

  lemma LooseAt(commands: seq<seq<string>>, k: nat)
    requires k < |commands|
    ensures |LinesOf(commands)| == |commands|
    ensures LinesOf(commands)[k].words == NonEmpty(commands[k])
    ensures |Loose(LinesOf(commands)[k])|
            == |NonEmpty(commands[k])| - if k + 1 < |commands| && EndsArgument(commands[k]) then 1 else 0
    ensures LinesOf(commands)[k].ended <==> k + 1 < |commands| && EndsArgument(commands[k])
  {
    LinesAt(commands, k);
    if EndsArgument(commands[k]) { LastSurvives(commands[k]); }
    hide LinesOf, NonEmpty;
  }

  lemma SecondIsRefused(commands: seq<seq<string>>, k: nat)
    requires 1 <= k < |commands|
    ensures |LinesOf(commands)| == |commands|
    ensures SecondCommand(commands, k)
       <==> RefusedLine(LinesOf(commands), k) && exists j :: 0 <= j < k && LinesOf(commands)[j].words != []
  {
    hide LinesOf, NonEmpty, Loose, EndsArgument;
    LooseAt(commands, k);
    LooseAt(commands, k - 1);
    forall j | 0 <= j < k ensures LinesOf(commands)[j].words == NonEmpty(commands[j]) {
      LooseAt(commands, j);
    }
  }

  lemma NoneThere(commands: seq<seq<string>>, k: nat)
    requires !(1 <= k < |commands|)
    ensures !SecondCommand(commands, k)
  {
  }

  lemma SecondIsSeveral(commands: seq<seq<string>>)
    requires commands != [] && AllWellFormed(LinesOf(commands))
    requires AllWords(LinesOf(commands)) != [] ==> !IsAssignment(AllWords(LinesOf(commands))[0])
    ensures SeveralLines(LinesOf(commands)) <==> exists k: nat :: SecondCommand(commands, k)
  {
    NoAssignments(LinesOf(commands));
    LinesAt(commands, 0);
    hide LinesOf, AllWords, SecondCommand;
    forall k: nat ensures SecondCommand(commands, k) <==> RefusedBehindWord(LinesOf(commands), k, false) {
      if 1 <= k < |commands| { SecondIsRefused(commands, k); } else { NoneThere(commands, k); }
    }
    hide RefusedBehindWord;
  }

  /** Lines of quoted arguments, of which the first is no assignment: they are refused as several commands if and only
      if some line has arguments of a second command; otherwise exactly the nonempty arguments come back. */
  lemma ScriptExactly(commands: seq<seq<string>>, env: map<string, string>)
    requires commands != [] && (AllArguments(commands) != [] ==> !IsAssignment(AllArguments(commands)[0]))
    ensures ParseFrom(Script(commands), 0, Initial(env))
            == if exists k: nat :: SecondCommand(commands, k) then Failed(SeveralCommands)
               else Parsed(AllArguments(commands), env)
  {
    var s, lines := Script(commands), LinesOf(commands);
    assert Lex(s, 0, "") == Lexed(lines, None) by {
      assert s[0..] == s;
      LexScript(s, 0, commands);
    }
    ParseExactly(s, env);
    WordsOfLines(commands);
    LexWellFormed(s, 0, "");
    hide ParseFrom, Lex, Script, LinesOf, AllArguments, AllWords, SecondCommand, SeveralLines;
    SecondIsSeveral(commands);
  }

  // ----- Examples -----

  lemma LexChar(s: string, pos: nat, cur: string)
    requires pos < |s| && s[pos] !in {'\r', '\n', ' ', '\t', '\'', '"', '\\'}
    ensures Lex(s, pos, cur) == Lex(s, pos + 1, cur + [s[pos]])
    ensures cur == "" ==> Lex(s, pos, cur) == Lex(s, pos + 1, [s[pos]])
  {
    assert "" + [s[pos]] == [s[pos]];
    hide ParseQuoted;
  }

  lemma LexBlank(s: string, pos: nat, cur: string, line: Line, more: seq<Line>)
    requires pos < |s| && s[pos] == ' ' && Lex(s, pos + 1, "").lines == [line] + more
    ensures Lex(s, pos, cur).lines == [Line(WordOf(cur) + line.words, line.ended)] + more
    ensures Lex(s, pos, cur).error == Lex(s, pos + 1, "").error
  {
    LexAt(s, pos, cur);
    PrependMore(WordOf(cur), line, more);
    hide Lex, Prepend;
  }

  // A command string of these lines, of which the first word is no assignment.
  lemma Read(s: string, lines: seq<Line>, env: map<string, string>)
    requires Lex(s, 0, "") == Lexed(lines, None)
    requires lines[0].words != [] && !IsAssignment(lines[0].words[0])
    ensures ParseFrom(s, 0, Initial(env)) == if AnyRefused(lines) then Failed(SeveralCommands)
                                             else Parsed(AllWords(lines), env)
  {
    ParseExactly(s, env);
    FirstWordOf(lines);
    FrontArgument(lines, false, false);
    hide ParseFrom, Lex, RefusedBehindWord, AnyRefused, AllWords;
  }

  lemma BreakAfterWord(env: map<string, string>)
    ensures ParseFrom("a\nb", 0, Initial(env)) == Failed(SeveralCommands)
  {
    var s := "a\nb";
    var lines := [Line(["a"], true), Line(["b"], false)];
    assert Lex(s, 0, "") == Lexed(lines, None) by {
      hide Lex;
      LexAt(s, 3, "b");
      LexChar(s, 2, "");
      LexAt(s, 1, "a");
      assert Lex(s, 1, "a").lines == [Line(["a"], true), Line(["b"], false)];
      LexChar(s, 0, "");
    }
    hide Lex, ParseFrom;
    Read(s, lines, env);
    assert RefusedLine(lines, 1);
  }

  lemma BreakAfterSpace(env: map<string, string>)
    ensures ParseFrom("a \nb", 0, Initial(env)) == Parsed(["a", "b"], env)
  {
    var s := "a \nb";
    var lines := [Line(["a"], false), Line(["b"], false)];
    assert Lex(s, 0, "") == Lexed(lines, None) by {
      hide Lex;
      LexAt(s, 4, "b");
      LexChar(s, 3, "");
      LexAt(s, 2, "");
      assert Lex(s, 2, "").lines == [Line([], false), Line(["b"], false)];
      LexBlank(s, 1, "a", Line([], false), [Line(["b"], false)]);
      assert ["a"] + [] == ["a"];
      assert Lex(s, 1, "a").lines == [Line(["a"], false), Line(["b"], false)];
      LexChar(s, 0, "");
    }
    hide Lex, ParseFrom;
    Read(s, lines, env);
    assert AllWords(lines) == ["a", "b"];
  }

  lemma TwoAfterSpace(env: map<string, string>)
    ensures ParseFrom("a \nb c", 0, Initial(env)) == Failed(SeveralCommands)
  {
    var s := "a \nb c";
    var lines := [Line(["a"], false), Line(["b", "c"], false)];
    assert Lex(s, 0, "") == Lexed(lines, None) by {
      hide Lex;
      LexAt(s, 6, "c");
      LexChar(s, 5, "");
      LexBlank(s, 4, "b", Line(["c"], false), []);
      assert ["b"] + ["c"] == ["b", "c"];
      assert Lex(s, 4, "b").lines == [Line(["b", "c"], false)];
      LexChar(s, 3, "");
      LexAt(s, 2, "");
      assert Lex(s, 2, "").lines == [Line([], false), Line(["b", "c"], false)];
      LexBlank(s, 1, "a", Line([], false), [Line(["b", "c"], false)]);
      assert ["a"] + [] == ["a"];
      assert Lex(s, 1, "a").lines == [Line(["a"], false), Line(["b", "c"], false)];
      LexChar(s, 0, "");
    }
    hide Lex, ParseFrom;
    Read(s, lines, env);
    assert RefusedLine(lines, 1);
  }

  lemma BreakAfterBoth(env: map<string, string>)
    ensures ParseFrom("a\nb\n", 0, Initial(env)) == Parsed(["a", "b"], env)
  {
    var s := "a\nb\n";
    var lines := [Line(["a"], true), Line(["b"], true), Line([], false)];
    assert Lex(s, 0, "") == Lexed(lines, None) by {
      hide Lex;
      LexAt(s, 4, "");
      LexAt(s, 3, "b");
      assert Lex(s, 3, "b").lines == [Line(["b"], true), Line([], false)];
      LexChar(s, 2, "");
      LexAt(s, 1, "a");
      assert Lex(s, 1, "a").lines == [Line(["a"], true), Line(["b"], true), Line([], false)];
      LexChar(s, 0, "");
    }
    hide Lex, ParseFrom;
    Read(s, lines, env);
    assert AllWords(lines) == ["a", "b"];
  }

  lemma SecondLineRefused(env: map<string, string>)
    ensures ParseFrom("a\nb c\n", 0, Initial(env)) == Failed(SeveralCommands)
  {
    var s := "a\nb c\n";
    var lines := [Line(["a"], true), Line(["b", "c"], true), Line([], false)];
    assert Lex(s, 0, "") == Lexed(lines, None) by {
      hide Lex;
      LexAt(s, 6, "");
      LexAt(s, 5, "c");
      assert Lex(s, 5, "c").lines == [Line(["c"], true), Line([], false)];
      LexChar(s, 4, "");
      LexBlank(s, 3, "b", Line(["c"], true), [Line([], false)]);
      assert ["b"] + ["c"] == ["b", "c"];
      assert Lex(s, 3, "b").lines == [Line(["b", "c"], true), Line([], false)];
      LexChar(s, 2, "");
      LexAt(s, 1, "a");
      assert Lex(s, 1, "a").lines == [Line(["a"], true), Line(["b", "c"], true), Line([], false)];
      LexChar(s, 0, "");
    }
    hide Lex, ParseFrom;
    Read(s, lines, env);
    assert RefusedLine(lines, 1);
  }

  lemma WordPerLine(env: map<string, string>)
    ensures ParseFrom("a\nb\nc\n", 0, Initial(env)) == Parsed(["a", "b", "c"], env)
  {
    var s := "a\nb\nc\n";
    var lines := [Line(["a"], true), Line(["b"], true), Line(["c"], true), Line([], false)];
    assert Lex(s, 0, "") == Lexed(lines, None) by {
      hide Lex;
      LexAt(s, 6, "");
      LexAt(s, 5, "c");
      assert Lex(s, 5, "c").lines == [Line(["c"], true), Line([], false)];
      LexChar(s, 4, "");
      LexAt(s, 3, "b");
      assert Lex(s, 3, "b").lines == [Line(["b"], true), Line(["c"], true), Line([], false)];
      LexChar(s, 2, "");
      LexAt(s, 1, "a");
      assert Lex(s, 1, "a").lines == [Line(["a"], true), Line(["b"], true), Line(["c"], true), Line([], false)];
      LexChar(s, 0, "");
    }
    hide Lex, ParseFrom;
    Read(s, lines, env);
    assert AllWords(lines) == ["a", "b", "c"];
  }

  lemma BreakAfterAssignment(env: map<string, string>)
    ensures ParseFrom("A=\nb", 0, Initial(env)) == Parsed(["b"], env["A" := ""])
  {
    var s := "A=\nb";
    var lines := [Line(["A="], true), Line(["b"], false)];
    assert Lex(s, 0, "") == Lexed(lines, None) by {
      hide Lex;
      LexAt(s, 4, "b");
      LexChar(s, 3, "");
      LexAt(s, 2, "A=");
      assert Lex(s, 2, "A=").lines == [Line(["A="], true), Line(["b"], false)];
      LexChar(s, 1, "A");
      assert "A" + ['='] == "A=";
      LexChar(s, 0, "");
    }
    ParseExactly(s, env);
    hide Lex, ParseFrom;
    assert Assigned(env, "A=") == Parsed([], env["A" := ""]) by {
      FindFirst("A", "");
      assert "A" + "=" + "" == "A=" && "A="[..1] == "A" && "A="[2..] == "";
    }
    hide Assigned;
    assert AllWords(lines) == ["A=", "b"] && ["A=", "b"][1..] == ["b"];
    assert Arguments(lines) == [Line([], false), Line(["b"], false)];
  }

  /** Seven commands: behind a word a second line is refused, but one more word slips through behind white space, behind
      an assignment, and in front of another line break. */
  lemma SeveralCommandsSlipThrough(env: map<string, string>)
    ensures ParseFrom("a\nb", 0, Initial(env)) == Failed(SeveralCommands)
    ensures ParseFrom("a \nb", 0, Initial(env)) == Parsed(["a", "b"], env)
    ensures ParseFrom("a \nb c", 0, Initial(env)) == Failed(SeveralCommands)
    ensures ParseFrom("A=\nb", 0, Initial(env)) == Parsed(["b"], env["A" := ""])
    ensures ParseFrom("a\nb\n", 0, Initial(env)) == Parsed(["a", "b"], env)
    ensures ParseFrom("a\nb c\n", 0, Initial(env)) == Failed(SeveralCommands)
    ensures ParseFrom("a\nb\nc\n", 0, Initial(env)) == Parsed(["a", "b", "c"], env)
  {
    hide ParseFrom;
    BreakAfterWord(env);
    BreakAfterSpace(env);
    TwoAfterSpace(env);
    BreakAfterAssignment(env);
    BreakAfterBoth(env);
    SecondLineRefused(env);
    WordPerLine(env);
  }
}
