/** `exec`: every way to write a command string, and what it is read as. */
module ExecTokens {
  import opened Basics
  import opened ExecParser
  import opened ExecLines

  /** A character between quotes, with or without a backslash in front. */
  datatype Inner = Inner(c: char, slashed: bool)

  datatype Token =
    | Blank(c: char)
    | Break(c: char)
    | Bare(c: char)
    | Slashed(c: char)
    | Joined(c: char)
    | InQuotes(quote: char, inners: seq<Inner>)

  /** Between quotes, only that quote and the backslash need a backslash; outside, white space and quotes do too, and
      a backslash in front of a line break joins the lines. */
  predicate Proper(t: Token) {
    && (t.Blank? ==> t.c == ' ' || t.c == '\t')
    && (t.Break? || t.Joined? ==> t.c == '\n' || t.c == '\r')
    && (t.Bare? ==> t.c !in [' ', '\t', '\n', '\r', '\'', '"', '\\'])
    && (t.Slashed? ==> t.c != '\n' && t.c != '\r')
    && (t.InQuotes? ==>
          && (t.quote == '\'' || t.quote == '"')
          && forall i :: 0 <= i < |t.inners| ==> ProperInner(t.inners[i], t.quote))
  }

  predicate ProperInner(i: Inner, quote: char) {
    i.slashed || (i.c != quote && i.c != '\\')
  }

  ghost predicate AllProper(ts: seq<Token>) {
    forall i :: 0 <= i < |ts| ==> Proper(ts[i])
  }

  function InnersWritten(inners: seq<Inner>): string {
    if inners == [] then ""
    else (if inners[0].slashed then ['\\', inners[0].c] else [inners[0].c]) + InnersWritten(inners[1..])
  }

  function InnersMean(inners: seq<Inner>): string {
    if inners == [] then "" else [inners[0].c] + InnersMean(inners[1..])
  }

  function TokenWritten(t: Token): string {
    match t
    case Blank(c) => [c]
    case Break(c) => [c]
    case Bare(c) => [c]
    case Slashed(c) => ['\\', c]
    case Joined(c) => ['\\', c]
    case InQuotes(quote, inners) => [quote] + InnersWritten(inners) + [quote]
  }

  /** What a token adds to the word it stands in. */
  function TokenMeans(t: Token): string {
    if t.Bare? || t.Slashed? then [t.c] else if t.InQuotes? then InnersMean(t.inners) else ""
  }

  function Written(ts: seq<Token>): string {
    if ts == [] then "" else TokenWritten(ts[0]) + Written(ts[1..])
  }

  /** The words that the tokens in a line write, each with the tokens between two blanks. With a backslash at the very
      end of the string, the last word is dropped. */
  function Meant(ts: seq<Token>, cur: string, cut: bool): (lines: seq<Line>)
    ensures lines != []
  {
    if ts == [] then [Line(if cut then [] else WordOf(cur), false)]
    else if ts[0].Break? then [Line(WordOf(cur), cur != "")] + Meant(ts[1..], "", cut)
    else if ts[0].Blank? then Prepend(WordOf(cur), Meant(ts[1..], "", cut))
    else Meant(ts[1..], cur + TokenMeans(ts[0]), cut)
  }

  // ----- Reading what was written -----

  lemma InnersHead(s: string, pos: nat, inners: seq<Inner>)
    requires inners != [] && pos + |InnersWritten(inners)| <= |s|
    requires s[pos..pos + |InnersWritten(inners)|] == InnersWritten(inners)
    ensures var n := if inners[0].slashed then 2 else 1;
            && |InnersWritten(inners)| == n + |InnersWritten(inners[1..])|
            && (inners[0].slashed ==> s[pos] == '\\') && s[pos + n - 1] == inners[0].c
            && s[pos + n..pos + |InnersWritten(inners)|] == InnersWritten(inners[1..])
  {
    var w, n := InnersWritten(inners), if inners[0].slashed then 2 else 1;
    assert s[pos] == s[pos..pos + |w|][0] && s[pos + n - 1] == s[pos..pos + |w|][n - 1];
    Slice(s, pos, w, n, |w|);
    assert w[n..] == InnersWritten(inners[1..]);
  }

  lemma InnerRead(s: string, pos: nat, i: Inner, quote: char, cur: string)
    requires pos + (if i.slashed then 2 else 1) <= |s| && quote != '\\' && ProperInner(i, quote)
    requires if i.slashed then s[pos] == '\\' && s[pos + 1] == i.c else s[pos] == i.c
    ensures ParseQuoted(s, pos, quote, cur)
         == ParseQuoted(s, pos + (if i.slashed then 2 else 1), quote, cur + [i.c])
  {
  }

  lemma InnersMeanMore(cur: string, inners: seq<Inner>)
    ensures cur + InnersMean([]) == cur
    ensures inners != [] ==> cur + [inners[0].c] + InnersMean(inners[1..]) == cur + InnersMean(inners)
  {
  }

  lemma NoInners(s: string, pos: nat, quote: char, cur: string)
    ensures |InnersWritten([])| == 0
    ensures pos < |s| && s[pos] == quote ==> ParseQuoted(s, pos, quote, cur) == Closed(pos, cur)
  {
  }

  lemma {:induction false} QuotesRead(s: string, pos: nat, inners: seq<Inner>, quote: char, cur: string)
    requires quote != '\\' && forall i :: 0 <= i < |inners| ==> ProperInner(inners[i], quote)
    requires var end := pos + |InnersWritten(inners)|;
             end < |s| && s[pos..end] == InnersWritten(inners) && s[end] == quote
    ensures ParseQuoted(s, pos, quote, cur) == Closed(pos + |InnersWritten(inners)|, cur + InnersMean(inners))
    decreases |inners|
  {
    hide InnersWritten, InnersMean, ParseQuoted;
    InnersMeanMore(cur, inners);
    if inners == [] {
      NoInners(s, pos, quote, cur);
    } else {
      var n := if inners[0].slashed then 2 else 1;
      InnersHead(s, pos, inners);
      assert ProperInner(inners[0], quote);
      InnerRead(s, pos, inners[0], quote, cur);
      hide ProperInner;
      QuotesRead(s, pos + n, inners[1..], quote, cur + [inners[0].c]);
    }
  }

  lemma WrittenHead(s: string, pos: nat, ts: seq<Token>)
    requires ts != [] && pos + |Written(ts)| <= |s| && s[pos..pos + |Written(ts)|] == Written(ts)
    ensures var n := |TokenWritten(ts[0])|;
            && |Written(ts)| == n + |Written(ts[1..])| && s[pos..pos + n] == TokenWritten(ts[0])
            && s[pos + n..pos + |Written(ts)|] == Written(ts[1..])
  {
    hide TokenWritten;
    var w, n := Written(ts), |TokenWritten(ts[0])|;
    Slice(s, pos, w, 0, n);
    Slice(s, pos, w, n, |w|);
    assert w[..n] == TokenWritten(ts[0]) && w[n..] == Written(ts[1..]);
  }

  lemma CharRead(s: string, pos: nat, t: Token, cur: string)
    requires Proper(t) && !t.Break? && !t.Blank? && !t.InQuotes?
    requires pos + |TokenWritten(t)| <= |s| && s[pos..pos + |TokenWritten(t)|] == TokenWritten(t)
    ensures Lex(s, pos, cur) == Lex(s, pos + |TokenWritten(t)|, cur + TokenMeans(t))
  {
    var n := |TokenWritten(t)|;
    assert s[pos] == s[pos..pos + n][0] && s[pos + n - 1] == s[pos..pos + n][n - 1];
    assert cur + "" == cur;
    hide ParseQuoted, Prepend;
  }

  lemma QuotesOver(s: string, pos: nat, at: nat, cur: string, word: string)
    requires pos < |s| && (s[pos] == '\'' || s[pos] == '"') && at < |s|
    requires ParseQuoted(s, pos + 1, s[pos], cur) == Closed(at, word)
    ensures Lex(s, pos, cur) == Lex(s, at + 1, word)
  {
    hide ParseQuoted, Prepend;
  }

  lemma QuotesTaken(s: string, pos: nat, t: Token, cur: string)
    requires Proper(t) && t.InQuotes?
    requires pos + |TokenWritten(t)| <= |s| && s[pos..pos + |TokenWritten(t)|] == TokenWritten(t)
    ensures Lex(s, pos, cur) == Lex(s, pos + |TokenWritten(t)|, cur + TokenMeans(t))
  {
    hide Lex;
    var n, w := |TokenWritten(t)|, InnersWritten(t.inners);
    assert s[pos] == s[pos..pos + n][0] && s[pos + n - 1] == s[pos..pos + n][n - 1];
    Slice(s, pos, TokenWritten(t), 1, n - 1);
    assert TokenWritten(t)[1..n - 1] == w;
    QuotesRead(s, pos + 1, t.inners, t.quote, cur);
    QuotesOver(s, pos, pos + n - 1, cur, cur + InnersMean(t.inners));
    hide ParseQuoted, Prepend;
  }

  lemma TokenRead(s: string, pos: nat, t: Token, cur: string)
    requires Proper(t) && pos + |TokenWritten(t)| <= |s| && s[pos..pos + |TokenWritten(t)|] == TokenWritten(t)
    ensures var next := pos + |TokenWritten(t)|;
            if t.Break? then
              && Lex(s, pos, cur).lines == [Line(WordOf(cur), cur != "")] + Lex(s, next, "").lines
              && Lex(s, pos, cur).error == Lex(s, next, "").error
            else if t.Blank? then
              Lex(s, pos, cur) == Lexed(Prepend(WordOf(cur), Lex(s, next, "").lines), Lex(s, next, "").error)
            else Lex(s, pos, cur) == Lex(s, next, cur + TokenMeans(t))
  {
    if t.Break? || t.Blank? {
      assert s[pos] == s[pos..pos + 1][0];
      LexAt(s, pos, cur);
    } else if t.InQuotes? {
      QuotesTaken(s, pos, t, cur);
    } else {
      CharRead(s, pos, t, cur);
    }
    hide Lex, Prepend, WordOf, TokenMeans;
  }

  lemma LastRead(s: string, pos: nat, cur: string)
    ensures |Written([])| == 0
    ensures pos == |s| || (pos + 1 == |s| && s[pos] == '\\') ==>
              Lex(s, pos, cur) == Lexed(Meant([], cur, pos < |s|), None)
  {
  }

  /** The lines of a token and of what follows it. */
  lemma MeantHead(ts: seq<Token>, cur: string, cut: bool, rest: seq<Line>)
    requires ts != []
    requires rest == Meant(ts[1..], if ts[0].Break? || ts[0].Blank? then "" else cur + TokenMeans(ts[0]), cut)
    ensures rest != [] && Meant(ts, cur, cut) == if ts[0].Break? then [Line(WordOf(cur), cur != "")] + rest
                                                 else if ts[0].Blank? then Prepend(WordOf(cur), rest)
                                                 else rest
  {
    hide TokenMeans, WordOf, Prepend;
  }

  lemma {:induction false} TokensRead(s: string, pos: nat, ts: seq<Token>, cur: string)
    requires AllProper(ts)
    requires var end := pos + |Written(ts)|;
             && end <= |s| && s[pos..end] == Written(ts)
             && (end == |s| || (end + 1 == |s| && s[end] == '\\'))
    ensures Lex(s, pos, cur) == Lexed(Meant(ts, cur, pos + |Written(ts)| < |s|), None)
    decreases |ts|
  {
    hide Lex, Written, TokenWritten, TokenMeans, Proper, WordOf, Prepend, Meant;
    if ts == [] {
      LastRead(s, pos, cur);
    } else {
      WrittenHead(s, pos, ts);
      var t, next, cut := ts[0], pos + |TokenWritten(ts[0])|, pos + |Written(ts)| < |s|;
      TokenRead(s, pos, t, cur);
      var word := if t.Break? || t.Blank? then "" else cur + TokenMeans(t);
      TokensRead(s, next, ts[1..], word);
      MeantHead(ts, cur, cut, Meant(ts[1..], word, cut));
    }
  }

  // ----- Writing what is read -----

  lemma {:induction false} InnersFound(s: string, pos: nat, quote: char, cur: string) returns (inners: seq<Inner>)
    requires pos <= |s| && ParseQuoted(s, pos, quote, cur).Closed?
    ensures forall i :: 0 <= i < |inners| ==> ProperInner(inners[i], quote)
    ensures s[pos..ParseQuoted(s, pos, quote, cur).pos] == InnersWritten(inners)
    decreases |s| - pos
  {
    var at := ParseQuoted(s, pos, quote, cur).pos;
    if s[pos] == quote {
      inners := [];
    } else {
      var i := if s[pos] == '\\' then Inner(s[pos + 1], true) else Inner(s[pos], false);
      var n := if i.slashed then 2 else 1;
      var more := InnersFound(s, pos + n, quote, cur + [i.c]);
      inners := [i] + more;
      assert inners[1..] == more && s[pos..at] == s[pos..pos + n] + s[pos + n..at];
    }
  }

  lemma QuotesFound(s: string, pos: nat, cur: string) returns (t: Token, word: string)
    requires pos < |s| && (s[pos] == '\'' || s[pos] == '"') && ParseQuoted(s, pos + 1, s[pos], cur).Closed?
    ensures Proper(t) && |TokenWritten(t)| > 0 && pos + |TokenWritten(t)| <= |s|
    ensures s[pos..pos + |TokenWritten(t)|] == TokenWritten(t)
    ensures Lex(s, pos, cur) == Lex(s, pos + |TokenWritten(t)|, word)
  {
    hide Lex;
    var q := ParseQuoted(s, pos + 1, s[pos], cur);
    var inners := InnersFound(s, pos + 1, s[pos], cur);
    t, word := InQuotes(s[pos], inners), q.cur;
    assert s[pos..q.pos + 1] == [s[pos]] + s[pos + 1..q.pos] + [s[q.pos]];
    QuotesOver(s, pos, q.pos, cur, word);
    hide ParseQuoted;
  }

  function CharToken(c: char, next: char): Token {
    if c == '\\' then if next == '\n' || next == '\r' then Joined(next) else Slashed(next)
    else if c == '\n' || c == '\r' then Break(c)
    else if c == ' ' || c == '\t' then Blank(c)
    else Bare(c)
  }

  lemma CharFound(s: string, pos: nat)
    requires pos < |s| && s[pos] != '\'' && s[pos] != '"' && (s[pos] == '\\' ==> pos + 1 < |s|)
    ensures var t := CharToken(s[pos], if pos + 1 < |s| then s[pos + 1] else ' ');
            && Proper(t) && |TokenWritten(t)| > 0 && pos + |TokenWritten(t)| <= |s|
            && s[pos..pos + |TokenWritten(t)|] == TokenWritten(t)
  {
  }

  lemma ClosedQuotes(s: string, pos: nat, cur: string)
    requires pos < |s| && (s[pos] == '\'' || s[pos] == '"') && Lex(s, pos, cur).error == None
    ensures ParseQuoted(s, pos + 1, s[pos], cur).Closed?
  {
    hide ParseQuoted;
  }

  lemma TokenFound(s: string, pos: nat, cur: string) returns (t: Token, word: string)
    requires pos < |s| && Lex(s, pos, cur).error == None && !(s[pos] == '\\' && pos + 1 == |s|)
    ensures Proper(t) && |TokenWritten(t)| > 0 && pos + |TokenWritten(t)| <= |s|
    ensures s[pos..pos + |TokenWritten(t)|] == TokenWritten(t)
    ensures Lex(s, pos + |TokenWritten(t)|, word).error == None
  {
    hide Lex, ParseQuoted, Prepend, TokenMeans, TokenWritten, Proper;
    if s[pos] == '\'' || s[pos] == '"' {
      ClosedQuotes(s, pos, cur);
      t, word := QuotesFound(s, pos, cur);
    } else {
      CharFound(s, pos);
      t := CharToken(s[pos], if pos + 1 < |s| then s[pos + 1] else ' ');
      word := if t.Break? || t.Blank? then "" else cur + TokenMeans(t);
      TokenRead(s, pos, t, cur);
    }
  }

  /** Tokens that write the string, but for a backslash at its very end. */
  ghost predicate IsWritten(s: string, ts: seq<Token>, cut: bool) {
    AllProper(ts) && s == Written(ts) + if cut then "\\" else ""
  }

  lemma {:induction false} TokensFound(s: string, pos: nat, cur: string) returns (ts: seq<Token>, cut: bool)
    requires pos <= |s| && Lex(s, pos, cur).error == None
    ensures IsWritten(s[pos..], ts, cut)
    decreases |s| - pos
  {
    hide Lex, TokenWritten, Proper;
    if pos == |s| {
      ts, cut := [], false;
    } else if s[pos] == '\\' && pos + 1 == |s| {
      ts, cut := [], true;
      assert s[pos..] == "\\";
    } else {
      var t, word := TokenFound(s, pos, cur);
      var n, more := |TokenWritten(t)|, [];
      more, cut := TokensFound(s, pos + n, word);
      ts := [t] + more;
      assert ts[1..] == more && s[pos..] == s[pos..pos + n] + s[pos + n..];
    }
  }

  // ----- Main results -----

  lemma WrittenIsRead(s: string, ts: seq<Token>, cut: bool)
    requires IsWritten(s, ts, cut)
    ensures Lex(s, 0, "") == Lexed(Meant(ts, "", cut), None)
  {
    hide Lex, Written, Proper;
    assert s[..|Written(ts)|] == Written(ts);
    TokensRead(s, 0, ts, "");
  }

  /** The quotes of a command string are in order exactly if it can be written from tokens, with at most one more
      backslash at its end. */
  lemma QuotesInOrderExactly(s: string)
    ensures Lex(s, 0, "").error == None <==> exists ts, cut :: IsWritten(s, ts, cut)
  {
    hide Lex, IsWritten;
    if Lex(s, 0, "").error == None {
      var ts, cut := TokensFound(s, 0, "");
      assert s[0..] == s;
    } else if ts, cut :| IsWritten(s, ts, cut) {
      WrittenIsRead(s, ts, cut);
    }
  }

  /** However a command string is written, it is parsed like the quoted form of the arguments that its tokens mean. */
  lemma EverySpellingIsParsed(
    s: string, ts: seq<Token>, cut: bool, commands: seq<seq<string>>, env: map<string, string>)
    requires commands != [] && IsWritten(s, ts, cut) && Meant(ts, "", cut) == LinesOf(commands)
    ensures ParseFrom(s, 0, Initial(env)) == ParseFrom(Script(commands), 0, Initial(env))
  {
    var quoted := Script(commands);
    WrittenIsRead(s, ts, cut);
    LexScript(quoted, 0, commands);
    ParseIsRun(s, 0, Initial(env));
    ParseIsRun(quoted, 0, Initial(env));
    hide Lex, ParseFrom, RunLines, Meant, IsWritten, LinesOf, Script;
  }

  // ----- Spellings of a piece of a word -----

  /** What tokens write, none of which ends a word. */
  function Text(ts: seq<Token>): string {
    if ts == [] then "" else TokenMeans(ts[0]) + Text(ts[1..])
  }

  predicate InWord(ts: seq<Token>) {
    forall i :: 0 <= i < |ts| ==> !ts[i].Blank? && !ts[i].Break?
  }

  lemma {:induction false} MeantOver(piece: seq<Token>, ts: seq<Token>, cur: string, cut: bool)
    requires InWord(piece)
    ensures Meant(piece + ts, cur, cut) == Meant(ts, cur + Text(piece), cut)
    decreases |piece|
  {
    if piece == [] {
      assert piece + ts == ts && cur + "" == cur;
    } else {
      var word := cur + TokenMeans(piece[0]);
      assert (piece + ts)[0] == piece[0] && (piece + ts)[1..] == piece[1..] + ts;
      MeantOver(piece[1..], ts, word, cut);
      assert word + Text(piece[1..]) == cur + Text(piece);
      hide TokenMeans;
    }
  }

  lemma {:induction false} MeantAfter(front: seq<Token>, x: seq<Token>, y: seq<Token>, cur: string, cut: bool)
    requires forall word :: Meant(x, word, cut) == Meant(y, word, cut)
    ensures Meant(front + x, cur, cut) == Meant(front + y, cur, cut)
    decreases |front|
  {
    if front == [] {
      assert front + x == x && front + y == y;
    } else {
      assert (front + x)[0] == front[0] && (front + x)[1..] == front[1..] + x;
      assert (front + y)[0] == front[0] && (front + y)[1..] == front[1..] + y;
      MeantAfter(front[1..], x, y,
                 if front[0].Break? || front[0].Blank? then "" else cur + TokenMeans(front[0]), cut);
      hide TokenMeans, WordOf, Prepend;
    }
  }

  /** A piece of a word may be written with other tokens of the same text: the outcome stays the same. */
  lemma SameTextSameOutcome(
    front: seq<Token>, x: seq<Token>, y: seq<Token>, back: seq<Token>, s: string, t: string, cut: bool,
    env: map<string, string>)
    requires IsWritten(s, front + x + back, cut) && IsWritten(t, front + y + back, cut)
    requires InWord(x) && InWord(y) && Text(x) == Text(y)
    ensures ParseFrom(s, 0, Initial(env)) == ParseFrom(t, 0, Initial(env))
  {
    forall word ensures Meant(x + back, word, cut) == Meant(y + back, word, cut) {
      MeantOver(x, back, word, cut);
      MeantOver(y, back, word, cut);
      hide Meant, Text;
    }
    MeantAfter(front, x + back, y + back, "", cut);
    assert front + (x + back) == front + x + back && front + (y + back) == front + y + back;
    WrittenIsRead(s, front + x + back, cut);
    WrittenIsRead(t, front + y + back, cut);
    ParseIsRun(s, 0, Initial(env));
    ParseIsRun(t, 0, Initial(env));
    hide Lex, ParseFrom, RunLines, Meant, IsWritten, Text, InWord;
  }

  lemma {:induction false} WrittenAppend(a: seq<Token>, b: seq<Token>)
    ensures Written(a + b) == Written(a) + Written(b)
    decreases |a|
  {
    hide TokenWritten;
    if a == [] {
      assert a + b == b;
    } else {
      assert (a + b)[0] == a[0] && (a + b)[1..] == a[1..] + b;
      WrittenAppend(a[1..], b);
    }
  }

  lemma WrittenAround(front: seq<Token>, x: seq<Token>, back: seq<Token>)
    requires AllProper(front) && AllProper(x) && AllProper(back)
    ensures IsWritten(Written(front) + Written(x) + Written(back), front + x + back, false)
  {
    hide Proper, Written;
    WrittenAppend(front, x);
    WrittenAppend(front + x, back);
    var s := Written(front) + Written(x) + Written(back);
    assert s + "" == s;
  }

  lemma SpelledAs(front: seq<Token>, x: seq<Token>, y: seq<Token>, back: seq<Token>, env: map<string, string>)
    requires AllProper(front) && AllProper(x) && AllProper(y) && AllProper(back)
    requires InWord(x) && InWord(y) && Text(x) == Text(y)
    ensures ParseFrom(Written(front) + Written(x) + Written(back), 0, Initial(env))
         == ParseFrom(Written(front) + Written(y) + Written(back), 0, Initial(env))
  {
    hide Written, ParseFrom, Text, InWord, IsWritten, AllProper;
    WrittenAround(front, x, back);
    WrittenAround(front, y, back);
    SameTextSameOutcome(front, x, y, back, Written(front) + Written(x) + Written(back),
                        Written(front) + Written(y) + Written(back), false, env);
  }

  lemma OneToken(t: Token)
    requires Proper(t) && !t.Blank? && !t.Break?
    ensures AllProper([t]) && InWord([t]) && Written([t]) == TokenWritten(t) && Text([t]) == TokenMeans(t)
  {
    assert [t][1..] == [];
  }

  /** A backslash and a line break between any two tokens are as good as nothing. */
  lemma JoinedLines(front: seq<Token>, back: seq<Token>, newline: char, env: map<string, string>)
    requires AllProper(front) && AllProper(back) && (newline == '\n' || newline == '\r')
    ensures ParseFrom(Written(front) + ['\\', newline] + Written(back), 0, Initial(env))
         == ParseFrom(Written(front) + Written(back), 0, Initial(env))
  {
    hide ParseFrom, AllProper, InWord;
    var t := Joined(newline);
    OneToken(t);
    assert Written([]) == "" && Text([]) == "" && TokenMeans(t) == "" && TokenWritten(t) == ['\\', newline];
    hide Written, Text, TokenWritten, TokenMeans;
    assert AllProper([]) && InWord([]) by { NothingIsProper(); }
    SpelledAs(front, [t], [], back, env);
    assert Written(front) + "" == Written(front);
  }

  lemma NothingIsProper()
    ensures AllProper([]) && InWord([])
  {
  }

  /** A character that needs no backslash means the same behind one, and between quotes of either kind. */
  lemma SlashedOrQuoted(front: seq<Token>, back: seq<Token>, c: char, quote: char, env: map<string, string>)
    requires AllProper(front) && AllProper(back) && (quote == '\'' || quote == '"')
    requires c !in [' ', '\t', '\n', '\r', '\'', '"', '\\']
    ensures var plain := ParseFrom(Written(front) + [c] + Written(back), 0, Initial(env));
            && ParseFrom(Written(front) + ['\\', c] + Written(back), 0, Initial(env)) == plain
            && ParseFrom(Written(front) + [quote, c, quote] + Written(back), 0, Initial(env)) == plain
  {
    hide ParseFrom, AllProper, InWord, Written, Text;
    var t, u, v := Bare(c), Slashed(c), InQuotes(quote, [Inner(c, false)]);
    OneInner(c, quote);
    OneToken(t);
    OneToken(u);
    OneToken(v);
    assert TokenWritten(t) == [c] && TokenWritten(u) == ['\\', c];
    assert TokenMeans(t) == [c] && TokenMeans(u) == [c];
    hide TokenWritten, TokenMeans;
    SpelledAs(front, [u], [t], back, env);
    SpelledAs(front, [v], [t], back, env);
  }

  lemma OneInner(c: char, quote: char)
    requires c != quote && c != '\\' && (quote == '\'' || quote == '"')
    ensures var t := InQuotes(quote, [Inner(c, false)]);
            TokenWritten(t) == [quote, c, quote] && TokenMeans(t) == [c] && Proper(t)
  {
    var inners := [Inner(c, false)];
    assert inners[1..] == [] && InnersWritten([]) == "" && InnersMean([]) == "";
    assert InnersWritten(inners) == [c] && InnersMean(inners) == [c];
  }
}
