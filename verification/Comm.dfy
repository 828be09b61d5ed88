/** `comm`: the merge of two files of lines into three columns. */
module Comm {
  import opened Basics

  ghost predicate NotAfterChains<T>(cmp: (T, T) -> int, x: T, y: T, z: T) {
    cmp(x, y) <= 0 && cmp(y, z) <= 0 ==> cmp(x, z) <= 0
  }

  /** What collation guarantees: a total preorder, reported by sign. */
  ghost predicate Collation<T(!new)>(cmp: (T, T) -> int) {
    && (forall x, y :: cmp(x, y) < 0 <==> cmp(y, x) > 0)
    && (forall x, y, z :: NotAfterChains(cmp, x, y, z))
  }

  /** Two lines collate alike. */
  ghost predicate Same<T>(cmp: (T, T) -> int, x: T, y: T) {
    cmp(x, y) == 0
  }

  lemma SameIsEquivalence<T(!new)>(cmp: (T, T) -> int, x: T, y: T, z: T)
    requires Collation(cmp)
    ensures Same(cmp, x, x)
    ensures Same(cmp, x, y) ==> Same(cmp, y, x)
    ensures Same(cmp, x, y) && Same(cmp, y, z) ==> Same(cmp, x, z)
    ensures cmp(x, y) < 0 && Same(cmp, y, z) ==> cmp(x, z) < 0
    ensures cmp(x, y) < 0 && Same(cmp, x, z) ==> cmp(z, y) < 0
  {
    assert NotAfterChains(cmp, x, y, z) && NotAfterChains(cmp, z, y, x);
    assert NotAfterChains(cmp, z, x, y) && NotAfterChains(cmp, y, z, x) && NotAfterChains(cmp, y, x, z);
  }

  ghost predicate Sorted<T>(cmp: (T, T) -> int, s: seq<T>) {
    forall i, j :: 0 <= i < j < |s| ==> cmp(s[i], s[j]) <= 0
  }

  /** The integers collate by their difference, and their ascending sequences are the sorted ones. */
  lemma IntegersCollate(s: seq<int>)
    ensures Collation((x: int, y: int) => x - y)
    ensures Sorted((x: int, y: int) => x - y, s) <==> forall i, j :: 0 <= i < j < |s| ==> s[i] <= s[j]
  {
  }

  /** A line of output: the column it is printed in, and the line. */
  datatype Printed<T> = Printed(column: int, line: T)

  ghost function InColumn<T>(column: int, lines: seq<T>): (out: seq<Printed<T>>)
    ensures |out| == |lines|
  {
    if lines == [] then [] else [Printed(column, lines[0])] + InColumn(column, lines[1..])
  }

  /** Everything `comm` has to say about two files, before columns are suppressed. */
  ghost function Merge<T>(cmp: (T, T) -> int, a: seq<T>, b: seq<T>): seq<Printed<T>>
    decreases |a| + |b|
  {
    if a == [] then InColumn(2, b)
    else if b == [] then InColumn(1, a)
    else if cmp(a[0], b[0]) == 0 then [Printed(3, a[0])] + Merge(cmp, a[1..], b[1..])
    else if cmp(a[0], b[0]) < 0 then [Printed(1, a[0])] + Merge(cmp, a[1..], b)
    else [Printed(2, b[0])] + Merge(cmp, a, b[1..])
  }

  /** The columns that are shown. */
  datatype Shown = Shown(one: bool, two: bool, three: bool) {
    predicate Has(column: int) {
      (column == 1 && one) || (column == 2 && two) || (column == 3 && three)
    }
  }

  ghost function Select<T>(shown: Shown, out: seq<Printed<T>>): seq<Printed<T>> {
    if out == [] then []
    else (if shown.Has(out[0].column) then [out[0]] else []) + Select(shown, out[1..])
  }

  lemma {:induction false} SelectColumn<T>(shown: Shown, column: int, lines: seq<T>)
    ensures Select(shown, InColumn(column, lines)) == if shown.Has(column) then InColumn(column, lines) else []
  {
    if lines != [] {
      SelectColumn(shown, column, lines[1..]);
      assert InColumn(column, lines)[1..] == InColumn(column, lines[1..]);
    }
  }

  /** Suppressed columns are left out and nothing else changes: a line is shown exactly if the flag of its column is
      set, and the lines shown keep their order. */
  lemma {:induction false} SelectExactly<T>(shown: Shown, a: seq<Printed<T>>, b: seq<Printed<T>>, p: Printed<T>)
    ensures Select(shown, a + b) == Select(shown, a) + Select(shown, b)
    ensures var visible := || (p.column == 1 && shown.one)
                           || (p.column == 2 && shown.two)
                           || (p.column == 3 && shown.three);
            Select(shown, [p]) == if visible then [p] else []
    decreases |a|
  {
    assert [p][1..] == [];
    if a == [] {
      assert a + b == b;
    } else {
      assert (a + b)[1..] == a[1..] + b;
      SelectExactly(shown, a[1..], b, p);
    }
  }

  // ----- The program -----

  /** An input file, read a line at a time. */
  class LineReader<T> {
    const lines: seq<T>
    var next: nat

    ghost predicate Valid()
      reads this
    {
      next <= |lines|
    }

    constructor (lines: seq<T>)
      ensures Valid() && this.lines == lines && next == 0
    {
      this.lines := lines;
      next := 0;
    }

    /** `fgets`: the next line into the buffer, which keeps its contents at the end of the file. */
    method GetLine(buffer0: T) returns (ok: bool, buffer: T)
      requires Valid()
      modifies this
      ensures Valid() && ok == (old(next) < |lines|)
      ensures ok ==> next == old(next) + 1 && buffer == lines[old(next)]
      ensures !ok ==> next == old(next) && buffer == buffer0
    {
      ok := next < |lines|;
      buffer := buffer0;
      if ok {
        buffer := lines[next];
        next := next + 1;
      }
    }
  }

  /** `show`: prints the line in the buffer and the rest of its file. */
  method Show<T>(fp: LineReader<T>, column: int, buf0: T, out0: seq<Printed<T>>) returns (out: seq<Printed<T>>)
    requires fp.Valid() && fp.next >= 1 && fp.lines[fp.next - 1] == buf0
    modifies fp
    ensures out == out0 + InColumn(column, old(fp.lines[fp.next - 1..]))
  {
    out := out0;
    var buf, more := buf0, true;
    ghost var start := fp.next - 1;
    while more
      invariant fp.Valid() && fp.next >= 1
      invariant more ==> buf == fp.lines[fp.next - 1]
      invariant out + InColumn(column, if more then fp.lines[fp.next - 1..] else [])
             == out0 + InColumn(column, fp.lines[start..])
      decreases |fp.lines| - fp.next, more
    {
      ghost var before, rest := out, fp.lines[fp.next - 1..];
      out := out + [Printed(column, buf)];
      assert rest[0] == buf && rest[1..] == fp.lines[fp.next..];
      assert before + ([Printed(column, buf)] + InColumn(column, rest[1..])) == out + InColumn(column, rest[1..]);
      more, buf := fp.GetLine(buf);
    }
  }

  /** Line `i` is the next to be compared: it is still to be read, or in the buffer. */
  ghost predicate Ahead<T>(fp: LineReader<T>, i: nat, read: bool, line: T, done: bool)
    reads fp
  {
    if read then fp.next == i else i < |fp.lines| && fp.next == i + 1 && line == fp.lines[i] && !done
  }

  /** Reads line `i` unless it is in the buffer already. */
  method NextLine<T>(fp: LineReader<T>, read: bool, line0: T, done0: bool, ghost i: nat) returns (done: bool, line: T)
    requires fp.Valid() && i <= |fp.lines| && Ahead(fp, i, read, line0, done0)
    modifies fp
    ensures fp.Valid() && done == (i == |fp.lines|)
    ensures if done then fp.next == i else fp.next == i + 1 && line == fp.lines[i]
  {
    done, line := done0, line0;
    if read {
      var ok;
      ok, line := fp.GetLine(line);
      done := !ok;
    }
  }

  function LesserLine<T>(cmp: (T, T) -> int, shown: Shown, line1: T, line2: T): seq<Printed<T>> {
    var comp := cmp(line1, line2);
    var (column, line) := if comp == 0 then (3, line1) else if comp < 0 then (1, line1) else (2, line2);
    if shown.Has(column) then [Printed(column, line)] else []
  }

  /** Compares the two lines and prints the one that comes first, in its column if that is shown. */
  method PrintLesser<T>(cmp: (T, T) -> int, shown: Shown, line1: T, line2: T, out0: seq<Printed<T>>)
    returns (comp: int, out: seq<Printed<T>>)
    ensures comp == cmp(line1, line2)
    ensures out == out0 + LesserLine(cmp, shown, line1, line2)
  {
    comp := cmp(line1, line2);
    out := out0;
    if comp == 0 {
      if shown.three { out := out + [Printed(3, line1)]; }
    } else if comp < 0 {
      if shown.one { out := out + [Printed(1, line1)]; }
    } else {
      if shown.two { out := out + [Printed(2, line2)]; }
    }
  }

  lemma MergeEnd<T>(cmp: (T, T) -> int, shown: Shown, a: seq<T>, b: seq<T>, i: nat, j: nat)
    requires i <= |a| && j <= |b|
    ensures i == |a| ==> Select(shown, Merge(cmp, a[i..], b[j..])) == if shown.two then InColumn(2, b[j..]) else []
    ensures j == |b| ==> Select(shown, Merge(cmp, a[i..], b[j..])) == if shown.one then InColumn(1, a[i..]) else []
  {
    SelectColumn(shown, 2, b[j..]);
    SelectColumn(shown, 1, a[i..]);
    if i == |a| { assert a[i..] == []; }
    if j == |b| { assert b[j..] == []; }
  }

  lemma MergeStep<T>(cmp: (T, T) -> int, shown: Shown, a: seq<T>, b: seq<T>, i: nat, j: nat)
    requires i < |a| && j < |b|
    ensures var c := cmp(a[i], b[j]);
            Select(shown, Merge(cmp, a[i..], b[j..]))
            == LesserLine(cmp, shown, a[i], b[j])
               + Select(shown, Merge(cmp, a[if c <= 0 then i + 1 else i..], b[if c >= 0 then j + 1 else j..]))
  {
    assert a[i..][1..] == a[i + 1..] && b[j..][1..] == b[j + 1..];
    var m := Merge(cmp, a[i..], b[j..]);
    var c := cmp(a[i], b[j]);
    var rest := Merge(cmp, a[if c <= 0 then i + 1 else i..], b[if c >= 0 then j + 1 else j..]);
    assert m[1..] == rest;
  }

  lemma PrintedStep<T>(cmp: (T, T) -> int, shown: Shown, a: seq<T>, b: seq<T>, i: nat, j: nat,
                       before: seq<Printed<T>>, out: seq<Printed<T>>)
    requires i < |a| && j < |b| && out == before + LesserLine(cmp, shown, a[i], b[j])
    ensures var c := cmp(a[i], b[j]);
            before + Select(shown, Merge(cmp, a[i..], b[j..]))
            == out + Select(shown, Merge(cmp, a[if c <= 0 then i + 1 else i..], b[if c >= 0 then j + 1 else j..]))
  {
    hide Merge, Select, LesserLine;
    MergeStep(cmp, shown, a, b, i, j);
  }

  /** The merge loop: what is printed is the selected part of `Merge`. `line0` is whatever the line
      buffers hold at first. */
  method Compare<T>(cmp: (T, T) -> int, shown: Shown, a: seq<T>, b: seq<T>, line0: T) returns (out: seq<Printed<T>>)
    ensures out == Select(shown, Merge(cmp, a, b))
  {
    var fp1 := new LineReader<T>(a);
    var fp2 := new LineReader<T>(b);
    var read1, read2, file1done, file2done := true, true, false, false;
    var line1, line2 := line0, line0;
    out := [];
    ghost var i, j := 0, 0;
    assert a[0..] == a && b[0..] == b;
    hide Merge, Select, InColumn, LesserLine;
    while true
      invariant fresh(fp1) && fresh(fp2) && fp1 != fp2 && fp1.Valid() && fp2.Valid() && fp1.lines == a && fp2.lines == b
      invariant 0 <= i <= |a| && 0 <= j <= |b|
      invariant Ahead(fp1, i, read1, line1, file1done) && Ahead(fp2, j, read2, line2, file2done)
      invariant out + Select(shown, Merge(cmp, a[i..], b[j..])) == Select(shown, Merge(cmp, a, b))
      decreases |a| - i + |b| - j
    {
      file1done, line1 := NextLine(fp1, read1, line1, file1done, i);
      file2done, line2 := NextLine(fp2, read2, line2, file2done, j);
      ghost var before := out;
      if file1done {
        MergeEnd(cmp, shown, a, b, i, j);
        if !file2done && shown.two {
          out := Show(fp2, 2, line2, out);
        }
        break;
      }
      if file2done {
        MergeEnd(cmp, shown, a, b, i, j);
        if !file1done && shown.one {
          out := Show(fp1, 1, line1, out);
        }
        break;
      }
      var comp;
      comp, out := PrintLesser(cmp, shown, line1, line2, out);
      PrintedStep(cmp, shown, a, b, i, j, before, out);
      read1, read2 := comp <= 0, comp >= 0;
      i, j := if comp <= 0 then i + 1 else i, if comp >= 0 then j + 1 else j;
    }
  }

  // ----- What the columns mean -----

  /** One step of the merge of two nonempty files: the column and line it prints, and what is left. */
  lemma MergeHead<T>(cmp: (T, T) -> int, a: seq<T>, b: seq<T>)
    requires a != [] && b != []
    ensures var c := cmp(a[0], b[0]);
            Merge(cmp, a, b)
            == [if c == 0 then Printed(3, a[0]) else if c < 0 then Printed(1, a[0]) else Printed(2, b[0])]
               + Merge(cmp, if c <= 0 then a[1..] else a, if c >= 0 then b[1..] else b)
  {
  }

  /** The lines printed in the two columns of one file, in order. */
  ghost function LinesOf<T>(out: seq<Printed<T>>, column: int): seq<T> {
    if out == [] then []
    else (if out[0].column == column || out[0].column == 3 then [out[0].line] else []) + LinesOf(out[1..], column)
  }

  lemma {:induction false} LinesOfColumn<T>(column: int, lines: seq<T>, wanted: int)
    requires column == 1 || column == 2
    ensures LinesOf(InColumn(column, lines), wanted) == if wanted == column then lines else []
  {
    if lines != [] {
      LinesOfColumn(column, lines[1..], wanted);
      assert InColumn(column, lines)[1..] == InColumn(column, lines[1..]);
    }
  }

  ghost predicate SameLines<T>(cmp: (T, T) -> int, s: seq<T>, t: seq<T>) {
    |s| == |t| && forall i :: 0 <= i < |s| ==> Same(cmp, s[i], t[i])
  }

  lemma LinesOfHead<T>(p: Printed<T>, rest: seq<Printed<T>>, column: int)
    ensures LinesOf([p] + rest, column)
         == (if p.column == column || p.column == 3 then [p.line] else []) + LinesOf(rest, column)
  {
  }

  /** For any two files, sorted or not: columns 1 and 3 are the first file, line for line. */
  lemma {:induction false} FirstFileReproduced<T>(cmp: (T, T) -> int, a: seq<T>, b: seq<T>)
    ensures LinesOf(Merge(cmp, a, b), 1) == a
    decreases |a| + |b|
  {
    if a == [] {
      LinesOfColumn(2, b, 1);
    } else if b == [] {
      LinesOfColumn(1, a, 1);
    } else {
      MergeHead(cmp, a, b);
      var c := cmp(a[0], b[0]);
      FirstFileReproduced(cmp, if c <= 0 then a[1..] else a, if c >= 0 then b[1..] else b);
      LinesOfHead(Merge(cmp, a, b)[0], Merge(cmp, a, b)[1..], 1);
      hide Merge, LinesOf;
    }
  }

  /** Columns 2 and 3 are the second file, up to lines that collate alike. */
  lemma {:induction false} SecondFileReproduced<T(!new)>(cmp: (T, T) -> int, a: seq<T>, b: seq<T>)
    requires Collation(cmp)
    ensures SameLines(cmp, LinesOf(Merge(cmp, a, b), 2), b)
    decreases |a| + |b|
  {
    if a == [] {
      LinesOfColumn(2, b, 2);
      forall i | 0 <= i < |b| ensures Same(cmp, b[i], b[i]) { SameIsEquivalence(cmp, b[i], b[i], b[i]); }
    } else if b == [] {
      LinesOfColumn(1, a, 2);
    } else {
      MergeHead(cmp, a, b);
      var c := cmp(a[0], b[0]);
      SecondFileReproduced(cmp, if c <= 0 then a[1..] else a, if c >= 0 then b[1..] else b);
      SameIsEquivalence(cmp, b[0], b[0], b[0]);
      LinesOfHead(Merge(cmp, a, b)[0], Merge(cmp, a, b)[1..], 2);
      hide Merge, LinesOf, Collation;
    }
  }

  /** How many of `lines` collate like `x`. */
  ghost function Count<T>(cmp: (T, T) -> int, lines: seq<T>, x: T): nat {
    if lines == [] then 0 else (if Same(cmp, lines[0], x) then 1 else 0) + Count(cmp, lines[1..], x)
  }

  ghost function CountIn<T>(cmp: (T, T) -> int, out: seq<Printed<T>>, column: int, x: T): nat {
    if out == [] then 0
    else (if out[0].column == column && Same(cmp, out[0].line, x) then 1 else 0) + CountIn(cmp, out[1..], column, x)
  }

  lemma {:induction false} CountInColumn<T>(cmp: (T, T) -> int, column: int, lines: seq<T>, wanted: int, x: T)
    ensures CountIn(cmp, InColumn(column, lines), wanted, x) == if wanted == column then Count(cmp, lines, x) else 0
  {
    if lines != [] {
      CountInColumn(cmp, column, lines[1..], wanted, x);
      assert InColumn(column, lines)[1..] == InColumn(column, lines[1..]);
    }
  }

  /** A sorted file has no line of a class that comes before its first line. */
  lemma {:induction false} NoneBeforeFirst<T(!new)>(cmp: (T, T) -> int, lines: seq<T>, y: T, x: T)
    requires Collation(cmp) && Same(cmp, y, x)
    requires forall i :: 0 <= i < |lines| ==> cmp(y, lines[i]) < 0
    ensures Count(cmp, lines, x) == 0
  {
    if lines != [] {
      SameIsEquivalence(cmp, y, lines[0], x);
      SameIsEquivalence(cmp, lines[0], x, y);
      NoneBeforeFirst(cmp, lines[1..], y, x);
    }
  }

  lemma AllAfter<T(!new)>(cmp: (T, T) -> int, y: T, lines: seq<T>)
    requires Collation(cmp) && Sorted(cmp, lines) && lines != [] && cmp(y, lines[0]) < 0
    ensures forall i :: 0 <= i < |lines| ==> cmp(y, lines[i]) < 0
  {
    forall i | 0 <= i < |lines| ensures cmp(y, lines[i]) < 0 {
      if i > 0 {
        assert NotAfterChains(cmp, lines[0], lines[i], y);
      }
    }
  }

  /** For sorted files and every class of lines: column 3 shows it as often as both files have it,
      columns 1 and 2 as often as one file has it in excess of the other. */
  lemma {:induction false} SortedCounts<T(!new)>(cmp: (T, T) -> int, a: seq<T>, b: seq<T>, x: T)
    requires Collation(cmp) && Sorted(cmp, a) && Sorted(cmp, b)
    ensures var (n, m) := (Count(cmp, a, x), Count(cmp, b, x));
            var out := Merge(cmp, a, b);
            && CountIn(cmp, out, 3, x) == Min(n, m)
            && CountIn(cmp, out, 1, x) == n - Min(n, m)
            && CountIn(cmp, out, 2, x) == m - Min(n, m)
    decreases |a| + |b|
  {
    if a == [] {
      CountInColumn(cmp, 2, b, 1, x);
      CountInColumn(cmp, 2, b, 2, x);
      CountInColumn(cmp, 2, b, 3, x);
    } else if b == [] {
      CountInColumn(cmp, 1, a, 1, x);
      CountInColumn(cmp, 1, a, 2, x);
      CountInColumn(cmp, 1, a, 3, x);
    } else {
      var c := cmp(a[0], b[0]);
      var a', b' := if c <= 0 then a[1..] else a, if c >= 0 then b[1..] else b;
      SortedCounts(cmp, a', b', x);
      MergeHead(cmp, a, b);
      hide Merge, Collation;
      if c == 0 {
        SameIsEquivalence(cmp, a[0], b[0], x);
        SameIsEquivalence(cmp, b[0], a[0], x);
      } else if c < 0 {
        AllAfter(cmp, a[0], b);
        if Same(cmp, a[0], x) { NoneBeforeFirst(cmp, b, a[0], x); }
      } else {
        AllAfter(cmp, b[0], a);
        if Same(cmp, b[0], x) { NoneBeforeFirst(cmp, a, b[0], x); }
      }
    }
  }

  ghost predicate PrintedSorted<T>(cmp: (T, T) -> int, out: seq<Printed<T>>) {
    forall i, j :: 0 <= i < j < |out| ==> cmp(out[i].line, out[j].line) <= 0
  }

  lemma {:induction false} ColumnLines<T>(column: int, lines: seq<T>)
    ensures forall i :: 0 <= i < |lines| ==> InColumn(column, lines)[i] == Printed(column, lines[i])
  {
    if lines != [] { ColumnLines(column, lines[1..]); }
  }

  /** Every printed line is a line of one of the files. */
  lemma {:induction false} MergeLines<T>(cmp: (T, T) -> int, a: seq<T>, b: seq<T>)
    ensures forall i :: 0 <= i < |Merge(cmp, a, b)| ==> Merge(cmp, a, b)[i].line in a + b
    decreases |a| + |b|
  {
    if a == [] {
      ColumnLines(2, b);
    } else if b == [] {
      ColumnLines(1, a);
    } else {
      var c := cmp(a[0], b[0]);
      var a', b' := if c <= 0 then a[1..] else a, if c >= 0 then b[1..] else b;
      MergeLines(cmp, a', b');
      assert forall x :: x in a' + b' ==> x in a + b;
    }
  }

  lemma PrependSorted<T>(cmp: (T, T) -> int, p: Printed<T>, rest: seq<Printed<T>>)
    requires PrintedSorted(cmp, rest) && forall i :: 0 <= i < |rest| ==> cmp(p.line, rest[i].line) <= 0
    ensures PrintedSorted(cmp, [p] + rest)
  {
  }

  lemma FirstIsLeast<T(!new)>(cmp: (T, T) -> int, a: seq<T>, b: seq<T>, first: T)
    requires Collation(cmp) && Sorted(cmp, a) && Sorted(cmp, b) && a != [] && b != []
    requires first == if cmp(a[0], b[0]) <= 0 then a[0] else b[0]
    ensures forall x :: x in a + b ==> cmp(first, x) <= 0
  {
    SameIsEquivalence(cmp, a[0], a[0], a[0]);
    SameIsEquivalence(cmp, b[0], b[0], b[0]);
    forall x | x in a + b ensures cmp(first, x) <= 0 {
      if x in a {
        assert cmp(a[0], x) <= 0;
        assert NotAfterChains(cmp, first, a[0], x);
      } else {
        assert cmp(b[0], x) <= 0;
        assert NotAfterChains(cmp, first, b[0], x);
      }
    }
  }

  lemma NothingBeforeHead<T(!new)>(cmp: (T, T) -> int, a: seq<T>, b: seq<T>)
    requires Collation(cmp) && Sorted(cmp, a) && Sorted(cmp, b) && a != [] && b != []
    ensures var c := cmp(a[0], b[0]);
            var rest := Merge(cmp, if c <= 0 then a[1..] else a, if c >= 0 then b[1..] else b);
            forall i :: 0 <= i < |rest| ==> cmp(if c <= 0 then a[0] else b[0], rest[i].line) <= 0
  {
    var c := cmp(a[0], b[0]);
    var a', b' := if c <= 0 then a[1..] else a, if c >= 0 then b[1..] else b;
    FirstIsLeast(cmp, a, b, if c <= 0 then a[0] else b[0]);
    MergeLines(cmp, a', b');
    hide Merge, Collation;
    assert forall x :: x in a' + b' ==> x in a + b;
  }

  /** Sorted files come out in sorted order, across all three columns. */
  lemma {:induction false} SortedOutput<T(!new)>(cmp: (T, T) -> int, a: seq<T>, b: seq<T>)
    requires Collation(cmp) && Sorted(cmp, a) && Sorted(cmp, b)
    ensures PrintedSorted(cmp, Merge(cmp, a, b))
    decreases |a| + |b|
  {
    if a == [] {
      ColumnLines(2, b);
    } else if b == [] {
      ColumnLines(1, a);
    } else {
      var c := cmp(a[0], b[0]);
      var a', b' := if c <= 0 then a[1..] else a, if c >= 0 then b[1..] else b;
      SortedOutput(cmp, a', b');
      MergeHead(cmp, a, b);
      NothingBeforeHead(cmp, a, b);
      PrependSorted(cmp, Merge(cmp, a, b)[0], Merge(cmp, a', b'));
    }
  }
}
