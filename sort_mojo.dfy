/** The older sorter's file pass (SortMojo.java): each line that parses as
    an import goes to the organizer; the other lines go to `before` while
    no import has been seen, and to `after` once one has. Then blank lines
    are trimmed off the end of `before` and the start of `after`. */
module SortMojos {
  import opened Wrappers
  import opened JavaStrings
  import opened PluginImports
  import opened ImportComparators
  import opened ImportOrganizers

  /** The two line lists and the organizer's contents. */
  datatype Partition = Partition(before: seq<string>, imports: seq<Import>, after: seq<string>)

  /** A line of the file with what Import.parse makes of it. */
  datatype Line = Line(text: string, parsed: Option<Import>)

  /** The file's lines, each with its parse. */
  function Read(lines: seq<string>): (r: seq<Line>)
    ensures |r| == |lines|
    decreases |lines|
  {
    if lines == [] then []
    else Read(lines[..|lines| - 1]) + [Line(lines[|lines| - 1], Parse(lines[|lines| - 1]))]
  }

  /** Each line is paired with its own text and parse. */
  lemma {:induction false} ReadAt(lines: seq<string>, k: nat)
    requires k < |lines|
    ensures Read(lines)[k] == Line(lines[k], Parse(lines[k]))
    decreases |lines|
  {
    if k < |lines| - 1 {
      var a := lines[..|lines| - 1];
      ReadAt(a, k);
      assert a[k] == lines[k];
    }
  }

  /** What reading one more line does to the partition; a failing add ends
      the pass. */
  function Step(c: Comparator, p: Partition, line: Line): Result<Partition, ComparatorError> {
    match line.parsed
    case Some(i) =>
      if Comparable(c, p.imports, i) then Success(Partition(p.before, Inserted(c, p.imports, i), p.after))
      else Failure(Unsupported)
    case None =>
      if p.imports == [] then Success(Partition(p.before + [line.text], p.imports, p.after))
      else Success(Partition(p.before, p.imports, p.after + [line.text]))
  }

  /** The partition after reading the given lines in order. */
  function PartitionOf(c: Comparator, lines: seq<Line>): Result<Partition, ComparatorError>
    decreases |lines|
  {
    if lines == [] then Success(Partition([], [], []))
    else
      match PartitionOf(c, lines[..|lines| - 1])
      case Failure(e) => Failure(e)
      case Success(p) => Step(c, p, lines[|lines| - 1])
  }

  // ---------------------------------------------------------------------
  // Reference definitions

  predicate IsImportLine(line: Line) {
    line.parsed.Some?
  }

  /** The index of the first import line, or the number of lines. */
  function FirstImport(lines: seq<Line>): (k: nat)
    ensures k <= |lines|
    ensures forall j :: 0 <= j < k ==> !IsImportLine(lines[j])
    ensures k < |lines| ==> IsImportLine(lines[k])
  {
    if lines == [] then 0
    else if IsImportLine(lines[0]) then 0
    else 1 + FirstImport(lines[1..])
  }

  /** The texts of the lines that are not import lines, in order. */
  function OtherLines(lines: seq<Line>): seq<string> {
    if lines == [] then []
    else (if IsImportLine(lines[0]) then [] else [lines[0].text]) + OtherLines(lines[1..])
  }

  /** The imports of the import lines, in order. */
  function ImportsOf(lines: seq<Line>): seq<Import> {
    if lines == [] then []
    else (if IsImportLine(lines[0]) then [lines[0].parsed.value] else []) + ImportsOf(lines[1..])
  }

  /** Adding the imports one by one to an organizer holding xs. */
  function AddAll(c: Comparator, xs: seq<Import>, imps: seq<Import>): (r: Result<seq<Import>, ComparatorError>)
    ensures r.Success? ==> forall y :: y in r.value <==> y in xs || y in imps
    decreases |imps|
  {
    if imps == [] then Success(xs)
    else if !Comparable(c, xs, imps[0]) then Failure(Unsupported)
    else
      InsertedElements(c, xs, imps[0]);
      AddAll(c, Inserted(c, xs, imps[0]), imps[1..])
  }

  lemma {:induction false} OtherLinesSnoc(a: seq<Line>, l: Line)
    ensures OtherLines(a + [l]) == OtherLines(a) + (if IsImportLine(l) then [] else [l.text])
  {
    if a != [] {
      assert (a + [l])[1..] == a[1..] + [l];
      OtherLinesSnoc(a[1..], l);
    } else {
      assert [l][1..] == [];
    }
  }

  lemma {:induction false} ImportsOfSnoc(a: seq<Line>, l: Line)
    ensures ImportsOf(a + [l]) == ImportsOf(a) + (if IsImportLine(l) then [l.parsed.value] else [])
  {
    if a != [] {
      assert (a + [l])[1..] == a[1..] + [l];
      ImportsOfSnoc(a[1..], l);
    } else {
      assert [l][1..] == [];
    }
  }

  lemma {:induction false} AddAllSnoc(c: Comparator, xs: seq<Import>, imps: seq<Import>, i: Import)
    ensures AddAll(c, xs, imps + [i])
      == match AddAll(c, xs, imps)
         case Failure(e) => Failure(e)
         case Success(ys) => if Comparable(c, ys, i) then Success(Inserted(c, ys, i)) else Failure(Unsupported)
    decreases |imps|
  {
    if imps == [] {
      assert [i][1..] == [];
    } else {
      assert (imps + [i])[0] == imps[0] && (imps + [i])[1..] == imps[1..] + [i];
      if Comparable(c, xs, imps[0]) {
        AddAllSnoc(c, Inserted(c, xs, imps[0]), imps[1..], i);
      }
    }
  }

  lemma {:induction false} FirstImportSnoc(a: seq<Line>, l: Line)
    ensures FirstImport(a + [l]) == if FirstImport(a) < |a| || IsImportLine(l) then FirstImport(a) else |a| + 1
  {
    if a != [] {
      assert (a + [l])[0] == a[0] && (a + [l])[1..] == a[1..] + [l];
      FirstImportSnoc(a[1..], l);
    }
  }

  /** The organizer's contents after the pass, stated without it: the
      imports of the import lines added one by one; the pass fails exactly
      when one of those adds fails. */
  lemma {:induction false} PartitionImports(c: Comparator, lines: seq<Line>)
    ensures PartitionOf(c, lines).Success? <==> AddAll(c, [], ImportsOf(lines)).Success?
    ensures PartitionOf(c, lines).Success? ==>
      PartitionOf(c, lines).value.imports == AddAll(c, [], ImportsOf(lines)).value
    decreases |lines|
  {
    if lines != [] {
      var a, l := lines[..|lines| - 1], lines[|lines| - 1];
      assert lines == a + [l];
      PartitionImports(c, a);
      ImportsOfSnoc(a, l);
      if IsImportLine(l) {
        AddAllSnoc(c, [], ImportsOf(a), l.parsed.value);
      } else {
        assert ImportsOf(lines) == ImportsOf(a);
      }
    }
  }

  lemma PartitionSnoc(c: Comparator, a: seq<Line>, l: Line)
    ensures PartitionOf(c, a).Failure? ==> PartitionOf(c, a + [l]).Failure?
    ensures PartitionOf(c, a).Success? ==> PartitionOf(c, a + [l]) == Step(c, PartitionOf(c, a).value, l)
  {
    assert (a + [l])[..|a + [l]| - 1] == a;
  }

  /** Where one line goes. */
  predicate LineStep(p: Partition, l: Line, q: Partition) {
    (IsImportLine(l) ==> q.before == p.before && q.after == p.after && q.imports != [])
    && (!IsImportLine(l) ==>
          q.imports == p.imports
          && q.before == p.before + (if p.imports == [] then [l.text] else [])
          && q.after == p.after + (if p.imports == [] then [] else [l.text]))
  }

  lemma StepLines(c: Comparator, p: Partition, l: Line)
    requires Step(c, p, l).Success?
    ensures LineStep(p, l, Step(c, p, l).value)
  {
  }

  /** The line lists of a partition as the first import line determines
      them (every line before it is a non-import line). */
  predicate LinesShape(lines: seq<Line>, p: Partition) {
    LinesShapeAt(lines, FirstImport(lines), p)
  }

  /** The line lists of a partition when the first import line is at k. */
  predicate LinesShapeAt(lines: seq<Line>, k: nat, p: Partition)
    requires k <= |lines|
  {
    p.before == OtherLines(lines[..k])
    && p.after == (if k < |lines| then OtherLines(lines[k + 1..]) else [])
    && (p.imports == [] <==> k == |lines|)
  }

  /** The line lists after the pass, stated without it: `before` is every
      line before the first import line, `after` every non-import line
      after it; the organizer is empty exactly when there is no import
      line. */
  lemma {:induction false} PartitionLines(c: Comparator, lines: seq<Line>)
    requires PartitionOf(c, lines).Success?
    ensures LinesShape(lines, PartitionOf(c, lines).value)
    decreases |lines|
  {
    if lines != [] {
      var a, l := lines[..|lines| - 1], lines[|lines| - 1];
      assert lines == a + [l];
      PartitionSnoc(c, a, l);
      PartitionLines(c, a);
      StepLines(c, PartitionOf(c, a).value, l);
      LinesShapeSnoc(a, l, PartitionOf(c, a).value, PartitionOf(c, lines).value);
    }
  }

  lemma LinesShapeSnoc(a: seq<Line>, l: Line, p: Partition, q: Partition)
    requires LinesShape(a, p) && LineStep(p, l, q)
    ensures LinesShape(a + [l], q)
  {
    FirstImportSnoc(a, l);
    var k := FirstImport(a);
    if k < |a| {
      SnocAfterFirst(a, l, k, p, q);
    } else if IsImportLine(l) {
      SnocFirst(a, l, p, q);
    } else {
      SnocNoImport(a, l, p, q);
    }
  }

  /** A line after the first import line goes to `after` or the organizer. */
  lemma SnocAfterFirst(a: seq<Line>, l: Line, k: nat, p: Partition, q: Partition)
    requires k < |a| && LinesShapeAt(a, k, p) && LineStep(p, l, q)
    ensures LinesShapeAt(a + [l], k, q)
  {
    var lines := a + [l];
    assert lines[k + 1..] == a[k + 1..] + [l];
    OtherLinesSnoc(a[k + 1..], l);
    assert lines[..k] == a[..k];
  }

  /** The first import line leaves the line lists as they are. */
  lemma SnocFirst(a: seq<Line>, l: Line, p: Partition, q: Partition)
    requires LinesShapeAt(a, |a|, p) && IsImportLine(l) && LineStep(p, l, q)
    ensures LinesShapeAt(a + [l], |a|, q)
  {
    var lines := a + [l];
    assert lines[|a| + 1..] == [];
    assert OtherLines([]) == [];
    assert lines[..|a|] == a && a[..|a|] == a;
  }

  /** A line while there is no import line yet goes to `before`. */
  lemma SnocNoImport(a: seq<Line>, l: Line, p: Partition, q: Partition)
    requires LinesShapeAt(a, |a|, p) && !IsImportLine(l) && LineStep(p, l, q)
    ensures LinesShapeAt(a + [l], |a| + 1, q)
  {
    var lines := a + [l];
    assert lines[..|a| + 1] == a + [l];
    assert a[..|a|] == a;
    OtherLinesSnoc(a, l);
  }

  // ---------------------------------------------------------------------
  // Trimming blank lines

  /** The lines less the blank ones at their end: only blank lines go,
      and what stays is in order. */
  function DropTrailingBlank(lines: seq<string>): (r: seq<string>)
    ensures |r| <= |lines| && r == lines[..|r|]
    ensures forall k :: |r| <= k < |lines| ==> IsBlank(lines[k])
    ensures r == [] || !IsBlank(r[|r| - 1])
  {
    if lines != [] && IsBlank(lines[|lines| - 1]) then DropTrailingBlank(lines[..|lines| - 1]) else lines
  }

  /** The lines less the blank ones at their start. */
  function DropLeadingBlank(lines: seq<string>): (r: seq<string>)
    ensures |r| <= |lines| && r == lines[|lines| - |r|..]
    ensures forall k :: 0 <= k < |lines| - |r| ==> IsBlank(lines[k])
    ensures r == [] || !IsBlank(r[0])
  {
    if lines != [] && IsBlank(lines[0]) then DropLeadingBlank(lines[1..]) else lines
  }

  /** sort(path, before, imports, after): the two while loops. */
  method Sort(before0: seq<string>, after0: seq<string>) returns (before: seq<string>, after: seq<string>)
    ensures before == DropTrailingBlank(before0)
    ensures after == DropLeadingBlank(after0)
  {
    before := before0;
    while before != [] && IsBlank(before[|before| - 1])
      invariant DropTrailingBlank(before) == DropTrailingBlank(before0)
      decreases |before|
    {
      before := before[..|before| - 1];
    }
    after := after0;
    while after != [] && IsBlank(after[0])
      invariant DropLeadingBlank(after) == DropLeadingBlank(after0)
      decreases |after|
    {
      after := after[1..];
    }
  }

  /** processFile over the file's lines: the pass, then sort. The outcome
      is a failure when an add fails (the exception ends processFile). */
  method ProcessFile(groups: string, staticGroups: string, staticAfter: bool,
                     joinStaticWithNonStatic: bool, lines: seq<string>)
    returns (before: seq<string>, organizer: ImportOrganizer, after: seq<string>,
             outcome: Outcome<ComparatorError>)
    ensures fresh(organizer) && organizer.Valid()
    ensures organizer.comparator == Comparator(groups, staticGroups, staticAfter)
    ensures var r := PartitionOf(organizer.comparator, Read(lines));
      (outcome.Fail? <==> r.Failure?)
      && (r.Success? ==>
            before == DropTrailingBlank(r.value.before)
            && organizer.imports == r.value.imports
            && after == DropLeadingBlank(r.value.after))
  {
    organizer := new ImportOrganizer(groups, staticGroups, staticAfter, joinStaticWithNonStatic);
    var c := organizer.comparator;
    before, after := [], [];
    ghost var read := Read(lines);
    var n := 0;
    while n < |lines|
      invariant 0 <= n <= |lines|
      invariant organizer.Valid() && organizer.comparator == c
      invariant PartitionOf(c, read[..n]) == Success(Partition(before, organizer.imports, after))
    {
      var line := lines[n];
      var imp := Parse(line);
      ReadAt(lines, n);
      ghost var p := Partition(before, organizer.imports, after);
      if imp.Some? {
        var added := organizer.Add(imp.value);
        if added.Fail? {
          AddFails(c, read, n, p);
          FailureSticks(c, read, n + 1);
          return before, organizer, after, added;
        }
        AddStep(c, read, n, p, organizer.imports);
      } else {
        OtherStep(c, read, n, p);
        if organizer.IsEmpty() {
          before := before + [line];
        } else {
          after := after + [line];
        }
      }
      n := n + 1;
    }
    assert read[..n] == read;
    before, after := Sort(before, after);
    outcome := Pass;
  }

  /** An import line whose add succeeds. */
  lemma AddStep(c: Comparator, ls: seq<Line>, n: nat, p: Partition, imports: seq<Import>)
    requires n < |ls| && PartitionOf(c, ls[..n]) == Success(p)
    requires ls[n].parsed.Some? && Comparable(c, p.imports, ls[n].parsed.value)
    requires imports == Inserted(c, p.imports, ls[n].parsed.value)
    ensures PartitionOf(c, ls[..n + 1]) == Success(Partition(p.before, imports, p.after))
  {
    assert ls[..n + 1] == ls[..n] + [ls[n]];
    PartitionSnoc(c, ls[..n], ls[n]);
  }

  /** An import line whose add fails. */
  lemma AddFails(c: Comparator, ls: seq<Line>, n: nat, p: Partition)
    requires n < |ls| && PartitionOf(c, ls[..n]) == Success(p)
    requires ls[n].parsed.Some? && !Comparable(c, p.imports, ls[n].parsed.value)
    ensures PartitionOf(c, ls[..n + 1]).Failure?
  {
    assert ls[..n + 1] == ls[..n] + [ls[n]];
    PartitionSnoc(c, ls[..n], ls[n]);
  }

  /** A line that is not an import. */
  lemma OtherStep(c: Comparator, ls: seq<Line>, n: nat, p: Partition)
    requires n < |ls| && PartitionOf(c, ls[..n]) == Success(p) && ls[n].parsed.None?
    ensures PartitionOf(c, ls[..n + 1]) == Success(
      if p.imports == [] then Partition(p.before + [ls[n].text], p.imports, p.after)
      else Partition(p.before, p.imports, p.after + [ls[n].text]))
  {
    assert ls[..n + 1] == ls[..n] + [ls[n]];
    PartitionSnoc(c, ls[..n], ls[n]);
  }

  /** A pass that failed on a prefix of the lines fails on all of them. */
  lemma {:induction false} FailureSticks(c: Comparator, lines: seq<Line>, n: nat)
    requires n <= |lines| && PartitionOf(c, lines[..n]).Failure?
    ensures PartitionOf(c, lines).Failure?
    decreases |lines| - n
  {
    if n < |lines| {
      var a := lines[..|lines| - 1];
      assert a[..n] == lines[..n];
      FailureSticks(c, a, n);
    } else {
      assert lines[..n] == lines;
    }
  }
}
