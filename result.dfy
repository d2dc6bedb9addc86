/** The outcome of sorting one file (Result.java): the file's lines, the
    line range [start, stop) of its import section, the section as it was
    and as the sorter writes it, and the imports found. */
module Results {
  import opened Wrappers
  import opened JavaStrings
  import opened Imports

  /** What saveSorted leaves at the destination: the original file, or the
      given lines. */
  datatype SaveOutcome = KeepOriginal | Write(lines: seq<string>)

  /** s.split("\\n") */
  function SplitLines(s: string): seq<string> {
    Split(s, '\n')
  }

  /** Each line followed by a line break, the way the section text is built. */
  function Terminated(ls: seq<string>): string {
    if ls == [] then "" else ls[0] + "\n" + Terminated(ls[1..])
  }

  lemma {:induction false} TerminatedAppend(a: seq<string>, b: seq<string>)
    ensures Terminated(a + b) == Terminated(a) + Terminated(b)
  {
    if a != [] {
      assert (a + b)[1..] == a[1..] + b;
      TerminatedAppend(a[1..], b);
    } else {
      assert a + b == b;
    }
  }

  lemma {:induction false} TerminatedJoin(ls: seq<string>)
    ensures Terminated(ls) == Join(ls + [""], "\n")
  {
    if ls != [] {
      TerminatedJoin(ls[1..]);
      assert (ls + [""])[1..] == ls[1..] + [""];
    }
  }

  /** Splitting terminated lines on line breaks gives the lines back, less
      the blank ones at the end (Java's split of "" is [""]). */
  lemma SplitTerminated(ls: seq<string>)
    requires forall k :: 0 <= k < |ls| ==> '\n' !in ls[k]
    ensures ls == [] ==> SplitLines(Terminated(ls)) == [""]
    ensures ls != [] ==> SplitLines(Terminated(ls)) == DropTrailingEmpty(ls)
  {
    if ls != [] {
      var xs := ls + [""];
      var t := Terminated(ls);
      TerminatedJoin(ls);
      assert t == ls[0] + "\n" + Terminated(ls[1..]);
      assert t[|ls[0]|] == '\n';
      SplitJoined(xs, t);
      assert xs[..|xs| - 1] == ls;
    }
  }

  /** Splitting joined lines that hold a line break gives the lines back,
      less the blank ones at the end. */
  lemma SplitJoined(xs: seq<string>, t: string)
    requires |xs| >= 1 && forall k :: 0 <= k < |xs| ==> '\n' !in xs[k]
    requires t == Join(xs, "\n") && '\n' in t
    ensures SplitLines(t) == DropTrailingEmpty(xs)
  {
    SplitAllJoin(xs, '\n');
  }

  /** The lines saveSorted writes: those before the section, the new section
      split into lines, a blank line when lines follow, and those after. */
  function Spliced(fileLines: seq<string>, start: int, stop: int, newSection: string): seq<string>
    requires 0 <= start <= stop <= |fileLines|
  {
    fileLines[..start] + SplitLines(newSection)
    + (if stop < |fileLines| then [""] else []) + fileLines[stop..]
  }

  /** The list saveSorted builds with addAll and add. */
  method SpliceLines(fileLines: seq<string>, start: int, stop: int, newSection: string)
    returns (allLines: seq<string>)
    requires 0 <= start <= stop <= |fileLines|
    ensures allLines == Spliced(fileLines, start, stop, newSection)
  {
    var beforeImports := fileLines[..start];
    var importLines := SplitLines(newSection);
    var afterImports := fileLines[stop..];
    allLines := [];
    allLines := allLines + beforeImports;
    allLines := allLines + importLines;
    if |afterImports| > 0 {
      allLines := allLines + [""];
    }
    allLines := allLines + afterImports;
  }

  /** The lines outside [start, stop) come through unchanged and in order,
      around the new section's lines. */
  lemma SplicedKeepsOutside(fileLines: seq<string>, start: int, stop: int, newSection: string)
    requires 0 <= start <= stop <= |fileLines|
    ensures var r := Spliced(fileLines, start, stop, newSection);
      var mid := SplitLines(newSection) + (if stop < |fileLines| then [""] else []);
      |r| == start + |mid| + (|fileLines| - stop)
      && r[..start] == fileLines[..start]
      && r[start..start + |mid|] == mid
      && r[start + |mid|..] == fileLines[stop..]
  {
  }

  /** A section built from lines without line breaks is written as those
      lines, less blank ones at its end, followed by one blank line when
      lines follow the section. */
  lemma SplicedSection(fileLines: seq<string>, start: int, stop: int, sectionLines: seq<string>)
    requires 0 <= start <= stop <= |fileLines| && sectionLines != []
    requires forall k :: 0 <= k < |sectionLines| ==> '\n' !in sectionLines[k]
    ensures Spliced(fileLines, start, stop, Terminated(sectionLines))
      == fileLines[..start] + DropTrailingEmpty(sectionLines)
         + (if stop < |fileLines| then [""] else []) + fileLines[stop..]
  {
    SplitTerminated(sectionLines);
  }

  class Result {
    /** null until isSorted() is first called, then its answer. */
    var isSorted: Option<bool>

    const path: string
    const originalSection: string
    const newSection: string
    const allImports: seq<Import>
    const fileLines: seq<string>
    const start: int
    const stop: int

    /** The cached answer, once there is one, is the right one. */
    predicate Valid()
      reads this
    {
      isSorted == None || isSorted == Some(originalSection == newSection)
    }

    constructor (path: string, fileLines: seq<string>, start: int, stop: int,
                 originalSection: string, newSection: string, allImports: seq<Import>)
      ensures this.path == path && this.fileLines == fileLines
      ensures this.start == start && this.stop == stop
      ensures this.originalSection == originalSection && this.newSection == newSection
      ensures this.allImports == allImports
      ensures isSorted == None && Valid()
    {
      this.path := path;
      this.fileLines := fileLines;
      this.start := start;
      this.stop := stop;
      this.originalSection := originalSection;
      this.newSection := newSection;
      this.allImports := allImports;
      isSorted := None;
    }

    /** Result.isSorted(): the sections are equal; the answer is computed
        once and kept. */
    method IsSorted() returns (b: bool)
      requires Valid()
      modifies this`isSorted
      ensures Valid()
      ensures b <==> originalSection == newSection
      ensures isSorted == Some(b)
    {
      if isSorted.None? {
        isSorted := Some(originalSection == newSection);
      }
      b := isSorted.value;
    }

    /** Result.saveSorted: nothing to splice when the section is already
        sorted; otherwise the spliced lines. */
    method SaveSorted() returns (out: SaveOutcome)
      requires Valid() && 0 <= start <= stop <= |fileLines|
      modifies this`isSorted
      ensures Valid()
      ensures isSorted == Some(originalSection == newSection)
      ensures originalSection == newSection ==> out == KeepOriginal
      ensures originalSection != newSection ==>
        out == Write(Spliced(fileLines, start, stop, newSection))
    {
      var sorted := IsSorted();
      if sorted {
        return KeepOriginal;
      }
      var allLines := SpliceLines(fileLines, start, stop, newSection);
      return Write(allLines);
    }
  }
}
