/** The LineEnding enum: the configured line ending of the output and the
    detection of the line ending a file uses most. */
module LineEndings {
  import opened Wrappers

  datatype LineEnding = AUTO | KEEP | LF | CRLF | CR | UNKNOWN {
    /** The three endings detection can report. */
    predicate IsTerminator() {
      this == LF || this == CRLF || this == CR
    }
  }

  /** getChars(): AUTO stands for the host's line separator, which is a
      parameter here; KEEP and UNKNOWN have no characters (null). */
  function Chars(e: LineEnding, hostSeparator: string): (r: Option<string>)
    ensures r.Some? <==> e != KEEP && e != UNKNOWN
    ensures e.IsTerminator() ==> r.Some? && Dominates(Tally(r.value), e)
    ensures e == AUTO ==> r == Some(hostSeparator)
  {
    match e
    case AUTO => Some(hostSeparator)
    case KEEP => None
    case LF => Some("\n")
    case CRLF => Some("\r\n")
    case CR => Some("\r")
    case UNKNOWN => None
  }

  /** How often each kind of line ending occurs. */
  datatype Counts = Counts(lf: int, cr: int, crlf: int) {
    function Plus(o: Counts): Counts {
      Counts(lf + o.lf, cr + o.cr, crlf + o.crlf)
    }
  }

  /** Positions at or after i where "\r\n" starts. */
  function Pairs(s: string, i: nat): nat
    decreases |s| - i
  {
    if i + 1 >= |s| then 0 else (if s[i] == '\r' && s[i + 1] == '\n' then 1 else 0) + Pairs(s, i + 1)
  }

  /** The counts a scan of s should arrive at, defined independently of any
      scan: every "\r\n" is one CRLF, every other '\r' a CR and every other
      '\n' an LF. */
  function Tally(s: string): Counts {
    var p := Pairs(s, 0);
    Counts(multiset(s)['\n'] - p, multiset(s)['\r'] - p, p)
  }

  function CountOf(t: Counts, e: LineEnding): int
    requires e.IsTerminator()
  {
    match e
    case LF => t.lf
    case CRLF => t.crlf
    case CR => t.cr
  }

  /** e occurs strictly more often than each of the other two endings. */
  predicate Dominates(t: Counts, e: LineEnding) {
    e.IsTerminator() && forall o: LineEnding :: o.IsTerminator() && o != e ==> CountOf(t, e) > CountOf(t, o)
  }

  lemma DominatesUnique(t: Counts, e: LineEnding, o: LineEnding)
    requires Dominates(t, e) && Dominates(t, o)
    ensures e == o
  {
  }

  /** One character further along s. */
  lemma CountStep(s: string, i: nat)
    requires i < |s|
    ensures multiset(s[i..]) == multiset{s[i]} + multiset(s[i + 1..])
    ensures Pairs(s, i) == (if i + 1 < |s| && s[i] == '\r' && s[i + 1] == '\n' then 1 else 0) + Pairs(s, i + 1)
  {
    assert s[i..] == [s[i]] + s[i + 1..];
  }

  lemma CountEnd(s: string)
    ensures multiset(s[|s|..]) == multiset{} && Pairs(s, |s|) == 0
  {
  }

  /** determineLineEnding: the ending that occurs strictly more often than
      each other one, else UNKNOWN. */
  method DetermineLineEnding(s: string) returns (r: LineEnding)
    ensures r.IsTerminator() || r == UNKNOWN
    ensures r.IsTerminator() ==> Dominates(Tally(s), r)
    ensures r == UNKNOWN <==> forall e: LineEnding :: !Dominates(Tally(s), e)
  {
    var lfCount, crCount, crlfCount := 0, 0, 0;
    var i := 0;
    while i < |s|
      invariant 0 <= i <= |s|
      invariant lfCount + multiset(s[i..])['\n'] - Pairs(s, i) == multiset(s)['\n'] - Pairs(s, 0)
      invariant crCount + multiset(s[i..])['\r'] - Pairs(s, i) == multiset(s)['\r'] - Pairs(s, 0)
      invariant crlfCount + Pairs(s, i) == Pairs(s, 0)
    {
      CountStep(s, i);
      var c := s[i];
      if c == '\r' {
        if i + 1 < |s| && s[i + 1] == '\n' {
          CountStep(s, i + 1);
          crlfCount := crlfCount + 1;
          i := i + 1;
        } else {
          crCount := crCount + 1;
        }
      } else if c == '\n' {
        lfCount := lfCount + 1;
      }
      i := i + 1;
    }
    CountEnd(s);
    var t := Counts(lfCount, crCount, crlfCount);
    assert t == Tally(s);
    if lfCount > crCount && lfCount > crlfCount {
      r := LF;
    } else if crlfCount > lfCount && crlfCount > crCount {
      r := CRLF;
    } else if crCount > lfCount && crCount > crlfCount {
      r := CR;
    } else {
      r := UNKNOWN;
    }
    Chosen(t, r);
  }

  /** The choice of determineLineEnding from the three counts. */
  lemma Chosen(t: Counts, r: LineEnding)
    requires r == (if t.lf > t.cr && t.lf > t.crlf then LF
                   else if t.crlf > t.lf && t.crlf > t.cr then CRLF
                   else if t.cr > t.lf && t.cr > t.crlf then CR
                   else UNKNOWN)
    ensures r.IsTerminator() ==> Dominates(t, r)
    ensures r == UNKNOWN <==> forall e: LineEnding :: !Dominates(t, e)
  {
    if r == UNKNOWN {
      forall e: LineEnding
        ensures !Dominates(t, e)
      {
        if e == LF {
          assert CountOf(t, LF) <= CountOf(t, CR) || CountOf(t, LF) <= CountOf(t, CRLF);
        } else if e == CRLF {
          assert CountOf(t, CRLF) <= CountOf(t, LF) || CountOf(t, CRLF) <= CountOf(t, CR);
        } else if e == CR {
          assert CountOf(t, CR) <= CountOf(t, LF) || CountOf(t, CR) <= CountOf(t, CRLF);
        }
      }
    } else {
      assert Dominates(t, r);
    }
  }

  /** No "\r\n" straddles the boundary between a and b. */
  predicate Seamless(a: string, b: string) {
    a == [] || b == [] || a[|a| - 1] != '\r' || b[0] != '\n'
  }

  lemma {:induction false} PairsAppend(a: string, b: string, i: nat)
    requires i <= |a|
    requires Seamless(a, b)
    ensures Pairs(a + b, i) == Pairs(a, i) + Pairs(b, 0)
    decreases |a| - i
  {
    if i < |a| {
      PairsAppend(a, b, i + 1);
    } else {
      PairsShift(a, b, 0);
    }
  }

  lemma {:induction false} PairsShift(a: string, b: string, j: nat)
    requires j <= |b|
    ensures Pairs(a + b, |a| + j) == Pairs(b, j)
    decreases |b| - j
  {
    if j < |b| {
      PairsShift(a, b, j + 1);
    }
  }

  /** Tally is additive when no "\r\n" straddles the boundary. */
  lemma TallyAppend(a: string, b: string)
    requires Seamless(a, b)
    ensures Tally(a + b) == Tally(a).Plus(Tally(b))
  {
    PairsAppend(a, b, 0);
    assert multiset(a + b) == multiset(a) + multiset(b);
  }

  /** Lines without line-ending characters. */
  predicate PlainLine(line: string) {
    '\n' !in line && '\r' !in line
  }

  lemma {:induction false} PlainCounts(line: string, i: nat)
    requires PlainLine(line) && i <= |line|
    ensures Pairs(line, i) == 0
    decreases |line| - i
  {
    if i < |line| {
      PlainCounts(line, i + 1);
    }
  }

  lemma PlainTally(line: string)
    requires PlainLine(line)
    ensures Tally(line) == Counts(0, 0, 0)
  {
    PlainCounts(line, 0);
  }

  predicate AllTerminators(ends: seq<LineEnding>) {
    forall k :: 0 <= k < |ends| ==> ends[k].IsTerminator()
  }

  /** The text of a file whose k-th line is lines[k], ended by ends[k]. */
  function Ended(lines: seq<string>, ends: seq<LineEnding>): string
    requires |lines| == |ends| && AllTerminators(ends)
  {
    if lines == [] then [] else lines[0] + Chars(ends[0], "").value + Ended(lines[1..], ends[1..])
  }

  /** t with one more line ending of kind e. */
  function Bump(t: Counts, e: LineEnding): Counts
    requires e.IsTerminator()
  {
    match e
    case LF => Counts(t.lf + 1, t.cr, t.crlf)
    case CR => Counts(t.lf, t.cr + 1, t.crlf)
    case CRLF => Counts(t.lf, t.cr, t.crlf + 1)
  }

  /** The counts of a list of line endings. */
  function Sum(ends: seq<LineEnding>): Counts
    requires AllTerminators(ends)
  {
    if ends == [] then Counts(0, 0, 0) else Bump(Sum(ends[1..]), ends[0])
  }

  /** The counts of n line endings of kind e and no other. */
  function Times(n: nat, e: LineEnding): Counts
    requires e.IsTerminator()
  {
    match e
    case LF => Counts(n, 0, 0)
    case CR => Counts(0, n, 0)
    case CRLF => Counts(0, 0, n)
  }

  /** No empty line ended by LF follows a line ended by CR (the two would
      read as one CRLF). */
  predicate Separated(lines: seq<string>, ends: seq<LineEnding>)
    requires |lines| == |ends|
  {
    forall k :: 0 < k < |lines| && lines[k] == [] ==> !(ends[k - 1] == CR && ends[k] == LF)
  }

  /** The tally of a file counts exactly the line endings it was written
      with: the detection sees every ending of the file, and sees it as the
      ending it is. */
  lemma {:induction false} TallyEnded(lines: seq<string>, ends: seq<LineEnding>)
    requires |lines| == |ends| && AllTerminators(ends)
    requires forall k :: 0 <= k < |lines| ==> PlainLine(lines[k])
    requires Separated(lines, ends)
    ensures Tally(Ended(lines, ends)) == Sum(ends)
  {
    if lines == [] {
      CountEnd([]);
    } else {
      var rest := Ended(lines[1..], ends[1..]);
      assert Separated(lines[1..], ends[1..]) by {
        forall k | 0 < k < |lines[1..]| && lines[1..][k] == []
          ensures !(ends[1..][k - 1] == CR && ends[1..][k] == LF)
        {
          assert lines[k + 1] == [];
        }
      }
      TallyEnded(lines[1..], ends[1..]);
      if rest != [] && ends[0] == CR {
        assert |lines| > 1;
        if lines[1] != [] {
          assert rest[0] == lines[1][0];
          assert lines[1][0] in lines[1];
        } else {
          assert rest[0] == Chars(ends[1], "").value[0];
        }
      }
      TallyLine(lines[0], ends[0], rest);
    }
  }

  /** One line and its ending in front of the rest of a file. */
  lemma TallyLine(line: string, e: LineEnding, rest: string)
    requires PlainLine(line) && e.IsTerminator()
    requires rest == [] || rest[0] != '\n' || e != CR
    ensures Tally(line + Chars(e, "").value + rest) == Bump(Tally(rest), e)
  {
    var sep := Chars(e, "").value;
    assert line + sep + rest == line + (sep + rest);
    TallyPlainPrefix(line, sep + rest);
    TallyTerminatorPrefix(e, rest);
  }

  /** A line without line-ending characters adds nothing in front of a text. */
  lemma TallyPlainPrefix(line: string, tail: string)
    requires PlainLine(line)
    ensures Tally(line + tail) == Tally(tail)
  {
    PlainTally(line);
    if line != [] {
      assert line[|line| - 1] in line;
    }
    TallyAppend(line, tail);
  }

  /** A terminator in front of a text adds one ending of its kind. */
  lemma TallyTerminatorPrefix(e: LineEnding, rest: string)
    requires e.IsTerminator()
    requires rest == [] || rest[0] != '\n' || e != CR
    ensures Tally(Chars(e, "").value + rest) == Bump(Tally(rest), e)
  {
    TallyAppend(Chars(e, "").value, rest);
    TallyChars(e);
    PlusBump(Tally(rest), e);
  }

  lemma PlusBump(t: Counts, e: LineEnding)
    requires e.IsTerminator()
    ensures Times(1, e).Plus(t) == Bump(t, e)
  {
  }

  /** The characters of a terminator hold exactly that one line ending. */
  lemma TallyChars(e: LineEnding)
    requires e.IsTerminator()
    ensures Tally(Chars(e, "").value) == Times(1, e)
  {
    match e
    case LF => assert Tally("\n") == Counts(1, 0, 0);
    case CR => assert Tally("\r") == Counts(0, 1, 0);
    case CRLF => assert Tally("\r\n") == Counts(0, 0, 1);
  }

  function Repeat(e: LineEnding, n: nat): (r: seq<LineEnding>)
    ensures |r| == n && forall k :: 0 <= k < n ==> r[k] == e
  {
    if n == 0 then [] else [e] + Repeat(e, n - 1)
  }

  lemma {:induction false} SumRepeat(e: LineEnding, n: nat)
    requires e.IsTerminator()
    ensures Sum(Repeat(e, n)) == Times(n, e)
  {
    if n > 0 {
      SumRepeat(e, n - 1);
      assert Repeat(e, n)[1..] == Repeat(e, n - 1);
    }
  }

  /** A file whose lines all end with the same terminator e is detected as e,
      the ending whose getChars() it was written with. */
  lemma UniformFileDetected(lines: seq<string>, e: LineEnding)
    requires e.IsTerminator() && |lines| > 0
    requires forall k :: 0 <= k < |lines| ==> PlainLine(lines[k])
    ensures Dominates(Tally(Ended(lines, Repeat(e, |lines|))), e)
  {
    var ends := Repeat(e, |lines|);
    RepeatSeparated(lines, e);
    TallyEnded(lines, ends);
    SumRepeat(e, |lines|);
    TimesDominates(|lines|, e);
  }

  lemma RepeatSeparated(lines: seq<string>, e: LineEnding)
    requires e.IsTerminator()
    ensures AllTerminators(Repeat(e, |lines|)) && Separated(lines, Repeat(e, |lines|))
  {
  }

  lemma TimesDominates(n: nat, e: LineEnding)
    requires e.IsTerminator() && n > 0
    ensures Dominates(Times(n, e), e)
  {
  }

  /** Lines that all read "Test": the tally is the sum of their endings. */
  lemma TestLinesTally(lines: seq<string>, ends: seq<LineEnding>)
    requires |lines| == |ends| && AllTerminators(ends)
    requires forall k :: 0 <= k < |lines| ==> lines[k] == "Test"
    ensures Tally(Ended(lines, ends)) == Sum(ends)
  {
    assert PlainLine("Test");
    TallyEnded(lines, ends);
  }

  /** The file "Test\r\nTest\rTest\nTest\nTest\r\nTest\n": two CRLF, one CR
      and three LF endings, detected as LF. */
  lemma MixedMostlyLfExample(lines: seq<string>, ends: seq<LineEnding>)
    requires |lines| == 6 && forall k :: 0 <= k < 6 ==> lines[k] == "Test"
    requires ends == [CRLF, CR, LF, LF, CRLF, LF]
    ensures Tally(Ended(lines, ends)) == Counts(3, 1, 2)
    ensures Dominates(Tally(Ended(lines, ends)), LF)
  {
    TestLinesTally(lines, ends);
    assert Sum([CRLF, CR, LF, LF, CRLF, LF]) == Counts(3, 1, 2);
  }

  /** The file "Test\r\nTest\r\nTest\nTest\nTest\r\nTest\nTest\r": three
      CRLF, three LF and one CR, so no ending is in the majority. */
  lemma MixedNoMajorityExample(lines: seq<string>, ends: seq<LineEnding>)
    requires |lines| == 7 && forall k :: 0 <= k < 7 ==> lines[k] == "Test"
    requires ends == [CRLF, CRLF, LF, LF, CRLF, LF, CR]
    ensures Tally(Ended(lines, ends)) == Counts(3, 1, 3)
    ensures forall e: LineEnding :: !Dominates(Tally(Ended(lines, ends)), e)
  {
    TestLinesTally(lines, ends);
    assert Sum([CRLF, CRLF, LF, LF, CRLF, LF, CR]) == Counts(3, 1, 3);
    Chosen(Counts(3, 1, 3), UNKNOWN);
  }

  /** A file without line endings has no majority ending. */
  lemma NoLineEndingExample(s: string)
    requires s == "TestTestTestTest"
    ensures Tally(s) == Counts(0, 0, 0)
    ensures forall e: LineEnding :: !Dominates(Tally(s), e)
  {
    assert PlainLine(s);
    PlainTally(s);
    var t := Counts(0, 0, 0);
    assert CountOf(t, LF) <= CountOf(t, CR);
  }
}
