/** The parts of java.lang.String and of the java.util.regex character
    classes that the import sorter relies on, stated over Dafny strings. */
module JavaStrings {

  /** A character that String.trim() removes: every char up to ' '. */
  predicate IsTrimmable(c: char) {
    c <= ' '
  }

  /** The regex class \s (no UNICODE_CHARACTER_CLASS flag): [ \t\n\x0B\f\r]. */
  predicate IsSpace(c: char) {
    c == ' ' || c == '\t' || c == '\n' || c == '\U{000B}' || c == '\U{000C}' || c == '\r'
  }

  /** The regex class \w (no UNICODE_CHARACTER_CLASS flag): [a-zA-Z_0-9]. */
  predicate IsWordChar(c: char) {
    ('a' <= c <= 'z') || ('A' <= c <= 'Z') || ('0' <= c <= '9') || c == '_'
  }

  /** replaceAll("^\\s+", ""): removes the leading run of \s. */
  function DropLeadingSpaces(s: string): (r: string)
    ensures |r| <= |s| && r == s[|s| - |r|..]
    ensures forall i :: 0 <= i < |s| - |r| ==> IsSpace(s[i])
    ensures r == [] || !IsSpace(r[0])
  {
    if s != [] && IsSpace(s[0]) then
      var t := s[1..];
      var r := DropLeadingSpaces(t);
      assert s[|s| - |r|..] == t[|t| - |r|..];
      assert forall i :: 0 < i < |s| ==> s[i] == t[i - 1];
      r
    else s
  }

  /** Removes the leading characters trim() removes. */
  function TrimStart(s: string): string {
    if s != [] && IsTrimmable(s[0]) then TrimStart(s[1..]) else s
  }

  /** Removes the trailing characters trim() removes. */
  function TrimEnd(s: string): string {
    if s != [] && IsTrimmable(s[|s| - 1]) then TrimEnd(s[..|s| - 1]) else s
  }

  /** String.trim(). */
  function Trim(s: string): string {
    TrimEnd(TrimStart(s))
  }

  /** TrimStart drops the longest prefix of removable characters. */
  lemma {:induction false} TrimStartShape(s: string)
    ensures var r := TrimStart(s);
      |r| <= |s| && r == s[|s| - |r|..]
      && (forall i :: 0 <= i < |s| - |r| ==> IsTrimmable(s[i]))
      && (r == [] || !IsTrimmable(r[0]))
  {
    if s != [] && IsTrimmable(s[0]) {
      var t := s[1..];
      TrimStartShape(t);
      var r := TrimStart(t);
      assert s[|s| - |r|..] == t[|t| - |r|..];
      forall i | 0 <= i < |s| - |r|
        ensures IsTrimmable(s[i])
      {
        if i > 0 {
          assert s[i] == t[i - 1];
        }
      }
    }
  }

  /** TrimEnd drops the longest suffix of removable characters. */
  lemma {:induction false} TrimEndShape(s: string)
    ensures var r := TrimEnd(s);
      |r| <= |s| && r == s[..|r|]
      && (forall i :: |r| <= i < |s| ==> IsTrimmable(s[i]))
      && (r == [] || !IsTrimmable(r[|r| - 1]))
  {
    if s != [] && IsTrimmable(s[|s| - 1]) {
      TrimEndShape(s[..|s| - 1]);
    }
  }

  /** s.trim().isEmpty(): every character is one trim() removes. */
  predicate IsBlank(s: string) {
    forall i :: 0 <= i < |s| ==> IsTrimmable(s[i])
  }

  lemma BlankIffTrimEmpty(s: string)
    ensures IsBlank(s) <==> Trim(s) == []
  {
    TrimStartShape(s);
    TrimEndShape(TrimStart(s));
  }

  /** A trimmed string starts and ends with a character trim() keeps. */
  lemma TrimEnds(s: string)
    ensures var t := Trim(s); t == [] || (!IsTrimmable(t[0]) && !IsTrimmable(t[|t| - 1]))
  {
    var l := TrimStart(s);
    var t := TrimEnd(l);
    TrimStartShape(s);
    TrimEndShape(l);
    if t != [] { assert t[0] == l[0]; }
  }

  /** Trimming twice is trimming once. */
  lemma TrimIdempotent(s: string)
    ensures Trim(Trim(s)) == Trim(s)
  {
    var t := Trim(s);
    TrimEnds(s);
    assert TrimStart(t) == t;
    assert TrimEnd(t) == t;
  }

  /** replaceAll("\\s+", "") */
  function RemoveSpaces(s: string): string {
    if s == [] then [] else (if IsSpace(s[0]) then [] else [s[0]]) + RemoveSpaces(s[1..])
  }

  /** The result keeps exactly the characters of s that are not \s. */
  lemma {:induction false} RemoveSpacesChars(s: string)
    ensures forall i :: 0 <= i < |RemoveSpaces(s)| ==> !IsSpace(RemoveSpaces(s)[i])
    ensures forall c :: c in RemoveSpaces(s) <==> c in s && !IsSpace(c)
  {
    if s != [] {
      RemoveSpacesChars(s[1..]);
      assert s == [s[0]] + s[1..];
    }
  }

  lemma {:induction false} RemoveSpacesAppend(a: string, b: string)
    ensures RemoveSpaces(a + b) == RemoveSpaces(a) + RemoveSpaces(b)
  {
    if a != [] {
      assert (a + b)[1..] == a[1..] + b;
      RemoveSpacesAppend(a[1..], b);
    } else {
      assert a + b == b;
    }
  }

  /** The pieces with their spaces removed. */
  function RemoveSpacesEach(xs: seq<string>): (r: seq<string>)
    ensures |r| == |xs| && forall k :: 0 <= k < |xs| ==> r[k] == RemoveSpaces(xs[k])
  {
    if xs == [] then [] else [RemoveSpaces(xs[0])] + RemoveSpacesEach(xs[1..])
  }

  /** Removing spaces from pieces joined by a separator that is not a space
      removes them piece by piece. */
  lemma {:induction false} RemoveSpacesJoin(xs: seq<string>, sep: char)
    requires !IsSpace(sep)
    ensures RemoveSpaces(Join(xs, [sep])) == Join(RemoveSpacesEach(xs), [sep])
  {
    if |xs| > 1 {
      RemoveSpacesJoin(xs[1..], sep);
      RemoveSpacesAppend(xs[0] + [sep], Join(xs[1..], [sep]));
      RemoveSpacesAppend(xs[0], [sep]);
      assert RemoveSpaces([sep]) == [sep];
      assert RemoveSpacesEach(xs)[1..] == RemoveSpacesEach(xs[1..]);
    }
  }

  /** Splitting pieces joined by a separator they do not contain gives the
      pieces back. */
  lemma {:induction false} SplitAllJoin(xs: seq<string>, sep: char)
    requires |xs| >= 1
    requires forall k :: 0 <= k < |xs| ==> sep !in xs[k]
    ensures SplitAll(Join(xs, [sep]), sep) == xs
    decreases |xs|
  {
    var s := Join(xs, [sep]);
    if |xs| > 1 {
      SplitAllJoin(xs[1..], sep);
      assert s == xs[0] + [sep] + Join(xs[1..], [sep]);
      assert s[|xs[0]|] == sep;
      assert s[..|xs[0]|] == xs[0];
      assert IndexOf(s, sep) == |xs[0]| by {
        IndexOfAt(s, sep, |xs[0]|);
      }
      assert s[|xs[0]| + 1..] == Join(xs[1..], [sep]);
    }
  }

  /** Splitting pieces joined by a separator they do not contain gives the
      pieces back, when there are two or more and the last is not empty. */
  lemma SplitJoin(xs: seq<string>, sep: char)
    requires |xs| > 1 && xs[|xs| - 1] != []
    requires forall k :: 0 <= k < |xs| ==> sep !in xs[k]
    ensures Split(Join(xs, [sep]), sep) == xs
  {
    SplitAllJoin(xs, sep);
    assert Join(xs, [sep]) == xs[0] + [sep] + Join(xs[1..], [sep]);
    assert Join(xs, [sep])[|xs[0]|] == sep;
  }

  lemma IndexOfAt(s: string, c: char, i: nat)
    requires i < |s| && s[i] == c && c !in s[..i]
    ensures IndexOf(s, c) == i
  {
  }

  /** replaceAll("\\s+", " "): every maximal run of \s becomes one space. */
  function CollapseSpaces(s: string): string {
    if s == [] then []
    else if IsSpace(s[0]) && |s| > 1 && IsSpace(s[1]) then CollapseSpaces(s[1..])
    else (if IsSpace(s[0]) then " " else [s[0]]) + CollapseSpaces(s[1..])
  }

  /** A string without \s keeps every character. */
  predicate NoSpaces(s: string) {
    forall i :: 0 <= i < |s| ==> !IsSpace(s[i])
  }

  lemma {:induction false} RemoveSpacesNone(s: string)
    requires NoSpaces(s)
    ensures RemoveSpaces(s) == s
  {
    if s != [] {
      RemoveSpacesNone(s[1..]);
      assert s == [s[0]] + s[1..];
    }
  }

  lemma {:induction false} CollapseSpacesNone(s: string)
    requires NoSpaces(s)
    ensures CollapseSpaces(s) == s
  {
    if s != [] {
      CollapseSpacesNone(s[1..]);
      assert s == [s[0]] + s[1..];
    }
  }

  /** Collapsing a string that ends in a part without \s leaves that part
      at its end. */
  lemma {:induction false} CollapseSpacesTail(s: string, t: string)
    requires t != [] && NoSpaces(t)
    ensures CollapseSpaces(s + t) == CollapseSpaces(s) + t
  {
    if s == [] {
      assert s + t == t;
      CollapseSpacesNone(t);
    } else {
      var st := s + t;
      assert st[0] == s[0] && st[1..] == s[1..] + t;
      if |s| > 1 {
        assert st[1] == s[1];
      }
      CollapseSpacesTail(s[1..], t);
    }
  }

  /** replaceAll("\\s+$", ""): removes the trailing run of \s. */
  function DropTrailingSpaces(s: string): (r: string)
    ensures |r| <= |s| && r == s[..|r|]
    ensures forall i :: |r| <= i < |s| ==> IsSpace(s[i])
    ensures r == [] || !IsSpace(r[|r| - 1])
  {
    if s != [] && IsSpace(s[|s| - 1]) then DropTrailingSpaces(s[..|s| - 1]) else s
  }

  /** String.endsWith */
  predicate EndsWith(s: string, suffix: string) {
    |suffix| <= |s| && s[|s| - |suffix|..] == suffix
  }

  /** The first index of c in s. */
  function IndexOf(s: string, c: char): (i: nat)
    requires c in s
    ensures i < |s| && s[i] == c && c !in s[..i]
  {
    if s[0] == c then 0 else 1 + IndexOf(s[1..], c)
  }

  /** String.lastIndexOf(char): -1 when c does not occur. */
  function LastIndexOf(s: string, c: char): (i: int)
    ensures -1 <= i < |s|
    ensures i == -1 <==> c !in s
    ensures i >= 0 ==> s[i] == c && c !in s[i + 1..]
  {
    if s == [] then -1
    else if s[|s| - 1] == c then |s| - 1
    else
      var j := LastIndexOf(s[..|s| - 1], c);
      assert s[j + 1..] == s[..|s| - 1][j + 1..] + [s[|s| - 1]];
      j
  }

  /** All pieces of s between occurrences of sep, empty ones included. */
  function SplitAll(s: string, sep: char): (r: seq<string>)
    ensures |r| >= 1
    ensures forall k :: 0 <= k < |r| ==> sep !in r[k]
    ensures forall k, c :: 0 <= k < |r| && c in r[k] ==> c in s
    decreases |s|
  {
    if sep !in s then [s]
    else
      var i := IndexOf(s, sep);
      assert forall c :: c in s[i + 1..] ==> c in s;
      assert forall c :: c in s[..i] ==> c in s;
      [s[..i]] + SplitAll(s[i + 1..], sep)
  }

  /** String.join */
  function Join(xs: seq<string>, sep: string): string {
    if |xs| == 0 then []
    else if |xs| == 1 then xs[0]
    else xs[0] + sep + Join(xs[1..], sep)
  }

  /** Joining the pieces with the separator gives back the string. */
  lemma {:induction false} JoinSplitAll(s: string, sep: char)
    ensures Join(SplitAll(s, sep), [sep]) == s
    decreases |s|
  {
    if sep in s {
      var i := IndexOf(s, sep);
      var rest := SplitAll(s[i + 1..], sep);
      assert SplitAll(s, sep) == [s[..i]] + rest;
      JoinSplitAll(s[i + 1..], sep);
      JoinCons(s[..i], rest, [sep]);
      assert s == s[..i] + [sep] + s[i + 1..];
    }
  }

  lemma JoinCons(x: string, rest: seq<string>, sep: string)
    requires rest != []
    ensures Join([x] + rest, sep) == x + sep + Join(rest, sep)
  {
    assert ([x] + rest)[1..] == rest;
  }

  /** Joining with one more empty piece adds one separator at the end. */
  lemma {:induction false} JoinSnocEmpty(xs: seq<string>, sep: string)
    requires xs != []
    ensures Join(xs + [""], sep) == Join(xs, sep) + sep
    decreases |xs|
  {
    if |xs| == 1 {
      assert xs + [""] == [xs[0], ""];
      assert [xs[0], ""][1..] == [""];
    } else {
      JoinSnocEmpty(xs[1..], sep);
      assert (xs + [""])[1..] == xs[1..] + [""];
    }
  }

  /** A character found in x is found at the same place in x + y. */
  lemma {:induction false} IndexOfPrefix(x: string, y: string, c: char)
    requires c in x
    ensures IndexOf(x + y, c) == IndexOf(x, c)
  {
    if x[0] != c {
      assert (x + y)[1..] == x[1..] + y;
      IndexOfPrefix(x[1..], y, c);
    }
  }

  /** Splitting at the last separator: the pieces before it and the text
      after it. */
  lemma {:induction false} SplitAllSnoc(x: string, sep: char, y: string)
    requires sep !in y
    ensures SplitAll(x + [sep] + y, sep) == SplitAll(x, sep) + [y]
    decreases |x|
  {
    var s := x + [sep] + y;
    if sep !in x {
      assert IndexOf(s, sep) == |x| by {
        assert s[|x|] == sep;
        assert s[..|x|] == x;
      }
      assert s[|x| + 1..] == y;
    } else {
      var i := IndexOf(x, sep);
      IndexOfPrefix(x, [sep] + y, sep);
      assert s == x + ([sep] + y);
      assert s[..i] == x[..i];
      assert s[i + 1..] == x[i + 1..] + [sep] + y;
      SplitAllSnoc(x[i + 1..], sep, y);
    }
  }

  /** Removes the empty strings at the end of a split result. */
  function DropTrailingEmpty(xs: seq<string>): (r: seq<string>)
    ensures |r| <= |xs| && r == xs[..|r|]
    ensures forall k :: |r| <= k < |xs| ==> xs[k] == []
    ensures r == [] || r[|r| - 1] != []
  {
    if xs != [] && xs[|xs| - 1] == [] then DropTrailingEmpty(xs[..|xs| - 1]) else xs
  }

  /** String.split with a pattern that matches exactly the character sep
      (limit 0): no match gives the string itself, otherwise the pieces
      with trailing empty strings removed. */
  function Split(s: string, sep: char): (r: seq<string>)
    ensures sep !in s ==> r == [s]
    ensures forall k :: 0 <= k < |r| ==> sep !in r[k]
    ensures forall k, c :: 0 <= k < |r| && c in r[k] ==> c in s
    ensures r == [] || r[|r| - 1] != [] || r == [s]
  {
    if sep !in s then [s] else DropTrailingEmpty(SplitAll(s, sep))
  }

  /** Java's String.compareTo: the difference of the first differing
      characters, else the difference of the lengths. */
  function CompareTo(a: string, b: string): int {
    if a == [] || b == [] then |a| - |b|
    else if a[0] != b[0] then a[0] as int - b[0] as int
    else CompareTo(a[1..], b[1..])
  }

  lemma {:induction false} CompareToZeroIff(a: string, b: string)
    ensures CompareTo(a, b) == 0 <==> a == b
  {
    if a != [] && b != [] && a[0] == b[0] {
      CompareToZeroIff(a[1..], b[1..]);
      assert a == [a[0]] + a[1..] && b == [b[0]] + b[1..];
    }
  }

  lemma {:induction false} CompareToAntisymmetric(a: string, b: string)
    ensures CompareTo(b, a) == -CompareTo(a, b)
  {
    if a != [] && b != [] && a[0] == b[0] {
      CompareToAntisymmetric(a[1..], b[1..]);
    }
  }

  lemma {:induction false} CompareToTransitive(a: string, b: string, c: string)
    ensures CompareTo(a, b) <= 0 && CompareTo(b, c) <= 0 ==> CompareTo(a, c) <= 0
    ensures CompareTo(a, b) < 0 && CompareTo(b, c) <= 0 ==> CompareTo(a, c) < 0
    ensures CompareTo(a, b) <= 0 && CompareTo(b, c) < 0 ==> CompareTo(a, c) < 0
  {
    if a != [] && b != [] && c != [] && a[0] == b[0] && b[0] == c[0] {
      CompareToTransitive(a[1..], b[1..], c[1..]);
    }
  }

  const TwoTo31: int := 0x8000_0000
  const TwoTo32: int := 0x1_0000_0000

  /** Wrap-around of Java's 32-bit int arithmetic. */
  function ToInt32(x: int): (r: int)
    ensures -TwoTo31 <= r < TwoTo31
    ensures (r - x) % TwoTo32 == 0
  {
    (x + TwoTo31) % TwoTo32 - TwoTo31
  }

  function HashFrom(h: int, s: string): int
    decreases |s|
  {
    if s == [] then h else HashFrom(ToInt32(31 * h + s[0] as int), s[1..])
  }

  /** String.hashCode(): s[0]*31^(n-1) + ... + s[n-1], in 32-bit arithmetic. */
  function StringHash(s: string): int {
    HashFrom(0, s)
  }
}
