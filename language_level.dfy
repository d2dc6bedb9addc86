/** The compliance-string to language-level mapping of the plugin
    (AbstractImpSortMojo.getLanguageLevel). The parser library's enum is
    represented by the names of its constants, given as a set: valueOf
    succeeds exactly on those names. */
module LanguageLevels {
  import opened Wrappers
  import opened JavaStrings

  /** A constant of the parser's language-level enum, by name. */
  datatype LanguageLevel = LanguageLevel(name: string)

  /** The level used when no compliance is configured. */
  const Popular := LanguageLevel("POPULAR")

  /** The IllegalArgumentException of valueOf, with the name it was given. */
  datatype LevelError = NoSuchConstant(name: string)

  /** v.matches("^1[.][01234]$"): the releases named 1.0 to 1.4. */
  predicate IsOldRelease(v: string) {
    |v| == 3 && v[0] == '1' && v[1] == '.' && '0' <= v[2] <= '4'
  }

  /** v.matches("^1[.][56789]$"): the releases 1.5 to 1.9, later renamed
      5 to 9. */
  predicate IsRenamedRelease(v: string) {
    |v| == 3 && v[0] == '1' && v[1] == '.' && '5' <= v[2] <= '9'
  }

  /** A character the regex `.` does not match (no DOTALL flag). */
  predicate IsLineTerminator(c: char) {
    c == '\n' || c == '\r' || c == '\U{0085}' || c == '\U{2028}' || c == '\U{2029}'
  }

  /** s.replace(".", "_"): every dot becomes an underscore. */
  function ReplaceDots(s: string): (r: string)
    ensures |r| == |s|
    ensures forall i :: 0 <= i < |s| ==> r[i] == if s[i] == '.' then '_' else s[i]
  {
    if s == [] then [] else [if s[0] == '.' then '_' else s[0]] + ReplaceDots(s[1..])
  }

  /** The length of the first line of s: the index of its first line
      terminator, or |s|. */
  function FirstLineLength(s: string): (k: nat)
    ensures k <= |s|
    ensures forall i :: 0 <= i < k ==> !IsLineTerminator(s[i])
    ensures k < |s| ==> IsLineTerminator(s[k])
  {
    if s == [] || IsLineTerminator(s[0]) then 0 else 1 + FirstLineLength(s[1..])
  }

  /** s.replaceFirst("^.*[.]", ""): the greedy `.*` runs to the last dot
      of the first line; nothing changes when the first line has no dot. */
  function DropThroughLastDot(s: string): string {
    var j := LastIndexOf(s[..FirstLineLength(s)], '.');
    if j < 0 then s else s[j + 1..]
  }

  /** The constant name built from the trimmed compliance string. */
  function LevelName(v: string): string {
    if IsOldRelease(v) then "JAVA_" + ReplaceDots(v)
    else if IsRenamedRelease(v) then "JAVA_" + DropThroughLastDot(v)
    else "JAVA_" + v
  }

  /** getLanguageLevel(compliance): POPULAR when the compliance is missing
      or blank; otherwise the constant whose name LevelName builds from
      the trimmed compliance, and an error when there is none. */
  function GetLanguageLevel(compliance: Option<string>, constants: set<string>)
    : (r: Result<LanguageLevel, LevelError>)
    ensures compliance.None? || IsBlank(compliance.value) ==> r == Success(Popular)
    ensures compliance.Some? && !IsBlank(compliance.value) ==>
      (r.Success? <==> LevelName(Trim(compliance.value)) in constants)
    ensures compliance.Some? && !IsBlank(compliance.value) && r.Success? ==>
      r.value == LanguageLevel(LevelName(Trim(compliance.value)))
    ensures r.Failure? ==> r.error == NoSuchConstant(LevelName(Trim(compliance.value)))
  {
    BlankIffTrimEmpty(if compliance.Some? then compliance.value else "");
    if compliance.None? || Trim(compliance.value) == [] then Success(Popular)
    else
      var v := Trim(compliance.value);
      var name := LevelName(v);
      if name in constants then Success(LanguageLevel(name)) else Failure(NoSuchConstant(name))
  }

  /** "1.0" to "1.4" name JAVA_1_0 to JAVA_1_4. */
  lemma OldReleaseName(d: char)
    requires '0' <= d <= '4'
    ensures LevelName(['1', '.', d]) == "JAVA_1_" + [d]
  {
    var r := ReplaceDots(['1', '.', d]);
    assert r == ['1', '_', d];
  }

  /** "1.5" to "1.9" name the same constant as "5" to "9". */
  lemma RenamedReleaseName(d: char)
    requires '5' <= d <= '9'
    ensures LevelName(['1', '.', d]) == LevelName([d]) == "JAVA_" + [d]
  {
    var v := ['1', '.', d];
    assert FirstLineLength(v) == 3 by {
      assert FirstLineLength(v[1..][1..][1..]) == 0;
    }
    assert v[..3] == v;
    assert LastIndexOf(v, '.') == 1 by {
      assert v[..2][..1] == ['1'];
    }
    assert v[2..] == [d];
  }

  /** Any other value v names JAVA_ followed by v itself. */
  lemma OtherName(v: string)
    requires !IsOldRelease(v) && !IsRenamedRelease(v)
    ensures LevelName(v) == "JAVA_" + v
  {
  }

  /** A string with no trim()-removable character at either end is its
      own trim. */
  lemma TrimmedAlready(s: string)
    requires s != [] && !IsTrimmable(s[0]) && !IsTrimmable(s[|s| - 1])
    ensures Trim(s) == s
  {
    assert TrimStart(s) == s;
  }

  /** Surrounding spaces make no difference: the compliance is trimmed
      before it is matched. */
  lemma TrimmedFirst(s: string, constants: set<string>)
    ensures GetLanguageLevel(Some(s), constants) == GetLanguageLevel(Some(Trim(s)), constants)
  {
    TrimIdempotent(s);
    BlankIffTrimEmpty(s);
    BlankIffTrimEmpty(Trim(s));
  }

  /** getLanguageLevel("1.d") and getLanguageLevel("d") agree for d from
      5 to 9, whatever the enum holds. */
  lemma RenamedReleasesAgree(d: char, constants: set<string>)
    requires '5' <= d <= '9'
    ensures GetLanguageLevel(Some(['1', '.', d]), constants) == GetLanguageLevel(Some([d]), constants)
  {
    TrimmedAlready(['1', '.', d]);
    TrimmedAlready([d]);
    RenamedReleaseName(d);
  }

  /** A dotted value that is neither an old nor a renamed release, such
      as "1.10", is an error when no constant name has a dot. */
  lemma DottedOtherFails(v: string, constants: set<string>)
    requires Trim(v) == v && v != []
    requires !IsOldRelease(v) && !IsRenamedRelease(v) && '.' in v
    requires forall n :: n in constants ==> '.' !in n
    ensures GetLanguageLevel(Some(v), constants) == Failure(NoSuchConstant("JAVA_" + v))
  {
    BlankIffTrimEmpty(v);
    var name := "JAVA_" + v;
    var i :| 0 <= i < |v| && v[i] == '.';
    assert name[5 + i] == '.';
  }

  /** "1.10": the first of the values the plugin rejects. */
  lemma OnePointTenFails(constants: set<string>)
    requires forall n :: n in constants ==> '.' !in n
    ensures GetLanguageLevel(Some(['1', '.', '1', '0']), constants).Failure?
  {
    var v := ['1', '.', '1', '0'];
    TrimmedAlready(v);
    DottedOtherFails(v, constants);
  }
}
