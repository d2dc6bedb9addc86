/** The import record of the sorter (net.revelc.code.impsort.Import): the
    static flag, the imported name, and the comments written before and after
    the declaration. */
module Imports {
  import opened Wrappers
  import opened JavaStrings

  datatype Import = Import(isStatic: bool, imp: string, prefix: string, suffix: string)

  /** Objects.requireNonNull failing on the named constructor argument. */
  datatype NullArgument = NullImport | NullPrefix | NullSuffix

  /** new Import(isStatic, imp, prefix, suffix), with None standing for null. */
  function NewImport(isStatic: bool, imp: Option<string>, prefix: Option<string>, suffix: Option<string>)
    : (r: Result<Import, NullArgument>)
    ensures r.Success? <==> imp.Some? && prefix.Some? && suffix.Some?
    ensures r.Success? ==>
      r.value.isStatic == isStatic && r.value.imp == imp.value
      && r.value.prefix == prefix.value && r.value.suffix == suffix.value
    ensures imp.None? ==> r == Failure(NullImport)
    ensures imp.Some? && prefix.None? ==> r == Failure(NullPrefix)
  {
    if imp.None? then Failure(NullImport)
    else if prefix.None? then Failure(NullPrefix)
    else if suffix.None? then Failure(NullSuffix)
    else Success(Import(isStatic, imp.value, prefix.value, suffix.value))
  }

  /** The declaration itself: "import", " static" when static, " ", the
      name and ";". */
  function Statement(isStatic: bool, imp: string): string {
    "import" + (if isStatic then " static" else "") + " " + imp + ";"
  }

  /** Import.toString(): the prefix comment on its own line when there is
      one, then the declaration, then the suffix comment. */
  function ToString(i: Import): (r: string)
    ensures i.prefix == [] ==> r == Statement(i.isStatic, i.imp) + i.suffix
    ensures i.prefix != [] ==> r == i.prefix + "\n" + Statement(i.isStatic, i.imp) + i.suffix
  {
    i.prefix + (if i.prefix == [] then "" else "\n") + Statement(i.isStatic, i.imp) + i.suffix
  }

  /** A name the parser can produce: not empty and without spaces. */
  predicate IsName(imp: string) {
    imp != [] && ' ' !in imp
  }

  /** Reads a declaration back: the static flag and the name. */
  function ReadStatement(t: string): Option<(bool, string)> {
    if |t| >= 8 && t[..7] == "import " && t[|t| - 1] == ';' then
      var body := t[7..|t| - 1];
      if |body| > 7 && body[..7] == "static " then Some((true, body[7..]))
      else Some((false, body))
    else None
  }

  /** The declaration text determines the static flag and the name. */
  lemma ReadStatementText(isStatic: bool, imp: string)
    requires IsName(imp)
    ensures ReadStatement(Statement(isStatic, imp)) == Some((isStatic, imp))
  {
    var t := Statement(isStatic, imp);
    if isStatic {
      assert t == "import " + ("static " + imp) + ";";
      assert t[7..|t| - 1] == "static " + imp;
    } else {
      assert t == "import " + imp + ";";
      var body := t[7..|t| - 1];
      assert body == imp;
      if |body| > 7 {
        assert body[..7][6] != ' ';
      }
    }
  }

  /** Two imports with the same comments and the same text are the same
      import. */
  lemma ToStringInjective(a: Import, b: Import)
    requires IsName(a.imp) && IsName(b.imp)
    requires a.prefix == b.prefix && a.suffix == b.suffix
    requires ToString(a) == ToString(b)
    ensures a == b
  {
    var head := a.prefix + (if a.prefix == [] then "" else "\n");
    var sa := Statement(a.isStatic, a.imp);
    var sb := Statement(b.isStatic, b.imp);
    assert ToString(a) == head + sa + a.suffix;
    assert ToString(b) == head + sb + a.suffix;
    assert |sa| == |sb|;
    assert sa == ToString(a)[|head|..|head| + |sa|];
    assert sb == ToString(b)[|head|..|head| + |sb|];
    ReadStatementText(a.isStatic, a.imp);
    ReadStatementText(b.isStatic, b.imp);
  }

  /** Without a prefix comment the text starts with the declaration and is
      one line unless the suffix comment holds a line break. */
  lemma ToStringWithoutPrefix(i: Import)
    requires i.prefix == [] && '\n' !in i.imp
    ensures |ToString(i)| >= 6 && ToString(i)[..6] == "import"
    ensures '\n' in ToString(i) <==> '\n' in i.suffix
  {
    var st := Statement(i.isStatic, i.imp);
    assert ToString(i) == st + i.suffix;
    assert '\n' !in st;
  }

  /** Import.equals: all four fields agree. */
  function Equals(a: Import, b: Import): (r: bool)
    ensures r <==> a == b
  {
    a.isStatic == b.isStatic && a.imp == b.imp && a.prefix == b.prefix && a.suffix == b.suffix
  }

  /** Import.hashCode: imp.hashCode() * 2 + (1 if static), in 32-bit
      arithmetic. */
  function Hash(i: Import): (h: int)
    ensures -TwoTo31 <= h < TwoTo31
    ensures (h - 2 * StringHash(i.imp) - (if i.isStatic then 1 else 0)) % TwoTo32 == 0
  {
    ToInt32(StringHash(i.imp) * 2 + (if i.isStatic then 1 else 0))
  }

  /** The hash ignores the comments, so equal imports, and imports that
      differ only in their comments, hash alike. */
  lemma HashIgnoresComments(a: Import, b: Import)
    requires a.isStatic == b.isStatic && a.imp == b.imp
    ensures Hash(a) == Hash(b)
  {
  }
}
