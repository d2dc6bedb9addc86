/** The order of the older sorter's imports (ImportComparator.java): the
    static imports all before or all after the others, then the name, the
    prefix and the suffix in String.compareTo order. Only the group string
    "*" is supported: comparing two imports of the same kind under any
    other group string fails. */
module ImportComparators {
  import opened Wrappers
  import opened JavaStrings
  import opened PluginImports

  datatype Comparator = Comparator(groups: string, staticGroups: string, staticAfter: bool)

  datatype ComparatorError =
    | NullGroups    // requireNonNull in the constructor
    | Unsupported   // UnsupportedOperationException from groupCompare

  /** new ImportComparator(groups, staticGroups, staticAfter); a missing
      (null) group string is rejected. */
  function NewComparator(groups: Option<string>, staticGroups: Option<string>, staticAfter: bool)
    : (r: Result<Comparator, ComparatorError>)
    ensures r.Failure? <==> groups.None? || staticGroups.None?
    ensures r.Failure? ==> r.error == NullGroups
    ensures r.Success? ==> r.value.groups == groups.value && r.value.staticGroups == staticGroups.value
    ensures r.Success? ==> r.value.staticAfter == staticAfter
  {
    if groups.None? || staticGroups.None? then Failure(NullGroups)
    else Success(Comparator(groups.value, staticGroups.value, staticAfter))
  }

  /** The group string that governs imports of the given kind. */
  function GroupsFor(c: Comparator, isStatic: bool): string {
    if isStatic then c.staticGroups else c.groups
  }

  /** groupCompare: String.compareTo on the names under "*", a failure
      under any other group string. */
  function GroupCompare(groups: string, a: string, b: string): (r: Result<int, ComparatorError>)
    ensures r.Success? <==> groups == "*"
    ensures r.Failure? ==> r.error == Unsupported
    ensures r.Success? ==> (r.value == 0 <==> a == b)
  {
    CompareToZeroIff(a, b);
    if groups == "*" then Success(CompareTo(a, b)) else Failure(Unsupported)
  }

  /** The prefixes in compareTo order, then the suffixes. */
  function TieBreak(o1: Import, o2: Import): (r: int)
    ensures r == 0 <==> o1.prefix == o2.prefix && o1.suffix == o2.suffix
  {
    CompareToZeroIff(o1.prefix, o2.prefix);
    CompareToZeroIff(o1.suffix, o2.suffix);
    var comparePrefix := CompareTo(o1.prefix, o2.prefix);
    if comparePrefix != 0 then comparePrefix
    else
      var compareSuffix := CompareTo(o1.suffix, o2.suffix);
      if compareSuffix != 0 then compareSuffix else 0
  }

  /** compare(o1, o2). `same` stands for the reference test o1 == o2, which
      Dafny values do not have: it may only hold of equal imports. */
  function Compare(c: Comparator, o1: Import, o2: Import, same: bool): (r: Result<int, ComparatorError>)
    requires same ==> o1 == o2
    ensures r.Failure? <==> !same && o1.isStatic == o2.isStatic && GroupsFor(c, o1.isStatic) != "*"
    ensures r.Failure? ==> r.error == Unsupported
    ensures r.Success? ==> (r.value == 0 <==> o1 == o2)
    ensures o1.isStatic != o2.isStatic ==> r.Success? && (r.value > 0 <==> o1.isStatic == c.staticAfter)
  {
    if same then Success(0)
    else if o1.isStatic != o2.isStatic then Success(if c.staticAfter == o1.isStatic then 1 else -1)
    else
      match GroupCompare(GroupsFor(c, o1.isStatic), o1.imp, o2.imp)
      case Failure(e) => Failure(e)
      case Success(compareImps) =>
        if compareImps != 0 then Success(compareImps) else Success(TieBreak(o1, o2))
  }

  /** o1 sorts strictly before o2. */
  predicate Less(c: Comparator, o1: Import, o2: Import) {
    var r := Compare(c, o1, o2, false);
    r.Success? && r.value < 0
  }

  /** o1 sorts strictly after o2. */
  predicate Greater(c: Comparator, o1: Import, o2: Import) {
    var r := Compare(c, o1, o2, false);
    r.Success? && r.value > 0
  }

  /** The position of an import's kind: 1 for the kind that goes last. */
  function Rank(c: Comparator, isStatic: bool): int {
    if isStatic == c.staticAfter then 1 else 0
  }

  /** Imports of different kinds are ordered by kind alone. */
  lemma KindOrder(c: Comparator, o1: Import, o2: Import)
    requires o1.isStatic != o2.isStatic
    ensures Compare(c, o1, o2, false) == Success(Rank(c, o1.isStatic) - Rank(c, o2.isStatic))
  {
  }

  lemma TieBreakAntisymmetric(o1: Import, o2: Import)
    ensures TieBreak(o2, o1) == -TieBreak(o1, o2)
  {
    CompareToAntisymmetric(o1.prefix, o2.prefix);
    CompareToAntisymmetric(o1.suffix, o2.suffix);
  }

  /** Swapping the arguments negates a comparison that succeeds. */
  lemma CompareAntisymmetric(c: Comparator, o1: Import, o2: Import)
    requires Compare(c, o1, o2, false).Success?
    ensures Compare(c, o2, o1, false) == Success(-Compare(c, o1, o2, false).value)
  {
    if o1.isStatic == o2.isStatic {
      CompareToAntisymmetric(o1.imp, o2.imp);
      TieBreakAntisymmetric(o1, o2);
    }
  }

  lemma TieBreakTransitive(a: Import, b: Import, d: Import)
    requires TieBreak(a, b) < 0 && TieBreak(b, d) < 0
    ensures TieBreak(a, d) < 0
  {
    CompareToTransitive(a.prefix, b.prefix, d.prefix);
    CompareToTransitive(a.suffix, b.suffix, d.suffix);
    CompareToZeroIff(a.prefix, b.prefix);
    CompareToZeroIff(b.prefix, d.prefix);
    CompareToZeroIff(a.prefix, d.prefix);
  }

  /** The order of imports of one kind under "*" is transitive. */
  lemma SameKindTransitive(c: Comparator, a: Import, b: Import, d: Import)
    requires a.isStatic == b.isStatic == d.isStatic && GroupsFor(c, a.isStatic) == "*"
    requires Less(c, a, b) && Less(c, b, d)
    ensures Less(c, a, d)
  {
    CompareToTransitive(a.imp, b.imp, d.imp);
    CompareToZeroIff(a.imp, b.imp);
    CompareToZeroIff(b.imp, d.imp);
    CompareToZeroIff(a.imp, d.imp);
    if a.imp == b.imp && b.imp == d.imp {
      TieBreakTransitive(a, b, d);
    }
  }

  /** Compare is a strict order wherever it is defined. */
  lemma CompareTransitive(c: Comparator, a: Import, b: Import, d: Import)
    requires Less(c, a, b) && Less(c, b, d) && Compare(c, a, d, false).Success?
    ensures Less(c, a, d)
  {
    if a.isStatic == b.isStatic && b.isStatic == d.isStatic {
      SameKindTransitive(c, a, b, d);
    } else if a.isStatic == b.isStatic {
      KindOrder(c, b, d);
      KindOrder(c, a, d);
    } else if b.isStatic == d.isStatic {
      KindOrder(c, a, b);
      KindOrder(c, a, d);
    } else {
      KindOrder(c, a, b);
      KindOrder(c, b, d);
      assert false;
    }
  }

  /** Once an import of the other kind comes between, everything after it
      is of that other kind: the kinds form two blocks. */
  lemma KindBlocks(c: Comparator, a: Import, b: Import, d: Import)
    requires a.isStatic != b.isStatic && Less(c, a, b) && Less(c, b, d)
    ensures d.isStatic == b.isStatic
  {
    KindOrder(c, a, b);
    if d.isStatic != b.isStatic {
      KindOrder(c, b, d);
    }
  }
}
