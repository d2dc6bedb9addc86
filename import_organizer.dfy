/** The ordered set of imports of the older sorter (ImportOrganizer.java):
    a TreeSet under ImportComparator. The set is held as a sequence in
    comparator order with no two elements comparing equal, which is the
    in-order content of the tree. */
module ImportOrganizers {
  import opened Wrappers
  import opened PluginImports
  import opened ImportComparators

  /** Strictly increasing in comparator order. */
  predicate InOrder(c: Comparator, xs: seq<Import>) {
    forall i, j :: 0 <= i < j < |xs| ==> Less(c, xs[i], xs[j])
  }

  /** Every comparison of x with an element succeeds. */
  predicate Comparable(c: Comparator, xs: seq<Import>, x: Import) {
    forall k :: 0 <= k < |xs| ==> Compare(c, x, xs[k], false).Success?
  }

  /** A comparison fails exactly against an element of the same kind when
      that kind's group string is not "*". */
  lemma ComparableIff(c: Comparator, xs: seq<Import>, x: Import)
    ensures Comparable(c, xs, x)
      <==> GroupsFor(c, x.isStatic) == "*" || forall k :: 0 <= k < |xs| ==> xs[k].isStatic != x.isStatic
  {
  }

  lemma ComparableTail(c: Comparator, xs: seq<Import>, x: Import)
    requires xs != [] && Comparable(c, xs, x)
    ensures Comparable(c, xs[1..], x)
  {
    forall k | 0 <= k < |xs[1..]|
      ensures Compare(c, x, xs[1..][k], false).Success?
    {
      assert xs[1..][k] == xs[k + 1];
    }
  }

  /** TreeSet.add: x goes before the first element it is less than; when
      it compares equal to an element the set is left as it is. */
  function Inserted(c: Comparator, xs: seq<Import>, x: Import): (r: seq<Import>)
    requires Comparable(c, xs, x)
    ensures x in r
    decreases |xs|
  {
    if xs == [] then [x]
    else
      if Less(c, x, xs[0]) then [x] + xs
      else if Greater(c, x, xs[0]) then
        ComparableTail(c, xs, x);
        [xs[0]] + Inserted(c, xs[1..], x)
      else xs
  }

  /** Insertion adds x and nothing else, and removes nothing. */
  lemma {:induction false} InsertedElements(c: Comparator, xs: seq<Import>, x: Import)
    requires Comparable(c, xs, x)
    ensures forall y :: y in Inserted(c, xs, x) <==> y in xs || y == x
    ensures |Inserted(c, xs, x)| <= |xs| + 1
    decreases |xs|
  {
    if xs != [] && Greater(c, x, xs[0]) {
      ComparableTail(c, xs, x);
      InsertedElements(c, xs[1..], x);
      assert forall y :: y in xs <==> y == xs[0] || y in xs[1..];
    }
  }

  /** Inserting at the first position whose element x is less than. */
  lemma {:induction false} InsertedAt(c: Comparator, xs: seq<Import>, x: Import, i: nat)
    requires Comparable(c, xs, x) && i <= |xs|
    requires forall k :: 0 <= k < i ==> Greater(c, x, xs[k])
    requires i < |xs| ==> Less(c, x, xs[i])
    ensures Inserted(c, xs, x) == xs[..i] + [x] + xs[i..]
    decreases i
  {
    if i > 0 {
      InsertedPast(c, xs, x);
      ShiftPositive(c, xs, x, i);
      if i < |xs| {
        assert xs[1..][i - 1] == xs[i];
      }
      InsertedAt(c, xs[1..], x, i - 1);
      ConsSplit(xs, x, i);
    }
  }

  /** x goes past an element it is greater than. */
  lemma InsertedPast(c: Comparator, xs: seq<Import>, x: Import)
    requires Comparable(c, xs, x) && xs != [] && Greater(c, x, xs[0])
    ensures Comparable(c, xs[1..], x)
    ensures Inserted(c, xs, x) == [xs[0]] + Inserted(c, xs[1..], x)
  {
    ComparableTail(c, xs, x);
  }

  lemma ConsSplit<T>(xs: seq<T>, x: T, i: nat)
    requires 0 < i <= |xs|
    ensures [xs[0]] + (xs[1..][..i - 1] + [x] + xs[1..][i - 1..]) == xs[..i] + [x] + xs[i..]
  {
    assert xs[..i] == [xs[0]] + xs[1..][..i - 1];
    assert xs[i..] == xs[1..][i - 1..];
  }

  lemma ShiftPositive(c: Comparator, xs: seq<Import>, x: Import, i: nat)
    requires 0 < i <= |xs|
    requires forall k :: 0 <= k < i ==> Greater(c, x, xs[k])
    ensures forall k :: 0 <= k < i - 1 ==> Greater(c, x, xs[1..][k])
  {
    forall k | 0 <= k < i - 1
      ensures Greater(c, x, xs[1..][k])
    {
      assert xs[1..][k] == xs[k + 1];
    }
  }

  /** Meeting an equal element before any greater one leaves the set as it is. */
  lemma {:induction false} InsertedPresentAt(c: Comparator, xs: seq<Import>, x: Import, i: nat)
    requires Comparable(c, xs, x) && i < |xs|
    requires forall k :: 0 <= k < i ==> Greater(c, x, xs[k])
    requires Compare(c, x, xs[i], false) == Success(0)
    ensures Inserted(c, xs, x) == xs
    decreases i
  {
    if i > 0 {
      assert Greater(c, x, xs[0]);
      ComparableTail(c, xs, x);
      ShiftPositive(c, xs, x, i);
      assert xs[1..][i - 1] == xs[i];
      InsertedPresentAt(c, xs[1..], x, i - 1);
      assert xs == [xs[0]] + xs[1..];
    }
  }

  lemma InOrderTail(c: Comparator, xs: seq<Import>)
    requires xs != [] && InOrder(c, xs)
    ensures InOrder(c, xs[1..])
  {
    forall i, j | 0 <= i < j < |xs[1..]|
      ensures Less(c, xs[1..][i], xs[1..][j])
    {
      assert xs[1..][i] == xs[i + 1] && xs[1..][j] == xs[j + 1];
    }
  }

  /** Adding an import already in the set changes nothing. */
  lemma {:induction false} InsertedPresent(c: Comparator, xs: seq<Import>, x: Import)
    requires InOrder(c, xs) && Comparable(c, xs, x) && x in xs
    ensures Inserted(c, xs, x) == xs
    decreases |xs|
  {
    if xs[0] != x {
      var j :| 0 <= j < |xs| && xs[j] == x;
      assert Less(c, xs[0], xs[j]);
      CompareAntisymmetric(c, xs[0], x);
      ComparableTail(c, xs, x);
      InOrderTail(c, xs);
      assert x in xs[1..] by { assert xs[1..][j - 1] == x; }
      InsertedPresent(c, xs[1..], x);
    }
  }

  /** Insertion keeps the set in comparator order. */
  lemma {:induction false} InsertedInOrder(c: Comparator, xs: seq<Import>, x: Import)
    requires InOrder(c, xs) && Comparable(c, xs, x)
    ensures InOrder(c, Inserted(c, xs, x))
    decreases |xs|
  {
    if xs != [] {
      if Less(c, x, xs[0]) {
        InOrderFront(c, xs, x);
      } else if Greater(c, x, xs[0]) {
        InsertedPast(c, xs, x);
        InOrderTail(c, xs);
        InsertedInOrder(c, xs[1..], x);
        InsertedElements(c, xs[1..], x);
        CompareAntisymmetric(c, x, xs[0]);
        InOrderPast(c, xs, x, Inserted(c, xs[1..], x));
      }
    }
  }

  /** An import less than the first element can go in front. */
  lemma InOrderFront(c: Comparator, xs: seq<Import>, x: Import)
    requires InOrder(c, xs) && Comparable(c, xs, x) && xs != [] && Less(c, x, xs[0])
    ensures InOrder(c, [x] + xs)
  {
    var r := [x] + xs;
    forall i, j | 0 <= i < j < |r|
      ensures Less(c, r[i], r[j])
    {
      if i == 0 && j > 1 {
        CompareTransitive(c, x, xs[0], xs[j - 1]);
      }
    }
  }

  /** The first element can go in front of the ordered insertion into the
      rest, whose elements are the rest's and x, all greater than it. */
  lemma InOrderPast(c: Comparator, xs: seq<Import>, x: Import, rest: seq<Import>)
    requires InOrder(c, xs) && xs != [] && Less(c, xs[0], x)
    requires InOrder(c, rest) && forall y :: y in rest <==> y in xs[1..] || y == x
    ensures InOrder(c, [xs[0]] + rest)
  {
    var r := [xs[0]] + rest;
    forall i, j | 0 <= i < j < |r|
      ensures Less(c, r[i], r[j])
    {
      if i == 0 {
        assert r[j] == rest[j - 1] && rest[j - 1] in rest;
        if r[j] != x {
          var k :| 0 <= k < |xs[1..]| && xs[1..][k] == r[j];
          assert Less(c, xs[0], xs[k + 1]);
        }
      } else {
        assert r[i] == rest[i - 1] && r[j] == rest[j - 1];
      }
    }
  }

  /** No two elements of an ordered sequence are equal. */
  lemma InOrderDistinct(c: Comparator, xs: seq<Import>, i: nat, j: nat)
    requires InOrder(c, xs) && i < j < |xs|
    ensures xs[i] != xs[j]
  {
    assert Less(c, xs[i], xs[j]);
  }

  class ImportOrganizer {
    const comparator: Comparator
    var imports: seq<Import>

    predicate Valid()
      reads this
    {
      InOrder(comparator, imports)
    }

    /** new ImportOrganizer(groups, staticGroups, staticAfter,
        joinStaticWithNonStatic): an empty set under the comparator of the
        first three; the fourth argument is not used. */
    constructor (groups: string, staticGroups: string, staticAfter: bool, joinStaticWithNonStatic: bool)
      ensures comparator == Comparator(groups, staticGroups, staticAfter)
      ensures imports == [] && Valid()
    {
      comparator := Comparator(groups, staticGroups, staticAfter);
      imports := [];
    }

    /** add(imp): fails when a comparison with an element fails, and
        otherwise inserts imp unless an equal import is there already. */
    method Add(imp: Import) returns (outcome: Outcome<ComparatorError>)
      requires Valid()
      modifies this
      ensures Valid()
      ensures outcome.Fail? <==> !Comparable(comparator, old(imports), imp)
      ensures outcome.Fail? ==> outcome.error == Unsupported && imports == old(imports)
      ensures outcome.Pass? ==> imports == Inserted(comparator, old(imports), imp)
      ensures outcome.Pass? ==> imp in imports
    {
      var i := 0;
      while i < |imports|
        invariant 0 <= i <= |imports|
        invariant forall k :: 0 <= k < i ==> Compare(comparator, imp, imports[k], false).Success?
        invariant forall k :: 0 <= k < i ==> Greater(comparator, imp, imports[k])
      {
        var cmp := Compare(comparator, imp, imports[i], false);
        if cmp.Failure? {
          return Fail(cmp.error);
        }
        if cmp.value == 0 {
          SameKindComparable(imports, imp, i);
          InsertedPresentAt(comparator, imports, imp, i);
          return Pass;
        }
        if cmp.value < 0 {
          LessComparable(imports, imp, i);
          break;
        }
        i := i + 1;
      }
      InsertedAt(comparator, imports, imp, i);
      InsertedInOrder(comparator, imports, imp);
      imports := imports[..i] + [imp] + imports[i..];
      outcome := Pass;
    }

    /** An element of imp's kind that compares without failure means every
        comparison succeeds. */
    lemma SameKindComparable(xs: seq<Import>, x: Import, i: nat)
      requires i < |xs| && Compare(comparator, x, xs[i], false).Success?
      requires x.isStatic == xs[i].isStatic
      ensures Comparable(comparator, xs, x)
    {
      ComparableIff(comparator, xs, x);
    }

    /** When imp is less than the element at i, comparisons with the later
        elements succeed too: they are of imp's kind only if the element
        at i is (and then its group string is "*"). */
    lemma LessComparable(xs: seq<Import>, x: Import, i: nat)
      requires InOrder(comparator, xs) && i < |xs|
      requires forall k :: 0 <= k < i ==> Compare(comparator, x, xs[k], false).Success?
      requires Less(comparator, x, xs[i])
      ensures Comparable(comparator, xs, x)
    {
      if x.isStatic == xs[i].isStatic {
        SameKindComparable(xs, x, i);
      } else {
        forall k | 0 <= k < |xs|
          ensures Compare(comparator, x, xs[k], false).Success?
        {
          if k > i {
            KindBlocks(comparator, x, xs[i], xs[k]);
          }
        }
      }
    }

    /** isEmpty() */
    function IsEmpty(): (b: bool)
      reads this
      ensures b <==> |imports| == 0
    {
      imports == []
    }
  }
}
