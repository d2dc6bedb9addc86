/** The grouper (net.revelc.code.impsort.Grouper): the parsed group lists for
    non-static and static imports, the bucketing of imports into the first
    matching group, and the text of the new import section. */
module Grouping {
  import opened Wrappers
  import opened JavaStrings
  import opened Sequences
  import opened Sorting
  import opened Groups
  import opened Imports
  import Results

  /** The four settings a grouper is built from, with both group strings
      parsed (Grouper's final fields). */
  datatype Grouper = Grouper(groups: seq<Group>, staticGroups: seq<Group>,
                             staticAfter: bool, joinStaticWithNonStatic: bool)

  /** What Grouper.parse guarantees of a group list. */
  predicate ValidGroups(gs: seq<Group>) {
    WellFormed(gs) && SortedBy(gs, LongerFirst)
  }

  /** new Grouper(groups, staticGroups, staticAfter, join): the non-static
      groups are parsed first, so their error is the one reported. */
  function NewGrouper(groups: string, staticGroups: string, staticAfter: bool, join: bool)
    : (r: Result<Grouper, GroupError>)
    ensures r.Success? <==> ParseSpec(groups).Success? && ParseSpec(staticGroups).Success?
    ensures ParseSpec(groups).Failure? ==> r == Failure(ParseSpec(groups).error)
    ensures ParseSpec(groups).Success? && ParseSpec(staticGroups).Failure? ==>
      r == Failure(ParseSpec(staticGroups).error)
    ensures r.Success? ==>
      r.value.groups == ParseSpec(groups).value
      && r.value.staticGroups == ParseSpec(staticGroups).value
      && r.value.staticAfter == staticAfter && r.value.joinStaticWithNonStatic == join
      && ValidGroups(r.value.groups) && ValidGroups(r.value.staticGroups)
  {
    var g := ParseSpec(groups);
    if g.Failure? then Failure(g.error)
    else
      var s := ParseSpec(staticGroups);
      if s.Failure? then Failure(s.error)
      else
        ParseOrdered(groups);
        ParseOrdered(staticGroups);
        Success(Grouper(g.value, s.value, staticAfter, join))
  }

  // ---------------------------------------------------------------------
  // Choosing a group
  // ---------------------------------------------------------------------

  function FirstMatchFrom(gs: seq<Group>, name: string, from: nat): (r: Option<nat>)
    requires from <= |gs|
    ensures r.Some? ==>
      from <= r.value < |gs| && Matches(gs[r.value], name)
      && forall j :: from <= j < r.value ==> !Matches(gs[j], name)
    ensures r.None? ==> forall j :: from <= j < |gs| ==> !Matches(gs[j], name)
    decreases |gs| - from
  {
    if from == |gs| then None
    else if Matches(gs[from], name) then Some(from)
    else FirstMatchFrom(gs, name, from + 1)
  }

  /** The index of the first group in list order that matches the path. */
  function FirstMatch(gs: seq<Group>, name: string): (r: Option<nat>)
    ensures r.Some? ==>
      r.value < |gs| && Matches(gs[r.value], name)
      && forall j :: 0 <= j < r.value ==> !Matches(gs[j], name)
    ensures r.None? ==> forall j :: 0 <= j < |gs| ==> !Matches(gs[j], name)
  {
    FirstMatchFrom(gs, name, 0)
  }

  /** The inner loop of Grouper.group: try the groups in order and stop at
      the first that matches. */
  method FindGroup(groups: seq<Group>, name: string) returns (r: Option<nat>)
    ensures r == FirstMatch(groups, name)
  {
    for j := 0 to |groups|
      invariant FirstMatchFrom(groups, name, j) == FirstMatch(groups, name)
    {
      if Matches(groups[j], name) {
        return Some(j);
      }
    }
    return None;
  }

  /** A list holding the default group matches every path. */
  lemma DefaultAlwaysMatches(gs: seq<Group>, name: string)
    requires HasPrefix(gs, "*")
    ensures FirstMatch(gs, name).Some?
  {
    var k :| 0 <= k < |gs| && gs[k].prefix == "*";
    assert Matches(gs[k], name);
  }

  /** With longer prefixes tried first, the chosen group has the longest
      prefix among those that match. */
  lemma FirstMatchLongest(gs: seq<Group>, name: string, j: nat)
    requires SortedBy(gs, LongerFirst)
    requires j < |gs| && Matches(gs[j], name)
    ensures FirstMatch(gs, name).Some?
    ensures |gs[j].prefix| <= |gs[FirstMatch(gs, name).value].prefix|
  {
  }

  /** The order of the group the path is filed under, if any. */
  function BucketKey(gs: seq<Group>, name: string): Option<int> {
    match FirstMatch(gs, name)
    case None => None
    case Some(j) => Some(gs[j].order)
  }

  /** The import passes the static or non-static filter and files under
      the group of order k. */
  predicate InBucket(gs: seq<Group>, wantStatic: bool, k: int, i: Import) {
    i.isStatic == wantStatic && BucketKey(gs, i.imp) == Some(k)
  }

  function InBucketOf(gs: seq<Group>, wantStatic: bool, k: int): Import -> bool {
    (i: Import) => InBucket(gs, wantStatic, k, i)
  }

  /** The imports of bucket k, in the order they were given. */
  function Bucket(all: seq<Import>, gs: seq<Group>, wantStatic: bool, k: int): seq<Import> {
    Filter(all, InBucketOf(gs, wantStatic, k))
  }

  /** The comparator of the bucket sort: by path. */
  predicate ByPath(a: Import, b: Import) {
    CompareTo(a.imp, b.imp) <= 0
  }

  lemma ByPathOrder()
    ensures Total(ByPath) && Transitive(ByPath)
  {
    forall a: Import, b: Import
      ensures ByPath(a, b) || ByPath(b, a)
    {
      CompareToAntisymmetric(a.imp, b.imp);
    }
    forall a: Import, b: Import, c: Import | ByPath(a, b) && ByPath(b, c)
      ensures ByPath(a, c)
    {
      CompareToTransitive(a.imp, b.imp, c.imp);
    }
  }

  lemma BucketStep(all: seq<Import>, gs: seq<Group>, wantStatic: bool, i: nat, k: int)
    requires i < |all|
    ensures Bucket(all[..i + 1], gs, wantStatic, k)
      == Bucket(all[..i], gs, wantStatic, k)
         + (if InBucket(gs, wantStatic, k, all[i]) then [all[i]] else [])
  {
    assert all[..i + 1] == all[..i] + [all[i]];
    FilterSnoc(all[..i], all[i], InBucketOf(gs, wantStatic, k));
  }

  /** m holds exactly the non-empty buckets of the imports in all. */
  ghost predicate Filed(m: map<int, seq<Import>>, all: seq<Import>, gs: seq<Group>, wantStatic: bool) {
    (forall k :: k in m <==> Bucket(all, gs, wantStatic, k) != [])
    && forall k :: k in m ==> m[k] == Bucket(all, gs, wantStatic, k)
  }

  /** Filing the next import under its group's order keeps the map in step
      with the buckets. */
  lemma FileStepAdd(m: map<int, seq<Import>>, all: seq<Import>, gs: seq<Group>, wantStatic: bool,
                    i: nat, order: int)
    requires i < |all| && Filed(m, all[..i], gs, wantStatic)
    requires all[i].isStatic == wantStatic && BucketKey(gs, all[i].imp) == Some(order)
    ensures Filed(m[order := (if order in m then m[order] else []) + [all[i]]], all[..i + 1], gs, wantStatic)
  {
    var m2 := m[order := (if order in m then m[order] else []) + [all[i]]];
    forall k
      ensures (k in m2 <==> Bucket(all[..i + 1], gs, wantStatic, k) != [])
        && (k in m2 ==> m2[k] == Bucket(all[..i + 1], gs, wantStatic, k))
    {
      BucketStep(all, gs, wantStatic, i, k);
      assert InBucket(gs, wantStatic, k, all[i]) <==> k == order;
    }
  }

  /** An import that files nowhere leaves the map as it is. */
  lemma FileStepSkip(m: map<int, seq<Import>>, all: seq<Import>, gs: seq<Group>, wantStatic: bool, i: nat)
    requires i < |all| && Filed(m, all[..i], gs, wantStatic)
    requires all[i].isStatic != wantStatic || BucketKey(gs, all[i].imp).None?
    ensures Filed(m, all[..i + 1], gs, wantStatic)
  {
    forall k
      ensures (k in m <==> Bucket(all[..i + 1], gs, wantStatic, k) != [])
        && (k in m ==> m[k] == Bucket(all[..i + 1], gs, wantStatic, k))
    {
      BucketStep(all, gs, wantStatic, i, k);
      assert !InBucket(gs, wantStatic, k, all[i]);
    }
  }

  /** The first half of Grouper.group: file every import that passes the
      filter under the order of the first group it matches (a TreeMap of
      lists filled with computeIfAbsent(...).add). */
  method FileImports(allImports: seq<Import>, groups: seq<Group>, wantStatic: bool)
    returns (m: map<int, seq<Import>>)
    ensures Filed(m, allImports, groups, wantStatic)
  {
    m := map[];
    for i := 0 to |allImports|
      invariant Filed(m, allImports[..i], groups, wantStatic)
    {
      var imp := allImports[i];
      var filed := false;
      if imp.isStatic == wantStatic {
        var j := FindGroup(groups, imp.imp);
        if j.Some? {
          var order := groups[j.value].order;
          FileStepAdd(m, allImports, groups, wantStatic, i, order);
          m := m[order := (if order in m then m[order] else []) + [imp]];
          filed := true;
        }
      }
      if !filed {
        FileStepSkip(m, allImports, groups, wantStatic, i);
      }
    }
    assert allImports[..|allImports|] == allImports;
  }

  lemma HasElement(s: set<int>)
    ensures s != {} ==> exists x :: x in s
  {
    if forall x :: x !in s {
      assert s == {};
    }
  }

  /** The second half of Grouper.group: sort every list by path. */
  method SortBuckets(filed: map<int, seq<Import>>) returns (m: map<int, seq<Import>>)
    ensures m.Keys == filed.Keys
    ensures forall k :: k in m ==> m[k] == Sort(filed[k], ByPath)
  {
    m := filed;
    var pending := m.Keys;
    while pending != {}
      invariant pending <= m.Keys && m.Keys == filed.Keys
      invariant forall k :: k in m ==> m[k] == if k in pending then filed[k] else Sort(filed[k], ByPath)
      decreases |pending|
    {
      HasElement(pending);
      var key :| key in pending;
      m := m[key := Sort(m[key], ByPath)];
      pending := pending - {key};
    }
  }

  /** Grouper.group: the buckets that hold something, each sorted by path. */
  method GroupImports(allImports: seq<Import>, groups: seq<Group>, wantStatic: bool)
    returns (m: map<int, seq<Import>>)
    ensures forall k :: k in m <==> Bucket(allImports, groups, wantStatic, k) != []
    ensures forall k :: k in m ==> m[k] == Sort(Bucket(allImports, groups, wantStatic, k), ByPath)
  {
    var filed := FileImports(allImports, groups, wantStatic);
    m := SortBuckets(filed);
  }

  /** Grouper.groupNonStatic and Grouper.groupStatic. */
  method GroupNonStatic(g: Grouper, allImports: seq<Import>) returns (m: map<int, seq<Import>>)
    ensures forall k :: k in m <==> Bucket(allImports, g.groups, false, k) != []
    ensures forall k :: k in m ==> m[k] == Sort(Bucket(allImports, g.groups, false, k), ByPath)
  {
    m := GroupImports(allImports, g.groups, false);
  }

  method GroupStatic(g: Grouper, allImports: seq<Import>) returns (m: map<int, seq<Import>>)
    ensures forall k :: k in m <==> Bucket(allImports, g.staticGroups, true, k) != []
    ensures forall k :: k in m ==> m[k] == Sort(Bucket(allImports, g.staticGroups, true, k), ByPath)
  {
    m := GroupImports(allImports, g.staticGroups, true);
  }

  /** Each import that passes the filter is filed in exactly one bucket, the
      one of the first group that matches it, as often as it was given. */
  lemma ExactlyOneBucket(all: seq<Import>, gs: seq<Group>, wantStatic: bool, x: Import, k: int)
    requires x.isStatic == wantStatic && FirstMatch(gs, x.imp).Some?
    ensures var home := gs[FirstMatch(gs, x.imp).value].order;
      multiset(Sort(Bucket(all, gs, wantStatic, k), ByPath))[x]
        == if k == home then multiset(all)[x] else 0
  {
    SortPermutation(Bucket(all, gs, wantStatic, k), ByPath);
    FilterMultiset(all, InBucketOf(gs, wantStatic, k), x);
  }

  /** An import of the other kind is in no bucket. */
  lemma OtherKindInNoBucket(all: seq<Import>, gs: seq<Group>, wantStatic: bool, x: Import, k: int)
    requires x.isStatic != wantStatic
    ensures x !in Sort(Bucket(all, gs, wantStatic, k), ByPath)
  {
    SortPermutation(Bucket(all, gs, wantStatic, k), ByPath);
    FilterMultiset(all, InBucketOf(gs, wantStatic, k), x);
  }

  /** A bucket holds only imports of its kind whose first matching group has
      its order, sorted by path, ties kept in the order given. */
  lemma BucketSorted(all: seq<Import>, gs: seq<Group>, wantStatic: bool, k: int)
    ensures var b := Sort(Bucket(all, gs, wantStatic, k), ByPath);
      SortedBy(b, ByPath)
      && forall i :: 0 <= i < |b| ==> b[i] in all && InBucket(gs, wantStatic, k, b[i])
  {
    var s := Bucket(all, gs, wantStatic, k);
    FilterSubsequence(all, InBucketOf(gs, wantStatic, k));
    ByPathOrder();
    SortSorted(s, ByPath);
    SortPermutation(s, ByPath);
    var b := Sort(s, ByPath);
    forall i | 0 <= i < |b|
      ensures b[i] in all && InBucket(gs, wantStatic, k, b[i])
    {
      assert b[i] in multiset(b);
      assert b[i] in s;
    }
  }

  /** With a valid group list every bucket key is the order of a group, so
      it lies in [0, |gs|). */
  lemma BucketKeysInRange(all: seq<Import>, gs: seq<Group>, wantStatic: bool, k: int)
    requires WellFormed(gs)
    requires Bucket(all, gs, wantStatic, k) != []
    ensures 0 <= k < |gs|
  {
    var b := Bucket(all, gs, wantStatic, k);
    assert InBucketOf(gs, wantStatic, k)(b[0]);
  }

  // ---------------------------------------------------------------------
  // Ascending iteration over the buckets (TreeMap.values())
  // ---------------------------------------------------------------------

  /** The keys of m that lie in [lo, hi), in ascending order. */
  function KeysBetween(m: map<int, seq<Import>>, lo: int, hi: int): (r: seq<int>)
    ensures forall i :: 0 <= i < |r| ==> lo <= r[i] < hi
    ensures forall i, j :: 0 <= i < j < |r| ==> r[i] < r[j]
    ensures forall k :: k in r <==> k in m && lo <= k < hi
    decreases hi - lo
  {
    if lo >= hi then []
    else
      var rest := KeysBetween(m, lo + 1, hi);
      if lo in m then [lo] + rest else rest
  }

  /** TreeMap.values() of a map whose keys lie in [0, n): the values in
      ascending key order. */
  function TreeValues(m: map<int, seq<Import>>, n: int): (r: seq<seq<Import>>)
    ensures var ks := KeysBetween(m, 0, n);
      |r| == |ks| && forall i :: 0 <= i < |r| ==> r[i] == m[ks[i]]
  {
    var ks := KeysBetween(m, 0, n);
    seq(|ks|, i requires 0 <= i < |ks| => m[ks[i]])
  }

  /** The buckets of one kind that hold something, keyed by group order:
      what Grouper.group returns. */
  function BucketMap(all: seq<Import>, gs: seq<Group>, wantStatic: bool): (m: map<int, seq<Import>>)
    ensures forall k :: k in m ==> 0 <= k < |gs| && m[k] != []
  {
    map k | 0 <= k < |gs| && Bucket(all, gs, wantStatic, k) != [] :: Sort(Bucket(all, gs, wantStatic, k), ByPath)
  }

  /** The non-empty buckets of one kind in ascending group order. */
  function Buckets(all: seq<Import>, gs: seq<Group>, wantStatic: bool): seq<seq<Import>> {
    TreeValues(BucketMap(all, gs, wantStatic), |gs|)
  }

  lemma SameKeys(m: map<int, seq<Import>>, all: seq<Import>, gs: seq<Group>, wantStatic: bool)
    requires WellFormed(gs)
    requires forall k :: k in m <==> Bucket(all, gs, wantStatic, k) != []
    ensures m.Keys == BucketMap(all, gs, wantStatic).Keys
  {
    var b := BucketMap(all, gs, wantStatic);
    forall k
      ensures k in m <==> k in b
    {
      if k in m {
        BucketKeysInRange(all, gs, wantStatic, k);
      }
    }
  }

  /** With a valid group list the map Grouper.group builds is BucketMap. */
  lemma GroupedIsBucketMap(m: map<int, seq<Import>>, all: seq<Import>, gs: seq<Group>, wantStatic: bool)
    requires WellFormed(gs)
    requires forall k :: k in m <==> Bucket(all, gs, wantStatic, k) != []
    requires forall k :: k in m ==> m[k] == Sort(Bucket(all, gs, wantStatic, k), ByPath)
    ensures m == BucketMap(all, gs, wantStatic)
  {
    var b := BucketMap(all, gs, wantStatic);
    SameKeys(m, all, gs, wantStatic);
    forall k | k in m
      ensures m[k] == b[k]
    {
    }
  }

  /** Every import of a bucket is of the bucket's kind. */
  lemma BucketsOfKind(all: seq<Import>, gs: seq<Group>, wantStatic: bool)
    ensures var bs := Buckets(all, gs, wantStatic);
      forall i, j :: 0 <= i < |bs| && 0 <= j < |bs[i]| ==> bs[i][j].isStatic == wantStatic && bs[i][j] in all
  {
    var m := BucketMap(all, gs, wantStatic);
    var ks := KeysBetween(m, 0, |gs|);
    var bs: seq<seq<Import>> := Buckets(all, gs, wantStatic);
    forall i: int, j: int | 0 <= i < |bs| && 0 <= j < |bs[i]|
      ensures bs[i][j].isStatic == wantStatic && bs[i][j] in all
    {
      BucketSorted(all, gs, wantStatic, ks[i]);
    }
  }

  // ---------------------------------------------------------------------
  // The text of the section (Grouper.groupedImports)
  // ---------------------------------------------------------------------

  /** Import.toString() of each import, in order. */
  function Texts(imps: seq<Import>): (r: seq<string>)
    ensures |r| == |imps|
    ensures forall k :: 0 <= k < |r| ==> r[k] == ToString(imps[k])
  {
    seq(|imps|, k requires 0 <= k < |imps| => ToString(imps[k]))
  }

  lemma TextsAppend(a: seq<Import>, b: seq<Import>)
    ensures Texts(a + b) == Texts(a) + Texts(b)
  {
  }

  /** The text of an import is never blank: it holds the declaration. */
  lemma TextNotEmpty(i: Import)
    ensures ToString(i) != ""
  {
    assert |Statement(i.isStatic, i.imp)| >= 8;
  }

  /** The lines one partition adds, each later followed by a line break:
      every import's text, buckets in order, with one blank entry between
      consecutive buckets. */
  function BlankSeparated(bs: seq<seq<Import>>): seq<string>
    decreases |bs|
  {
    if bs == [] then []
    else
      BlankSeparated(bs[..|bs| - 1]) + (if |bs| > 1 then [""] else []) + Texts(bs[|bs| - 1])
  }

  /** The lines of the whole section: the first partition, one blank entry
      when the partitions are kept apart and both hold something, then the
      second partition. */
  function SectionLines(first: seq<seq<Import>>, second: seq<seq<Import>>, join: bool): seq<string> {
    BlankSeparated(first) + (if !join && first != [] && second != [] then [""] else []) + BlankSeparated(second)
  }

  /** The partitions in the order they are written: static first unless
      staticAfter. */
  function Partitions(g: Grouper, all: seq<Import>): (seq<seq<Import>>, seq<seq<Import>>) {
    var st := Buckets(all, g.staticGroups, true);
    var ns := Buckets(all, g.groups, false);
    if g.staticAfter then (ns, st) else (st, ns)
  }

  /** The section lines Grouper.groupedImports writes for the imports. */
  function GroupedLines(g: Grouper, all: seq<Import>): seq<string> {
    var (first, second) := Partitions(g, all);
    SectionLines(first, second, g.joinStaticWithNonStatic)
  }

  lemma BlankSeparatedStep(bs: seq<seq<Import>>, i: nat)
    requires i < |bs|
    ensures Results.Terminated(BlankSeparated(bs[..i + 1]))
      == Results.Terminated(BlankSeparated(bs[..i])) + (if i > 0 then "\n" else "")
         + Results.Terminated(Texts(bs[i]))
  {
    assert bs[..i + 1][..i] == bs[..i];
    var gap: seq<string> := if i > 0 then [""] else [];
    assert BlankSeparated(bs[..i + 1]) == BlankSeparated(bs[..i]) + gap + Texts(bs[i]);
    Results.TerminatedAppend(BlankSeparated(bs[..i]) + gap, Texts(bs[i]));
    Results.TerminatedAppend(BlankSeparated(bs[..i]), gap);
    assert Results.Terminated([""]) == "\n";
  }

  lemma TerminatedTextsStep(grouping: seq<Import>, j: nat)
    requires j < |grouping|
    ensures Results.Terminated(Texts(grouping[..j + 1]))
      == Results.Terminated(Texts(grouping[..j])) + ToString(grouping[j]) + "\n"
  {
    assert grouping[..j + 1] == grouping[..j] + [grouping[j]];
    TextsAppend(grouping[..j], [grouping[j]]);
    assert Texts([grouping[j]]) == [ToString(grouping[j])];
    Results.TerminatedAppend(Texts(grouping[..j]), [ToString(grouping[j])]);
    assert Results.Terminated([ToString(grouping[j])]) == ToString(grouping[j]) + "\n";
  }

  /** grouping.forEach(imp -> sb.append(imp).append("\n")) */
  method AppendGrouping(sb: string, grouping: seq<Import>) returns (out: string)
    ensures out == sb + Results.Terminated(Texts(grouping))
  {
    out := sb;
    for j := 0 to |grouping|
      invariant out == sb + Results.Terminated(Texts(grouping[..j]))
    {
      ghost var done := out;
      out := out + ToString(grouping[j]) + "\n";
      ImportAppended(sb, grouping, j, done, out);
    }
    assert grouping[..|grouping|] == grouping;
  }

  /** One more import's text and line break. */
  lemma ImportAppended(sb: string, grouping: seq<Import>, j: nat, done: string, out: string)
    requires j < |grouping|
    requires done == sb + Results.Terminated(Texts(grouping[..j]))
    requires out == done + ToString(grouping[j]) + "\n"
    ensures out == sb + Results.Terminated(Texts(grouping[..j + 1]))
  {
    TerminatedTextsStep(grouping, j);
    PiecesAppended(sb, Results.Terminated(Texts(grouping[..j])),
      Results.Terminated(Texts(grouping[..j + 1])), ToString(grouping[j]), "\n", done, out);
  }

  /** The consumer of Grouper.groupedImports applied to each bucket of one
      partition: a line break before every bucket but the first, then each
      import's text and a line break. */
  method AppendBuckets(sb: string, buckets: seq<seq<Import>>) returns (out: string)
    ensures out == sb + Results.Terminated(BlankSeparated(buckets))
  {
    out := sb;
    var firstGroup := true;
    for i := 0 to |buckets|
      invariant firstGroup <==> i == 0
      invariant out == sb + Results.Terminated(BlankSeparated(buckets[..i]))
    {
      ghost var done := out;
      if !firstGroup {
        out := out + "\n";
      }
      firstGroup := false;
      out := AppendGrouping(out, buckets[i]);
      BucketAppended(sb, buckets, i, done, out);
    }
    assert buckets[..|buckets|] == buckets;
  }

  /** One more bucket, after a line break unless it is the first. */
  lemma BucketAppended(sb: string, buckets: seq<seq<Import>>, i: nat, done: string, out: string)
    requires i < |buckets|
    requires done == sb + Results.Terminated(BlankSeparated(buckets[..i]))
    requires out == done + (if i > 0 then "\n" else "") + Results.Terminated(Texts(buckets[i]))
    ensures out == sb + Results.Terminated(BlankSeparated(buckets[..i + 1]))
  {
    BlankSeparatedStep(buckets, i);
    PiecesAppended(sb, Results.Terminated(BlankSeparated(buckets[..i])),
      Results.Terminated(BlankSeparated(buckets[..i + 1])), if i > 0 then "\n" else "",
      Results.Terminated(Texts(buckets[i])), done, out);
  }

  /** Appending two pieces to sb + t gives sb + t' when t' is t with them. */
  lemma PiecesAppended(sb: string, t: string, t': string, a: string, b: string, done: string, out: string)
    requires t' == t + a + b
    requires done == sb + t
    requires out == done + a + b
    ensures out == sb + t'
  {
  }

  lemma {:induction false} NoKeysBetween(m: map<int, seq<Import>>, lo: int, hi: int)
    requires m == map[]
    ensures KeysBetween(m, lo, hi) == []
    decreases hi - lo
  {
    if lo < hi {
      NoKeysBetween(m, lo + 1, hi);
    }
  }

  /** TreeMap.isEmpty() of a map whose keys lie in [0, n). */
  lemma TreeValuesEmpty(m: map<int, seq<Import>>, n: int)
    requires forall k :: k in m ==> 0 <= k < n
    ensures TreeValues(m, n) == [] <==> m == map[]
  {
    var ks := KeysBetween(m, 0, n);
    if m != map[] {
      HasElement(m.Keys);
      var k :| k in m.Keys;
      assert k in ks;
    } else {
      NoKeysBetween(m, 0, n);
    }
  }

  /** Grouper.groupedImports, lines 113-114: both kinds grouped. */
  method GroupBoth(g: Grouper, allImports: seq<Import>)
    returns (staticImports: map<int, seq<Import>>, nonStaticImports: map<int, seq<Import>>)
    requires ValidGroups(g.groups) && ValidGroups(g.staticGroups)
    ensures staticImports == BucketMap(allImports, g.staticGroups, true)
    ensures nonStaticImports == BucketMap(allImports, g.groups, false)
  {
    staticImports := GroupStatic(g, allImports);
    nonStaticImports := GroupNonStatic(g, allImports);
    GroupedIsBucketMap(staticImports, allImports, g.staticGroups, true);
    GroupedIsBucketMap(nonStaticImports, allImports, g.groups, false);
  }

  /** The buckets of the first map, a line break when the partitions are
      kept apart and both hold something, then the buckets of the second. */
  method JoinPartitions(first: map<int, seq<Import>>, second: map<int, seq<Import>>,
                        firstBound: int, secondBound: int, join: bool) returns (body: string)
    ensures body == Results.Terminated(BlankSeparated(TreeValues(first, firstBound)))
      + (if !join && first != map[] && second != map[] then "\n" else "")
      + Results.Terminated(BlankSeparated(TreeValues(second, secondBound)))
  {
    var firstValues := TreeValues(first, firstBound);
    var secondValues := TreeValues(second, secondBound);
    var sb := AppendBuckets("", firstValues);
    ghost var text := Results.Terminated(BlankSeparated(firstValues));
    assert sb == text;
    if !join && first != map[] && second != map[] {
      sb := sb + "\n";
    }
    body := AppendBuckets(sb, secondValues);
  }

  /** The body of Grouper.groupedImports: the buckets of the first
      partition, the separating line break, then those of the second. */
  method SectionBody(g: Grouper, allImports: seq<Import>) returns (body: string)
    requires ValidGroups(g.groups) && ValidGroups(g.staticGroups)
    ensures body == Results.Terminated(GroupedLines(g, allImports))
  {
    var staticImports, nonStaticImports := GroupBoth(g, allImports);
    var first := if g.staticAfter then nonStaticImports else staticImports;
    var second := if g.staticAfter then staticImports else nonStaticImports;
    var firstBound := if g.staticAfter then |g.groups| else |g.staticGroups|;
    var secondBound := if g.staticAfter then |g.staticGroups| else |g.groups|;
    PartitionValues(g, allImports, first, second, firstBound, secondBound);
    body := JoinPartitions(first, second, firstBound, secondBound, g.joinStaticWithNonStatic);
  }

  /** The maps of SectionBody give the partitions of GroupedLines, and are
      empty exactly when their partition is. */
  lemma PartitionValues(g: Grouper, all: seq<Import>, first: map<int, seq<Import>>, second: map<int, seq<Import>>,
                        firstBound: int, secondBound: int)
    requires var st := BucketMap(all, g.staticGroups, true);
      var ns := BucketMap(all, g.groups, false);
      first == (if g.staticAfter then ns else st) && second == (if g.staticAfter then st else ns)
    requires firstBound == (if g.staticAfter then |g.groups| else |g.staticGroups|)
    requires secondBound == (if g.staticAfter then |g.staticGroups| else |g.groups|)
    ensures var f := TreeValues(first, firstBound);
      var s := TreeValues(second, secondBound);
      (f == [] <==> first == map[]) && (s == [] <==> second == map[])
      && Results.Terminated(GroupedLines(g, all))
         == Results.Terminated(BlankSeparated(f))
            + (if !g.joinStaticWithNonStatic && first != map[] && second != map[] then "\n" else "")
            + Results.Terminated(BlankSeparated(s))
  {
    TreeValuesEmpty(first, firstBound);
    TreeValuesEmpty(second, secondBound);
    var f := TreeValues(first, firstBound);
    var s := TreeValues(second, secondBound);
    assert Partitions(g, all) == (f, s);
    SectionText(f, s, g.joinStaticWithNonStatic);
  }

  lemma SectionText(first: seq<seq<Import>>, second: seq<seq<Import>>, join: bool)
    ensures Results.Terminated(SectionLines(first, second, join))
      == Results.Terminated(BlankSeparated(first))
         + (if !join && first != [] && second != [] then "\n" else "")
         + Results.Terminated(BlankSeparated(second))
  {
    var sep: seq<string> := if !join && first != [] && second != [] then [""] else [];
    assert Results.Terminated([""]) == "\n";
    assert Results.Terminated([]) == "";
    Results.TerminatedAppend(BlankSeparated(first), sep);
    Results.TerminatedAppend(BlankSeparated(first) + sep, BlankSeparated(second));
  }

  /** A line break before the section unless it starts the file, and one
      after it unless nothing follows it. */
  function Wrap(body: string, start: int, stop: int, lineCount: int): string {
    (if start > 0 then "\n" else "") + body + (if stop < lineCount then "\n" else "")
  }

  /** The two if statements that wrap the section. */
  method WrapSection(body: string, start: int, stop: int, lineCount: int) returns (newSection: string)
    ensures newSection == Wrap(body, start, stop, lineCount)
  {
    newSection := body;
    if start > 0 {
      newSection := "\n" + newSection;
    }
    if stop < lineCount {
      newSection := newSection + "\n";
    }
  }

  /** Wrapping adds a blank line at the start unless the section starts the
      file, and one at the end unless nothing follows it. */
  lemma WrapLines(ls: seq<string>, start: int, stop: int, lineCount: int)
    ensures Wrap(Results.Terminated(ls), start, stop, lineCount)
      == Results.Terminated((if start > 0 then [""] else []) + ls + (if stop < lineCount then [""] else []))
  {
    var pre: seq<string> := if start > 0 then [""] else [];
    var post: seq<string> := if stop < lineCount then [""] else [];
    assert Results.Terminated([""]) == "\n";
    assert Results.Terminated([]) == "";
    Results.TerminatedAppend(pre, ls);
    Results.TerminatedAppend(pre + ls, post);
  }

  // ---------------------------------------------------------------------
  // What the section looks like
  // ---------------------------------------------------------------------

  /** A line with something on it: an import's text. */
  predicate IsLine(l: string) {
    l != ""
  }

  /** The lines that are not blank, in order. */
  function NonBlank(ls: seq<string>): seq<string> {
    if ls == [] then [] else (if IsLine(ls[0]) then [ls[0]] else []) + NonBlank(ls[1..])
  }

  lemma {:induction false} NonBlankAppend(a: seq<string>, b: seq<string>)
    ensures NonBlank(a + b) == NonBlank(a) + NonBlank(b)
  {
    if a == [] {
      assert a + b == b;
    } else {
      assert (a + b)[1..] == a[1..] + b;
      NonBlankAppend(a[1..], b);
    }
  }

  lemma {:induction false} NonBlankOfLines(ls: seq<string>)
    requires forall k :: 0 <= k < |ls| ==> IsLine(ls[k])
    ensures NonBlank(ls) == ls
  {
    if ls != [] {
      NonBlankOfLines(ls[1..]);
    }
  }

  lemma TextsAreLines(imps: seq<Import>)
    ensures forall k :: 0 <= k < |Texts(imps)| ==> IsLine(Texts(imps)[k])
  {
    forall k | 0 <= k < |imps|
      ensures IsLine(Texts(imps)[k])
    {
      TextNotEmpty(imps[k]);
    }
  }

  /** The number of blank entries between the buckets of one partition. */
  function Gaps(bs: seq<seq<Import>>): nat {
    if bs == [] then 0 else |bs| - 1
  }

  lemma NonBlankLastBucket(bs: seq<seq<Import>>)
    requires bs != []
    ensures NonBlank(BlankSeparated(bs))
      == NonBlank(BlankSeparated(bs[..|bs| - 1])) + Texts(bs[|bs| - 1])
  {
    var last := bs[|bs| - 1];
    var gap: seq<string> := if |bs| > 1 then [""] else [];
    assert NonBlank(gap) == [];
    TextsAreLines(last);
    NonBlankSkipGap(BlankSeparated(bs[..|bs| - 1]), gap, Texts(last));
  }

  /** A blank gap followed by lines: the gap goes, the lines stay. */
  lemma NonBlankSkipGap(a: seq<string>, gap: seq<string>, t: seq<string>)
    requires NonBlank(gap) == []
    requires forall k :: 0 <= k < |t| ==> IsLine(t[k])
    ensures NonBlank(a + gap + t) == NonBlank(a) + t
  {
    NonBlankAppend(a + gap, t);
    NonBlankAppend(a, gap);
    NonBlankOfLines(t);
  }

  lemma TextsFlattenSnoc(bs: seq<seq<Import>>)
    requires bs != []
    ensures Texts(Flatten(bs)) == Texts(Flatten(bs[..|bs| - 1])) + Texts(bs[|bs| - 1])
  {
    LastSplit(bs);
    TextsFlattenParts(bs, bs[..|bs| - 1], bs[|bs| - 1]);
  }

  lemma TextsFlattenParts(bs: seq<seq<Import>>, init: seq<seq<Import>>, last: seq<Import>)
    requires bs == init + [last]
    ensures Texts(Flatten(bs)) == Texts(Flatten(init)) + Texts(last)
  {
    FlattenSnoc(init, last);
    TextsAppend(Flatten(init), last);
  }

  /** Leaving out the blank lines of a partition gives every import's text,
      bucket after bucket. */
  lemma {:induction false} BlankSeparatedImports(bs: seq<seq<Import>>)
    ensures NonBlank(BlankSeparated(bs)) == Texts(Flatten(bs))
    decreases |bs|
  {
    if bs != [] {
      BlankSeparatedImports(bs[..|bs| - 1]);
      NonBlankLastBucket(bs);
      TextsFlattenSnoc(bs);
    }
  }

  /** A partition has one blank line fewer than it has buckets. */
  lemma {:induction false} BlankSeparatedGaps(bs: seq<seq<Import>>)
    ensures multiset(BlankSeparated(bs))[""] == Gaps(bs)
    decreases |bs|
  {
    if bs != [] {
      var init := bs[..|bs| - 1];
      var last := bs[|bs| - 1];
      var gap: seq<string> := if |bs| > 1 then [""] else [];
      BlankSeparatedGaps(init);
      TextsAreLines(last);
      assert "" !in Texts(last);
      assert BlankSeparated(bs) == BlankSeparated(init) + gap + Texts(last);
    }
  }

  /** No two blank lines in a row. */
  predicate NoBlankRun(r: seq<string>) {
    forall i :: 0 <= i < |r| - 1 ==> IsLine(r[i]) || IsLine(r[i + 1])
  }

  /** Neither the first nor the last line is blank. */
  predicate Framed(r: seq<string>) {
    r != [] ==> IsLine(r[0]) && IsLine(r[|r| - 1])
  }

  lemma AppendNoBlankRun(a: seq<string>, b: seq<string>)
    requires NoBlankRun(a) && NoBlankRun(b)
    requires a == [] || b == [] || IsLine(a[|a| - 1]) || IsLine(b[0])
    ensures NoBlankRun(a + b)
  {
    var r := a + b;
    forall i | 0 <= i < |r| - 1
      ensures IsLine(r[i]) || IsLine(r[i + 1])
    {
      if i < |a| - 1 {
        assert r[i] == a[i] && r[i + 1] == a[i + 1];
      } else if i >= |a| {
        assert r[i] == b[i - |a|] && r[i + 1] == b[i + 1 - |a|];
      }
    }
  }

  lemma TextsShape(imps: seq<Import>)
    ensures NoBlankRun(Texts(imps)) && Framed(Texts(imps))
  {
    TextsAreLines(imps);
  }

  /** When every bucket holds an import, a partition starts and ends with
      an import and never has two blank lines in a row, so consecutive
      buckets are apart by exactly one blank line. */
  lemma {:induction false} BlankSeparatedShape(bs: seq<seq<Import>>)
    requires forall k :: 0 <= k < |bs| ==> bs[k] != []
    ensures NoBlankRun(BlankSeparated(bs)) && Framed(BlankSeparated(bs))
    ensures bs != [] ==> BlankSeparated(bs) != []
    decreases |bs|
  {
    if bs != [] {
      var init := bs[..|bs| - 1];
      var last := bs[|bs| - 1];
      var gap: seq<string> := if |bs| > 1 then [""] else [];
      BlankSeparatedShape(init);
      TextsShape(last);
      var a := BlankSeparated(init);
      AppendNoBlankRun(a, gap);
      AppendNoBlankRun(a + gap, Texts(last));
      assert |Texts(last)| > 0;
      var r := BlankSeparated(bs);
      assert r == a + gap + Texts(last);
      assert r[|r| - 1] == Texts(last)[|Texts(last)| - 1];
      if |bs| > 1 {
        assert r[0] == a[0];
      } else {
        assert r == Texts(last);
      }
    }
  }

  /** Leaving out the blank lines of the section gives the first
      partition's imports then the second's. */
  lemma SectionImports(first: seq<seq<Import>>, second: seq<seq<Import>>, join: bool)
    ensures NonBlank(SectionLines(first, second, join)) == Texts(Flatten(first)) + Texts(Flatten(second))
  {
    var sep: seq<string> := if !join && first != [] && second != [] then [""] else [];
    BlankSeparatedImports(first);
    BlankSeparatedImports(second);
    assert NonBlank(sep) == [];
    NonBlankJoined(BlankSeparated(first), sep, BlankSeparated(second));
  }

  lemma NonBlankJoined(a: seq<string>, sep: seq<string>, b: seq<string>)
    requires NonBlank(sep) == []
    ensures NonBlank(a + sep + b) == NonBlank(a) + NonBlank(b)
  {
    NonBlankAppend(a, sep);
    NonBlankAppend(a + sep, b);
    assert NonBlank(a) + [] == NonBlank(a);
  }

  /** The blank lines of the section are the gaps of both partitions plus
      the separator, which is there iff the partitions are kept apart and
      both hold something. */
  lemma SectionGaps(first: seq<seq<Import>>, second: seq<seq<Import>>, join: bool)
    ensures multiset(SectionLines(first, second, join))[""]
      == Gaps(first) + Gaps(second) + (if !join && first != [] && second != [] then 1 else 0)
  {
    BlankSeparatedGaps(first);
    BlankSeparatedGaps(second);
  }

  /** With non-empty buckets the section starts and ends with an import and
      never has two blank lines in a row. */
  lemma SectionShape(first: seq<seq<Import>>, second: seq<seq<Import>>, join: bool)
    requires forall k :: 0 <= k < |first| ==> first[k] != []
    requires forall k :: 0 <= k < |second| ==> second[k] != []
    ensures NoBlankRun(SectionLines(first, second, join)) && Framed(SectionLines(first, second, join))
  {
    var sep: seq<string> := if !join && first != [] && second != [] then [""] else [];
    BlankSeparatedShape(first);
    BlankSeparatedShape(second);
    JoinedShape(BlankSeparated(first), sep, BlankSeparated(second));
  }

  /** Two framed runs without blank pairs, apart by at most one blank line
      and by none when either is empty. */
  lemma JoinedShape(a: seq<string>, sep: seq<string>, b: seq<string>)
    requires NoBlankRun(a) && Framed(a) && NoBlankRun(b) && Framed(b)
    requires sep == [] || (sep == [""] && a != [] && b != [])
    ensures NoBlankRun(a + sep + b) && Framed(a + sep + b)
  {
    AppendNoBlankRun(a, sep);
    AppendNoBlankRun(a + sep, b);
    var r := a + sep + b;
    if r != [] {
      if a != [] {
        assert r[0] == a[0];
      } else {
        assert r == b;
      }
      if b != [] {
        assert r[|r| - 1] == b[|b| - 1];
      } else {
        assert r == a + sep;
        assert sep == [];
        assert r == a;
      }
    }
  }

  /** The buckets listed by Buckets hold something. */
  lemma BucketsNotEmpty(all: seq<Import>, gs: seq<Group>, wantStatic: bool)
    ensures var bs := Buckets(all, gs, wantStatic); forall k :: 0 <= k < |bs| ==> bs[k] != []
  {
  }

  /** The section Grouper.groupedImports writes: the static imports' texts
      come first unless staticAfter, the lines between are blank, there are
      never two blank lines in a row and the section starts and ends with an
      import. */
  lemma GroupedLinesOrder(g: Grouper, all: seq<Import>)
    ensures var st := Texts(Flatten(Buckets(all, g.staticGroups, true)));
      var ns := Texts(Flatten(Buckets(all, g.groups, false)));
      NonBlank(GroupedLines(g, all)) == (if g.staticAfter then ns + st else st + ns)
    ensures NoBlankRun(GroupedLines(g, all)) && Framed(GroupedLines(g, all))
  {
    var (first, second) := Partitions(g, all);
    SectionImports(first, second, g.joinStaticWithNonStatic);
    BucketsNotEmpty(all, g.staticGroups, true);
    BucketsNotEmpty(all, g.groups, false);
    SectionShape(first, second, g.joinStaticWithNonStatic);
  }

  // ---------------------------------------------------------------------
  // Grouper.Result
  // ---------------------------------------------------------------------

  /** Unboxing a null Boolean. */
  datatype SaveError = NullPointerException

  /** Grouper.Result.saveSorted as written: it unboxes the cached answer
      directly, and that is null until isSorted() has been called. */
  function SaveAsWritten(cache: Option<bool>, fileLines: seq<string>, start: int, stop: int, newSection: string)
    : Result<Results.SaveOutcome, SaveError>
    requires 0 <= start <= stop <= |fileLines|
  {
    match cache
    case None => Failure(NullPointerException)
    case Some(sorted) =>
      Success(if sorted then Results.KeepOriginal else Results.Write(Results.Spliced(fileLines, start, stop, newSection)))
  }

  /** Saving a result on which isSorted() was never called fails, although
      the result is well defined; once isSorted() has run, the code as
      written agrees with the corrected save. */
  lemma SaveWithoutIsSorted(fileLines: seq<string>, start: int, stop: int,
                            originalSection: string, newSection: string)
    requires 0 <= start <= stop <= |fileLines|
    ensures SaveAsWritten(None, fileLines, start, stop, newSection) == Failure(NullPointerException)
    ensures SaveAsWritten(Some(originalSection == newSection), fileLines, start, stop, newSection)
      == Success(if originalSection == newSection then Results.KeepOriginal
                 else Results.Write(Results.Spliced(fileLines, start, stop, newSection)))
  {
  }

  /** Grouper.Result: the parse result it was made from and the new
      section text, with isSorted() cached. */
  class GroupedResult {
    var isSorted: Option<bool>

    const fileLines: seq<string>
    const start: int
    const stop: int
    const originalSection: string
    const newSection: string

    /** The cached answer, once there is one, is the right one. */
    predicate Valid()
      reads this
    {
      isSorted == None || isSorted == Some(originalSection == newSection)
    }

    constructor (fileLines: seq<string>, start: int, stop: int, originalSection: string, newSection: string)
      ensures this.fileLines == fileLines && this.start == start && this.stop == stop
      ensures this.originalSection == originalSection && this.newSection == newSection
      ensures isSorted == None && Valid()
    {
      this.fileLines := fileLines;
      this.start := start;
      this.stop := stop;
      this.originalSection := originalSection;
      this.newSection := newSection;
      isSorted := None;
    }

    /** Grouper.Result.isSorted(): computed once, then kept. */
    method IsSorted() returns (b: bool)
      requires Valid()
      modifies this`isSorted
      ensures Valid()
      ensures b <==> originalSection == newSection
      ensures isSorted == Some(b)
    {
      if isSorted.None? {
        isSorted := Some(originalSection == newSection);
      }
      b := isSorted.value;
    }

    /** Grouper.Result.saveSorted as written. */
    method SaveSortedAsWritten() returns (out: Result<Results.SaveOutcome, SaveError>)
      requires Valid() && 0 <= start <= stop <= |fileLines|
      ensures out == SaveAsWritten(isSorted, fileLines, start, stop, newSection)
    {
      if isSorted.None? {
        return Failure(NullPointerException);
      }
      if isSorted.value {
        return Success(Results.KeepOriginal);
      }
      var allLines := Results.SpliceLines(fileLines, start, stop, newSection);
      return Success(Results.Write(allLines));
    }

    /** Grouper.Result.saveSorted asking isSorted() first, as Result.java
        does. */
    method SaveSorted() returns (out: Results.SaveOutcome)
      requires Valid() && 0 <= start <= stop <= |fileLines|
      modifies this`isSorted
      ensures Valid() && isSorted == Some(originalSection == newSection)
      ensures originalSection == newSection ==> out == Results.KeepOriginal
      ensures originalSection != newSection ==>
        out == Results.Write(Results.Spliced(fileLines, start, stop, newSection))
    {
      var sorted := IsSorted();
      if sorted {
        return Results.KeepOriginal;
      }
      var allLines := Results.SpliceLines(fileLines, start, stop, newSection);
      return Results.Write(allLines);
    }
  }

  /** Grouper.groupedImports(parseResult): the section body, wrapped in line
      breaks that keep it apart from the rest of the file. */
  method GroupedImports(g: Grouper, allImports: seq<Import>, fileLines: seq<string>,
                        start: int, stop: int, originalSection: string) returns (r: GroupedResult)
    requires ValidGroups(g.groups) && ValidGroups(g.staticGroups)
    ensures fresh(r) && r.Valid() && r.isSorted == None
    ensures r.fileLines == fileLines && r.start == start && r.stop == stop
    ensures r.originalSection == originalSection
    ensures r.newSection == Wrap(Results.Terminated(GroupedLines(g, allImports)), start, stop, |fileLines|)
  {
    var body := SectionBody(g, allImports);
    var newSection := WrapSection(body, start, stop, |fileLines|);
    r := new GroupedResult(fileLines, start, stop, originalSection, newSection);
  }
}
