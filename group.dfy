/** Import groups (Group.java, and Grouper.parse, which repeats Group.parse
    line for line): a class-name prefix together with the position at which
    the user listed it. "*" is the catch-all group. */
module Groups {
  import opened Wrappers
  import opened JavaStrings
  import opened Sequences
  import opened Sorting

  datatype Group = Group(prefix: string, order: int)

  /** The IllegalArgumentExceptions of the constructor and of parse; the
      last two carry the offending token and the groups string as given. */
  datatype GroupError =
    | NegativeOrder
    | InvalidGroup(group: string, groups: string)
    | DuplicateGroup(group: string, groups: string)

  /** The exception message of each error. */
  function Message(e: GroupError): string {
    match e
    case NegativeOrder => "Encounter order cannot be negative"
    case InvalidGroup(g, groups) => "Invalid group (" + g + ") in (" + groups + ")"
    case DuplicateGroup(g, groups) => "Duplicate group (" + g + ") in (" + groups + ")"
  }

  /** new Group(prefix, encounterOrder) */
  function NewGroup(prefix: string, encounterOrder: int): (r: Result<Group, GroupError>)
    ensures r.Success? <==> encounterOrder >= 0
    ensures r.Success? ==> r.value.prefix == prefix && r.value.order == encounterOrder
    ensures r.Failure? ==> r.error == NegativeOrder
  {
    if encounterOrder < 0 then Failure(NegativeOrder) else Success(Group(prefix, encounterOrder))
  }

  /** Group.matches: "*" or a prefix of the class name. */
  predicate Matches(g: Group, importClass: string) {
    g.prefix == "*" || g.prefix <= importClass
  }

  /** "*" matches every class; any other prefix matches exactly the names
      that extend it. */
  lemma MatchesIff(g: Group, importClass: string)
    ensures g.prefix == "*" ==> Matches(g, importClass)
    ensures g.prefix != "*" ==>
      (Matches(g, importClass) <==> exists rest :: importClass == g.prefix + rest)
  {
    if g.prefix <= importClass {
      assert importClass == g.prefix + importClass[|g.prefix|..];
    }
  }

  /** Group.equals: the same prefix and the same order. */
  function Equals(a: Group, b: Group): (r: bool)
    ensures r <==> a == b
  {
    a.prefix == b.prefix && a.order == b.order
  }

  /** Group.hashCode: prefix.hashCode() + order in 32-bit arithmetic. */
  function Hash(g: Group): (h: int)
    ensures -TwoTo31 <= h < TwoTo31
    ensures (h - StringHash(g.prefix) - g.order) % TwoTo32 == 0
  {
    ToInt32(StringHash(g.prefix) + g.order)
  }

  /** Equal groups hash alike. */
  lemma EqualsHash(a: Group, b: Group)
    requires Equals(a, b)
    ensures Hash(a) == Hash(b)
  {
  }

  // The pattern \w+(?:[.]\w+)*[.]? read from left to right: after a word
  // character comes a word character, a dot or the end; after a dot a word
  // character or the end.

  predicate AfterWord(t: string)
    decreases |t|, 1
  {
    t == [] || (IsWordChar(t[0]) && AfterWord(t[1..])) || (t[0] == '.' && AfterDot(t[1..]))
  }

  predicate AfterDot(t: string)
    decreases |t|, 0
  {
    t == [] || (IsWordChar(t[0]) && AfterWord(t[1..]))
  }

  /** \w+(?:[.]\w+)*[.]? */
  predicate IsDottedName(t: string) {
    t != [] && IsWordChar(t[0]) && AfterWord(t[1..])
  }

  /** The group pattern ^(?:\w+(?:[.]\w+)*[.]?|[*])$ */
  predicate IsValidToken(t: string) {
    t == "*" || IsDottedName(t)
  }

  /** Only word characters and dots, and never two dots in a row. */
  predicate WordsAndDots(t: string) {
    (forall i :: 0 <= i < |t| ==> IsWordChar(t[i]) || t[i] == '.')
    && (forall i :: 0 <= i < |t| - 1 && t[i] == '.' ==> t[i + 1] != '.')
  }

  lemma WordsAndDotsCons(t: string)
    requires t != []
    ensures WordsAndDots(t) <==>
      (IsWordChar(t[0]) || t[0] == '.') && WordsAndDots(t[1..])
      && (t[0] == '.' && |t| > 1 ==> t[1] != '.')
  {
    var u := t[1..];
    if (IsWordChar(t[0]) || t[0] == '.') && WordsAndDots(u) && (t[0] == '.' && |t| > 1 ==> t[1] != '.') {
      forall i | 0 <= i < |t|
        ensures IsWordChar(t[i]) || t[i] == '.'
      {
        if i > 0 { assert t[i] == u[i - 1]; }
      }
      forall i | 0 <= i < |t| - 1 && t[i] == '.'
        ensures t[i + 1] != '.'
      {
        if i > 0 { assert t[i] == u[i - 1] && t[i + 1] == u[i]; }
      }
    }
  }

  lemma {:induction false} AfterWordIff(t: string)
    ensures AfterWord(t) <==> WordsAndDots(t)
    ensures AfterDot(t) <==> WordsAndDots(t) && (t == [] || t[0] != '.')
    decreases |t|
  {
    if t != [] {
      AfterWordIff(t[1..]);
      WordsAndDotsCons(t);
    }
  }

  /** The recogniser accepts exactly the names that start with a word
      character and hold only word characters and single dots. */
  lemma DottedNameIff(t: string)
    ensures IsDottedName(t) <==> t != [] && IsWordChar(t[0]) && WordsAndDots(t)
  {
    if t != [] {
      AfterWordIff(t[1..]);
      WordsAndDotsCons(t);
    }
  }

  /** replaceAll("\\s+", "").split(","), with the lone empty string that
      split returns for an empty input read as no tokens. */
  function UserTokens(groups: string): (r: seq<string>)
    ensures forall k :: 0 <= k < |r| ==> ',' !in r[k]
    ensures forall k, c :: 0 <= k < |r| && c in r[k] ==> c in groups && !IsSpace(c)
  {
    RemoveSpacesChars(groups);
    var a := Split(RemoveSpaces(groups), ',');
    if |a| == 1 && a[0] == [] then [] else a
  }

  /** Token k is rejected: it does not have the group shape or repeats an
      earlier token. */
  predicate Bad(toks: seq<string>, k: nat)
    requires k < |toks|
  {
    !IsValidToken(toks[k]) || toks[k] in toks[..k]
  }

  /** The first rejected token at or after from. */
  function FirstBad(toks: seq<string>, from: nat): (r: Option<nat>)
    requires from <= |toks|
    ensures r.Some? ==>
      from <= r.value < |toks| && Bad(toks, r.value) && forall j :: from <= j < r.value ==> !Bad(toks, j)
    ensures r.None? ==> forall j :: from <= j < |toks| ==> !Bad(toks, j)
    decreases |toks| - from
  {
    if from == |toks| then None
    else if Bad(toks, from) then Some(from)
    else FirstBad(toks, from + 1)
  }

  /** The tokens as groups whose order is their position. */
  function Numbered(toks: seq<string>): seq<Group> {
    seq(|toks|, i requires 0 <= i < |toks| => Group(toks[i], i))
  }

  predicate HasPrefix(gs: seq<Group>, p: string) {
    exists k :: 0 <= k < |gs| && gs[k].prefix == p
  }

  /** The list with the "*" group appended when it is missing. */
  function WithDefault(gs: seq<Group>): seq<Group> {
    if HasPrefix(gs, "*") then gs else gs + [Group("*", |gs|)]
  }

  /** The comparator of parse: compare(a, b) <= 0 exactly when a's prefix is
      at least as long as b's (its tie-breaker compares a with itself). */
  predicate LongerFirst(a: Group, b: Group) {
    |a.prefix| >= |b.prefix|
  }

  predicate EarlierOrder(a: Group, b: Group) {
    a.order < b.order
  }

  /** parse after the tokens are known. */
  function ParseTokens(toks: seq<string>, groups: string): Result<seq<Group>, GroupError> {
    match FirstBad(toks, 0)
    case Some(k) =>
      if !IsValidToken(toks[k]) then Failure(InvalidGroup(toks[k], groups))
      else Failure(DuplicateGroup(toks[k], groups))
    case None => Success(Sort(WithDefault(Numbered(toks)), LongerFirst))
  }

  /** Group.parse / Grouper.parse as a function of the groups string. */
  function ParseSpec(groups: string): Result<seq<Group>, GroupError> {
    ParseTokens(UserTokens(groups), groups)
  }

  lemma NumberedStep(toks: seq<string>, i: nat)
    requires i < |toks|
    ensures Numbered(toks[..i + 1]) == Numbered(toks[..i]) + [Group(toks[i], i)]
  {
  }

  lemma NumberedPrefixes(toks: seq<string>, i: nat, g: string)
    requires i <= |toks|
    ensures HasPrefix(Numbered(toks[..i]), g) <==> g in toks[..i]
  {
    var n := Numbered(toks[..i]);
    if g in toks[..i] {
      var k :| 0 <= k < i && toks[..i][k] == g;
      assert n[k].prefix == g;
    }
  }

  /** Group.parse: the tokens are checked and numbered one by one, the
      default group is appended when missing, and the list is sorted. */
  method Parse(groups: string) returns (r: Result<seq<Group>, GroupError>)
    ensures r == ParseSpec(groups)
  {
    var tokens := UserTokens(groups);
    var parsedGroups: seq<Group> := [];
    for i := 0 to |tokens|
      invariant parsedGroups == Numbered(tokens[..i])
      invariant FirstBad(tokens, 0) == FirstBad(tokens, i)
    {
      var g := tokens[i];
      if !IsValidToken(g) {
        return Failure(InvalidGroup(g, groups));
      }
      NumberedPrefixes(tokens, i, g);
      if HasPrefix(parsedGroups, g) {
        return Failure(DuplicateGroup(g, groups));
      }
      var encounterOrder := |parsedGroups|;
      NumberedStep(tokens, i);
      parsedGroups := parsedGroups + [Group(g, encounterOrder)];
    }
    assert tokens[..|tokens|] == tokens;
    if !HasPrefix(parsedGroups, "*") {
      parsedGroups := parsedGroups + [Group("*", |parsedGroups|)];
    }
    parsedGroups := Sort(parsedGroups, LongerFirst);
    return Success(parsedGroups);
  }

  /** A list of groups the grouper can work with: a "*" group, no prefix
      twice, orders that are distinct positions in the list, and prefixes of
      the group shape. */
  predicate WellFormed(gs: seq<Group>) {
    HasPrefix(gs, "*")
    && (forall i, j :: 0 <= i < j < |gs| ==> gs[i].prefix != gs[j].prefix && gs[i].order != gs[j].order)
    && (forall k :: 0 <= k < |gs| ==> 0 <= gs[k].order < |gs| && IsValidToken(gs[k].prefix))
  }

  /** The list before sorting: every group's order is its position. */
  lemma DefaultedShape(toks: seq<string>)
    requires forall j :: 0 <= j < |toks| ==> !Bad(toks, j)
    ensures var s := WithDefault(Numbered(toks));
      HasPrefix(s, "*")
      && |s| == (if "*" in toks then |toks| else |toks| + 1)
      && (forall k :: 0 <= k < |s| ==> s[k].order == k && IsValidToken(s[k].prefix))
      && (forall i, j :: 0 <= i < j < |s| ==> s[i].prefix != s[j].prefix)
      && (forall k :: 0 <= k < |toks| ==> s[k] == Group(toks[k], k))
      && ("*" !in toks ==> s[|toks|] == Group("*", |toks|))
  {
    var n := Numbered(toks);
    NumberedPrefixes(toks, |toks|, "*");
    assert toks[..|toks|] == toks;
    var s := WithDefault(n);
    if "*" in toks {
      assert s == n;
    } else {
      assert s == n + [Group("*", |toks|)];
      assert s[|toks|].prefix == "*";
    }
    forall k | 0 <= k < |s|
      ensures s[k].order == k && IsValidToken(s[k].prefix)
    {
      if k < |toks| {
        assert !Bad(toks, k);
      }
    }
    forall i, j | 0 <= i < j < |toks|
      ensures toks[i] != toks[j]
    {
      assert !Bad(toks, j);
      assert toks[i] == toks[..j][i];
    }
  }

  /** After sorting, each group is the one at its order in the unsorted list. */
  lemma SortedMembers(s: seq<Group>, r: seq<Group>)
    requires multiset(r) == multiset(s)
    requires forall k :: 0 <= k < |s| ==> s[k].order == k
    ensures forall i :: 0 <= i < |r| ==> 0 <= r[i].order < |s| && r[i] == s[r[i].order]
  {
    forall i | 0 <= i < |r|
      ensures 0 <= r[i].order < |s| && r[i] == s[r[i].order]
    {
      assert r[i] in multiset(s);
      var a :| 0 <= a < |s| && s[a] == r[i];
    }
  }

  lemma SortedWellFormed(s: seq<Group>, r: seq<Group>)
    requires multiset(r) == multiset(s)
    requires HasPrefix(s, "*")
    requires forall k :: 0 <= k < |s| ==> s[k].order == k && IsValidToken(s[k].prefix)
    requires forall i, j :: 0 <= i < j < |s| ==> s[i].prefix != s[j].prefix
    ensures WellFormed(r)
  {
    SortedMembers(s, r);
    assert |r| == |s| by {
      assert |multiset(r)| == |multiset(s)|;
    }
    assert Distinct(s) by {
      forall i, j | 0 <= i < j < |s| ensures s[i] != s[j] { assert s[i].order != s[j].order; }
    }
    PermutationDistinct(s, r);
    var k :| 0 <= k < |s| && s[k].prefix == "*";
    assert s[k] in multiset(r);
    var m :| 0 <= m < |r| && r[m] == s[k];
    forall i, j | 0 <= i < j < |r|
      ensures r[i].prefix != r[j].prefix && r[i].order != r[j].order
    {
      assert r[i] != r[j];
    }
  }

  /** A successful parse gives a well-formed list, sorted so that longer
      prefixes come first, with prefixes of equal length in the order the
      user listed them. */
  lemma ParseOrdered(groups: string)
    ensures var r := ParseSpec(groups);
      r.Success? ==>
        WellFormed(r.value) && SortedBy(r.value, LongerFirst)
        && TiesOrderedBy(r.value, LongerFirst, EarlierOrder)
  {
    var toks := UserTokens(groups);
    if FirstBad(toks, 0).None? {
      var s := WithDefault(Numbered(toks));
      var r := Sort(s, LongerFirst);
      DefaultedShape(toks);
      SortPermutation(s, LongerFirst);
      SortedWellFormed(s, r);
      SortSorted(s, LongerFirst);
      SortStable(s, LongerFirst, EarlierOrder);
    }
  }

  /** A successful parse holds each token with its position as order, and
      besides them only the default group, numbered after them, when no
      token is "*". */
  lemma ParseMembers(groups: string)
    ensures var toks := UserTokens(groups); var r := ParseSpec(groups);
      r.Success? ==>
        |r.value| == (if "*" in toks then |toks| else |toks| + 1)
        && (forall k :: 0 <= k < |toks| ==> Group(toks[k], k) in r.value)
        && ("*" !in toks ==> Group("*", |toks|) in r.value)
        && (forall g :: g in r.value ==>
              (0 <= g.order < |toks| && g.prefix == toks[g.order])
              || ("*" !in toks && g == Group("*", |toks|)))
  {
    var toks := UserTokens(groups);
    if FirstBad(toks, 0).None? {
      var s := WithDefault(Numbered(toks));
      DefaultedShape(toks);
      SortPermutation(s, LongerFirst);
      PermutedMembers(toks, s, Sort(s, LongerFirst));
    }
  }

  /** The members of a permutation of the numbered, defaulted tokens. */
  lemma PermutedMembers(toks: seq<string>, s: seq<Group>, r: seq<Group>)
    requires multiset(r) == multiset(s)
    requires |s| == (if "*" in toks then |toks| else |toks| + 1)
    requires forall k :: 0 <= k < |s| ==> s[k].order == k
    requires forall k :: 0 <= k < |toks| ==> s[k] == Group(toks[k], k)
    requires "*" !in toks ==> s[|toks|] == Group("*", |toks|)
    ensures |r| == (if "*" in toks then |toks| else |toks| + 1)
    ensures forall k :: 0 <= k < |toks| ==> Group(toks[k], k) in r
    ensures "*" !in toks ==> Group("*", |toks|) in r
    ensures forall g :: g in r ==>
      (0 <= g.order < |toks| && g.prefix == toks[g.order])
      || ("*" !in toks && g == Group("*", |toks|))
  {
    SortedMembers(s, r);
    assert |r| == |s| by {
      assert |multiset(r)| == |multiset(s)|;
    }
    forall k | 0 <= k < |toks|
      ensures Group(toks[k], k) in r
    {
      assert s[k] in multiset(r);
    }
    if "*" !in toks {
      assert s[|toks|] in multiset(r);
    }
    forall g | g in r
      ensures (0 <= g.order < |toks| && g.prefix == toks[g.order])
        || ("*" !in toks && g == Group("*", |toks|))
    {
      var i :| 0 <= i < |r| && r[i] == g;
    }
  }

  /** parse fails exactly when some token is rejected, and then reports the
      first rejected token, as invalid when it lacks the group shape and as
      a duplicate otherwise. */
  lemma ParseFailure(groups: string)
    ensures var toks := UserTokens(groups); var r := ParseSpec(groups);
      (r.Failure? <==> exists k :: 0 <= k < |toks| && Bad(toks, k))
      && (r.Failure? ==>
            exists k :: 0 <= k < |toks| && (forall j :: 0 <= j < k ==> !Bad(toks, j))
              && (r.error == InvalidGroup(toks[k], groups) <==> !IsValidToken(toks[k]))
              && (r.error == DuplicateGroup(toks[k], groups) <==>
                    IsValidToken(toks[k]) && toks[k] in toks[..k]))
  {
  }

  /** parse("") and parse("*") give the default group alone. */
  lemma ParseEmptyExample()
    ensures ParseSpec("") == Success([Group("*", 0)])
    ensures ParseSpec("*") == Success([Group("*", 0)])
  {
    assert UserTokens("") == [];
    assert RemoveSpaces("*") == "*";
    assert UserTokens("*") == ["*"];
    assert Numbered(["*"]) == [Group("*", 0)];
    assert [Group("*", 0)][0].prefix == "*";
  }

  /** parse("a") gives [a:0, *:1]. */
  lemma ParseOneExample()
    ensures ParseSpec("a") == Success([Group("a", 0), Group("*", 1)])
  {
    assert RemoveSpaces("a") == "a";
    assert UserTokens("a") == ["a"];
    assert IsValidToken("a");
    assert FirstBad(["a"], 0) == None;
    assert Numbered(["a"]) == [Group("a", 0)];
    assert !HasPrefix([Group("a", 0)], "*");
    var s := [Group("a", 0), Group("*", 1)];
    assert WithDefault(Numbered(["a"])) == s;
    assert Sort([Group("*", 1)], LongerFirst) == [Group("*", 1)];
    assert Sort(s, LongerFirst) == Insert(Group("a", 0), [Group("*", 1)], LongerFirst);
  }
  /** Tokens written between commas, with or without spaces around them,
      are read back without their spaces, provided the last one is not blank. */
  lemma TokensOfJoined(parts: seq<string>)
    requires |parts| > 1
    requires forall k :: 0 <= k < |parts| ==> ',' !in parts[k]
    requires RemoveSpaces(parts[|parts| - 1]) != []
    ensures UserTokens(Join(parts, ",")) == RemoveSpacesEach(parts)
  {
    var ys := RemoveSpacesEach(parts);
    RemoveSpacesJoin(parts, ',');
    forall k | 0 <= k < |ys|
      ensures ',' !in ys[k]
    {
      RemoveSpacesChars(parts[k]);
    }
    SplitJoin(ys, ',');
  }

  lemma MixedTokensValid(toks: seq<string>)
    requires toks == ["b", "*", "ab", "com.", "java", "a"]
    ensures FirstBad(toks, 0) == None
  {
    assert IsValidToken("b") && IsValidToken("*") && IsValidToken("ab");
    assert IsValidToken("com.") && IsValidToken("java") && IsValidToken("a");
    assert !Bad(toks, 0) && !Bad(toks, 1) && !Bad(toks, 2);
    assert !Bad(toks, 3) && !Bad(toks, 4) && !Bad(toks, 5);
  }

  lemma SortCons<T>(x: T, t: seq<T>, le: (T, T) -> bool)
    ensures Sort([x] + t, le) == Insert(x, Sort(t, le), le)
  {
    assert ([x] + t)[1..] == t;
  }

  /** Groups with prefix lengths 1, 1, 2, 4, 4, 1 in this order come out
      4, 4, 2, 1, 1, 1, the one-character groups in their original order. */
  lemma MixedSortExample(b: Group, star: Group, ab: Group, com: Group, java: Group, a: Group)
    requires |b.prefix| == 1 && |star.prefix| == 1 && |ab.prefix| == 2
    requires |com.prefix| == 4 && |java.prefix| == 4 && |a.prefix| == 1
    ensures Sort([b, star, ab, com, java, a], LongerFirst) == [com, java, ab, b, star, a]
  {
    var s1 := [a];
    SortCons(a, [], LongerFirst);
    InsertFront(a, []);
    assert s1 == [a] + [];
    var s2 := [java] + s1;
    SortCons(java, s1, LongerFirst);
    InsertFront(java, [a]);
    var s3 := [com] + s2;
    SortCons(com, s2, LongerFirst);
    InsertFront(com, [java, a]);
    var s4 := [ab] + s3;
    SortCons(ab, s3, LongerFirst);
    SortAbStep(ab, com, java, a);
    var s5 := [star] + s4;
    SortCons(star, s4, LongerFirst);
    SortStarStep(star, com, java, ab, a);
    var s6 := [b] + s5;
    SortCons(b, s5, LongerFirst);
    SortBStep(b, com, java, ab, star, a);
    assert s6 == [b, star, ab, com, java, a];
  }

  lemma SortAbStep(ab: Group, com: Group, java: Group, a: Group)
    requires |ab.prefix| == 2 && |com.prefix| == 4 && |java.prefix| == 4 && |a.prefix| == 1
    ensures Insert(ab, [com, java, a], LongerFirst) == [com, java, ab, a]
  {
    InsertFront(ab, [a]);
    InsertStep(ab, java, [a]);
    assert [java, a] == [java] + [a];
    InsertStep(ab, com, [java, a]);
    assert [com, java, a] == [com] + [java, a];
  }

  lemma SortStarStep(star: Group, com: Group, java: Group, ab: Group, a: Group)
    requires |star.prefix| == 1 && |com.prefix| == 4 && |java.prefix| == 4
    requires |ab.prefix| == 2 && |a.prefix| == 1
    ensures Insert(star, [com, java, ab, a], LongerFirst) == [com, java, ab, star, a]
  {
    InsertFront(star, [a]);
    InsertStep(star, ab, [a]);
    assert [ab, a] == [ab] + [a];
    InsertStep(star, java, [ab, a]);
    assert [java, ab, a] == [java] + [ab, a];
    InsertStep(star, com, [java, ab, a]);
    assert [com, java, ab, a] == [com] + [java, ab, a];
  }

  lemma SortBStep(b: Group, com: Group, java: Group, ab: Group, star: Group, a: Group)
    requires |b.prefix| == 1 && |com.prefix| == 4 && |java.prefix| == 4
    requires |ab.prefix| == 2 && |star.prefix| == 1 && |a.prefix| == 1
    ensures Insert(b, [com, java, ab, star, a], LongerFirst) == [com, java, ab, b, star, a]
  {
    InsertFront(b, [star, a]);
    InsertStep(b, ab, [star, a]);
    assert [ab, star, a] == [ab] + [star, a];
    InsertStep(b, java, [ab, star, a]);
    assert [java, ab, star, a] == [java] + [ab, star, a];
    InsertStep(b, com, [java, ab, star, a]);
    assert [com, java, ab, star, a] == [com] + [java, ab, star, a];
  }

  lemma InsertFront(x: Group, t: seq<Group>)
    requires t == [] || LongerFirst(x, t[0])
    ensures Insert(x, t, LongerFirst) == [x] + t
  {
  }

  lemma InsertStep(x: Group, y: Group, t: seq<Group>)
    requires !LongerFirst(x, y)
    ensures Insert(x, [y] + t, LongerFirst) == [y] + Insert(x, t, LongerFirst)
  {
    assert ([y] + t)[1..] == t;
  }

  /** Those tokens parse to [com.:3, java:4, ab:2, b:0, *:1, a:5]. */
  lemma MixedParseExample(groups: string)
    ensures ParseTokens(["b", "*", "ab", "com.", "java", "a"], groups)
      == Success([Group("com.", 3), Group("java", 4), Group("ab", 2), Group("b", 0), Group("*", 1), Group("a", 5)])
  {
    var toks := ["b", "*", "ab", "com.", "java", "a"];
    MixedTokensValid(toks);
    var n := [Group("b", 0), Group("*", 1), Group("ab", 2), Group("com.", 3), Group("java", 4), Group("a", 5)];
    assert Numbered(toks) == n;
    assert n[1].prefix == "*";
    assert WithDefault(n) == n;
    MixedSortExample(n[0], n[1], n[2], n[3], n[4], n[5]);
  }
}
