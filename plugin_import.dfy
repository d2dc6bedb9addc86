/** The import line of the older sorter in the Maven plugin
    (net.revelc.code.impsort.maven.plugin.Import): a line matched against
    the pattern

      ^(prefix: lazy .*) \s* (type: import(\s+static)?) \s+
       (item: \w+(\s*[.]\s*\w+)*(\s*[.]\s*[*])?) \s* ; (suffix: .*)$

    written out below as a recogniser over positions of the line. At each
    step only the greedy choice can lead to a match (a backtracked choice
    leaves a character the next part of the pattern cannot start with), so
    the recogniser takes it without backtracking; the lazy prefix is the
    shortest one after which the rest matches. */
module PluginImports {
  import opened Wrappers
  import opened JavaStrings

  datatype Import = Import(isStatic: bool, imp: string, prefix: string, suffix: string)

  // ---------------------------------------------------------------------
  // The pattern

  /** The end of the run of \s starting at i. */
  function SpacesEnd(s: string, i: nat): (j: nat)
    requires i <= |s|
    ensures i <= j <= |s|
    decreases |s| - i
  {
    if i < |s| && IsSpace(s[i]) then SpacesEnd(s, i + 1) else i
  }

  /** The end of the run of \w starting at i. */
  function WordEnd(s: string, i: nat): (j: nat)
    requires i <= |s|
    ensures i <= j <= |s|
    decreases |s| - i
  {
    if i < |s| && IsWordChar(s[i]) then WordEnd(s, i + 1) else i
  }

  /** (\s*[.]\s*\w+)*, repeated as often as it matches from i. */
  function MoreWordsEnd(s: string, i: nat): (j: nat)
    requires i <= |s|
    ensures i <= j <= |s|
    decreases |s| - i
  {
    var k := SpacesEnd(s, i);
    if k < |s| && s[k] == '.' then
      var m := SpacesEnd(s, k + 1);
      var w := WordEnd(s, m);
      if w > m then MoreWordsEnd(s, w) else i
    else i
  }

  /** (\s*[.]\s*[*])? at i. */
  function StarEnd(s: string, i: nat): (j: nat)
    requires i <= |s|
    ensures i <= j <= |s|
  {
    var k := SpacesEnd(s, i);
    if k < |s| && s[k] == '.' then
      var m := SpacesEnd(s, k + 1);
      if m < |s| && s[m] == '*' then m + 1 else i
    else i
  }

  /** The item group at i followed by \s*; : the item's end and the start
      of the suffix. */
  function ItemAt(s: string, i: nat): (r: Option<(nat, nat)>)
    requires i <= |s|
    ensures r.Some? ==> i < r.value.0 < r.value.1 <= |s| && s[r.value.1 - 1] == ';'
  {
    var w := WordEnd(s, i);
    if w == i then None
    else
      var e := StarEnd(s, MoreWordsEnd(s, w));
      var k := SpacesEnd(s, e);
      if k < |s| && s[k] == ';' then Some((e, k + 1)) else None
  }

  /** Where each group of a match lies: the prefix is s[..prefixEnd], the
      type s[typeStart..typeEnd], the item s[itemStart..itemEnd] and the
      suffix s[suffixStart..]. */
  datatype Match = Match(prefixEnd: nat, typeStart: nat, typeEnd: nat,
                         itemStart: nat, itemEnd: nat, suffixStart: nat)

  predicate Ordered(m: Match, s: string) {
    m.prefixEnd <= m.typeStart < m.typeEnd <= m.itemStart < m.itemEnd < m.suffixStart <= |s|
  }

  /** The type group is "import", or ends with "static" after it. */
  predicate TypeShape(m: Match, s: string)
    requires Ordered(m, s)
  {
    m.typeStart + 6 <= m.typeEnd
    && (if m.typeEnd == m.typeStart + 6 then s[m.typeStart..m.typeEnd] == "import"
        else s[m.typeEnd - 6..m.typeEnd] == "static")
  }

  /** "import", whitespace, "static" as the type group at q, then
      whitespace and the item. */
  function StaticTypeAt(s: string, p: nat, q: nat): (r: Option<Match>)
    requires p <= q && q + 6 <= |s|
    ensures r.Some? ==> Ordered(r.value, s) && r.value.prefixEnd == p && r.value.typeStart == q
    ensures r.Some? ==> r.value.typeEnd > q + 6 && s[r.value.typeEnd - 6..r.value.typeEnd] == "static"
  {
    var b := SpacesEnd(s, q + 6);
    if b > q + 6 && b + 6 <= |s| && s[b..b + 6] == "static" then
      var d := SpacesEnd(s, b + 6);
      if d > b + 6 then
        match ItemAt(s, d)
        case Some((e, f)) => Some(Match(p, q, b + 6, d, e, f))
        case None => None
      else None
    else None
  }

  /** "import" as the type group at q, then whitespace and the item. */
  function PlainTypeAt(s: string, p: nat, q: nat): (r: Option<Match>)
    requires p <= q && q + 6 <= |s|
    ensures r.Some? ==> Ordered(r.value, s) && r.value.prefixEnd == p && r.value.typeStart == q
    ensures r.Some? ==> r.value.typeEnd == q + 6
  {
    var b := SpacesEnd(s, q + 6);
    if b > q + 6 then
      match ItemAt(s, b)
      case Some((e, f)) => Some(Match(p, q, q + 6, b, e, f))
      case None => None
    else None
  }

  /** The rest of a match whose type group starts at q: the optional
      " static" is taken when the rest then matches. */
  function TypeAt(s: string, p: nat, q: nat): (r: Option<Match>)
    requires p <= q && q + 6 <= |s|
    ensures r.Some? ==> Ordered(r.value, s) && r.value.prefixEnd == p && r.value.typeStart == q
  {
    var st := StaticTypeAt(s, p, q);
    if st.Some? then st else PlainTypeAt(s, p, q)
  }

  /** The match whose prefix group ends at p, if there is one. */
  function MatchAt(s: string, p: nat): (r: Option<Match>)
    requires p <= |s|
    ensures r.Some? ==> Ordered(r.value, s) && r.value.prefixEnd == p
  {
    var q := SpacesEnd(s, p);
    if q + 6 <= |s| && s[q..q + 6] == "import" then TypeAt(s, p, q) else None
  }

  /** The type group of a match is "import", or ends with "static". */
  lemma MatchAtShape(s: string, p: nat)
    requires p <= |s| && MatchAt(s, p).Some?
    ensures TypeShape(MatchAt(s, p).value, s)
  {
  }

  /** The first position from p to n at which `at` finds a match. */
  function FirstAt(at: nat -> Option<Match>, n: nat, p: nat): (r: Option<nat>)
    requires p <= n
    ensures r.Some? ==> p <= r.value <= n && at(r.value).Some?
    ensures r.Some? ==> forall k :: p <= k < r.value ==> at(k).None?
    ensures r.None? ==> forall k :: p <= k <= n ==> at(k).None?
    decreases n - p
  {
    if at(p).Some? then Some(p) else if p == n then None else FirstAt(at, n, p + 1)
  }

  /** The pattern tried at each position of s. */
  function Matcher(s: string): nat -> Option<Match> {
    (k: nat) => if k <= |s| then MatchAt(s, k) else None
  }

  /** Matcher.find(): the match with the shortest prefix from p on. */
  function FindFrom(s: string, p: nat): (r: Option<Match>)
    requires p <= |s|
    ensures r.Some? ==> p <= r.value.prefixEnd <= |s| && MatchAt(s, r.value.prefixEnd) == r
    ensures r.Some? ==> Ordered(r.value, s)
    ensures r.Some? ==> forall k :: p <= k < r.value.prefixEnd ==> MatchAt(s, k).None?
    ensures r.None? ==> forall k :: p <= k <= |s| ==> MatchAt(s, k).None?
  {
    MatcherAt(s);
    match FirstAt(Matcher(s), |s|, p)
    case Some(k) => MatchAt(s, k)
    case None => None
  }

  lemma MatcherAt(s: string)
    ensures forall k :: 0 <= k <= |s| ==> Matcher(s)(k) == MatchAt(s, k)
  {
  }

  // ---------------------------------------------------------------------
  // The record

  /** new Import(type, imp, prefix, suffix): static when the type text ends
      with "static"; a missing (null) prefix or suffix becomes empty. */
  function NewImport(typeText: string, imp: string, prefix: Option<string>, suffix: Option<string>)
    : (r: Import)
    ensures r.isStatic <==> EndsWith(typeText, "static")
    ensures r.imp == imp
    ensures r.prefix == (if prefix.Some? then prefix.value else "")
    ensures r.suffix == (if suffix.Some? then suffix.value else "")
  {
    Import(EndsWith(typeText, "static"), imp,
      if prefix.Some? then prefix.value else "",
      if suffix.Some? then suffix.value else "")
  }

  /** The import made of the groups of a match: the type's whitespace runs
      collapsed, all whitespace taken out of the item, leading whitespace
      taken off the prefix and trailing whitespace off the suffix. */
  function FromMatch(line: string, m: Match): (r: Import)
    requires Ordered(m, line)
    ensures Tidy(r)
  {
    var item := line[m.itemStart..m.itemEnd];
    RemoveSpacesChars(item);
    NewImport(CollapseSpaces(line[m.typeStart..m.typeEnd]), RemoveSpaces(item),
      Some(DropLeadingSpaces(line[..m.prefixEnd])),
      Some(DropTrailingSpaces(line[m.suffixStart..])))
  }

  /** What parse makes of any match: a name without whitespace, a prefix
      that does not start with it and a suffix that does not end with it. */
  predicate Tidy(i: Import) {
    NoSpaces(i.imp)
    && (i.prefix == [] || !IsSpace(i.prefix[0]))
    && (i.suffix == [] || !IsSpace(i.suffix[|i.suffix| - 1]))
  }

  /** Import.parse(line): the import of the first match; nothing when no
      part of the line has the import form. */
  function Parse(line: string): (r: Option<Import>)
    ensures r.Some? ==> Tidy(r.value)
  {
    match FindFrom(line, 0)
    case None => None
    case Some(m) => Some(FromMatch(line, m))
  }

  /** A line parses to nothing exactly when no part of it has the import
      form. */
  lemma ParseNoneIff(line: string)
    ensures Parse(line).None? <==> forall p :: 0 <= p <= |line| ==> MatchAt(line, p).None?
  {
    var found := FindFrom(line, 0);
    if found.Some? {
      assert MatchAt(line, found.value.prefixEnd).Some?;
    }
  }

  lemma PlainTypeNotStatic()
    ensures !EndsWith(CollapseSpaces("import"), "static")
  {
    assert NoSpaces("import");
    CollapseSpacesNone("import");
  }

  lemma StaticNoSpaces()
    ensures NoSpaces("static")
  {
  }

  lemma EndsWithAppend(a: string, b: string)
    ensures EndsWith(a + b, b)
  {
    assert (a + b)[|a|..] == b;
  }

  lemma StaticTypeIsStatic(t: string)
    requires |t| >= 6 && t[|t| - 6..] == "static"
    ensures EndsWith(CollapseSpaces(t), "static")
  {
    var h := t[..|t| - 6];
    assert t == h + t[|t| - 6..];
    StaticNoSpaces();
    CollapseSpacesTail(h, "static");
    EndsWithAppend(CollapseSpaces(h), "static");
  }

  /** A parsed import is static exactly when its matched type group took
      " static". */
  lemma ParseStaticIff(line: string, m: Match)
    requires FindFrom(line, 0) == Some(m)
    ensures Parse(line) == Some(FromMatch(line, m))
    ensures Parse(line).value.isStatic <==> m.typeEnd > m.typeStart + 6
  {
    MatchAtShape(line, m.prefixEnd);
    FromMatchStatic(line, m);
  }

  lemma FromMatchStatic(line: string, m: Match)
    requires Ordered(m, line) && TypeShape(m, line)
    ensures FromMatch(line, m).isStatic <==> m.typeEnd > m.typeStart + 6
  {
    if m.typeEnd == m.typeStart + 6 {
      PlainTypeNotStatic();
    } else {
      StaticTypeIsStatic(line[m.typeStart..m.typeEnd]);
    }
  }

  /** Import.toString(): "import", " static" when static, " ", the name,
      ";" and the suffix; the prefix is not written. */
  function ToString(i: Import): (r: string)
    ensures |r| >= 8 + |i.imp| + |i.suffix| && r[..6] == "import"
    ensures EndsWith(r, ";" + i.suffix)
  {
    var r := "import" + (if i.isStatic then " static" else "") + " " + i.imp + ";" + i.suffix;
    assert r[|r| - |i.suffix| - 1..] == ";" + i.suffix;
    r
  }

  // ---------------------------------------------------------------------
  // Reading back what toString writes

  /** A name the item group matches as it stands: words joined by dots,
      possibly ending in ".*". */
  predicate IsItem(t: string)
    decreases |t|
  {
    var w := WordEnd(t, 0);
    w > 0 && (w == |t| || (t[w] == '.' && ((|t| == w + 2 && t[w + 1] == '*') || IsItem(t[w + 1..]))))
  }

  /** The run of \w at i of a longer string is the run of its piece t. */
  lemma {:induction false} WordEndIn(s: string, i: nat, t: string)
    requires i + |t| <= |s| && s[i..i + |t|] == t
    requires WordEnd(t, 0) < |t| || i + |t| == |s| || !IsWordChar(s[i + |t|])
    ensures WordEnd(s, i) == i + WordEnd(t, 0)
    decreases |t|
  {
    if t != [] && IsWordChar(t[0]) {
      assert s[i + 1..i + 1 + |t[1..]|] == t[1..];
      WordEndSuffix(t, 1);
      WordEndIn(s, i + 1, t[1..]);
    }
  }

  lemma {:induction false} WordEndSuffix(t: string, i: nat)
    requires i <= |t|
    ensures WordEnd(t, i) == i + WordEnd(t[i..], 0)
    decreases |t| - i
  {
    if i < |t| && IsWordChar(t[i]) {
      WordEndSuffix(t, i + 1);
      WordEndSuffix(t[i..], 1);
      assert t[i..][1..] == t[i + 1..];
    }
  }

  lemma NoMoreAt(s: string, n: nat)
    requires n < |s| && s[n] == ';'
    ensures MoreWordsEnd(s, n) == n && StarEnd(s, n) == n
  {
    SpacesEndAt(s, n);
  }

  lemma StarAt(s: string, j: nat)
    requires j + 1 < |s| && s[j] == '.' && s[j + 1] == '*'
    ensures MoreWordsEnd(s, j) == j && StarEnd(s, j) == j + 2
  {
    SpacesEndAt(s, j);
    SpacesEndAt(s, j + 1);
  }

  lemma MoreWordsStep(s: string, j: nat)
    requires j + 1 < |s| && s[j] == '.' && IsWordChar(s[j + 1])
    ensures MoreWordsEnd(s, j) == MoreWordsEnd(s, WordEnd(s, j + 1))
  {
    SpacesEndAt(s, j);
    SpacesEndAt(s, j + 1);
  }

  lemma SliceAt(s: string, i: nat, t: string, k: nat)
    requires i + |t| <= |s| && s[i..i + |t|] == t && k < |t|
    ensures s[i + k] == t[k]
  {
    assert s[i..i + |t|][k] == s[i + k];
  }

  /** What follows the first word of an item that is not a single word
      or a word and ".*": a dot and another item. */
  lemma ItemRest(t: string)
    requires IsItem(t)
    requires var w := WordEnd(t, 0); w < |t| && !(|t| == w + 2 && t[w + 1] == '*')
    ensures var w := WordEnd(t, 0); t[w] == '.' && IsItem(t[w + 1..]) && IsWordChar(t[w + 1])
  {
    var w := WordEnd(t, 0);
    ItemNoSpaces(t[w + 1..]);
  }

  /** The step over ".word" inside an item. */
  lemma DotWordStep(s: string, i: nat, w: nat)
    requires i + w + 1 < |s| && WordEnd(s, i) == i + w && s[i + w] == '.' && IsWordChar(s[i + w + 1])
    ensures StarEnd(s, MoreWordsEnd(s, WordEnd(s, i))) == StarEnd(s, MoreWordsEnd(s, WordEnd(s, i + w + 1)))
  {
    MoreWordsStep(s, i + w);
  }

  /** The part of s that holds t[k..]. */
  lemma SliceFrom(s: string, i: nat, t: string, k: nat)
    requires i + |t| <= |s| && s[i..i + |t|] == t && k <= |t|
    ensures i + k + |t[k..]| == i + |t|
    ensures s[i + k..i + k + |t[k..]|] == t[k..]
  {
    assert s[i + k..i + |t|] == s[i..i + |t|][k..];
  }

  /** An item followed by ';' is matched by the item group to its end. */
  lemma {:induction false} ItemEndsAt(s: string, i: nat, t: string)
    requires IsItem(t) && i + |t| < |s| && s[i..i + |t|] == t && s[i + |t|] == ';'
    ensures WordEnd(s, i) > i && StarEnd(s, MoreWordsEnd(s, WordEnd(s, i))) == i + |t|
    decreases |t|, 1
  {
    var w := WordEnd(t, 0);
    WordEndIn(s, i, t);
    if w == |t| {
      ItemWordOnly(s, i, i + |t|);
    } else if |t| == w + 2 && t[w + 1] == '*' {
      SliceAt(s, i, t, w);
      SliceAt(s, i, t, w + 1);
      ItemStarEnd(s, i, w);
    } else {
      ItemRest(t);
      SliceAt(s, i, t, w);
      SliceAt(s, i, t, w + 1);
      SliceFrom(s, i, t, w + 1);
      ItemRestEnd(s, i, w, t[w + 1..]);
    }
  }

  /** After the first word: the dot, then the rest of the item. */
  lemma {:induction false} ItemRestEnd(s: string, i: nat, w: nat, rest: string)
    requires IsItem(rest) && i + w + 1 + |rest| < |s|
    requires s[i + w + 1..i + w + 1 + |rest|] == rest && s[i + w + 1 + |rest|] == ';'
    requires WordEnd(s, i) == i + w && s[i + w] == '.' && IsWordChar(s[i + w + 1])
    ensures StarEnd(s, MoreWordsEnd(s, WordEnd(s, i))) == i + w + 1 + |rest|
    decreases |rest|, 2
  {
    DotWordStep(s, i, w);
    ItemEndsAt(s, i + w + 1, rest);
  }

  lemma ItemWordOnly(s: string, i: nat, n: nat)
    requires i <= n < |s| && WordEnd(s, i) == n && s[n] == ';'
    ensures StarEnd(s, MoreWordsEnd(s, WordEnd(s, i))) == n
  {
    NoMoreAt(s, n);
  }

  lemma ItemStarEnd(s: string, i: nat, w: nat)
    requires i + w + 1 < |s| && WordEnd(s, i) == i + w && s[i + w] == '.' && s[i + w + 1] == '*'
    ensures StarEnd(s, MoreWordsEnd(s, WordEnd(s, i))) == i + w + 2
  {
    StarAt(s, i + w);
  }

  /** The item and the ';' after it. */
  lemma ItemAtItem(s: string, i: nat, t: string)
    requires IsItem(t) && i + |t| < |s| && s[i..i + |t|] == t && s[i + |t|] == ';'
    ensures ItemAt(s, i) == Some((i + |t|, i + |t| + 1))
    ensures IsWordChar(s[i])
  {
    ItemNoSpaces(t);
    assert s[i] == t[0];
    ItemEndsAt(s, i, t);
    assert SpacesEnd(s, i + |t|) == i + |t|;
  }

  lemma {:induction false} WordEndChars(s: string, i: nat)
    requires i <= |s|
    ensures forall k :: i <= k < WordEnd(s, i) ==> IsWordChar(s[k])
    decreases |s| - i
  {
    if i < |s| && IsWordChar(s[i]) {
      WordEndChars(s, i + 1);
    }
  }

  /** An item holds no whitespace and starts with a word character. */
  lemma {:induction false} ItemNoSpaces(t: string)
    requires IsItem(t)
    ensures NoSpaces(t) && IsWordChar(t[0])
    decreases |t|
  {
    var w := WordEnd(t, 0);
    WordEndChars(t, 0);
    var star := w < |t| && |t| == w + 2 && t[w + 1] == '*';
    if w < |t| && !star {
      ItemNoSpaces(t[w + 1..]);
    }
    forall k | 0 <= k < |t|
      ensures !IsSpace(t[k])
    {
      if k > w && !star {
        assert t[k] == t[w + 1..][k - w - 1];
      }
    }
  }

  lemma SpacesEndAt(s: string, i: nat)
    requires i < |s| && !IsSpace(s[i])
    ensures SpacesEnd(s, i) == i
  {
  }

  /** Where the pieces of kw + name + ";" + suffix lie. */
  lemma LineLayout(s: string, kw: string, imp: string, suffix: string)
    requires s == kw + imp + ";" + suffix
    ensures |s| == |kw| + |imp| + 1 + |suffix|
    ensures s[..|kw|] == kw && s[|kw|..|kw| + |imp|] == imp
    ensures s[|kw| + |imp|] == ';' && s[|kw| + |imp| + 1..] == suffix
  {
  }

  lemma StaticKeyword()
    ensures var kw := "import static ";
      |kw| == 14 && kw[0..6] == "import" && kw[6] == ' ' && kw[7..13] == "static" && kw[13] == ' '
  {
  }

  lemma PlainKeyword()
    ensures var kw := "import ";
      |kw| == 7 && kw[0..6] == "import" && kw[6] == ' '
  {
  }

  lemma SpacesEndOne(s: string, i: nat)
    requires i + 1 < |s| && IsSpace(s[i]) && !IsSpace(s[i + 1])
    ensures SpacesEnd(s, i) == i + 1
  {
    SpacesEndAt(s, i + 1);
  }

  lemma StaticTypeAtLine(s: string, n: nat)
    requires 14 < n < |s| && SpacesEnd(s, 6) == 7 && s[7..13] == "static" && SpacesEnd(s, 13) == 14
    requires ItemAt(s, 14) == Some((n, n + 1))
    ensures StaticTypeAt(s, 0, 0) == Some(Match(0, 0, 13, 14, n, n + 1))
  {
  }

  lemma MatchAtLine(s: string, m: Match)
    requires 6 <= |s| && s[0..6] == "import" && SpacesEnd(s, 0) == 0
    requires TypeAt(s, 0, 0) == Some(m)
    ensures MatchAt(s, 0) == Some(m)
  {
  }

  /** The match of a line that starts "import", whitespace, "static",
      whitespace, then holds an item and ';'. */
  lemma StaticLineMatch(s: string, imp: string, n: nat)
    requires IsItem(imp) && n == 14 + |imp| && n < |s|
    requires s[0..6] == "import" && s[6] == ' ' && s[7..13] == "static" && s[13] == ' '
    requires s[14..n] == imp && s[n] == ';'
    ensures MatchAt(s, 0) == Some(Match(0, 0, 13, 14, n, n + 1))
  {
    ItemAtItem(s, 14, imp);
    StaticLineRest(s, n);
  }

  lemma StaticLineRest(s: string, n: nat)
    requires 14 < n < |s|
    requires s[0..6] == "import" && s[6] == ' ' && s[7..13] == "static" && s[13] == ' '
    requires IsWordChar(s[14]) && ItemAt(s, 14) == Some((n, n + 1))
    ensures MatchAt(s, 0) == Some(Match(0, 0, 13, 14, n, n + 1))
  {
    assert s[0] == s[0..6][0] == 'i';
    assert s[7] == s[7..13][0] == 's';
    SpacesEndAt(s, 0);
    SpacesEndOne(s, 6);
    SpacesEndOne(s, 13);
    StaticTypeAtLine(s, n);
    MatchAtLine(s, Match(0, 0, 13, 14, n, n + 1));
  }

  lemma PlainTypeAtLine(s: string, n: nat)
    requires 7 < n < |s| && SpacesEnd(s, 6) == 7 && ItemAt(s, 7) == Some((n, n + 1))
    requires StaticTypeAt(s, 0, 0) == None
    ensures TypeAt(s, 0, 0) == Some(Match(0, 0, 6, 7, n, n + 1))
  {
  }

  /** The match of a line that starts "import", whitespace, then holds an
      item and ';': the type group cannot take "static", which would need
      whitespace after it. */
  lemma PlainLineMatch(s: string, imp: string, n: nat)
    requires IsItem(imp) && n == 7 + |imp| && n < |s|
    requires s[0..6] == "import" && s[6] == ' '
    requires s[7..n] == imp && s[n] == ';'
    ensures MatchAt(s, 0) == Some(Match(0, 0, 6, 7, n, n + 1))
  {
    ItemAtItem(s, 7, imp);
    SpacesEndOne(s, 6);
    ItemNoSpaces(imp);
    PlainNotStatic(s, imp);
    PlainLineRest(s, n);
  }

  lemma PlainLineRest(s: string, n: nat)
    requires 7 < n < |s|
    requires s[0..6] == "import" && SpacesEnd(s, 6) == 7
    requires ItemAt(s, 7) == Some((n, n + 1)) && StaticTypeAt(s, 0, 0) == None
    ensures MatchAt(s, 0) == Some(Match(0, 0, 6, 7, n, n + 1))
  {
    assert s[0] == s[0..6][0] == 'i';
    SpacesEndAt(s, 0);
    PlainTypeAtLine(s, n);
    MatchAtLine(s, Match(0, 0, 6, 7, n, n + 1));
  }

  lemma PlainNotStatic(s: string, imp: string)
    requires NoSpaces(imp) && 7 + |imp| < |s| && s[7..7 + |imp|] == imp && s[7 + |imp|] == ';'
    requires SpacesEnd(s, 6) == 7
    ensures StaticTypeAt(s, 0, 0) == None
  {
    if 13 <= |s| && s[7..13] == "static" {
      if |imp| < 6 {
        assert false;
      } else if |imp| == 6 {
        SpacesEndAt(s, 13);
      } else {
        assert s[13] == imp[6];
        SpacesEndAt(s, 13);
      }
    }
  }

  /** toString writes the keyword, the name, ';' and the suffix. */
  lemma ToStringPieces(i: Import)
    ensures ToString(i) == (if i.isStatic then "import static " else "import ") + i.imp + ";" + i.suffix
  {
  }

  lemma StaticLineLayout(s: string, imp: string, suffix: string)
    requires s == "import static " + imp + ";" + suffix
    ensures |s| == 15 + |imp| + |suffix|
    ensures s[0..6] == "import" && s[6] == ' ' && s[7..13] == "static" && s[13] == ' '
    ensures s[14..14 + |imp|] == imp && s[14 + |imp|] == ';' && s[15 + |imp|..] == suffix
  {
    var kw := "import static ";
    LineLayout(s, kw, imp, suffix);
    StaticKeyword();
    assert s[0..6] == kw[0..6] && s[6] == kw[6] && s[7..13] == kw[7..13] && s[13] == kw[13];
  }

  lemma PlainLineLayout(s: string, imp: string, suffix: string)
    requires s == "import " + imp + ";" + suffix
    ensures |s| == 8 + |imp| + |suffix|
    ensures s[0..6] == "import" && s[6] == ' '
    ensures s[7..7 + |imp|] == imp && s[7 + |imp|] == ';' && s[8 + |imp|..] == suffix
  {
    var kw := "import ";
    LineLayout(s, kw, imp, suffix);
    PlainKeyword();
    assert s[0..6] == kw[0..6] && s[6] == kw[6];
  }

  /** The match of a line of the form toString writes. */
  lemma LineMatch(s: string, isStatic: bool, imp: string, suffix: string) returns (m: Match)
    requires IsItem(imp)
    requires s == (if isStatic then "import static " else "import ") + imp + ";" + suffix
    ensures MatchAt(s, 0) == Some(m) && Ordered(m, s) && m.prefixEnd == 0
    ensures s[m.itemStart..m.itemEnd] == imp && s[m.suffixStart..] == suffix
    ensures isStatic <==> m.typeEnd > m.typeStart + 6
  {
    if isStatic {
      StaticLineLayout(s, imp, suffix);
      StaticLineMatch(s, imp, 14 + |imp|);
      m := Match(0, 0, 13, 14, 14 + |imp|, 15 + |imp|);
    } else {
      PlainLineLayout(s, imp, suffix);
      PlainLineMatch(s, imp, 7 + |imp|);
      m := Match(0, 0, 6, 7, 7 + |imp|, 8 + |imp|);
    }
  }

  /** Reading back the line toString writes gives the import again, without
      its prefix, which toString does not write. */
  lemma ParseToString(i: Import)
    requires IsItem(i.imp)
    requires i.suffix == [] || !IsSpace(i.suffix[|i.suffix| - 1])
    ensures Parse(ToString(i)) == Some(i.(prefix := ""))
  {
    var s := ToString(i);
    ToStringPieces(i);
    var m := LineMatch(s, i.isStatic, i.imp, i.suffix);
    assert FindFrom(s, 0) == Some(m);
    ParseStaticIff(s, m);
    ItemNoSpaces(i.imp);
    RemoveSpacesNone(i.imp);
    ParseParts(s, m, i.imp, i.suffix);
  }

  lemma ParseParts(s: string, m: Match, imp: string, suffix: string)
    requires Ordered(m, s) && m.prefixEnd == 0
    requires s[m.itemStart..m.itemEnd] == imp && s[m.suffixStart..] == suffix
    requires suffix == [] || !IsSpace(suffix[|suffix| - 1])
    requires RemoveSpaces(imp) == imp
    ensures FromMatch(s, m).imp == imp && FromMatch(s, m).prefix == "" && FromMatch(s, m).suffix == suffix
  {
    assert s[..0] == [];
  }

  // ---------------------------------------------------------------------
  // Equality and hash

  /** Import.equals: all four fields agree. */
  function Equals(a: Import, b: Import): (r: bool)
    ensures r <==> a == b
  {
    a.isStatic == b.isStatic && a.imp == b.imp && a.prefix == b.prefix && a.suffix == b.suffix
  }

  /** Import.hashCode: imp.hashCode() * 2 + (1 if static), in 32-bit
      arithmetic. */
  function Hash(i: Import): (h: int)
    ensures -TwoTo31 <= h < TwoTo31
    ensures (h - 2 * StringHash(i.imp) - (if i.isStatic then 1 else 0)) % TwoTo32 == 0
  {
    ToInt32(StringHash(i.imp) * 2 + (if i.isStatic then 1 else 0))
  }

  /** Imports that differ only in their comments hash alike, so equal
      imports do too. */
  lemma HashOfNameAndFlag(a: Import, b: Import)
    requires a.isStatic == b.isStatic && a.imp == b.imp
    ensures Hash(a) == Hash(b)
  {
  }
}
