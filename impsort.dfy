/** ImpSort.parseFile and its helpers: locating the import section of a
    parsed compilation unit, folding its comments and declarations into
    Import values, dropping unused and same-package imports, and building
    the Result that holds the sorted section.

    The Java parser is not modelled: its output is the CompilationUnit
    datatype below (positions, declarations, comments and their texts), and
    the identifiers the file uses are given as a set of strings. */
module ImpSort {
  import opened Wrappers
  import opened JavaStrings
  import opened Sequences
  import opened Sorting
  import opened Positions
  import opened Imports
  import opened Grouping
  import Results

  // ---------------------------------------------------------------------
  // What the parser reports

  /** A comment: where it begins and ends, and its text (Comment.toString()). */
  datatype Comment = Comment(begin: Position, end: Position, text: string)

  /** An import declaration with the comment the parser attached to it. */
  datatype ImportDeclaration = ImportDeclaration(begin: Position, end: Position,
    isStatic: bool, name: string, isAsterisk: bool, comment: Option<Comment>)

  /** A node of the import section: a comment, a declaration, or any other
      node (which the converter refuses). */
  datatype Node =
    | CommentNode(comment: Comment)
    | ImportNode(decl: ImportDeclaration)
    | OtherNode(from: Position, to: Position)

  datatype PackageDeclaration = PackageDeclaration(name: string, end: Position)

  datatype CompilationUnit = CompilationUnit(begin: Position,
    packageDeclaration: Option<PackageDeclaration>,
    imports: seq<ImportDeclaration>, orphanComments: seq<Comment>)

  function Begin(n: Node): Position {
    match n
    case CommentNode(c) => c.begin
    case ImportNode(d) => d.begin
    case OtherNode(b, _) => b
  }

  function End(n: Node): Position {
    match n
    case CommentNode(c) => c.end
    case ImportNode(d) => d.end
    case OtherNode(_, e) => e
  }

  /** BY_POSITION: a node is not after another when its begin is not. */
  predicate ByPosition(a: Node, b: Node) {
    NotAfter(Begin(a), Begin(b))
  }

  lemma ByPositionOrder()
    ensures Total(ByPosition) && Transitive(ByPosition)
  {
    forall a: Node, b: Node
      ensures ByPosition(a, b) || ByPosition(b, a)
    {
      Trichotomy(Begin(a), Begin(b));
    }
  }

  /** The lines the parser reports lie inside a file of lineCount lines, and
      each node, an attached comment included, begins on a line no later
      than the one it ends on. */
  predicate CommentWithin(c: Comment, lineCount: int) {
    1 <= c.begin.line <= c.end.line <= lineCount
  }

  predicate DeclarationWithin(d: ImportDeclaration, lineCount: int) {
    1 <= d.begin.line <= d.end.line <= lineCount
    && (d.comment.Some? ==> CommentWithin(d.comment.value, lineCount))
  }

  predicate WithinFile(u: CompilationUnit, lineCount: int) {
    (forall k :: 0 <= k < |u.imports| ==> DeclarationWithin(u.imports[k], lineCount))
    && (forall k :: 0 <= k < |u.orphanComments| ==> CommentWithin(u.orphanComments[k], lineCount))
  }

  // ---------------------------------------------------------------------
  // The nodes of the import section (ImpSort.java:74-93)

  /** The end of the package declaration, or the beginning of the unit. */
  function PackagePosition(u: CompilationUnit): Position {
    if u.packageDeclaration.Some? then u.packageDeclaration.value.end else u.begin
  }

  /** The begin of the last import declaration (max by position). */
  function LastImportBegin(ds: seq<ImportDeclaration>): (r: Position)
    requires ds != []
    ensures exists k :: 0 <= k < |ds| && ds[k].begin == r
    ensures forall k :: 0 <= k < |ds| ==> NotAfter(ds[k].begin, r)
  {
    if |ds| == 1 then ds[0].begin
    else
      var m := LastImportBegin(ds[1..]);
      assert forall k :: 1 <= k < |ds| ==> ds[k] == ds[1..][k - 1];
      if NotAfter(ds[0].begin, m) then m
      else
        Trichotomy(ds[0].begin, m);
        ds[0].begin
  }

  /** An orphan comment belongs to the section when it begins strictly after
      the package position and strictly before the last import. */
  predicate InSection(c: Comment, packagePosition: Position, lastImport: Position) {
    IsAfter(c.begin, packagePosition) && IsBefore(c.begin, lastImport)
  }

  /** The orphan comments of the section, in their order. */
  function SectionComments(cs: seq<Comment>, packagePosition: Position, lastImport: Position)
    : (r: seq<Comment>)
    ensures forall c :: c in r <==> c in cs && InSection(c, packagePosition, lastImport)
    ensures Subsequence(r, cs)
  {
    if cs == [] then []
    else
      var rest := SectionComments(cs[1..], packagePosition, lastImport);
      assert forall c :: c in cs <==> c == cs[0] || c in cs[1..];
      if InSection(cs[0], packagePosition, lastImport) then [cs[0]] + rest else rest
  }

  function CommentNodes(cs: seq<Comment>): (r: seq<Node>)
    ensures |r| == |cs| && forall k :: 0 <= k < |cs| ==> r[k] == CommentNode(cs[k])
  {
    seq(|cs|, k requires 0 <= k < |cs| => CommentNode(cs[k]))
  }

  function ImportNodes(ds: seq<ImportDeclaration>): (r: seq<Node>)
    ensures |r| == |ds| && forall k :: 0 <= k < |ds| ==> r[k] == ImportNode(ds[k])
  {
    seq(|ds|, k requires 0 <= k < |ds| => ImportNode(ds[k]))
  }

  /** The section's comments and declarations, sorted by position. */
  function SectionNodes(u: CompilationUnit): seq<Node>
    requires u.imports != []
  {
    var orphans := SectionComments(u.orphanComments, PackagePosition(u), LastImportBegin(u.imports));
    Sort(CommentNodes(orphans) + ImportNodes(u.imports), ByPosition)
  }

  /** The nodes are a position-ordered arrangement of the comments and the
      declarations, not empty, holding no other node, and ending with a
      declaration that begins at `last`. */
  predicate ArrangedSection(nodes: seq<Node>, orphans: seq<Comment>, ds: seq<ImportDeclaration>, last: Position) {
    multiset(nodes) == multiset(CommentNodes(orphans) + ImportNodes(ds))
    && SortedBy(nodes, ByPosition)
    && nodes != []
    && (forall k :: 0 <= k < |nodes| ==> !nodes[k].OtherNode?)
    && nodes[|nodes| - 1].ImportNode? && Begin(nodes[|nodes| - 1]) == last
  }

  /** The comments begin before `last` and the declarations no later, one of
      them at `last`. */
  predicate BoundedBy(orphans: seq<Comment>, ds: seq<ImportDeclaration>, last: Position) {
    (forall c :: c in orphans ==> IsBefore(c.begin, last))
    && (forall k :: 0 <= k < |ds| ==> NotAfter(ds[k].begin, last))
    && (exists k :: 0 <= k < |ds| && ds[k].begin == last)
  }

  /** The section nodes are the declarations and the orphan comments between
      the package and the last import, ordered by position; the last of them
      is a declaration, so no comment is left over at the end. */
  lemma SectionNodesShape(u: CompilationUnit)
    requires u.imports != []
    ensures ArrangedSection(SectionNodes(u),
      SectionComments(u.orphanComments, PackagePosition(u), LastImportBegin(u.imports)),
      u.imports, LastImportBegin(u.imports))
  {
    var last := LastImportBegin(u.imports);
    var orphans := SectionComments(u.orphanComments, PackagePosition(u), last);
    SortedByPosition(CommentNodes(orphans) + ImportNodes(u.imports));
    SectionBounded(u);
    SortedNodesShape(orphans, u.imports, last, SectionNodes(u));
  }

  lemma SectionBounded(u: CompilationUnit)
    requires u.imports != []
    ensures BoundedBy(SectionComments(u.orphanComments, PackagePosition(u), LastImportBegin(u.imports)),
      u.imports, LastImportBegin(u.imports))
  {
  }

  /** Sorting nodes by position orders a permutation of them. */
  lemma SortedByPosition(input: seq<Node>)
    ensures multiset(Sort(input, ByPosition)) == multiset(input)
    ensures SortedBy(Sort(input, ByPosition), ByPosition)
  {
    SortPermutation(input, ByPosition);
    ByPositionOrder();
    SortSorted(input, ByPosition);
  }

  /** A position-ordered arrangement of comments that begin before `last`
      and declarations that begin no later, one of which begins at `last`,
      ends with that declaration. */
  lemma SortedNodesShape(orphans: seq<Comment>, ds: seq<ImportDeclaration>, last: Position, nodes: seq<Node>)
    requires multiset(nodes) == multiset(CommentNodes(orphans) + ImportNodes(ds))
    requires SortedBy(nodes, ByPosition)
    requires BoundedBy(orphans, ds, last)
    ensures ArrangedSection(nodes, orphans, ds, last)
  {
    forall k | 0 <= k < |nodes|
      ensures !nodes[k].OtherNode?
    {
      NodeFrom(orphans, ds, last, nodes, k);
    }
    TopIn(orphans, ds, last, nodes);
    var t :| 0 <= t < |nodes| && nodes[t].ImportNode? && Begin(nodes[t]) == last;
    NodeFrom(orphans, ds, last, nodes, |nodes| - 1);
    LastIsTop(nodes, last, t);
  }

  /** Every node is one of the comments, which begin before `last`, or one
      of the declarations, which begin no later. */
  lemma NodeFrom(orphans: seq<Comment>, ds: seq<ImportDeclaration>, last: Position, nodes: seq<Node>, k: nat)
    requires multiset(nodes) == multiset(CommentNodes(orphans) + ImportNodes(ds))
    requires BoundedBy(orphans, ds, last) && k < |nodes|
    ensures !nodes[k].OtherNode?
    ensures nodes[k].CommentNode? ==> IsBefore(Begin(nodes[k]), last)
    ensures nodes[k].ImportNode? ==> NotAfter(Begin(nodes[k]), last)
  {
    var input := CommentNodes(orphans) + ImportNodes(ds);
    assert nodes[k] in multiset(input);
    var j :| 0 <= j < |input| && input[j] == nodes[k];
    if j < |orphans| {
      assert orphans[j] in orphans;
    } else {
      assert ds[j - |orphans|].begin == Begin(nodes[k]);
    }
  }

  /** The declaration that begins at `last` is among the nodes. */
  lemma TopIn(orphans: seq<Comment>, ds: seq<ImportDeclaration>, last: Position, nodes: seq<Node>)
    requires multiset(nodes) == multiset(CommentNodes(orphans) + ImportNodes(ds))
    requires BoundedBy(orphans, ds, last)
    ensures exists t :: 0 <= t < |nodes| && nodes[t].ImportNode? && Begin(nodes[t]) == last
  {
    var input := CommentNodes(orphans) + ImportNodes(ds);
    var m :| 0 <= m < |ds| && ds[m].begin == last;
    var top := ImportNode(ds[m]);
    assert input[|orphans| + m] == top;
    assert top in multiset(nodes);
    var t :| 0 <= t < |nodes| && nodes[t] == top;
  }

  /** In position order, a last node that begins no later than `last` (and
      before it when it is a comment) is the declaration at `last`. */
  lemma LastIsTop(nodes: seq<Node>, last: Position, t: nat)
    requires SortedBy(nodes, ByPosition)
    requires t < |nodes| && nodes[t].ImportNode? && Begin(nodes[t]) == last
    requires !nodes[|nodes| - 1].OtherNode?
    requires nodes[|nodes| - 1].CommentNode? ==> IsBefore(Begin(nodes[|nodes| - 1]), last)
    requires nodes[|nodes| - 1].ImportNode? ==> NotAfter(Begin(nodes[|nodes| - 1]), last)
    ensures nodes[|nodes| - 1].ImportNode? && Begin(nodes[|nodes| - 1]) == last
  {
    var z := |nodes| - 1;
    if t < z {
      assert NotAfter(Begin(nodes[t]), Begin(nodes[z]));
    }
    Trichotomy(Begin(nodes[z]), last);
  }

  // ---------------------------------------------------------------------
  // The line range of the section (ImpSort.java:93-105)

  /** The first line of the section as the source computes it: the line of
      the first node, less one. */
  function StartAsWritten(nodes: seq<Node>): int
    requires nodes != []
  {
    Begin(nodes[0]).line - 1
  }

  /** The line a node's text starts on, counting a comment attached to a
      declaration on an earlier line. */
  function FirstLine(n: Node): int {
    match n
    case ImportNode(d) =>
      if d.comment.Some? && d.comment.value.begin.line < d.begin.line
      then d.comment.value.begin.line else d.begin.line
    case _ => Begin(n).line
  }

  /** The first line of the section as it is evidently meant: covering the
      comment attached to the first declaration, which the converter folds
      into that import's prefix. */
  function SectionStart(nodes: seq<Node>): int
    requires nodes != []
  {
    FirstLine(nodes[0]) - 1
  }

  /** The line after the section: the end line of the last node. */
  function SectionStop(nodes: seq<Node>): int
    requires nodes != []
  {
    End(nodes[|nodes| - 1]).line
  }

  /** Both ends of the range lie in the file, in order. */
  lemma SectionRangeWithin(u: CompilationUnit, lineCount: int)
    requires u.imports != [] && WithinFile(u, lineCount)
    ensures var nodes := SectionNodes(u);
      0 <= SectionStart(nodes) <= StartAsWritten(nodes) <= SectionStop(nodes) <= lineCount
  {
    var last := LastImportBegin(u.imports);
    var orphans := SectionComments(u.orphanComments, PackagePosition(u), last);
    var input := CommentNodes(orphans) + ImportNodes(u.imports);
    var nodes := SectionNodes(u);
    SectionNodesShape(u);
    InputNodesWithin(u, lineCount, orphans, input);
    forall k | 0 <= k < |nodes|
      ensures NodeWithin(nodes[k], lineCount)
    {
      assert nodes[k] in multiset(input);
    }
    assert ByPosition(nodes[0], nodes[|nodes| - 1]) || |nodes| == 1;
  }

  /** The node's lines lie in a file of lineCount lines, first to last. */
  predicate NodeWithin(n: Node, lineCount: int) {
    1 <= FirstLine(n) <= Begin(n).line <= End(n).line <= lineCount
  }

  /** Every node made from the unit's section comments and declarations
      lies in the file. */
  lemma InputNodesWithin(u: CompilationUnit, lineCount: int, orphans: seq<Comment>, input: seq<Node>)
    requires WithinFile(u, lineCount)
    requires forall c :: c in orphans ==> c in u.orphanComments
    requires input == CommentNodes(orphans) + ImportNodes(u.imports)
    ensures forall n :: n in input ==> NodeWithin(n, lineCount)
  {
    forall j | 0 <= j < |input|
      ensures NodeWithin(input[j], lineCount)
    {
      if j < |orphans| {
        assert orphans[j] in u.orphanComments;
      } else {
        assert DeclarationWithin(u.imports[j - |orphans|], lineCount);
      }
    }
  }

  /** The line the widening loop moves start back to: past every blank line
      before it. */
  function WidenedStart(lines: seq<string>, start: int): (r: int)
    requires 0 <= start <= |lines|
    ensures 0 <= r <= start
    ensures forall k :: r <= k < start ==> IsBlank(lines[k])
    ensures r == 0 || !IsBlank(lines[r - 1])
  {
    if start > 0 && IsBlank(lines[start - 1]) then WidenedStart(lines, start - 1) else start
  }

  /** The line the widening loop moves stop forward to: past every blank line
      after the section. */
  function WidenedStop(lines: seq<string>, stop: int): (r: int)
    requires 0 <= stop <= |lines|
    ensures stop <= r <= |lines|
    ensures forall k :: stop <= k < r ==> IsBlank(lines[k])
    ensures r == |lines| || !IsBlank(lines[r])
    decreases |lines| - stop
  {
    if stop < |lines| && IsBlank(lines[stop]) then WidenedStop(lines, stop + 1) else stop
  }

  /** The two while loops that take surrounding whitespace-only lines into
      the section. */
  method Widen(fileLines: seq<string>, start0: int, stop0: int) returns (start: int, stop: int)
    requires 0 <= start0 <= stop0 <= |fileLines|
    ensures start == WidenedStart(fileLines, start0) && stop == WidenedStop(fileLines, stop0)
  {
    start, stop := start0, stop0;
    while start > 0 && IsBlank(fileLines[start - 1])
      invariant 0 <= start <= start0
      invariant WidenedStart(fileLines, start) == WidenedStart(fileLines, start0)
    {
      start := start - 1;
    }
    while stop < |fileLines| && IsBlank(fileLines[stop])
      invariant stop0 <= stop <= |fileLines|
      invariant WidenedStop(fileLines, stop) == WidenedStop(fileLines, stop0)
    {
      stop := stop + 1;
    }
  }

  /** The original text of the section: its lines joined by line breaks,
      with one more line break at the end. */
  function OriginalSection(fileLines: seq<string>, start: int, stop: int): string
    requires 0 <= start <= stop <= |fileLines|
  {
    Join(fileLines[start..stop], "\n") + "\n"
  }

  /** The original section is the range's lines, each followed by a line
      break, so splitting it on line breaks gives those lines back, less
      the empty ones at the end. */
  lemma OriginalSectionLines(fileLines: seq<string>, start: int, stop: int)
    requires 0 <= start < stop <= |fileLines|
    requires forall k :: start <= k < stop ==> '\n' !in fileLines[k]
    ensures OriginalSection(fileLines, start, stop) == Results.Terminated(fileLines[start..stop])
    ensures Results.SplitLines(OriginalSection(fileLines, start, stop)) == DropTrailingEmpty(fileLines[start..stop])
  {
    var xs := fileLines[start..stop];
    JoinSnocEmpty(xs, "\n");
    Results.TerminatedJoin(xs);
    forall k | 0 <= k < |xs|
      ensures '\n' !in xs[k]
    {
      assert xs[k] == fileLines[start + k];
    }
    Results.SplitTerminated(xs);
  }

  // ---------------------------------------------------------------------
  // One import from its nodes (ImpSort.java:171-192)

  /** The text a node adds to a comment: its own text when it is a comment. */
  function TextOf(n: Node): string {
    if n.CommentNode? then n.comment.text else ""
  }

  /** The texts of the comments among the nodes, in order. */
  function CommentTexts(ns: seq<Node>): string {
    if ns == [] then "" else CommentTexts(ns[..|ns| - 1]) + TextOf(ns[|ns| - 1])
  }

  /** The index of the first declaration among the nodes, or their number. */
  function FirstDeclaration(ns: seq<Node>): (k: nat)
    ensures k <= |ns|
    ensures forall j :: 0 <= j < k ==> !ns[j].ImportNode?
    ensures k < |ns| ==> ns[k].ImportNode?
  {
    if ns == [] then 0
    else
      var k := FirstDeclaration(ns[..|ns| - 1]);
      assert forall j :: 0 <= j < |ns| - 1 ==> ns[j] == ns[..|ns| - 1][j];
      if k < |ns| - 1 then k else if ns[|ns| - 1].ImportNode? then |ns| - 1 else |ns|
  }

  /** The last declaration among the nodes: the one whose name and flag
      the import takes. */
  function LastDeclaration(ns: seq<Node>): (r: Option<ImportDeclaration>)
    ensures r.None? <==> forall j :: 0 <= j < |ns| ==> !ns[j].ImportNode?
    ensures r.Some? ==> exists j :: 0 <= j < |ns| && ns[j] == ImportNode(r.value)
  {
    if ns == [] then None
    else if ns[|ns| - 1].ImportNode? then Some(ns[|ns| - 1].decl)
    else
      assert forall j :: 0 <= j < |ns| - 1 ==> ns[j] == ns[..|ns| - 1][j];
      LastDeclaration(ns[..|ns| - 1])
  }

  /** The imported item: the name, with ".*" for an on-demand import. */
  function ItemName(d: ImportDeclaration): string {
    d.name + (if d.isAsterisk then ".*" else "")
  }

  /** The trimmed suffix comment, after one space when it is not empty. */
  function SuffixText(text: string): (r: string)
    ensures Trim(text) == [] ==> r == []
    ensures Trim(text) != [] ==> r == " " + Trim(text)
  {
    var t := Trim(text);
    if t == [] then t else " " + t
  }

  /** The import convertAndAddImport builds: comments before the first
      declaration make its trimmed prefix, comments after it its suffix, and
      the last declaration gives the flag and the name; without any
      declaration the name is null and the constructor refuses it. */
  function ImportFrom(ns: seq<Node>): Result<Import, NullArgument> {
    var k := FirstDeclaration(ns);
    var d := LastDeclaration(ns);
    NewImport(d.Some? && d.value.isStatic, if d.Some? then Some(ItemName(d.value)) else None,
      Some(Trim(CommentTexts(ns[..k]))), Some(SuffixText(CommentTexts(ns[k..]))))
  }

  lemma CommentTextsStep(ns: seq<Node>, a: nat, b: nat)
    requires a <= b < |ns|
    ensures CommentTexts(ns[a..b + 1]) == CommentTexts(ns[a..b]) + TextOf(ns[b])
  {
    assert ns[a..b + 1][..b - a] == ns[a..b];
  }

  /** What the first loop of convertAndAddImport holds after the first i
      nodes. */
  predicate Built(ns: seq<Node>, i: nat, isStatic: bool, importItem: Option<string>, prefix: string, suffix: string)
    requires i <= |ns|
  {
    BuiltTexts(ns, i, importItem.None?, prefix, suffix) && BuiltName(ns, i, isStatic, importItem)
  }

  /** The comments before the first declaration are the prefix, those after
      it the suffix; `none` says no declaration has been seen. */
  predicate BuiltTexts(ns: seq<Node>, i: nat, none: bool, prefix: string, suffix: string)
    requires i <= |ns|
  {
    var k := FirstDeclaration(ns[..i]);
    prefix == CommentTexts(ns[..k]) && suffix == CommentTexts(ns[k..i]) && (none <==> k == i)
  }

  /** The flag and the name are the last declaration's. */
  predicate BuiltName(ns: seq<Node>, i: nat, isStatic: bool, importItem: Option<string>)
    requires i <= |ns|
  {
    var d := LastDeclaration(ns[..i]);
    isStatic == (d.Some? && d.value.isStatic)
    && importItem == (if d.Some? then Some(ItemName(d.value)) else None)
  }

  lemma FirstDeclarationSnoc(ns: seq<Node>, i: nat)
    requires i < |ns|
    ensures var k := FirstDeclaration(ns[..i]);
      FirstDeclaration(ns[..i + 1]) == if k < i then k else if ns[i].ImportNode? then i else i + 1
  {
    assert ns[..i + 1][..i] == ns[..i];
  }

  lemma LastDeclarationSnoc(ns: seq<Node>, i: nat)
    requires i < |ns|
    ensures LastDeclaration(ns[..i + 1]) == if ns[i].ImportNode? then Some(ns[i].decl) else LastDeclaration(ns[..i])
  {
    assert ns[..i + 1][..i] == ns[..i];
  }

  /** One node of the first loop: a comment goes to the prefix until a
      declaration has been seen and to the suffix after; a declaration
      sets the flag and the name. */
  lemma BuiltStep(ns: seq<Node>, i: nat, isStatic: bool, importItem: Option<string>, prefix: string, suffix: string,
                  isStatic': bool, importItem': Option<string>, prefix': string, suffix': string)
    requires i < |ns| && Built(ns, i, isStatic, importItem, prefix, suffix)
    requires prefix' == if ns[i].CommentNode? && importItem.None? then prefix + ns[i].comment.text else prefix
    requires suffix' == if ns[i].CommentNode? && importItem.Some? then suffix + ns[i].comment.text else suffix
    requires isStatic' == if ns[i].ImportNode? then ns[i].decl.isStatic else isStatic
    requires importItem' == if ns[i].ImportNode? then Some(ItemName(ns[i].decl)) else importItem
    ensures Built(ns, i + 1, isStatic', importItem', prefix', suffix')
  {
    LastDeclarationSnoc(ns, i);
    assert importItem'.None? == (importItem.None? && !ns[i].ImportNode?);
    TextsStep(ns, i, importItem.None?, prefix, suffix, prefix', suffix');
  }

  lemma TextsStep(ns: seq<Node>, i: nat, none: bool, prefix: string, suffix: string, prefix': string, suffix': string)
    requires i < |ns| && BuiltTexts(ns, i, none, prefix, suffix)
    requires prefix' == if none then prefix + TextOf(ns[i]) else prefix
    requires suffix' == if none then suffix else suffix + TextOf(ns[i])
    ensures BuiltTexts(ns, i + 1, none && !ns[i].ImportNode?, prefix', suffix')
  {
    var k := FirstDeclaration(ns[..i]);
    FirstDeclarationSnoc(ns, i);
    CommentTextsStep(ns, k, i);
    if k == i {
      assert ns[i..i] == [] && ns[i + 1..i + 1] == [];
      if !ns[i].ImportNode? {
        CommentTextsStep(ns, 0, i);
        assert ns[0..i + 1] == ns[..i + 1] && ns[0..i] == ns[..i];
      }
    }
  }

  /** The first loop of convertAndAddImport. */
  method BuildImport(thisImport: seq<Node>) returns (r: Result<Import, NullArgument>)
    ensures r == ImportFrom(thisImport)
  {
    var isStatic := false;
    var importItem: Option<string> := None;
    var prefix := "";
    var suffix := "";
    for i := 0 to |thisImport|
      invariant Built(thisImport, i, isStatic, importItem, prefix, suffix)
    {
      var n := thisImport[i];
      ghost var (isStatic0, importItem0, prefix0, suffix0) := (isStatic, importItem, prefix, suffix);
      if n.CommentNode? {
        if importItem.None? {
          prefix := prefix + n.comment.text;
        } else {
          suffix := suffix + n.comment.text;
        }
      }
      if n.ImportNode? {
        isStatic := n.decl.isStatic;
        importItem := Some(ItemName(n.decl));
      }
      BuiltStep(thisImport, i, isStatic0, importItem0, prefix0, suffix0, isStatic, importItem, prefix, suffix);
    }
    assert thisImport[..|thisImport|] == thisImport;
    suffix := Trim(suffix);
    if suffix != [] {
      suffix := " " + suffix;
    }
    r := NewImport(isStatic, importItem, Some(Trim(prefix)), Some(suffix));
  }

  /** The nodes convertImportSection hands over for one declaration: the
      buffered comments, then the attached comment before or after the
      declaration according to where it begins. */
  function ThisImport(recent: seq<Comment>, d: ImportDeclaration): seq<Node> {
    CommentNodes(recent) +
    (if d.comment.Some? && IsBefore(d.comment.value.begin, d.begin)
     then [CommentNode(d.comment.value), ImportNode(d)]
     else if d.comment.Some? then [ImportNode(d), CommentNode(d.comment.value)]
     else [ImportNode(d)])
  }

  /** The texts of a list of comments, in order. */
  function CommentsText(cs: seq<Comment>): string {
    if cs == [] then "" else CommentsText(cs[..|cs| - 1]) + cs[|cs| - 1].text
  }

  lemma {:induction false} CommentNodesTexts(cs: seq<Comment>)
    ensures CommentTexts(CommentNodes(cs)) == CommentsText(cs)
  {
    if cs != [] {
      CommentNodesTexts(cs[..|cs| - 1]);
      assert CommentNodes(cs)[..|cs| - 1] == CommentNodes(cs[..|cs| - 1]);
    }
  }

  /** The import made for a declaration: the declaration's flag and item;
      the buffered comments and an attached comment that begins before the
      declaration, trimmed, as the prefix; an attached comment that begins
      after it as the suffix. */
  function DeclarationImport(recent: seq<Comment>, d: ImportDeclaration): Import {
    var before := d.comment.Some? && IsBefore(d.comment.value.begin, d.begin);
    var after := d.comment.Some? && !IsBefore(d.comment.value.begin, d.begin);
    Import(d.isStatic, ItemName(d),
      Trim(CommentsText(recent) + (if before then d.comment.value.text else "")),
      SuffixText(if after then d.comment.value.text else ""))
  }

  lemma FirstDeclarationAt(ns: seq<Node>, k: nat)
    requires k <= |ns| && (forall j :: 0 <= j < k ==> !ns[j].ImportNode?)
    requires k < |ns| ==> ns[k].ImportNode?
    ensures FirstDeclaration(ns) == k
  {
  }

  lemma ImportFromParts(ns: seq<Node>, d: ImportDeclaration)
    requires LastDeclaration(ns) == Some(d)
    ensures var k := FirstDeclaration(ns);
      ImportFrom(ns) == Success(Import(d.isStatic, ItemName(d),
        Trim(CommentTexts(ns[..k])), SuffixText(CommentTexts(ns[k..]))))
  {
  }

  lemma CommentTextsOfDeclaration(d: ImportDeclaration)
    ensures CommentTexts([ImportNode(d)]) == ""
  {
    assert [ImportNode(d)][..0] == [];
  }

  lemma ConvertsBefore(recent: seq<Comment>, d: ImportDeclaration)
    requires d.comment.Some? && IsBefore(d.comment.value.begin, d.begin)
    ensures ImportFrom(ThisImport(recent, d)) == Success(DeclarationImport(recent, d))
  {
    var ns := ThisImport(recent, d);
    var cn := CommentNodes(recent);
    var n := |cn|;
    var c := d.comment.value;
    assert ns == cn + [CommentNode(c), ImportNode(d)];
    FirstDeclarationAt(ns, n + 1);
    assert ns[..n + 1][..n] == cn;
    CommentNodesTexts(recent);
    assert CommentTexts(ns[..n + 1]) == CommentsText(recent) + c.text;
    assert ns[n + 1..] == [ImportNode(d)];
    CommentTextsOfDeclaration(d);
    ImportFromParts(ns, d);
  }

  lemma ConvertsAfter(recent: seq<Comment>, d: ImportDeclaration)
    requires d.comment.Some? && !IsBefore(d.comment.value.begin, d.begin)
    ensures ImportFrom(ThisImport(recent, d)) == Success(DeclarationImport(recent, d))
  {
    var ns := ThisImport(recent, d);
    var cn := CommentNodes(recent);
    var n := |cn|;
    var c := d.comment.value;
    assert ns == cn + [ImportNode(d), CommentNode(c)];
    FirstDeclarationAt(ns, n);
    assert ns[..|ns| - 1] == cn + [ImportNode(d)];
    assert LastDeclaration(ns) == Some(d);
    assert ns[..n] == cn;
    CommentNodesTexts(recent);
    assert ns[n..] == [ImportNode(d), CommentNode(c)];
    assert [ImportNode(d), CommentNode(c)][..1] == [ImportNode(d)];
    CommentTextsOfDeclaration(d);
    assert CommentTexts(ns[n..]) == c.text;
    assert CommentsText(recent) + "" == CommentsText(recent);
    ImportFromParts(ns, d);
  }

  lemma ConvertsAlone(recent: seq<Comment>, d: ImportDeclaration)
    requires d.comment.None?
    ensures ImportFrom(ThisImport(recent, d)) == Success(DeclarationImport(recent, d))
  {
    var ns := ThisImport(recent, d);
    var cn := CommentNodes(recent);
    var n := |cn|;
    assert ns == cn + [ImportNode(d)];
    FirstDeclarationAt(ns, n);
    assert ns[..n] == cn;
    CommentNodesTexts(recent);
    assert ns[n..] == [ImportNode(d)];
    CommentTextsOfDeclaration(d);
    assert CommentsText(recent) + "" == CommentsText(recent);
    ImportFromParts(ns, d);
  }

  /** The nodes handed over for a declaration make exactly the import
      DeclarationImport describes. */
  lemma ThisImportConverts(recent: seq<Comment>, d: ImportDeclaration)
    ensures ImportFrom(ThisImport(recent, d)) == Success(DeclarationImport(recent, d))
  {
    if d.comment.None? {
      ConvertsAlone(recent, d);
    } else if IsBefore(d.comment.value.begin, d.begin) {
      ConvertsBefore(recent, d);
    } else {
      ConvertsAfter(recent, d);
    }
  }

  // ---------------------------------------------------------------------
  // Merging duplicates into the ordered set (ImpSort.java:193-203)

  /** What Import.isDuplicatedBy and Import.combineWith are taken to
      compare and keep: the static flag and the imported name. */
  function Key(i: Import): (bool, string) {
    (i.isStatic, i.imp)
  }

  /** No two imports of the list share a key. */
  predicate DistinctKeys(s: seq<Import>) {
    forall i, j :: 0 <= i < j < |s| ==> Key(s[i]) != Key(s[j])
  }

  /** The keys of the imports of a list. */
  function KeySet(s: seq<Import>): (r: set<(bool, string)>)
    ensures forall k :: k in r <==> exists i :: 0 <= i < |s| && Key(s[i]) == k
  {
    if s == [] then {}
    else
      assert forall i :: 1 <= i < |s| ==> s[i] == s[1..][i - 1];
      {Key(s[0])} + KeySet(s[1..])
  }

  /** isDuplicatedBy holds exactly for imports with the same key, and
      combineWith keeps that key. */
  ghost predicate KeyedMerge(dup: (Import, Import) -> bool, combine: (Import, Import) -> Import) {
    (forall a, b :: dup(a, b) <==> Key(a) == Key(b))
    && (forall a, b :: Key(a) == Key(b) ==> Key(combine(a, b)) == Key(b))
  }

  /** The iterator loop: the candidates it keeps, and the import after it has
      been combined with every candidate that it duplicates, in order. */
  function Scan(cands: seq<Import>, imp: Import,
                dup: (Import, Import) -> bool, combine: (Import, Import) -> Import): (seq<Import>, Import)
  {
    if cands == [] then ([], imp)
    else if dup(cands[0], imp) then Scan(cands[1..], combine(cands[0], imp), dup, combine)
    else
      var (kept, merged) := Scan(cands[1..], imp, dup, combine);
      ([cands[0]] + kept, merged)
  }

  /** The set after the loop and allImports.add: the merged import goes at
      the end, unless an equal import is already there. */
  function Added(all: seq<Import>, imp: Import,
                 dup: (Import, Import) -> bool, combine: (Import, Import) -> Import): seq<Import>
  {
    var (kept, merged) := Scan(all, imp, dup, combine);
    if merged in kept then kept else kept + [merged]
  }

  /** The imports of the list whose key is not the given one, in order. */
  function OtherKeys(s: seq<Import>, key: (bool, string)): (r: seq<Import>)
    ensures forall x :: x in r <==> x in s && Key(x) != key
  {
    if s == [] then []
    else
      var rest := OtherKeys(s[1..], key);
      assert forall x :: x in s <==> x == s[0] || x in s[1..];
      if Key(s[0]) != key then [s[0]] + rest else rest
  }

  lemma DistinctKeysTail(s: seq<Import>)
    requires s != [] && DistinctKeys(s)
    ensures DistinctKeys(s[1..])
    ensures forall x :: x in s[1..] ==> Key(x) != Key(s[0])
  {
    forall i, j | 0 <= i < j < |s[1..]| ensures Key(s[1..][i]) != Key(s[1..][j]) {
      assert s[1..][i] == s[i + 1] && s[1..][j] == s[j + 1];
    }
    forall x | x in s[1..] ensures Key(x) != Key(s[0]) {
      var j :| 0 <= j < |s[1..]| && s[1..][j] == x;
      assert s[j + 1] == x;
    }
  }

  /** Leaving out one key keeps the keys distinct. */
  lemma {:induction false} OtherKeysDistinct(s: seq<Import>, key: (bool, string))
    requires DistinctKeys(s)
    ensures DistinctKeys(OtherKeys(s, key))
  {
    if s != [] {
      DistinctKeysTail(s);
      OtherKeysDistinct(s[1..], key);
      var rest := OtherKeys(s[1..], key);
      if Key(s[0]) != key {
        var r := [s[0]] + rest;
        forall i, j | 0 <= i < j < |r| ensures Key(r[i]) != Key(r[j]) {
          assert r[j] == rest[j - 1];
          if i > 0 { assert r[i] == rest[i - 1]; }
        }
      }
    }
  }

  /** Leaving out one key removes just that key. */
  lemma {:induction false} OtherKeysKeySet(s: seq<Import>, key: (bool, string))
    ensures KeySet(OtherKeys(s, key)) == KeySet(s) - {key}
  {
    if s != [] {
      OtherKeysKeySet(s[1..], key);
      var rest := OtherKeys(s[1..], key);
      assert KeySet(s) == {Key(s[0])} + KeySet(s[1..]);
      if Key(s[0]) != key {
        assert ([s[0]] + rest)[1..] == rest;
        assert KeySet([s[0]] + rest) == {Key(s[0])} + KeySet(rest);
      }
    }
  }

  /** Under a keyed merge the loop keeps exactly the imports with another
      key, and the merged import keeps the new import's key; when no
      candidate shares it, the new import comes through unchanged. */
  lemma {:induction false} ScanKeyed(cands: seq<Import>, imp: Import,
                                     dup: (Import, Import) -> bool, combine: (Import, Import) -> Import)
    requires KeyedMerge(dup, combine)
    ensures var (kept, merged) := Scan(cands, imp, dup, combine);
      kept == OtherKeys(cands, Key(imp)) && Key(merged) == Key(imp)
      && ((forall j :: 0 <= j < |cands| ==> Key(cands[j]) != Key(imp)) ==> merged == imp)
  {
    if cands != [] {
      if dup(cands[0], imp) {
        ScanKeyed(cands[1..], combine(cands[0], imp), dup, combine);
      } else {
        ScanKeyed(cands[1..], imp, dup, combine);
        assert forall j :: 1 <= j < |cands| ==> cands[j] == cands[1..][j - 1];
      }
    }
  }

  lemma KeySetSnoc(s: seq<Import>, x: Import)
    ensures KeySet(s + [x]) == KeySet(s) + {Key(x)}
  {
    var r := s + [x];
    forall k ensures k in KeySet(r) <==> k in KeySet(s) + {Key(x)} {
      if k in KeySet(r) {
        var i :| 0 <= i < |r| && Key(r[i]) == k;
        if i < |s| { assert Key(s[i]) == k; }
      }
      if k in KeySet(s) {
        var i :| 0 <= i < |s| && Key(s[i]) == k;
        assert Key(r[i]) == k;
      }
      assert Key(r[|r| - 1]) == Key(x);
    }
  }

  lemma DistinctKeysSnoc(s: seq<Import>, x: Import)
    requires DistinctKeys(s) && forall y :: y in s ==> Key(y) != Key(x)
    ensures DistinctKeys(s + [x])
  {
    var r := s + [x];
    forall i, j | 0 <= i < j < |r| ensures Key(r[i]) != Key(r[j]) {
      if j == |r| - 1 {
        assert r[i] in s;
      } else {
        assert r[i] == s[i] && r[j] == s[j];
      }
    }
  }

  /** After an insertion no remaining import is duplicated by the new one,
      the merged import is the last in insertion order, the keys stay
      distinct and gain exactly the new key; an import nothing duplicates is
      simply appended. */
  lemma AddedKeyed(all: seq<Import>, imp: Import,
                   dup: (Import, Import) -> bool, combine: (Import, Import) -> Import)
    requires KeyedMerge(dup, combine)
    ensures var r := Added(all, imp, dup, combine);
      && r != [] && Key(r[|r| - 1]) == Key(imp)
      && r[..|r| - 1] == OtherKeys(all, Key(imp))
      && (forall j :: 0 <= j < |r| - 1 ==> !dup(r[j], r[|r| - 1]))
      && KeySet(r) == KeySet(all) + {Key(imp)}
      && (DistinctKeys(all) ==> DistinctKeys(r))
      && ((forall j :: 0 <= j < |all| ==> !dup(all[j], imp)) ==> r == all + [imp])
  {
    AddedAppends(all, imp, dup, combine);
    var merged := Scan(all, imp, dup, combine).1;
    AppendedKeyed(all, imp, merged, dup, combine);
    var kept := OtherKeys(all, Key(imp));
    var r := kept + [merged];
    assert r[..|r| - 1] == kept;
    if forall j :: 0 <= j < |all| ==> !dup(all[j], imp) {
      NoDuplicateOtherKey(all, imp, dup, combine);
      OtherKeysOfDistinct(all, Key(imp));
    }
  }

  /** Under a keyed merge an import nothing duplicates has a key of its own. */
  lemma NoDuplicateOtherKey(all: seq<Import>, imp: Import,
                            dup: (Import, Import) -> bool, combine: (Import, Import) -> Import)
    requires KeyedMerge(dup, combine) && forall j :: 0 <= j < |all| ==> !dup(all[j], imp)
    ensures forall j :: 0 <= j < |all| ==> Key(all[j]) != Key(imp)
  {
  }

  /** Under a keyed merge the set after the add is the imports of the other
      keys followed by the merged import. */
  lemma AddedAppends(all: seq<Import>, imp: Import,
                     dup: (Import, Import) -> bool, combine: (Import, Import) -> Import)
    requires KeyedMerge(dup, combine)
    ensures var merged := Scan(all, imp, dup, combine).1;
      && Added(all, imp, dup, combine) == OtherKeys(all, Key(imp)) + [merged]
      && Key(merged) == Key(imp)
      && ((forall j :: 0 <= j < |all| ==> !dup(all[j], imp)) ==> merged == imp)
  {
    ScanKeyed(all, imp, dup, combine);
    var kept := Scan(all, imp, dup, combine).0;
    var merged := Scan(all, imp, dup, combine).1;
    assert merged !in kept;
  }

  /** The keys of the imports of the other keys followed by one of the
      given key. */
  lemma AppendedKeyed(all: seq<Import>, imp: Import, merged: Import,
                      dup: (Import, Import) -> bool, combine: (Import, Import) -> Import)
    requires KeyedMerge(dup, combine) && Key(merged) == Key(imp)
    ensures var r := OtherKeys(all, Key(imp)) + [merged];
      && (forall j :: 0 <= j < |r| - 1 ==> !dup(r[j], r[|r| - 1]))
      && KeySet(r) == KeySet(all) + {Key(imp)}
      && (DistinctKeys(all) ==> DistinctKeys(r))
  {
    var kept := OtherKeys(all, Key(imp));
    var r := kept + [merged];
    forall j | 0 <= j < |r| - 1 ensures !dup(r[j], r[|r| - 1]) {
      assert r[j] == kept[j] && kept[j] in kept;
    }
    OtherKeysKeySet(all, Key(imp));
    KeySetSnoc(kept, merged);
    if DistinctKeys(all) {
      OtherKeysDistinct(all, Key(imp));
      DistinctKeysSnoc(kept, merged);
    }
  }

  lemma AddedKeys(all: seq<Import>, imp: Import,
                  dup: (Import, Import) -> bool, combine: (Import, Import) -> Import)
    requires KeyedMerge(dup, combine) && DistinctKeys(all)
    ensures DistinctKeys(Added(all, imp, dup, combine))
    ensures KeySet(Added(all, imp, dup, combine)) == KeySet(all) + {Key(imp)}
  {
    AddedKeyed(all, imp, dup, combine);
  }

  /** With no import of the given key there is nothing to leave out. */
  lemma {:induction false} OtherKeysOfDistinct(s: seq<Import>, key: (bool, string))
    requires forall j :: 0 <= j < |s| ==> Key(s[j]) != key
    ensures OtherKeys(s, key) == s
  {
    if s != [] {
      OtherKeysOfDistinct(s[1..], key);
    }
  }

  /** The iterator loop and the add. */
  method MergeImport(allImports: seq<Import>, imp: Import,
                     dup: (Import, Import) -> bool, combine: (Import, Import) -> Import)
    returns (r: seq<Import>)
    ensures r == Added(allImports, imp, dup, combine)
  {
    var kept: seq<Import> := [];
    var merged := imp;
    var i := 0;
    assert allImports[0..] == allImports;
    assert kept + Scan(allImports, imp, dup, combine).0 == Scan(allImports, imp, dup, combine).0;
    while i < |allImports|
      invariant 0 <= i <= |allImports|
      invariant Scan(allImports, imp, dup, combine)
        == (kept + Scan(allImports[i..], merged, dup, combine).0, Scan(allImports[i..], merged, dup, combine).1)
    {
      var candidate := allImports[i];
      assert allImports[i..][1..] == allImports[i + 1..];
      if dup(candidate, merged) {
        merged := combine(candidate, merged);
      } else {
        ghost var k := Scan(allImports[i + 1..], merged, dup, combine).0;
        assert kept + ([candidate] + k) == (kept + [candidate]) + k;
        kept := kept + [candidate];
      }
      i := i + 1;
    }
    assert kept + [] == kept;
    if merged !in kept {
      kept := kept + [merged];
    }
    r := kept;
  }

  /** convertAndAddImport: build the import, then merge it into the set. */
  method ConvertAndAddImport(allImports: seq<Import>, thisImport: seq<Node>,
                             dup: (Import, Import) -> bool, combine: (Import, Import) -> Import)
    returns (r: Result<seq<Import>, NullArgument>)
    ensures ImportFrom(thisImport).Failure? ==> r == Failure(ImportFrom(thisImport).error)
    ensures ImportFrom(thisImport).Success? ==>
      r == Success(Added(allImports, ImportFrom(thisImport).value, dup, combine))
  {
    var imp := BuildImport(thisImport);
    if imp.Failure? {
      return Failure(imp.error);
    }
    var merged := MergeImport(allImports, imp.value, dup, combine);
    return Success(merged);
  }

  // ---------------------------------------------------------------------
  // The import section as imports (ImpSort.java:128-166)

  /** The IllegalStateExceptions of convertImportSection. */
  datatype ConvertError =
    | UnknownNode(node: Node)
    | LeftoverComments(comments: seq<Comment>)

  /** The pass over the nodes, with the buffered comments and the imports
      so far. */
  function ConvertFrom(nodes: seq<Node>, recent: seq<Comment>, acc: seq<Import>,
                       dup: (Import, Import) -> bool, combine: (Import, Import) -> Import)
    : Result<seq<Import>, ConvertError>
    decreases |nodes|
  {
    if nodes == [] then
      if recent == [] then Success(acc) else Failure(LeftoverComments(recent))
    else
      match nodes[0]
      case CommentNode(c) => ConvertFrom(nodes[1..], recent + [c], acc, dup, combine)
      case ImportNode(d) =>
        ConvertFrom(nodes[1..], [], Added(acc, DeclarationImport(recent, d), dup, combine), dup, combine)
      case OtherNode(_, _) => Failure(UnknownNode(nodes[0]))
  }

  /** convertImportSection */
  method ConvertImportSection(nodes: seq<Node>,
                              dup: (Import, Import) -> bool, combine: (Import, Import) -> Import)
    returns (r: Result<seq<Import>, ConvertError>)
    ensures r == ConvertFrom(nodes, [], [], dup, combine)
  {
    var recentComments: seq<Comment> := [];
    var allImports: seq<Import> := [];
    for i := 0 to |nodes|
      invariant ConvertFrom(nodes[i..], recentComments, allImports, dup, combine)
        == ConvertFrom(nodes, [], [], dup, combine)
    {
      assert nodes[i..][1..] == nodes[i + 1..];
      var node := nodes[i];
      match node {
        case CommentNode(c) =>
          recentComments := recentComments + [c];
        case ImportNode(d) =>
          var thisImport := ThisImport(recentComments, d);
          ThisImportConverts(recentComments, d);
          ghost var imp := DeclarationImport(recentComments, d);
          recentComments := [];
          var added := ConvertAndAddImport(allImports, thisImport, dup, combine);
          allImports := added.value;
        case OtherNode(_, _) =>
          return Failure(UnknownNode(node));
      }
    }
    assert nodes[|nodes|..] == [];
    if recentComments != [] {
      return Failure(LeftoverComments(recentComments));
    }
    return Success(allImports);
  }

  /** The pass succeeds exactly when every node is a comment or a
      declaration and no comment is left after the last declaration. */
  lemma {:induction false} ConvertFromSucceeds(nodes: seq<Node>, recent: seq<Comment>, acc: seq<Import>,
                                               dup: (Import, Import) -> bool, combine: (Import, Import) -> Import)
    ensures ConvertFrom(nodes, recent, acc, dup, combine).Success? <==> Convertible(nodes, recent)
    decreases |nodes|
  {
    if nodes != [] {
      match nodes[0]
      case CommentNode(c) =>
        ConvertFromSucceeds(nodes[1..], recent + [c], acc, dup, combine);
        ConvertibleTail(nodes, recent, recent + [c]);
      case ImportNode(d) =>
        var acc' := Added(acc, DeclarationImport(recent, d), dup, combine);
        ConvertFromSucceeds(nodes[1..], [], acc', dup, combine);
        ConvertibleTail(nodes, recent, []);
      case OtherNode(_, _) =>
    }
  }

  /** Every node is a comment or a declaration, and the last is a
      declaration; without nodes, no comment is waiting. */
  predicate Convertible(nodes: seq<Node>, recent: seq<Comment>) {
    (forall k :: 0 <= k < |nodes| ==> !nodes[k].OtherNode?)
    && (nodes == [] ==> recent == [])
    && (nodes != [] ==> nodes[|nodes| - 1].ImportNode?)
  }

  /** After a comment the buffer is not empty; after a declaration it is. */
  lemma ConvertibleTail(nodes: seq<Node>, recent: seq<Comment>, recent': seq<Comment>)
    requires nodes != [] && !nodes[0].OtherNode?
    requires recent' == [] <==> nodes[0].ImportNode?
    ensures Convertible(nodes, recent) <==> Convertible(nodes[1..], recent')
  {
    assert forall k :: 1 <= k < |nodes| ==> nodes[k] == nodes[1..][k - 1];
  }

  /** The keys of the declarations among the nodes. */
  function DeclarationKeys(nodes: seq<Node>): set<(bool, string)> {
    if nodes == [] then {}
    else
      var here := if nodes[0].ImportNode? then {(nodes[0].decl.isStatic, ItemName(nodes[0].decl))} else {};
      here + DeclarationKeys(nodes[1..])
  }

  lemma DeclarationImportKey(recent: seq<Comment>, d: ImportDeclaration)
    ensures Key(DeclarationImport(recent, d)) == (d.isStatic, ItemName(d))
  {
  }

  /** Under a keyed merge the pass yields one import per distinct key of the
      declarations: no key is lost and none is repeated. */
  lemma {:induction false} ConvertFromKeys(nodes: seq<Node>, recent: seq<Comment>, acc: seq<Import>,
                                           dup: (Import, Import) -> bool, combine: (Import, Import) -> Import)
    requires KeyedMerge(dup, combine) && DistinctKeys(acc)
    ensures var r := ConvertFrom(nodes, recent, acc, dup, combine);
      r.Success? ==> DistinctKeys(r.value) && KeySet(r.value) == KeySet(acc) + DeclarationKeys(nodes)
    decreases |nodes|
  {
    if nodes != [] {
      match nodes[0]
      case CommentNode(c) =>
        ConvertFromKeys(nodes[1..], recent + [c], acc, dup, combine);
        assert DeclarationKeys(nodes) == DeclarationKeys(nodes[1..]);
      case ImportNode(d) =>
        ConvertFromKeysStep(nodes, recent, acc, dup, combine);
      case OtherNode(_, _) =>
    }
  }

  lemma {:induction false} ConvertFromKeysStep(nodes: seq<Node>, recent: seq<Comment>, acc: seq<Import>,
                                               dup: (Import, Import) -> bool, combine: (Import, Import) -> Import)
    requires KeyedMerge(dup, combine) && DistinctKeys(acc)
    requires nodes != [] && nodes[0].ImportNode?
    ensures var r := ConvertFrom(nodes, recent, acc, dup, combine);
      r.Success? ==> DistinctKeys(r.value) && KeySet(r.value) == KeySet(acc) + DeclarationKeys(nodes)
    decreases |nodes|, 0
  {
    var d := nodes[0].decl;
    var imp := DeclarationImport(recent, d);
    var acc' := Added(acc, imp, dup, combine);
    AddedKeys(acc, imp, dup, combine);
    DeclarationImportKey(recent, d);
    assert ConvertFrom(nodes, recent, acc, dup, combine) == ConvertFrom(nodes[1..], [], acc', dup, combine);
    assert DeclarationKeys(nodes) == {Key(imp)} + DeclarationKeys(nodes[1..]);
    ConvertFromKeys(nodes[1..], [], acc', dup, combine);
  }

  // ---------------------------------------------------------------------
  // Unused imports (ImpSort.java:256-274)

  /** The AssertionError removeUnusedImports raises for a name that has no
      dotted segment at all. */
  datatype RemoveError = InvalidImportStatements

  /** The last element of getImport().split("[.]"), or None when the split
      gives no segment (a name made only of dots). */
  function LastSegment(imp: string): Option<string> {
    var segments := Split(imp, '.');
    if |segments| == 0 then None else Some(segments[|segments| - 1])
  }

  /** The last segment of a dotted name is the text after its last dot. */
  lemma LastSegmentOf(p: string, y: string)
    requires y != [] && '.' !in y
    ensures LastSegment(p + "." + y) == Some(y)
  {
    SplitAllSnoc(p, '.', y);
    var s := p + "." + y;
    assert s == p + ['.'] + y;
    assert s[|p|] == '.';
  }

  /** An import removeIf keeps: a wildcard, or one whose last segment is a
      token in use. */
  predicate Used(i: Import, tokensInUse: set<string>) {
    match LastSegment(i.imp)
    case None => true
    case Some(last) => last == "*" || last in tokensInUse
  }

  /** The imports that survive removeIf, in order. */
  function UsedImports(imports: seq<Import>, tokensInUse: set<string>): (r: seq<Import>)
    ensures forall x :: x in r <==> x in imports && Used(x, tokensInUse)
    ensures Subsequence(r, imports)
  {
    if imports == [] then []
    else
      var rest := UsedImports(imports[1..], tokensInUse);
      assert forall x :: x in imports <==> x == imports[0] || x in imports[1..];
      if Used(imports[0], tokensInUse) then [imports[0]] + rest else rest
  }

  lemma UsedImportsStep(imports: seq<Import>, tokensInUse: set<string>, k: nat)
    requires k < |imports|
    ensures UsedImports(imports[k..], tokensInUse)
      == (if Used(imports[k], tokensInUse) then [imports[k]] else []) + UsedImports(imports[k + 1..], tokensInUse)
  {
    assert imports[k..][1..] == imports[k + 1..];
  }

  /** Every name has a segment to test. */
  predicate AllSegmented(imports: seq<Import>) {
    forall k :: 0 <= k < |imports| ==> LastSegment(imports[k].imp).Some?
  }

  /** removeUnusedImports: the error when some name has no segment, the used
      imports otherwise. */
  method RemoveUnusedImports(imports: seq<Import>, tokensInUse: set<string>)
    returns (r: Result<seq<Import>, RemoveError>)
    ensures !AllSegmented(imports) ==> r == Failure(InvalidImportStatements)
    ensures AllSegmented(imports) ==> r == Success(UsedImports(imports, tokensInUse))
  {
    var kept: seq<Import> := [];
    var n := |imports|;
    assert imports[0..] == imports;
    for k := 0 to n
      invariant forall j :: 0 <= j < k ==> LastSegment(imports[j].imp).Some?
      invariant UsedImports(imports, tokensInUse) == kept + UsedImports(imports[k..], tokensInUse)
    {
      var lastSegment := LastSegment(imports[k].imp);
      if lastSegment.None? {
        return Failure(InvalidImportStatements);
      }
      UsedImportsStep(imports, tokensInUse, k);
      ghost var done := kept;
      var keep := lastSegment.value == "*" || lastSegment.value in tokensInUse;
      if keep {
        kept := kept + [imports[k]];
      }
      KeptStep(UsedImports(imports, tokensInUse), done, kept, UsedImports(imports[k..], tokensInUse),
        UsedImports(imports[k + 1..], tokensInUse), imports[k], keep);
    }
    assert imports[n..] == [];
    assert kept + [] == kept;
    return Success(kept);
  }

  /** A wildcard import is never removed. */
  lemma WildcardsKept(i: Import, p: string, tokensInUse: set<string>)
    requires i.imp == p + ".*"
    ensures Used(i, tokensInUse)
  {
    LastSegmentOf(p, "*");
    assert p + "." + "*" == p + ".*";
  }

  /** Any other import is kept exactly when its last segment is in use. */
  lemma SimpleNameKeptIff(i: Import, p: string, name: string, tokensInUse: set<string>)
    requires name != [] && '.' !in name && name != "*" && i.imp == p + "." + name
    ensures Used(i, tokensInUse) <==> name in tokensInUse
  {
    LastSegmentOf(p, name);
  }

  // ---------------------------------------------------------------------
  // Same-package imports (ImpSort.java:276-290)

  /** The package name, or "" in the default package. */
  function PackageName(pkg: Option<PackageDeclaration>): string {
    if pkg.Some? then pkg.value.name else ""
  }

  /** removeIf's test: in the default package a name without a dot; otherwise
      a name that starts with the package name and has no dot past it. */
  predicate InPackage(imp: string, packageName: string) {
    if packageName == [] then '.' !in imp
    else packageName <= imp && LastIndexOf(imp, '.') <= |packageName|
  }

  /** The imports that survive removeSamePackageImports, in order. */
  function OtherPackages(imports: seq<Import>, packageName: string): (r: seq<Import>)
    ensures forall x :: x in r <==> x in imports && !InPackage(x.imp, packageName)
    ensures Subsequence(r, imports)
  {
    if imports == [] then []
    else
      var rest := OtherPackages(imports[1..], packageName);
      assert forall x :: x in imports <==> x == imports[0] || x in imports[1..];
      if !InPackage(imports[0].imp, packageName) then [imports[0]] + rest else rest
  }

  lemma OtherPackagesStep(imports: seq<Import>, packageName: string, k: nat)
    requires k < |imports|
    ensures OtherPackages(imports[k..], packageName)
      == (if InPackage(imports[k].imp, packageName) then [] else [imports[k]])
         + OtherPackages(imports[k + 1..], packageName)
  {
    assert imports[k..][1..] == imports[k + 1..];
  }

  /** removeSamePackageImports */
  method RemoveSamePackageImports(imports: seq<Import>, pkg: Option<PackageDeclaration>)
    returns (r: seq<Import>)
    ensures r == OtherPackages(imports, PackageName(pkg))
  {
    var packageName := if pkg.Some? then pkg.value.name else "";
    r := [];
    var n := |imports|;
    assert imports[0..] == imports;
    for k := 0 to n
      invariant OtherPackages(imports, packageName) == r + OtherPackages(imports[k..], packageName)
    {
      var imp := imports[k].imp;
      var remove := InPackage(imp, packageName);
      OtherPackagesStep(imports, packageName, k);
      ghost var done := r;
      if !remove {
        r := r + [imports[k]];
      }
      KeptStep(OtherPackages(imports, packageName), done, r, OtherPackages(imports[k..], packageName),
        OtherPackages(imports[k + 1..], packageName), imports[k], !remove);
    }
    assert imports[n..] == [];
  }

  /** A class of the package itself is removed. */
  lemma ClassOfPackageRemoved(pkg: string, name: string)
    requires pkg != [] && '.' !in name
    ensures InPackage(pkg + "." + name, pkg)
  {
    var s := pkg + "." + name;
    assert s[|pkg|] == '.';
    assert s[|pkg| + 1..] == name;
  }

  /** A name with a dot past the end of the package name is kept: a class
      of a sub-package, or of a package whose name merely starts with it. */
  lemma DotPastPackageKept(pkg: string, mid: string, name: string)
    requires pkg != [] && mid != []
    ensures !InPackage(pkg + mid + "." + name, pkg)
  {
    var s := pkg + mid + "." + name;
    assert s[|pkg| + |mid|] == '.';
  }

  /** A name that does not start with the package name is kept. */
  lemma OtherPrefixKept(imp: string, pkg: string)
    requires pkg != [] && !(pkg <= imp)
    ensures !InPackage(imp, pkg)
  {
  }

  // ---------------------------------------------------------------------
  // parseFile (ImpSort.java:61-128)

  /** The settings an ImpSort instance sorts with (the character set is
      not modelled: the lines arrive decoded). */
  datatype Sorter = Sorter(grouper: Grouper, removeUnused: bool, treatSamePackageAsUnused: bool)

  /** Why parseFile gives up: the parser found no compilation unit (an
      IOException naming the path), or an import name has no last segment
      (the AssertionError of removeUnusedImports). */
  datatype ParseError = UnableToParse(path: string) | InvalidImport

  /** The section's line range as ImpSort.java:94-105 computes it: from the
      line before the first node's own line to the last node's end line,
      widened over the blank lines around it. */
  function SectionRange(fileLines: seq<string>, u: CompilationUnit): (r: (int, int))
    requires u.imports != [] && WithinFile(u, |fileLines|)
    ensures 0 <= r.0 <= r.1 <= |fileLines|
    ensures r.0 == 0 || !IsBlank(fileLines[r.0 - 1])
    ensures r.1 == |fileLines| || !IsBlank(fileLines[r.1])
  {
    var nodes := SectionNodes(u);
    SectionRangeWithin(u, |fileLines|);
    (WidenedStart(fileLines, StartAsWritten(nodes)), WidenedStop(fileLines, SectionStop(nodes)))
  }

  /** The imports that stay after the optional removal of unused and
      same-package ones. */
  function KeptImports(s: Sorter, all: seq<Import>, tokensInUse: set<string>,
                       pkg: Option<PackageDeclaration>): (r: Result<seq<Import>, RemoveError>)
    ensures r.Success? ==> Subsequence(r.value, all)
    ensures r.Failure? <==> s.removeUnused && !AllSegmented(all)
  {
    if !s.removeUnused then SubsequenceRefl(all); Success(all)
    else if !AllSegmented(all) then Failure(InvalidImportStatements)
    else
      var used := UsedImports(all, tokensInUse);
      if s.treatSamePackageAsUnused then
        var other := OtherPackages(used, PackageName(pkg));
        SubsequenceTransitive(other, used, all);
        Success(other)
      else Success(used)
  }

  /** ImpSort.parseFile on a file's lines and what the parser made of them.
      A file without imports gives an empty section covering the whole
      file; otherwise the section is SectionRange, widened from the line
      before the first node's own line to the last node's end, its imports
      are those converted from its nodes (which never fails here) less the
      removed ones, and the new section is the grouper's text for them. */
  method ParseFile(s: Sorter, path: string, fileLines: seq<string>, parsed: Option<CompilationUnit>,
                   tokensInUse: set<string>,
                   dup: (Import, Import) -> bool, combine: (Import, Import) -> Import)
    returns (r: Result<Results.Result, ParseError>)
    requires ValidGroups(s.grouper.groups) && ValidGroups(s.grouper.staticGroups)
    requires parsed.Some? ==> WithinFile(parsed.value, |fileLines|)
    ensures parsed.None? ==> r == Failure(UnableToParse(path))
    ensures r.Success? ==> fresh(r.value) && r.value.Valid() && r.value.isSorted == None
                           && r.value.path == path && r.value.fileLines == fileLines
    ensures parsed.Some? && parsed.value.imports == [] ==>
      && r.Success? && r.value.start == 0 && r.value.stop == |fileLines|
      && r.value.originalSection == "" && r.value.newSection == "" && r.value.allImports == []
    ensures parsed.Some? && parsed.value.imports != [] ==>
      var u := parsed.value;
      var (start, stop) := SectionRange(fileLines, u);
      var converted := ConvertFrom(SectionNodes(u), [], [], dup, combine);
      && converted.Success?
      && match KeptImports(s, converted.value, tokensInUse, u.packageDeclaration)
         case Failure(_) => r == Failure(InvalidImport)
         case Success(imports) =>
           && r.Success? && r.value.start == start && r.value.stop == stop
           && r.value.originalSection == OriginalSection(fileLines, start, stop)
           && r.value.newSection == Wrap(Results.Terminated(GroupedLines(s.grouper, imports)), start, stop, |fileLines|)
           && r.value.allImports == imports
  {
    if parsed.None? {
      return Failure(UnableToParse(path));
    }
    var unit := parsed.value;
    if unit.imports == [] {
      var empty := new Results.Result(path, fileLines, 0, |fileLines|, "", "", []);
      return Success(empty);
    }
    var nodes := SectionNodes(unit);
    SectionRangeWithin(unit, |fileLines|);
    var start, stop := Widen(fileLines, StartAsWritten(nodes), SectionStop(nodes));
    var originalSection := Join(fileLines[start..stop], "\n") + "\n";
    var converted := ConvertImportSection(nodes, dup, combine);
    SectionNodesShape(unit);
    ConvertFromSucceeds(nodes, [], [], dup, combine);
    var allImports := converted.value;
    if s.removeUnused {
      var used := RemoveUnusedImports(allImports, tokensInUse);
      if used.Failure? {
        return Failure(InvalidImport);
      }
      allImports := used.value;
      if s.treatSamePackageAsUnused {
        allImports := RemoveSamePackageImports(allImports, unit.packageDeclaration);
      }
    }
    var body := SectionBody(s.grouper, allImports);
    var newSection := WrapSection(body, start, stop, |fileLines|);
    var res := new Results.Result(path, fileLines, start, stop, originalSection, newSection, allImports);
    return Success(res);
  }

  // ---------------------------------------------------------------------
  // The first line of the section (ImpSort.java:94-95)

  /** Counted from the first node's own line, the section can begin after
      the comment attached to that node: in a four-line file whose third
      line is the comment of the import on the fourth, the section starts at
      the fourth line, so the comment stays in the lines kept before it, and
      its trimmed text is also the import's prefix, written again inside the
      new section. */
  lemma StartAsWrittenSplitsComment(first: string, t: string, last: string, p: string, n: string)
    requires !IsBlank(t)
    ensures var d := ImportDeclaration(Position(4, 1), Position(4, 9), false, n, false,
                                       Some(Comment(Position(3, 1), Position(3, 5), t)));
      var u := CompilationUnit(Position(1, 1), Some(PackageDeclaration(p, Position(1, 9))), [d], []);
      var fileLines := [first, "", t, last];
      && SectionNodes(u) == [ImportNode(d)]
      && WithinFile(u, |fileLines|)
      && var start := SectionRange(fileLines, u).0;
      && start == 3 && fileLines[start - 1] == t
      && DeclarationImport([], d).prefix == Trim(t) && Trim(t) != ""
  {
    var d := ImportDeclaration(Position(4, 1), Position(4, 9), false, n, false,
                               Some(Comment(Position(3, 1), Position(3, 5), t)));
    var u := CompilationUnit(Position(1, 1), Some(PackageDeclaration(p, Position(1, 9))), [d], []);
    var input := CommentNodes([]) + ImportNodes([d]);
    assert input == [ImportNode(d)];
    SortPermutation(input, ByPosition);
    assert multiset(SectionNodes(u)) == multiset{ImportNode(d)};
    assert |SectionNodes(u)| == 1;
    assert SectionNodes(u)[0] in multiset(SectionNodes(u));
    assert [first, "", t, last][2] == t;
    assert "" + t == t;
    BlankIffTrimEmpty(t);
  }

  /** The first node is a declaration whose attached comment begins on an
      earlier line. */
  predicate CommentOpensSection(nodes: seq<Node>) {
    nodes != [] && nodes[0].ImportNode? && nodes[0].decl.comment.Some?
    && nodes[0].decl.comment.value.begin.line < nodes[0].decl.begin.line
  }

  /** The section's line range as it is evidently meant, since the
      converter already writes the first declaration's attached comment as
      that import's prefix (ImpSort.java:142-147): widened from the line
      before that comment. It moves only the start, never past the start as
      written, and only when such a comment opens the section. */
  function CorrectedSectionRange(fileLines: seq<string>, u: CompilationUnit): (r: (int, int))
    requires u.imports != [] && WithinFile(u, |fileLines|)
    ensures 0 <= r.0 <= r.1 <= |fileLines|
    ensures r.0 <= SectionRange(fileLines, u).0 && r.1 == SectionRange(fileLines, u).1
    ensures !CommentOpensSection(SectionNodes(u)) ==> r == SectionRange(fileLines, u)
  {
    var nodes := SectionNodes(u);
    SectionRangeWithin(u, |fileLines|);
    WidenedStartMonotone(fileLines, SectionStart(nodes), StartAsWritten(nodes));
    (WidenedStart(fileLines, SectionStart(nodes)), WidenedStop(fileLines, SectionStop(nodes)))
  }

  /** Widening from an earlier line never ends later. */
  lemma {:induction false} WidenedStartMonotone(lines: seq<string>, a: int, b: int)
    requires 0 <= a <= b <= |lines|
    ensures WidenedStart(lines, a) <= WidenedStart(lines, b)
    decreases b
  {
    if a < b && IsBlank(lines[b - 1]) {
      WidenedStartMonotone(lines, a, b - 1);
    }
  }

  /** Counted from the line of the comment attached to the first node, the
      section begins no later than that comment and than every node's own
      line, so no text of a node lies before the section. */
  lemma SectionCoversFirstComment(fileLines: seq<string>, u: CompilationUnit)
    requires u.imports != [] && WithinFile(u, |fileLines|)
    ensures var nodes := SectionNodes(u);
      var start := CorrectedSectionRange(fileLines, u).0;
      && (forall k :: 0 <= k < |nodes| ==> start < Begin(nodes[k]).line)
      && (nodes[0].ImportNode? && nodes[0].decl.comment.Some? ==>
            start < nodes[0].decl.comment.value.begin.line)
  {
    var nodes := SectionNodes(u);
    SectionNodesShape(u);
    SectionRangeWithin(u, |fileLines|);
    forall k | 0 < k < |nodes|
      ensures Begin(nodes[0]).line <= Begin(nodes[k]).line
    {
      assert ByPosition(nodes[0], nodes[k]);
    }
  }

  // ---------------------------------------------------------------------
  // The file saveSorted writes for a parsed section (ImpSort.java:116-124,
  // Result.java:79-100)

  /** Section lines that end with a non-blank line and hold no line break
      are written as they are, apart from the rest of the file by exactly
      one blank line on each side where the file goes on. */
  lemma SavedLines(fileLines: seq<string>, start: int, stop: int, ls: seq<string>)
    requires 0 <= start <= stop <= |fileLines|
    requires ls != [] && IsLine(ls[|ls| - 1])
    requires forall k :: 0 <= k < |ls| ==> '\n' !in ls[k]
    ensures var pre: seq<string> := if start > 0 then [""] else [];
      var post: seq<string> := if stop < |fileLines| then [""] else [];
      Results.Spliced(fileLines, start, stop, Wrap(Results.Terminated(ls), start, stop, |fileLines|))
        == fileLines[..start] + pre + ls + post + fileLines[stop..]
  {
    var pre: seq<string> := if start > 0 then [""] else [];
    var post: seq<string> := if stop < |fileLines| then [""] else [];
    WrapLines(ls, start, stop, |fileLines|);
    SplicedFramed(fileLines, start, stop, pre, ls, post);
  }

  lemma SplicedFramed(fileLines: seq<string>, start: int, stop: int,
                      pre: seq<string>, ls: seq<string>, post: seq<string>)
    requires 0 <= start <= stop <= |fileLines|
    requires pre == [] || pre == [""]
    requires post == (if stop < |fileLines| then [""] else [])
    requires ls != [] && IsLine(ls[|ls| - 1])
    requires forall k :: 0 <= k < |ls| ==> '\n' !in ls[k]
    ensures Results.Spliced(fileLines, start, stop, Results.Terminated(pre + ls + post))
      == fileLines[..start] + pre + ls + post + fileLines[stop..]
  {
    var sec := pre + ls + post;
    NoBreakFramed(pre, ls, post);
    Results.SplicedSection(fileLines, start, stop, sec);
    DropTrailingFramed(pre + ls, post);
    var before := fileLines[..start];
    assert before + (pre + ls) == before + pre + ls;
  }

  lemma NoBreakFramed(pre: seq<string>, ls: seq<string>, post: seq<string>)
    requires pre == [] || pre == [""]
    requires post == [] || post == [""]
    requires forall k :: 0 <= k < |ls| ==> '\n' !in ls[k]
    ensures forall k :: 0 <= k < |pre + ls + post| ==> '\n' !in (pre + ls + post)[k]
  {
  }

  lemma DropTrailingFramed(body: seq<string>, post: seq<string>)
    requires body != [] && IsLine(body[|body| - 1])
    requires post == [] || post == [""]
    ensures DropTrailingEmpty(body + post) == body
  {
    if post != [] {
      assert (body + post)[..|body + post| - 1] == body;
    }
  }

  /** The grouper's lines for a non-empty section, when no import text
      spans lines, are saved that way. */
  lemma SavedGroupedSection(g: Grouper, imports: seq<Import>, fileLines: seq<string>, start: int, stop: int)
    requires 0 <= start <= stop <= |fileLines|
    requires GroupedLines(g, imports) != []
    requires forall k :: 0 <= k < |GroupedLines(g, imports)| ==> '\n' !in GroupedLines(g, imports)[k]
    ensures var pre: seq<string> := if start > 0 then [""] else [];
      var post: seq<string> := if stop < |fileLines| then [""] else [];
      var ls := GroupedLines(g, imports);
      Results.Spliced(fileLines, start, stop, Wrap(Results.Terminated(ls), start, stop, |fileLines|))
        == fileLines[..start] + pre + ls + post + fileLines[stop..]
  {
    GroupedLinesOrder(g, imports);
    SavedLines(fileLines, start, stop, GroupedLines(g, imports));
  }
}
