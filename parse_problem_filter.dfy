/** ParseProblemFilter.getImportRelevantProblems: of the problems the Java
    parser reports, keep only those that begin before the first top-level
    type declaration, since only those can concern the import section. */
module ParseProblems {
  import opened Wrappers
  import opened Sequences
  import opened Positions

  /** The location of a problem: the range of its first token, when the
      token has one. */
  datatype TokenLocation = TokenLocation(beginRange: Option<Range>)

  /** A parse problem and its location, when it has one. */
  datatype Problem = Problem(message: string, location: Option<TokenLocation>)

  /** The earliest of the begin positions that are present (the stream's
      sorted().findFirst()). */
  function FirstBegin(begins: seq<Option<Position>>): (r: Option<Position>)
    ensures r.None? <==> forall k :: 0 <= k < |begins| ==> begins[k].None?
    ensures r.Some? ==> exists k :: 0 <= k < |begins| && begins[k] == r
    ensures r.Some? ==> forall k :: 0 <= k < |begins| && begins[k].Some? ==> NotAfter(r.value, begins[k].value)
  {
    if begins == [] then None
    else
      var rest := FirstBegin(begins[1..]);
      assert forall k :: 1 <= k < |begins| ==> begins[k] == begins[1..][k - 1];
      match begins[0]
      case None => rest
      case Some(p) =>
        if rest.None? || NotAfter(p, rest.value) then
          NotAfterTransitive(p, rest);
          Some(p)
        else
          assert IsBefore(rest.value, p) by { Trichotomy(rest.value, p); }
          rest
  }

  lemma NotAfterTransitive(p: Position, rest: Option<Position>)
    requires rest.None? || NotAfter(p, rest.value)
    ensures forall q :: rest.Some? && NotAfter(rest.value, q) ==> NotAfter(p, q)
  {
  }

  /** The problem's first token has a range and that range ends before the
      given position; a problem without either is not relevant. */
  predicate BeginsBefore(pr: Problem, first: Position) {
    match pr.location
    case None => false
    case Some(loc) =>
      match loc.beginRange
      case None => false
      case Some(r) => RangeIsBefore(r, first)
  }

  function BeginsBeforeOf(first: Position): Problem -> bool {
    (pr: Problem) => BeginsBefore(pr, first)
  }

  /** ParseProblemFilter.getImportRelevantProblems over the begin positions
      of the unit's top-level types. */
  function ImportRelevantProblems(typeBegins: seq<Option<Position>>, problems: seq<Problem>): seq<Problem> {
    match FirstBegin(typeBegins)
    case None => problems
    case Some(first) => Filter(problems, BeginsBeforeOf(first))
  }

  /** Without a top-level type that has a position the problems come back
      unchanged; otherwise the result keeps, in order, exactly the problems
      whose first token's range ends before the earliest type begins. */
  lemma RelevantProblems(typeBegins: seq<Option<Position>>, problems: seq<Problem>)
    ensures var r := ImportRelevantProblems(typeBegins, problems);
      Subsequence(r, problems)
      && ((forall k :: 0 <= k < |typeBegins| ==> typeBegins[k].None?) ==> r == problems)
      && (FirstBegin(typeBegins).Some? ==>
          forall pr :: pr in r <==> pr in problems && BeginsBefore(pr, FirstBegin(typeBegins).value))
  {
    match FirstBegin(typeBegins)
    case None =>
      SubsequenceRefl(problems);
    case Some(first) =>
      FilterSubsequence(problems, BeginsBeforeOf(first));
  }

  /** A problem without a location, or whose first token has no range, is
      dropped once some type has a position. */
  lemma UnlocatedDropped(typeBegins: seq<Option<Position>>, problems: seq<Problem>, pr: Problem)
    requires FirstBegin(typeBegins).Some?
    requires pr.location.None? || pr.location.value.beginRange.None?
    ensures pr !in ImportRelevantProblems(typeBegins, problems)
  {
    FilterSubsequence(problems, BeginsBeforeOf(FirstBegin(typeBegins).value));
  }
}
