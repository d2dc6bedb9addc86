/** Source positions as the Java parser reports them: a 1-based line and a
    column. */
module Positions {

  datatype Position = Position(line: int, column: int)

  /** Position.isBefore: strictly earlier in the file. */
  predicate IsBefore(p: Position, q: Position) {
    p.line < q.line || (p.line == q.line && p.column < q.column)
  }

  /** Position.isAfter: strictly later in the file. */
  predicate IsAfter(p: Position, q: Position) {
    p.line > q.line || (p.line == q.line && p.column > q.column)
  }

  /** Position.compareTo(q) <= 0 */
  predicate NotAfter(p: Position, q: Position) {
    !IsAfter(p, q)
  }

  /** Two positions are equal or one is before the other. */
  lemma Trichotomy(p: Position, q: Position)
    ensures IsBefore(p, q) || p == q || IsBefore(q, p)
    ensures IsAfter(p, q) <==> IsBefore(q, p)
    ensures !(IsBefore(p, q) && IsBefore(q, p))
  {
  }

  lemma BeforeTransitive(p: Position, q: Position, r: Position)
    requires IsBefore(p, q) && IsBefore(q, r)
    ensures IsBefore(p, r)
  {
  }

  /** A stretch of text from one position to another, both included
      (JavaParser's Range). */
  datatype Range = Range(begin: Position, end: Position)

  /** Range.isBefore(position): the range ends before the position. */
  predicate RangeIsBefore(r: Range, p: Position) {
    IsBefore(r.end, p)
  }
}
