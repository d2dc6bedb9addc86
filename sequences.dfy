/** Order-preserving filtering and concatenation of sequences, the model of
    Java's removeIf / stream().filter(...) over ordered collections. */
module Sequences {

  /** The elements of s that satisfy p, in their original order. */
  function Filter<T>(s: seq<T>, p: T -> bool): (r: seq<T>)
    ensures |r| <= |s|
    ensures forall i :: 0 <= i < |r| ==> p(r[i])
  {
    if s == [] then []
    else
      var rest := Filter(s[1..], p);
      assert s == [s[0]] + s[1..];
      if p(s[0]) then [s[0]] + rest else rest
  }

  /** The filter keeps exactly the elements that satisfy p, with their
      multiplicities. */
  lemma {:induction false} FilterMultiset<T>(s: seq<T>, p: T -> bool, x: T)
    ensures multiset(Filter(s, p))[x] == if p(x) then multiset(s)[x] else 0
  {
    if s != [] {
      var t := s[1..];
      FilterMultiset(t, p, x);
      assert s == [s[0]] + t;
      assert Filter(s, p) == (if p(s[0]) then [s[0]] else []) + Filter(t, p);
    }
  }

  /** Filtering one more element. */
  lemma {:induction false} FilterSnoc<T>(s: seq<T>, x: T, p: T -> bool)
    ensures Filter(s + [x], p) == if p(x) then Filter(s, p) + [x] else Filter(s, p)
  {
    var u := s + [x];
    if s == [] {
      assert u[1..] == [];
    } else {
      var t := s[1..];
      assert u[0] == s[0] && u[1..] == t + [x];
      FilterSnoc(t, x, p);
      FilterCons(u, p, s[0], t + [x]);
      FilterCons(s, p, s[0], t);
      SnocBehindHead(s[0], Filter(t, p), x, p(s[0]), p(x), Filter(t + [x], p), Filter(u, p), Filter(s, p));
    }
  }

  /** One step of the filter's recursion. */
  lemma FilterCons<T>(u: seq<T>, p: T -> bool, h: T, tail: seq<T>)
    requires u != [] && u[0] == h && u[1..] == tail
    ensures Filter(u, p) == if p(h) then [h] + Filter(tail, p) else Filter(tail, p)
  {
  }

  /** The rearrangement behind FilterSnoc: a kept head and a kept last
      element end up on either side of the rest. */
  lemma SnocBehindHead<T>(h: T, rest: seq<T>, x: T, keepH: bool, keepX: bool, a: seq<T>, b: seq<T>, c: seq<T>)
    requires a == if keepX then rest + [x] else rest
    requires b == if keepH then [h] + a else a
    requires c == if keepH then [h] + rest else rest
    ensures b == if keepX then c + [x] else c
  {
    if keepH && keepX {
      assert [h] + (rest + [x]) == ([h] + rest) + [x];
    }
  }

  /** Concatenation of a sequence of sequences. */
  function Flatten<T>(xs: seq<seq<T>>): seq<T> {
    if xs == [] then [] else xs[0] + Flatten(xs[1..])
  }

  lemma {:induction false} FlattenSnoc<T>(xs: seq<seq<T>>, x: seq<T>)
    ensures Flatten(xs + [x]) == Flatten(xs) + x
  {
    if xs == [] {
      assert xs + [x] == [x];
      assert Flatten([x]) == x + Flatten([x][1..]);
    } else {
      assert (xs + [x])[1..] == xs[1..] + [x];
      FlattenSnoc(xs[1..], x);
    }
  }
  /** No element occurs twice. */
  predicate Distinct<T(==)>(s: seq<T>) {
    forall i, j :: 0 <= i < j < |s| ==> s[i] != s[j]
  }

  lemma {:induction false} DistinctCount<T>(s: seq<T>, x: T)
    requires Distinct(s)
    ensures multiset(s)[x] <= 1
  {
    if s != [] {
      assert s == [s[0]] + s[1..];
      DistinctCount(s[1..], x);
      if s[0] == x {
        assert x !in s[1..];
      }
    }
  }

  lemma TwiceCount<T>(r: seq<T>, i: nat, j: nat)
    requires i < j < |r| && r[i] == r[j]
    ensures multiset(r)[r[i]] >= 2
  {
    assert r == r[..j] + [r[j]] + r[j + 1..];
    assert r[i] in r[..j];
  }

  /** A permutation of a sequence without repetitions has none either. */
  lemma PermutationDistinct<T>(s: seq<T>, r: seq<T>)
    requires multiset(r) == multiset(s) && Distinct(s)
    ensures Distinct(r)
  {
    forall i, j | 0 <= i < j < |r|
      ensures r[i] != r[j]
    {
      if r[i] == r[j] {
        TwiceCount(r, i, j);
        DistinctCount(s, r[i]);
      }
    }
  }

  /** A non-empty sequence is its front followed by its last element. */
  lemma LastSplit<T>(s: seq<T>)
    requires s != []
    ensures s == s[..|s| - 1] + [s[|s| - 1]]
  {
  }

  /** A filtering loop's step: whole is what was kept so far followed by
      the rest's filtering, and x is kept or not. */
  lemma KeptStep<T>(whole: seq<T>, kept: seq<T>, kept': seq<T>, tail: seq<T>, rest: seq<T>, x: T, keep: bool)
    requires whole == kept + tail
    requires tail == (if keep then [x] else []) + rest
    requires kept' == kept + (if keep then [x] else [])
    ensures whole == kept' + rest
  {
  }

  /** r is s with some elements left out, the rest in their order. */
  predicate Subsequence<T(==)>(r: seq<T>, s: seq<T>)
    decreases |s|
  {
    r == [] || (s != [] && ((r[0] == s[0] && Subsequence(r[1..], s[1..])) || Subsequence(r, s[1..])))
  }

  /** A filter keeps exactly the elements that pass, in their order. */
  lemma {:induction false} FilterSubsequence<T>(s: seq<T>, p: T -> bool)
    ensures Subsequence(Filter(s, p), s)
    ensures forall x :: x in Filter(s, p) <==> x in s && p(x)
  {
    if s != [] {
      FilterSubsequence(s[1..], p);
      assert s == [s[0]] + s[1..];
    }
  }

  /** Leaving nothing out. */
  lemma {:induction false} SubsequenceRefl<T>(s: seq<T>)
    ensures Subsequence(s, s)
    decreases |s|
  {
    if s != [] {
      SubsequenceRefl(s[1..]);
    }
  }

  /** Leaving out elements twice is leaving them out once. */
  lemma {:induction false} SubsequenceTransitive<T>(a: seq<T>, b: seq<T>, c: seq<T>)
    requires Subsequence(a, b) && Subsequence(b, c)
    ensures Subsequence(a, c)
    decreases |c|
  {
    if a != [] {
      assert b != [] && c != [];
      if b[0] == c[0] && Subsequence(b[1..], c[1..]) {
        if a[0] == b[0] && Subsequence(a[1..], b[1..]) {
          SubsequenceTransitive(a[1..], b[1..], c[1..]);
        } else {
          SubsequenceTransitive(a, b[1..], c[1..]);
        }
      } else {
        SubsequenceTransitive(a, b, c[1..]);
      }
    }
  }
}
