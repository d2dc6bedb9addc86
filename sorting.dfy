/** A stable sort, the model of java.util.List.sort / Collections.sort with a
    comparator: the source only ever sorts with a comparator whose ties must
    keep their encounter order, which List.sort guarantees. The sort is an
    insertion sort over values; `le(a, b)` stands for `compare(a, b) <= 0`. */
module Sorting {

  ghost predicate Total<T(!new)>(le: (T, T) -> bool) {
    forall a, b :: le(a, b) || le(b, a)
  }

  ghost predicate Transitive<T(!new)>(le: (T, T) -> bool) {
    forall a, b, c :: le(a, b) && le(b, c) ==> le(a, c)
  }

  predicate SortedBy<T>(s: seq<T>, le: (T, T) -> bool) {
    forall i, j :: 0 <= i < j < |s| ==> le(s[i], s[j])
  }

  /** Every pair of elements whose order the sort was free to choose (the later
      one is not greater than the earlier one) is ordered by pre. */
  predicate TiesOrderedBy<T>(s: seq<T>, le: (T, T) -> bool, pre: (T, T) -> bool) {
    forall i, j :: 0 <= i < j < |s| && le(s[j], s[i]) ==> pre(s[i], s[j])
  }

  /** Inserts x before the first element it is not greater than. */
  function Insert<T>(x: T, s: seq<T>, le: (T, T) -> bool): (r: seq<T>)
    ensures |r| == |s| + 1
  {
    if s == [] then [x]
    else if le(x, s[0]) then [x] + s
    else [s[0]] + Insert(x, s[1..], le)
  }

  /** Insertion adds x and loses nothing. */
  lemma {:induction false} InsertPermutation<T>(x: T, s: seq<T>, le: (T, T) -> bool)
    ensures multiset(Insert(x, s, le)) == multiset(s) + multiset{x}
  {
    if s != [] && !le(x, s[0]) {
      InsertPermutation(x, s[1..], le);
      assert s == [s[0]] + s[1..];
    }
  }

  /** The stable sort of s; the earlier of two equal elements is inserted
      last, in front of the other. */
  function Sort<T>(s: seq<T>, le: (T, T) -> bool): (r: seq<T>)
    ensures |r| == |s|
  {
    if s == [] then [] else Insert(s[0], Sort(s[1..], le), le)
  }

  /** The sort is a permutation of its input. */
  lemma {:induction false} SortPermutation<T>(s: seq<T>, le: (T, T) -> bool)
    ensures multiset(Sort(s, le)) == multiset(s)
  {
    if s != [] {
      SortPermutation(s[1..], le);
      InsertPermutation(s[0], Sort(s[1..], le), le);
      assert s == [s[0]] + s[1..];
    }
  }

  lemma {:induction false} InsertSorted<T(!new)>(x: T, s: seq<T>, le: (T, T) -> bool)
    requires Total(le) && Transitive(le)
    requires SortedBy(s, le)
    ensures SortedBy(Insert(x, s, le), le)
  {
    if s != [] && !le(x, s[0]) {
      var t := Insert(x, s[1..], le);
      InsertSorted(x, s[1..], le);
      InsertPermutation(x, s[1..], le);
      forall k | 0 <= k < |t|
        ensures le(s[0], t[k])
      {
        assert t[k] in multiset(t);
        if t[k] != x {
          assert t[k] in multiset(s[1..]);
          var m :| 0 <= m < |s[1..]| && s[1..][m] == t[k];
          assert s[m + 1] == t[k];
        }
      }
    }
  }

  /** The result of Sort is ordered. */
  lemma {:induction false} SortSorted<T(!new)>(s: seq<T>, le: (T, T) -> bool)
    requires Total(le) && Transitive(le)
    ensures SortedBy(Sort(s, le), le)
  {
    if s != [] {
      SortSorted(s[1..], le);
      InsertSorted(s[0], Sort(s[1..], le), le);
    }
  }

  lemma {:induction false} InsertTies<T>(x: T, s: seq<T>, le: (T, T) -> bool, pre: (T, T) -> bool)
    requires TiesOrderedBy(s, le, pre)
    requires forall k :: 0 <= k < |s| ==> pre(x, s[k])
    ensures TiesOrderedBy(Insert(x, s, le), le, pre)
  {
    if s != [] && !le(x, s[0]) {
      var t := Insert(x, s[1..], le);
      InsertTies(x, s[1..], le, pre);
      InsertPermutation(x, s[1..], le);
      var r := [s[0]] + t;
      forall j | 0 < j < |r| && le(r[j], r[0])
        ensures pre(r[0], r[j])
      {
        var y := t[j - 1];
        assert y in multiset(t);
        if y == x {
          assert false;
        } else {
          assert y in multiset(s[1..]);
          var m :| 0 <= m < |s[1..]| && s[1..][m] == y;
          assert s[m + 1] == y;
        }
      }
    }
  }

  /** Stability: when the input is ordered by pre, pairs the order le does not
      separate come out ordered by pre. */
  lemma {:induction false} SortStable<T>(s: seq<T>, le: (T, T) -> bool, pre: (T, T) -> bool)
    requires forall i, j :: 0 <= i < j < |s| ==> pre(s[i], s[j])
    ensures TiesOrderedBy(Sort(s, le), le, pre)
  {
    if s != [] {
      var t := Sort(s[1..], le);
      SortStable(s[1..], le, pre);
      SortPermutation(s[1..], le);
      forall k | 0 <= k < |t|
        ensures pre(s[0], t[k])
      {
        assert t[k] in multiset(s[1..]);
        var m :| 0 <= m < |s[1..]| && s[1..][m] == t[k];
        assert s[m + 1] == t[k];
      }
      InsertTies(s[0], t, le, pre);
    }
  }

  /** A sequence already in order is left as it is. */
  lemma {:induction false} SortOfSorted<T>(s: seq<T>, le: (T, T) -> bool)
    requires SortedBy(s, le)
    ensures Sort(s, le) == s
  {
    if s != [] {
      SortOfSorted(s[1..], le);
      assert s == [s[0]] + s[1..];
    }
  }
}
