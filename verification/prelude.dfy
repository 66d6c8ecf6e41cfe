/** Small shared vocabulary: optional and failure-carrying values, and the greatest
    element of a finite set of integers (used for a sheet's max_row / max_column). */
module Prelude {

  /** Python's `None`-or-value. */
  datatype Option<+T> = None | Some(value: T)

  /** An operation that either produces a value or stops with an error. */
  datatype Result<+T, +E> = Success(value: T) | Failure(error: E)

  function Min(a: int, b: int): int { if a <= b then a else b }

  function Max(a: int, b: int): int { if a <= b then b else a }

  /** A set is empty or has a member. */
  lemma Inhabited(s: set<int>)
    ensures s == {} || exists y :: y in s
  {
    if forall y: int :: y !in s {
      assert s == {};
    }
  }

  /** Every finite non-empty set of integers has a greatest element. */
  lemma {:induction false} HasGreatest(s: set<int>)
    requires s != {}
    ensures exists m :: m in s && forall x :: x in s ==> x <= m
    decreases |s|
  {
    Inhabited(s);
    var y :| y in s;
    var rest := s - {y};
    assert forall x :: x in s ==> x == y || x in rest;
    if rest == {} {
      assert forall x :: x in s ==> x == y;
    } else {
      HasGreatest(rest);
      var m :| m in rest && forall x :: x in rest ==> x <= m;
      assert m in s;
      if m < y {
        assert forall x :: x in s ==> x <= y;
      } else {
        assert forall x :: x in s ==> x <= m;
      }
    }
  }

  /** The greatest element of a finite non-empty set of integers. */
  function Greatest(s: set<int>): (m: int)
    requires s != {}
    ensures m in s
    ensures forall x :: x in s ==> x <= m
  {
    HasGreatest(s);
    var m :| m in s && forall x :: x in s ==> x <= m; m
  }

  /** The greatest element is the only member of the set bounding all others. */
  lemma GreatestUnique(s: set<int>, m: int)
    requires m in s
    requires forall x :: x in s ==> x <= m
    ensures Greatest(s) == m
  {
  }

  /** The concatenation of a sequence of sequences (Python's `sum(chunks, [])`). */
  function Concat<T>(ss: seq<seq<T>>): (r: seq<T>)
    decreases |ss|
  {
    if |ss| == 0 then [] else Concat(ss[..|ss| - 1]) + ss[|ss| - 1]
  }

  lemma {:induction false} ConcatAppend<T>(ss: seq<seq<T>>, t: seq<T>)
    ensures Concat(ss + [t]) == Concat(ss) + t
  {
    assert (ss + [t])[..|ss|] == ss;
  }

  lemma {:induction false} ConcatLength<T>(ss: seq<seq<T>>)
    ensures |Concat(ss)| == SumOfLengths(ss)
    decreases |ss|
  {
    if |ss| > 0 {
      ConcatLength(ss[..|ss| - 1]);
    }
  }

  /** The sum of the lengths of a sequence of sequences. */
  function SumOfLengths<T>(ss: seq<seq<T>>): nat
    decreases |ss|
  {
    if |ss| == 0 then 0 else SumOfLengths(ss[..|ss| - 1]) + |ss[|ss| - 1]|
  }
}
