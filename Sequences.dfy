/** Row selection by a boolean mask, as `df[mask]` does it. */
module Sequences {
  import opened Ordering

  /** The elements of `s` that satisfy `p`, in their original order. */
  function Filter<T(!new)>(s: seq<T>, p: T -> bool): (r: seq<T>)
    ensures forall x :: x in r ==> p(x)
    ensures forall x :: multiset(r)[x] == if p(x) then multiset(s)[x] else 0
    ensures |r| <= |s|
  {
    if s == [] then []
    else
      assert s == [s[0]] + s[1..];
      if p(s[0]) then [s[0]] + Filter(s[1..], p) else Filter(s[1..], p)
  }

  /** Selection keeps the order of what it keeps: a selection from a strictly sorted
      sequence is strictly sorted. */
  lemma {:induction false} FilterKeepsOrder<T(!new)>(s: seq<T>, p: T -> bool, lt: (T, T) -> bool)
    requires StrictlySorted(s, lt)
    ensures StrictlySorted(Filter(s, p), lt)
  {
    if s != [] {
      var tail := s[1..];
      assert StrictlySorted(tail, lt) by {
        forall i, j | 0 <= i < j < |tail| ensures lt(tail[i], tail[j]) {
          assert tail[i] == s[i + 1] && tail[j] == s[j + 1];
        }
      }
      FilterKeepsOrder(tail, p, lt);
      var rest := Filter(tail, p);
      if p(s[0]) {
        forall y | y in rest ensures lt(s[0], y) {
          assert multiset(rest)[y] > 0;
          assert y in tail;
          var j :| 0 <= j < |tail| && tail[j] == y;
          assert s[j + 1] == y;
        }
        var r := [s[0]] + rest;
        forall i, j | 0 <= i < j < |r| ensures lt(r[i], r[j]) {
          if i == 0 {
            assert r[j] == rest[j - 1] && r[j] in rest;
          } else {
            assert r[i] == rest[i - 1] && r[j] == rest[j - 1];
          }
        }
        assert Filter(s, p) == r;
      } else {
        assert Filter(s, p) == rest;
      }
    }
  }
}
