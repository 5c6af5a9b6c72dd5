/** The orders pandas uses when it sorts group keys: Python compares strings
    code point by code point, a proper prefix coming first. */
module Ordering {

  /** Python's `a < b` on two strings. */
  predicate StrLt(a: string, b: string)
    decreases |a|
  {
    if |b| == 0 then false
    else if |a| == 0 then true
    else if a[0] != b[0] then a[0] < b[0]
    else StrLt(a[1..], b[1..])
  }

  lemma {:induction false} StrLtIrreflexive(a: string)
    ensures !StrLt(a, a)
  {
    if |a| > 0 {
      StrLtIrreflexive(a[1..]);
    }
  }

  lemma {:induction false} StrLtTransitive(a: string, b: string, c: string)
    requires StrLt(a, b) && StrLt(b, c)
    ensures StrLt(a, c)
  {
    if |a| > 0 && a[0] == b[0] && b[0] == c[0] {
      StrLtTransitive(a[1..], b[1..], c[1..]);
    }
  }

  lemma {:induction false} StrLtTotal(a: string, b: string)
    requires a != b
    ensures StrLt(a, b) || StrLt(b, a)
  {
    if |a| > 0 && |b| > 0 && a[0] == b[0] {
      assert a == [a[0]] + a[1..] && b == [b[0]] + b[1..];
      StrLtTotal(a[1..], b[1..]);
    }
  }

  /** `lt` is irreflexive, transitive and relates any two distinct values. */
  ghost predicate IsStrictTotalOrder<T(!new)>(lt: (T, T) -> bool)
  {
    && (forall a :: !lt(a, a))
    && (forall a, b, c :: lt(a, b) && lt(b, c) ==> lt(a, c))
    && (forall a, b :: a != b ==> lt(a, b) || lt(b, a))
  }

  lemma StrLtIsStrictTotalOrder()
    ensures IsStrictTotalOrder(StrLt)
  {
    forall a: string {
      StrLtIrreflexive(a);
    }
    forall a: string, b: string, c: string | StrLt(a, b) && StrLt(b, c) {
      StrLtTransitive(a, b, c);
    }
    forall a: string, b: string | a != b {
      StrLtTotal(a, b);
    }
  }

  ghost predicate StrictlySorted<T>(s: seq<T>, lt: (T, T) -> bool)
  {
    forall i, j :: 0 <= i < j < |s| ==> lt(s[i], s[j])
  }

  /** A strictly sorted sequence holds no value twice. */
  lemma SortedIsDistinct<T(!new)>(s: seq<T>, lt: (T, T) -> bool)
    requires IsStrictTotalOrder(lt) && StrictlySorted(s, lt)
    ensures forall i, j :: 0 <= i < |s| && 0 <= j < |s| && i != j ==> s[i] != s[j]
  {
  }

  /** Adds `x` to a sorted, duplicate-free sequence unless it is already there. */
  function Insert<T(==,!new)>(x: T, s: seq<T>, lt: (T, T) -> bool): (r: seq<T>)
    requires IsStrictTotalOrder(lt) && StrictlySorted(s, lt)
    ensures StrictlySorted(r, lt)
    ensures forall y :: y in r <==> y == x || y in s
  {
    if s == [] then [x]
    else if x == s[0] then s
    else if lt(x, s[0]) then
      assert forall i :: 0 <= i < |s| ==> lt(x, s[i]);
      [x] + s
    else
      var tail := Insert(x, s[1..], lt);
      assert forall y :: y in tail ==> lt(s[0], y);
      [s[0]] + tail
  }

  /** The distinct values of `xs` in ascending order, as `sorted(set(xs))` gives them. */
  function SortedDistinct<T(==,!new)>(xs: seq<T>, lt: (T, T) -> bool): (r: seq<T>)
    requires IsStrictTotalOrder(lt)
    ensures StrictlySorted(r, lt)
    ensures forall y :: y in r <==> y in xs
    decreases |xs|
  {
    if xs == [] then []
    else Insert(xs[|xs| - 1], SortedDistinct(xs[..|xs| - 1], lt), lt)
  }
}
