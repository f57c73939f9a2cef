/** Sequence helpers standing in for Python list comprehensions. */
module Seqs {

  /** `[x for x in s if p(x)]` */
  function Filter<T>(s: seq<T>, p: T -> bool): (r: seq<T>)
    ensures |r| <= |s|
    ensures forall i :: 0 <= i < |r| ==> r[i] in s && p(r[i])
    ensures forall i :: 0 <= i < |s| && p(s[i]) ==> s[i] in r
  {
    if |s| == 0 then [] else (if p(s[0]) then [s[0]] else []) + Filter(s[1..], p)
  }

  /** Filtering commutes with concatenation, so it keeps the input order. */
  lemma {:induction false} FilterAppend<T>(a: seq<T>, b: seq<T>, p: T -> bool)
    ensures Filter(a + b, p) == Filter(a, p) + Filter(b, p)
    decreases |a|
  {
    if |a| == 0 {
      assert a + b == b;
    } else {
      assert (a + b)[1..] == a[1..] + b;
      FilterAppend(a[1..], b, p);
    }
  }

  /** Filtering keeps every copy of a selected value and no copy of a rejected one. */
  lemma {:induction false} FilterMultiplicity<T>(s: seq<T>, p: T -> bool, x: T)
    ensures multiset(Filter(s, p))[x] == if p(x) then multiset(s)[x] else 0
    decreases |s|
  {
    if |s| > 0 {
      FilterMultiplicity(s[1..], p, x);
      assert s == [s[0]] + s[1..];
    }
  }

  /** Two filters whose predicates agree on the input give the same list. */
  lemma {:induction false} FilterAgrees<T>(s: seq<T>, p: T -> bool, q: T -> bool)
    requires forall k :: 0 <= k < |s| ==> p(s[k]) == q(s[k])
    ensures Filter(s, p) == Filter(s, q)
    decreases |s|
  {
    if |s| > 0 {
      FilterAgrees(s[1..], p, q);
    }
  }

  /** `ceil(n / d)` on naturals. */
  function CeilDiv(n: nat, d: nat): (c: nat)
    requires d > 0
    ensures n <= c * d
    ensures c == 0 || (c - 1) * d < n
  {
    (n + d - 1) / d
  }

  /** `k * q` one factor at a time. */
  lemma PeelFactor(k: nat, q: nat)
    requires k > 0
    ensures k * q == (k - 1) * q + q
    ensures (k - 1) * q >= 0
  {
  }

  lemma MultiplyMonotone(a: nat, b: nat, c: nat)
    requires a <= b
    ensures a * c <= b * c
  {
  }

  /** `ceil(n / d)` is the only count whose multiples of `d` straddle `n`. */
  lemma CeilDivUnique(n: nat, d: nat, c: nat)
    requires d > 0 && n <= c * d && (c == 0 || (c - 1) * d < n)
    ensures c == CeilDiv(n, d)
  {
    var e := CeilDiv(n, d);
    if c < e {
      MultiplyMonotone(c, e - 1, d);
    } else if e < c {
      MultiplyMonotone(e, c - 1, d);
    }
  }

  /** No value occurs twice. */
  predicate NoDuplicates<T(==)>(s: seq<T>) {
    forall i, j :: 0 <= i < j < |s| ==> s[i] != s[j]
  }

  /** Concatenation of a list of lists. */
  function Flatten<T>(ss: seq<seq<T>>): seq<T> {
    if |ss| == 0 then [] else ss[0] + Flatten(ss[1..])
  }

  /** Sum of the lengths of a list of lists. */
  function TotalLength<T>(ss: seq<seq<T>>): nat {
    if |ss| == 0 then 0 else |ss[0]| + TotalLength(ss[1..])
  }

  lemma {:induction false} FlattenLength<T>(ss: seq<seq<T>>)
    ensures |Flatten(ss)| == TotalLength(ss)
  {
    if |ss| > 0 {
      FlattenLength(ss[1..]);
    }
  }

  lemma {:induction false} FlattenAppend<T>(a: seq<seq<T>>, b: seq<seq<T>>)
    ensures Flatten(a + b) == Flatten(a) + Flatten(b)
    decreases |a|
  {
    if |a| == 0 {
      assert a + b == b;
    } else {
      assert (a + b)[1..] == a[1..] + b;
      FlattenAppend(a[1..], b);
    }
  }
}
