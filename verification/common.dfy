/**
 * Small shared vocabulary: optional values, results with an error side, and
 * the order-preserving filter that every `Array.prototype.filter` /
 * `DataFrame.dropna` call in the dashboards amounts to.
 */
module Common {

  datatype Option<+T> = None | Some(value: T)

  datatype Result<+T, +E> = Success(value: T) | Failure(error: E)

  /** `r` is obtained from `s` by deleting elements (order is kept). */
  ghost predicate IsSubsequence<T>(r: seq<T>, s: seq<T>)
    decreases |s|
  {
    if r == [] then true
    else if s == [] then false
    else (r[0] == s[0] && IsSubsequence(r[1..], s[1..])) || IsSubsequence(r, s[1..])
  }

  /**
   * The elements of `s` that satisfy `keep`, in their original order.
   * This is the semantics of JavaScript's `filter` and of a pandas row mask.
   */
  function Filter<T(==,!new)>(s: seq<T>, keep: T -> bool): (r: seq<T>)
    ensures |r| <= |s|
    ensures forall x :: x in r <==> x in s && keep(x)
    ensures IsSubsequence(r, s)
  {
    if s == [] then []
    else
      var rest := Filter(s[1..], keep);
      assert s == [s[0]] + s[1..];
      if keep(s[0]) then [s[0]] + rest else rest
  }

  /** Filtering with a predicate that every element satisfies changes nothing. */
  lemma {:induction false} FilterKeepsAll<T(!new)>(s: seq<T>, keep: T -> bool)
    requires forall i :: 0 <= i < |s| ==> keep(s[i])
    ensures Filter(s, keep) == s
  {
    if s != [] {
      FilterKeepsAll(s[1..], keep);
    }
  }

  /** Filtering twice with the same predicate is the same as filtering once. */
  lemma {:induction false} FilterIdempotent<T(!new)>(s: seq<T>, keep: T -> bool)
    ensures Filter(Filter(s, keep), keep) == Filter(s, keep)
  {
    var r := Filter(s, keep);
    forall i | 0 <= i < |r| ensures keep(r[i]) {
      assert r[i] in r;
    }
    FilterKeepsAll(r, keep);
  }

  /** Number of elements of `s` that satisfy `p`. */
  function CountIf<T>(s: seq<T>, p: T -> bool): (n: nat)
    ensures n <= |s|
  {
    if s == [] then 0 else (if p(s[0]) then 1 else 0) + CountIf(s[1..], p)
  }

  lemma {:induction false} FilterLength<T(!new)>(s: seq<T>, keep: T -> bool)
    ensures |Filter(s, keep)| == CountIf(s, keep)
  {
    if s != [] {
      FilterLength(s[1..], keep);
    }
  }

  /** Counting over a list with one more element at the end. */
  lemma {:induction false} CountIfSnoc<T>(s: seq<T>, x: T, p: T -> bool)
    ensures CountIf(s + [x], p) == CountIf(s, p) + (if p(x) then 1 else 0)
  {
    if s != [] {
      assert (s + [x])[1..] == s[1..] + [x];
      CountIfSnoc(s[1..], x, p);
    } else {
      assert [x][1..] == [];
    }
  }
}
