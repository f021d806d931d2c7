/** What several of the modules need. */
module Common {

  datatype Option<T> = None | Some(value: T)

  /** No element occurs twice. */
  ghost predicate Distinct<T>(s: seq<T>) {
    forall i, j | 0 <= i < j < |s| :: s[i] != s[j]
  }

  /** The numbers in `order` are positions of `s`. */
  ghost predicate InRange<T>(s: seq<T>, order: seq<nat>) {
    forall k | 0 <= k < |order| :: order[k] < |s|
  }

  /** The elements of `s` at these positions. */
  ghost function At<T>(s: seq<T>, order: seq<nat>): (r: seq<T>)
    requires InRange(s, order)
    ensures |r| == |order| && forall k | 0 <= k < |order| :: r[k] == s[order[k]]
  {
    seq(|order|, k requires 0 <= k < |order| => s[order[k]])
  }

  /** The first n positions. */
  ghost function Upto(n: nat): (order: seq<nat>)
    ensures |order| == n && forall k | 0 <= k < n :: order[k] == k
  {
    seq(n, k => k)
  }

  lemma DistinctJoin<T>(a: seq<T>, b: seq<T>)
    requires Distinct(a) && Distinct(b) && forall x | x in b :: x !in a
    ensures Distinct(a + b)
  {
    forall i, j | 0 <= i < j < |a + b|
      ensures (a + b)[i] != (a + b)[j]
    {
      if i < |a| <= j { assert (a + b)[j] in b; }
    }
  }
}
