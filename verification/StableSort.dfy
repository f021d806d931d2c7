/** Stable sorting of a list by a string key, and what it leaves undetermined: lists with the same
    elements sort to the same keys position by position, and to the same list if no two different
    elements share a key.
 */
module StableSort {

  /** Lexicographic order of strings. */
  predicate Leq(a: string, b: string) {
    a == [] || (b != [] && (a[0] < b[0] || (a[0] == b[0] && Leq(a[1..], b[1..]))))
  }

  /** Strings differ at position k, and a has the smaller character there. */
  ghost predicate LessAt(a: string, b: string, k: nat) {
    k < |a| && k < |b| && a[..k] == b[..k] && a[k] < b[k]
  }

  /** The order of strings: a prefix comes first, otherwise the first difference decides. */
  lemma {:induction false} LeqIff(a: string, b: string)
    ensures Leq(a, b) <==> a <= b || exists k: nat :: LessAt(a, b, k)
  {
    if a != [] && b != [] {
      LeqIff(a[1..], b[1..]);
      assert a == [a[0]] + a[1..] && b == [b[0]] + b[1..];
      if a[0] == b[0] {
        if k: nat :| LessAt(a[1..], b[1..], k) {
          assert a[..k + 1] == [a[0]] + a[1..][..k] && b[..k + 1] == [b[0]] + b[1..][..k];
          assert LessAt(a, b, k + 1);
        }
        if k: nat :| LessAt(a, b, k) {
          assert k > 0 && a[1..][..k - 1] == a[..k][1..] && b[1..][..k - 1] == b[..k][1..];
          assert LessAt(a[1..], b[1..], k - 1);
        }
      } else {
        if a[0] < b[0] { assert LessAt(a, b, 0); }
        if k: nat :| LessAt(a, b, k) {
          if k > 0 { assert a[..k][0] == b[..k][0]; }
        }
      }
    }
  }

  lemma {:induction false} LeqTotal(a: string, b: string)
    ensures Leq(a, b) || Leq(b, a)
  {
    if a != [] && b != [] && a[0] == b[0] { LeqTotal(a[1..], b[1..]); }
  }

  lemma {:induction false} LeqAntisymmetric(a: string, b: string)
    requires Leq(a, b) && Leq(b, a)
    ensures a == b
  {
    if a != [] && b != [] {
      LeqAntisymmetric(a[1..], b[1..]);
      assert a == [a[0]] + a[1..] && b == [b[0]] + b[1..];
    }
  }

  lemma {:induction false} LeqTransitive(a: string, b: string, c: string)
    requires Leq(a, b) && Leq(b, c)
    ensures Leq(a, c)
  {
    if a != [] && a[0] == b[0] == c[0] { LeqTransitive(a[1..], b[1..], c[1..]); }
  }

  // ----- sorting -----

  /** Moves x left past the elements whose key is greater. */
  function Insert<T>(key: T -> string, s: seq<T>, x: T): (r: seq<T>)
    ensures |r| == |s| + 1
  {
    if s == [] || Leq(key(s[|s| - 1]), key(x)) then s + [x]
    else Insert(key, s[..|s| - 1], x) + [s[|s| - 1]]
  }

  function Sort<T>(key: T -> string, s: seq<T>): (r: seq<T>)
    ensures |r| == |s|
  {
    if s == [] then [] else Insert(key, Sort(key, s[..|s| - 1]), s[|s| - 1])
  }

  ghost predicate Sorted(keys: seq<string>) {
    forall i, j | 0 <= i < j < |keys| :: Leq(keys[i], keys[j])
  }

  ghost function Keys<T>(key: T -> string, s: seq<T>): (keys: seq<string>)
    ensures |keys| == |s|
    ensures forall i | 0 <= i < |s| :: keys[i] == key(s[i])
  {
    if s == [] then [] else Keys(key, s[..|s| - 1]) + [key(s[|s| - 1])]
  }

  /** The elements with key k, in the order of s. */
  ghost function WithKey<T>(key: T -> string, s: seq<T>, k: string): seq<T> {
    if s == [] then []
    else WithKey(key, s[..|s| - 1], k) + if key(s[|s| - 1]) == k then [s[|s| - 1]] else []
  }

  lemma {:induction false} WithKeyConcat<T>(key: T -> string, a: seq<T>, b: seq<T>, k: string)
    ensures WithKey(key, a + b, k) == WithKey(key, a, k) + WithKey(key, b, k)
  {
    if b == [] {
      assert a + b == a;
    } else {
      WithKeyConcat(key, a, b[..|b| - 1], k);
      assert (a + b)[..|a + b| - 1] == a + b[..|b| - 1];
    }
  }

  lemma {:induction false} InsertMultiset<T>(key: T -> string, s: seq<T>, x: T)
    ensures multiset(Insert(key, s, x)) == multiset(s) + multiset{x}
  {
    hide Leq;
    if s == [] || Leq(key(s[|s| - 1]), key(x)) {
    } else {
      InsertMultiset(key, s[..|s| - 1], x);
      assert s == s[..|s| - 1] + [s[|s| - 1]];
    }
  }

  lemma {:induction false} InsertStable<T>(key: T -> string, s: seq<T>, x: T, k: string)
    ensures WithKey(key, Insert(key, s, x), k) == WithKey(key, s + [x], k)
  {
    hide Leq, WithKey;
    if s == [] || Leq(key(s[|s| - 1]), key(x)) {
    } else {
      var s', y := s[..|s| - 1], s[|s| - 1];
      InsertStable(key, s', x, k);
      WithKeyConcat(key, Insert(key, s', x), [y], k);
      WithKeyConcat(key, s', [x], k);
      WithKeyConcat(key, s', [y], k);
      WithKeyConcat(key, s' + [y], [x], k);
      assert s == s' + [y];
      LeqTotal(key(x), key(x));
      Crossing(key, x, y, k);
      var w := WithKey(key, s', k);
      assert w + WithKey(key, [x], k) + WithKey(key, [y], k) == w + (WithKey(key, [x], k) + WithKey(key, [y], k));
      assert w + WithKey(key, [y], k) + WithKey(key, [x], k) == w + (WithKey(key, [y], k) + WithKey(key, [x], k));
    }
  }

  /** Two elements with different keys can pass each other unnoticed. */
  lemma Crossing<T>(key: T -> string, x: T, y: T, k: string)
    requires key(x) != key(y)
    ensures WithKey(key, [x], k) + WithKey(key, [y], k) == WithKey(key, [y], k) + WithKey(key, [x], k)
  {
  }

  lemma {:induction false} InsertSorted<T>(key: T -> string, s: seq<T>, x: T)
    requires Sorted(Keys(key, s))
    ensures Sorted(Keys(key, Insert(key, s, x)))
  {
    hide Leq, Keys;
    var r := Insert(key, s, x);
    if s == [] {
    } else if Leq(key(s[|s| - 1]), key(x)) {
      forall i | 0 <= i < |s|
        ensures Leq(Keys(key, r)[i], Keys(key, r)[|s|])
      {
        assert Leq(Keys(key, s)[i], Keys(key, s)[|s| - 1]) by { LeqTotal(key(s[i]), key(s[i])); }
        LeqTransitive(key(s[i]), key(s[|s| - 1]), key(x));
      }
    } else {
      var s', y := s[..|s| - 1], s[|s| - 1];
      assert forall i | 0 <= i < |s'| :: Keys(key, s')[i] == Keys(key, s)[i];
      InsertSorted(key, s', x);
      InsertMultiset(key, s', x);
      LeqTotal(key(x), key(y));
      var r' := Insert(key, s', x);
      forall i | 0 <= i < |r'|
        ensures Leq(key(r'[i]), key(y))
      {
        assert r'[i] in multiset(r');
        if r'[i] in multiset(s') {
          var j :| 0 <= j < |s'| && s'[j] == r'[i];
          assert Leq(Keys(key, s)[j], Keys(key, s)[|s| - 1]);
        }
      }
    }
  }

  /** The sorted list is sorted, has the same elements, and keeps the order of equal keys. */
  lemma {:induction false} SortCorrect<T>(key: T -> string, s: seq<T>, k: string)
    ensures Sorted(Keys(key, Sort(key, s)))
    ensures multiset(Sort(key, s)) == multiset(s)
    ensures WithKey(key, Sort(key, s), k) == WithKey(key, s, k)
  {
    if s == [] {
    } else {
      var s', x := s[..|s| - 1], s[|s| - 1];
      SortCorrect(key, s', k);
      InsertSorted(key, Sort(key, s'), x);
      InsertMultiset(key, Sort(key, s'), x);
      InsertStable(key, Sort(key, s'), x, k);
      WithKeyConcat(key, Sort(key, s'), [x], k);
      WithKeyConcat(key, s', [x], k);
      assert s == s' + [x];
    }
  }

  // ----- what the order of the input can change -----

  lemma {:induction false} SortedUnique(a: seq<string>, b: seq<string>)
    requires Sorted(a) && Sorted(b) && multiset(a) == multiset(b)
    ensures a == b
  {
    hide Leq;
    SameLength(a, b);
    if a != [] {
      var n := |a| - 1;
      LastIsGreatest(a, b);
      LastIsGreatest(b, a);
      LeqAntisymmetric(a[n], b[n]);
      DropLast(a);
      DropLast(b);
      SortedUnique(a[..n], b[..n]);
    }
  }

  lemma DropLast<T>(a: seq<T>)
    requires a != []
    ensures a == a[..|a| - 1] + [a[|a| - 1]]
    ensures multiset(a[..|a| - 1]) == multiset(a) - multiset{a[|a| - 1]}
  {
    assert a == a[..|a| - 1] + [a[|a| - 1]];
  }

  lemma SameLength<T>(a: seq<T>, b: seq<T>)
    requires multiset(a) == multiset(b)
    ensures |a| == |b|
  {
    assert |multiset(a)| == |a|;
    assert |multiset(b)| == |b|;
  }

  lemma LastIsGreatest(a: seq<string>, b: seq<string>)
    requires Sorted(a) && multiset(a) == multiset(b) && |a| == |b| > 0
    ensures Leq(b[|b| - 1], a[|a| - 1])
  {
    assert b[|b| - 1] in multiset(b);
    var j :| 0 <= j < |a| && a[j] == b[|b| - 1];
    LeqTotal(a[j], a[j]);
  }

  lemma {:induction false} KeysMultiset<T>(key: T -> string, a: seq<T>, b: seq<T>)
    requires multiset(a) == multiset(b)
    ensures multiset(Keys(key, a)) == multiset(Keys(key, b))
  {
    hide Keys;
    SameLength(a, b);
    if a != [] {
      var n, x := |a| - 1, a[|a| - 1];
      assert x in multiset(a);
      var j :| 0 <= j < |b| && b[j] == x;
      var b' := b[..j] + b[j + 1..];
      assert a == a[..n] + [x];
      assert b == b[..j] + [x] + b[j + 1..];
      assert multiset(a[..n]) == multiset(a) - multiset{x};
      assert multiset(b') == multiset(b) - multiset{x};
      KeysMultiset(key, a[..n], b');
      KeysConcat(key, a[..n], [x]);
      KeysConcat(key, b[..j], [x]);
      KeysConcat(key, b[..j] + [x], b[j + 1..]);
      KeysConcat(key, b[..j], b[j + 1..]);
    }
  }

  lemma KeysConcat<T>(key: T -> string, a: seq<T>, b: seq<T>)
    ensures Keys(key, a + b) == Keys(key, a) + Keys(key, b)
  {
    hide Keys;
  }

  /** Two lists are the same up to reordering of elements with equal keys. */
  ghost predicate SameUpToTies<T>(key: T -> string, a: seq<T>, b: seq<T>) {
    Keys(key, a) == Keys(key, b) && multiset(a) == multiset(b)
  }

  /** Elements with the same key are the same. */
  ghost predicate TieFree<T>(key: T -> string, s: seq<T>) {
    forall i, j | 0 <= i < |s| && 0 <= j < |s| && key(s[i]) == key(s[j]) :: s[i] == s[j]
  }

  lemma SortedAlike<T>(key: T -> string, a: seq<T>, b: seq<T>)
    requires multiset(a) == multiset(b)
    ensures SameUpToTies(key, Sort(key, a), Sort(key, b))
    ensures TieFree(key, a) ==> Sort(key, a) == Sort(key, b)
  {
    SortCorrect(key, a, []);
    SortCorrect(key, b, []);
    var r, t := Sort(key, a), Sort(key, b);
    KeysMultiset(key, r, t);
    SortedUnique(Keys(key, r), Keys(key, t));
    if TieFree(key, a) {
      forall i | 0 <= i < |r|
        ensures r[i] == t[i]
      {
        assert Keys(key, r)[i] == Keys(key, t)[i];
        assert r[i] in multiset(r) && t[i] in multiset(t);
        var j :| 0 <= j < |a| && a[j] == r[i];
        var k :| 0 <= k < |a| && a[k] == t[i];
      }
    }
  }

  // ----- in place -----

  /** How far an element moves: past a greater one, but not past one that is not. */
  lemma InsertStep<T>(key: T -> string, s: seq<T>, x: T, j: nat)
    requires j <= |s|
    ensures j > 0 && !Leq(key(s[j - 1]), key(x)) ==>
              Insert(key, s[..j], x) + s[j..] == Insert(key, s[..j - 1], x) + s[j - 1..]
    ensures j == 0 || Leq(key(s[j - 1]), key(x)) ==> Insert(key, s[..j], x) == s[..j] + [x]
  {
    hide Leq;
    if j > 0 {
      assert s[..j][..j - 1] == s[..j - 1];
      assert s[j - 1..] == [s[j - 1]] + s[j..];
    }
  }

  /** Moves element i left to its place among the sorted elements before it. */
  method SiftLeft<T>(a: array<T>, i: nat, key: T -> string)
    requires i < a.Length
    modifies a
    ensures a[..i + 1] == Insert(key, old(a[..i]), old(a[i]))
    ensures a[i + 1..] == old(a[i + 1..])
  {
    hide Leq, Insert;
    ghost var s := a[..i];
    ghost var x := a[i];
    assert s[..i] == s && s[i..] == [];
    var j := i;
    while j > 0 && !Leq(key(a[j - 1]), key(a[j]))
      invariant 0 <= j <= i
      invariant a[j] == x
      invariant a[..j] == s[..j]
      invariant a[j + 1..i + 1] == s[j..]
      invariant a[i + 1..] == old(a[i + 1..])
      invariant Insert(key, s, x) == Insert(key, s[..j], x) + s[j..]
    {
      assert a[j - 1] == s[j - 1] by { assert a[..j][j - 1] == s[..j][j - 1]; }
      InsertStep(key, s, x, j);
      ghost var before := a[..];
      a[j], a[j - 1] := a[j - 1], a[j];
      assert a[..j - 1] == before[..j - 1] == s[..j][..j - 1];
      assert a[j..i + 1] == [s[j - 1]] + before[j + 1..i + 1];
      assert a[i + 1..] == before[i + 1..];
      j := j - 1;
    }
    if j > 0 { assert a[j - 1] == s[..j][j - 1] by { assert a[..j][j - 1] == s[..j][j - 1]; } }
    InsertStep(key, s, x, j);
    assert a[..i + 1] == a[..j] + [a[j]] + a[j + 1..i + 1];
  }

  /** Sorts an array in place by insertion, the way the library sorts short slices stably. */
  method SortInPlace<T>(a: array<T>, key: T -> string)
    modifies a
    ensures a[..] == Sort(key, old(a[..]))
  {
    hide Leq, Insert;
    ghost var was := a[..];
    for i := 0 to a.Length
      invariant a[..i] == Sort(key, was[..i])
      invariant a[i..] == was[i..]
    {
      assert a[i] == was[i] by { assert a[i..][0] == was[i..][0]; }
      assert was[..i + 1][..i] == was[..i];
      assert a[i + 1..] == was[i + 1..] by { assert a[i..][1..] == was[i..][1..]; }
      SiftLeft(a, i, key);
    }
    assert a[..] == a[..a.Length] && was == was[..a.Length];
  }

  /** Sorts a list through an array of its elements. */
  method SortList<T>(s: seq<T>, key: T -> string) returns (r: seq<T>)
    ensures r == Sort(key, s)
  {
    hide Sort;
    var a := new T[|s|](i requires 0 <= i < |s| => s[i]);
    assert a[..] == s;
    SortInPlace(a, key);
    r := a[..];
  }
}
