/** Lists that concurrent jobs contribute to, gathered in order of arrival and then sorted stably.

    Gathering is what a collector of a fan-in leaves behind. The lemmas say which part of the sorted
    result depends on the schedule: only the order of entries with equal keys, and nothing at all
    exactly when different jobs never contribute different entries with the same key.
 */
module Gathering {
  import opened Common
  import opened StableSort
  import F = FanIn

  /** The contributions of the jobs in `order`, one after the other. */
  ghost function Gather<T>(parts: seq<seq<T>>, order: seq<nat>): seq<T>
    requires InRange(parts, order)
  {
    if order == [] then [] else Gather(parts, order[..|order| - 1]) + parts[order[|order| - 1]]
  }

  lemma {:induction false} GatherConcat<T>(parts: seq<seq<T>>, a: seq<nat>, b: seq<nat>)
    requires InRange(parts, a) && InRange(parts, b)
    ensures InRange(parts, a + b)
    ensures Gather(parts, a + b) == Gather(parts, a) + Gather(parts, b)
  {
    if b == [] {
      assert a + b == a;
    } else {
      GatherConcat(parts, a, b[..|b| - 1]);
      assert (a + b)[..|a + b| - 1] == a + b[..|b| - 1];
    }
  }

  lemma GatherOne<T>(parts: seq<seq<T>>, i: nat)
    requires i < |parts|
    ensures InRange(parts, [i]) && Gather(parts, [i]) == parts[i]
  {
    assert [i][..0] == [];
  }

  lemma {:induction false} GatherMember<T>(parts: seq<seq<T>>, order: seq<nat>, k: nat) returns (i: nat)
    requires InRange(parts, order) && k < |Gather(parts, order)|
    ensures i in order && i < |parts| && Gather(parts, order)[k] in parts[i]
  {
    var n := |order| - 1;
    var before := Gather(parts, order[..n]);
    if k < |before| {
      i := GatherMember(parts, order[..n], k);
    } else {
      i := order[n];
      assert Gather(parts, order)[k] == parts[i][k - |before|];
    }
  }

  /** Jobs contribute the same elements, possibly in another order. */
  ghost predicate SameParts<T>(parts: seq<seq<T>>, parts': seq<seq<T>>) {
    |parts| == |parts'| && forall i | 0 <= i < |parts| :: multiset(parts[i]) == multiset(parts'[i])
  }

  lemma {:induction false} GatherMultiset<T>(parts: seq<seq<T>>, parts': seq<seq<T>>, order: seq<nat>, order': seq<nat>)
    requires InRange(parts, order) && InRange(parts', order')
    requires SameParts(parts, parts') && multiset(order) == multiset(order')
    ensures multiset(Gather(parts, order)) == multiset(Gather(parts', order'))
  {
    SameLength(order, order');
    if order != [] {
      var n, x := |order| - 1, order[|order| - 1];
      hide Gather;
      assert x in multiset(order);
      var a, b := Around(order', x);
      RangeAround(parts', a, x, b);
      DropLast(order);
      GatherMultiset(parts, parts', order[..n], a + b);
      GatherThree(parts', a, x, b);
      GatherLast(parts, order);
    }
  }

  lemma Around<T>(s: seq<T>, x: T) returns (a: seq<T>, b: seq<T>)
    requires x in multiset(s)
    ensures s == a + [x] + b && multiset(a + b) == multiset(s) - multiset{x}
  {
    var j :| 0 <= j < |s| && s[j] == x;
    a, b := s[..j], s[j + 1..];
    assert s == a + [x] + b;
  }

  lemma RangeAround<T>(parts: seq<T>, a: seq<nat>, x: nat, b: seq<nat>)
    requires InRange(parts, a + [x] + b)
    ensures InRange(parts, a) && x < |parts| && InRange(parts, b) && InRange(parts, a + b)
  {
    var s := a + [x] + b;
    assert s[|a|] == x;
    assert forall k | 0 <= k < |a| :: s[k] == a[k];
    assert forall k | 0 <= k < |b| :: s[|a| + 1 + k] == b[k];
  }

  lemma GatherLast<T>(parts: seq<seq<T>>, order: seq<nat>)
    requires InRange(parts, order) && order != []
    ensures Gather(parts, order) == Gather(parts, order[..|order| - 1]) + parts[order[|order| - 1]]
  {
  }

  lemma GatherThree<T>(parts: seq<seq<T>>, a: seq<nat>, x: nat, b: seq<nat>)
    requires InRange(parts, a) && x < |parts| && InRange(parts, b)
    ensures InRange(parts, a + [x] + b) && InRange(parts, a + b)
    ensures multiset(Gather(parts, a + [x] + b)) == multiset(Gather(parts, a + b)) + multiset(parts[x])
  {
    GatherOne(parts, x);
    GatherConcat(parts, a, [x]);
    GatherConcat(parts, a + [x], b);
    GatherConcat(parts, a, b);
  }

  // ----- orderings -----

  lemma {:induction false} DistinctMultiset<T>(s: seq<T>, x: T)
    requires Distinct(s)
    ensures multiset(s)[x] == if x in s then 1 else 0
  {
    if s != [] {
      DropLast(s);
      var n := |s| - 1;
      DistinctMultiset(s[..n], x);
    }
  }

  lemma DistinctAlike<T>(s: seq<T>, t: seq<T>)
    requires Distinct(s) && Distinct(t)
    requires (forall x | x in s :: x in t) && (forall x | x in t :: x in s)
    ensures multiset(s) == multiset(t)
  {
    forall x | x in multiset(s) || x in multiset(t)
      ensures multiset(s)[x] == multiset(t)[x]
    {
      DistinctMultiset(s, x);
      DistinctMultiset(t, x);
    }
  }

  lemma OrderingInRange<T>(c: F.Config, parts: seq<seq<T>>, order: seq<nat>)
    requires F.IsOrdering(c, order) && |parts| == |c.sends|
    ensures InRange(parts, order)
  {
    forall k | 0 <= k < |order|
      ensures order[k] < |parts|
    {
      assert order[k] in order;
    }
  }

  ghost function Listing(s: set<nat>): (order: seq<nat>)
    ensures Distinct(order) && forall x :: x in order <==> x in s
  {
    if s == {} then []
    else
      var x :| x in s;
      Listing(s - {x}) + [x]
  }

  // ----- the sorted result -----

  /** What the collector ends up with when results arrive in a given order. */
  ghost function SortedGather<T>(key: T -> string, parts: seq<seq<T>>, order: seq<nat>): seq<T>
    requires InRange(parts, order)
  {
    Sort(key, Gather(parts, order))
  }

  /** No two entries contributed by senders have the same key and different contents. */
  ghost predicate NoTies<T>(c: F.Config, key: T -> string, parts: seq<seq<T>>)
    requires |parts| == |c.sends|
  {
    forall i, j, x, y | i in F.Senders(c) && j in F.Senders(c) && x in parts[i] && y in parts[j] && key(x) == key(y) ::
      x == y
  }

  /** Whatever the schedule and the order inside the contributions, the sorted results agree up to
      entries with equal keys, and entirely if there are no ties. */
  lemma SchedulesAgree<T>(c: F.Config, key: T -> string,
                          parts: seq<seq<T>>, parts': seq<seq<T>>, order: seq<nat>, order': seq<nat>)
    requires |parts| == |c.sends| && SameParts(parts, parts')
    requires F.IsOrdering(c, order) && F.IsOrdering(c, order')
    ensures InRange(parts, order) && InRange(parts', order')
    ensures SameUpToTies(key, SortedGather(key, parts, order), SortedGather(key, parts', order'))
    ensures NoTies(c, key, parts) ==> SortedGather(key, parts, order) == SortedGather(key, parts', order')
  {
    OrderingInRange(c, parts, order);
    OrderingInRange(c, parts', order');
    DistinctAlike(order, order');
    GatherMultiset(parts, parts', order, order');
    SortedAlike(key, Gather(parts, order), Gather(parts', order'));
    if NoTies(c, key, parts) { GatherTieFree(c, key, parts, order); }
  }

  lemma GatherTieFree<T>(c: F.Config, key: T -> string, parts: seq<seq<T>>, order: seq<nat>)
    requires |parts| == |c.sends| && F.IsOrdering(c, order) && NoTies(c, key, parts)
    ensures InRange(parts, order) && TieFree(key, Gather(parts, order))
  {
    OrderingInRange(c, parts, order);
    var g := Gather(parts, order);
    forall k, l | 0 <= k < |g| && 0 <= l < |g| && key(g[k]) == key(g[l])
      ensures g[k] == g[l]
    {
      var i := GatherMember(parts, order, k);
      var j := GatherMember(parts, order, l);
    }
  }

  // ----- the contributions themselves -----

  /** All contributions, in the order of the jobs. */
  function Flat<T>(parts: seq<seq<T>>): seq<T> {
    if parts == [] then [] else Flat(parts[..|parts| - 1]) + parts[|parts| - 1]
  }

  lemma {:induction false} GatherUpto<T>(parts: seq<seq<T>>, n: nat)
    requires n <= |parts|
    ensures InRange(parts, Upto(n)) && Gather(parts, Upto(n)) == Flat(parts[..n])
  {
    if n > 0 {
      GatherUpto(parts, n - 1);
      assert Upto(n)[..n - 1] == Upto(n - 1);
      assert parts[..n][..n - 1] == parts[..n - 1];
    }
  }

  lemma {:induction false} GatherNothing<T>(parts: seq<seq<T>>, order: seq<nat>)
    requires InRange(parts, order) && forall k | 0 <= k < |order| :: parts[order[k]] == []
    ensures Gather(parts, order) == []
  {
    if order != [] { GatherNothing(parts, order[..|order| - 1]); }
  }

  /** Jobs that do not send contribute nothing, so any order of the others gathers it all. */
  lemma GatherIsFlat<T>(c: F.Config, parts: seq<seq<T>>, order: seq<nat>)
    requires |parts| == |c.sends| && F.IsOrdering(c, order)
    requires forall i | 0 <= i < |parts| && !c.sends[i] :: parts[i] == []
    ensures InRange(parts, order) && multiset(Gather(parts, order)) == multiset(Flat(parts))
  {
    hide Gather, Flat;
    OrderingInRange(c, parts, order);
    var silent := Listing(F.Ids(|parts|) - F.Senders(c));
    forall k | 0 <= k < |silent|
      ensures silent[k] < |parts| && parts[silent[k]] == []
    {
      assert silent[k] in silent;
    }
    var all, numbers := order + silent, Upto(|parts|);
    DistinctJoin(order, silent);
    assert Distinct(numbers);
    forall i: nat
      ensures i in all <==> i in numbers
    {
      assert i < |parts| ==> numbers[i] == i;
    }
    DistinctAlike(all, numbers);
    GatherConcat(parts, order, silent);
    GatherNothing(parts, silent);
    GatherUpto(parts, |parts|);
    assert parts[..|parts|] == parts;
    GatherMultiset(parts, parts, all, numbers);
  }

  /** The entries of one contribution have different keys. */
  ghost predicate OwnKeysDistinct<T>(key: T -> string, part: seq<T>) {
    forall i, j | 0 <= i < j < |part| :: key(part[i]) != key(part[j])
  }

  lemma {:induction false} WithOwnKey<T>(key: T -> string, part: seq<T>, x: T)
    requires OwnKeysDistinct(key, part)
    ensures WithKey(key, part, key(x)) == (if x in part then [x] else WithKey(key, part, key(x)))
    ensures (forall i | 0 <= i < |part| :: key(part[i]) != key(x)) ==> WithKey(key, part, key(x)) == []
  {
    if part != [] {
      var n := |part| - 1;
      assert part == part[..n] + [part[n]];
      WithOwnKey(key, part[..n], x);
    }
  }

  /** Every schedule gives the same sorted result. */
  ghost predicate Determined<T>(c: F.Config, key: T -> string, parts: seq<seq<T>>)
    requires |parts| == |c.sends|
  {
    forall order, order' | F.IsOrdering(c, order) && F.IsOrdering(c, order') ::
      SameSorted(c, key, parts, order, order')
  }

  ghost predicate SameSorted<T>(c: F.Config, key: T -> string, parts: seq<seq<T>>, order: seq<nat>, order': seq<nat>)
    requires |parts| == |c.sends| && F.IsOrdering(c, order) && F.IsOrdering(c, order')
  {
    OrderingInRange(c, parts, order);
    OrderingInRange(c, parts, order');
    SortedGather(key, parts, order) == SortedGather(key, parts, order')
  }

  /** Two orderings that differ only in which of i and j comes first. */
  lemma SwappedOrderings(c: F.Config, i: nat, j: nat) returns (rest: seq<nat>)
    requires i in F.Senders(c) && j in F.Senders(c) && i != j
    ensures F.IsOrdering(c, [i, j] + rest) && F.IsOrdering(c, [j, i] + rest)
  {
    rest := Listing(F.Senders(c) - {i, j});
  }

  lemma TieShows<T>(c: F.Config, key: T -> string, parts: seq<seq<T>>, i: nat, j: nat, x: T, y: T)
    requires |parts| == |c.sends|
    requires forall k | k in F.Senders(c) :: OwnKeysDistinct(key, parts[k])
    requires i in F.Senders(c) && j in F.Senders(c) && i != j
    requires x in parts[i] && y in parts[j] && key(x) == key(y)
    requires Determined(c, key, parts)
    ensures x == y
  {
    hide WithKey, Sort, Gather, Leq;
    var rest := SwappedOrderings(c, i, j);
    var order, order' := [i, j] + rest, [j, i] + rest;
    assert SameSorted(c, key, parts, order, order');
    OrderingInRange(c, parts, order);
    OrderingInRange(c, parts, order');
    var k := key(x);
    SortCorrect(key, Gather(parts, order), k);
    SortCorrect(key, Gather(parts, order'), k);
    assert forall m | 0 <= m < |rest| :: rest[m] == order[m + 2];
    assert InRange(parts, rest);
    StartsWith(key, parts, i, j, rest, k);
    StartsWith(key, parts, j, i, rest, k);
    WithOwnKey(key, parts[i], x);
    WithOwnKey(key, parts[j], y);
    var tail := WithKey(key, Gather(parts, rest), k);
    assert ([x] + [y] + tail)[0] == ([y] + [x] + tail)[0];
  }

  lemma StartsWith<T>(key: T -> string, parts: seq<seq<T>>, i: nat, j: nat, rest: seq<nat>, k: string)
    requires i < |parts| && j < |parts| && InRange(parts, rest)
    ensures InRange(parts, [i, j] + rest)
    ensures WithKey(key, Gather(parts, [i, j] + rest), k)
         == WithKey(key, parts[i], k) + WithKey(key, parts[j], k) + WithKey(key, Gather(parts, rest), k)
  {
    GatherOne(parts, i);
    GatherOne(parts, j);
    assert [i, j] == [i] + [j];
    GatherConcat(parts, [i], [j]);
    GatherConcat(parts, [i, j], rest);
    WithKeyConcat(key, parts[i], parts[j], k);
    WithKeyConcat(key, parts[i] + parts[j], Gather(parts, rest), k);
  }

  /** The sorted result is the same for every schedule exactly when there are no ties. */
  lemma DeterminedIff<T>(c: F.Config, key: T -> string, parts: seq<seq<T>>)
    requires |parts| == |c.sends|
    requires forall k | k in F.Senders(c) :: OwnKeysDistinct(key, parts[k])
    ensures Determined(c, key, parts) <==> NoTies(c, key, parts)
  {
    if NoTies(c, key, parts) {
      forall order, order' | F.IsOrdering(c, order) && F.IsOrdering(c, order')
        ensures SameSorted(c, key, parts, order, order')
      {
        SchedulesAgree(c, key, parts, parts, order, order');
      }
    }
    if Determined(c, key, parts) {
      forall i, j, x, y | i in F.Senders(c) && j in F.Senders(c) && x in parts[i] && y in parts[j] && key(x) == key(y)
        ensures x == y
      {
        if i != j {
          TieShows(c, key, parts, i, j, x, y);
        } else {
          WithOwnKey(key, parts[i], x);
          WithOwnKey(key, parts[i], y);
        }
      }
    }
  }
}
