/** Rust's slice::sort_by: a stable sort, here as insertion from the right, with the laws callers rely on. */
module StableSort {

  ghost predicate TotalPreorder<T(!new)>(leq: (T, T) -> bool) {
    && (forall x, y :: leq(x, y) || leq(y, x))
    && (forall x, y, z :: leq(x, y) && leq(y, z) ==> leq(x, z))
  }

  /** A total preorder as far as the elements of `all` go. */
  ghost predicate TotalPreorderOn<T(!new)>(leq: (T, T) -> bool, all: seq<T>) {
    && (forall x, y :: x in all && y in all ==> leq(x, y) || leq(y, x))
    && (forall x, y, z :: x in all && y in all && z in all && leq(x, y) && leq(y, z) ==> leq(x, z))
  }

  ghost predicate Sorted<T>(leq: (T, T) -> bool, s: seq<T>) {
    forall i, j :: 0 <= i < j < |s| ==> leq(s[i], s[j])
  }

  /** No two different elements of s tie under leq. */
  ghost predicate TieFree<T(!new)>(leq: (T, T) -> bool, s: seq<T>) {
    forall x, y :: x in s && y in s && leq(x, y) && leq(y, x) ==> x == y
  }

  function Insert<T>(leq: (T, T) -> bool, x: T, s: seq<T>): seq<T> {
    if s == [] || leq(x, s[0]) then [x] + s else [s[0]] + Insert(leq, x, s[1..])
  }

  function Sort<T>(leq: (T, T) -> bool, s: seq<T>): seq<T> {
    if s == [] then [] else Insert(leq, s[0], Sort(leq, s[1..]))
  }

  function Filter<T(!new)>(keep: T -> bool, s: seq<T>): (r: seq<T>)
    ensures |r| <= |s|
    ensures forall x :: x in r <==> x in s && keep(x)
  {
    if s == [] then [] else (if keep(s[0]) then [s[0]] else []) + Filter(keep, s[1..])
  }

  lemma {:induction false} FilterAppend<T(!new)>(keep: T -> bool, s: seq<T>, t: seq<T>)
    ensures Filter(keep, s + t) == Filter(keep, s) + Filter(keep, t)
  {
    if s == [] {
      assert s + t == t;
    } else {
      assert (s + t)[1..] == s[1..] + t;
      FilterAppend(keep, s[1..], t);
    }
  }

  // ---------- the result is a sorted permutation ----------

  lemma {:induction false} InsertContents<T>(leq: (T, T) -> bool, x: T, s: seq<T>)
    ensures multiset(Insert(leq, x, s)) == multiset{x} + multiset(s)
  {
    if s != [] && !leq(x, s[0]) {
      InsertContents(leq, x, s[1..]);
      assert s == [s[0]] + s[1..];
    }
  }

  lemma {:induction false} SortContents<T(!new)>(leq: (T, T) -> bool, s: seq<T>)
    ensures multiset(Sort(leq, s)) == multiset(s)
    ensures |Sort(leq, s)| == |s|
    ensures forall x :: x in Sort(leq, s) <==> x in s
  {
    if s != [] {
      SortContents(leq, s[1..]);
      InsertContents(leq, s[0], Sort(leq, s[1..]));
      assert s == [s[0]] + s[1..];
    }
    SameContents(Sort(leq, s), s);
  }

  lemma SameContents<T(!new)>(s: seq<T>, t: seq<T>)
    requires multiset(s) == multiset(t)
    ensures |s| == |t|
    ensures forall x :: x in s <==> x in t
  {
    assert |multiset(s)| == |s| && |multiset(t)| == |t|;
    assert forall x :: x in s <==> x in multiset(s);
    assert forall x :: x in t <==> x in multiset(t);
  }

  lemma {:induction false} InsertSorted<T(!new)>(leq: (T, T) -> bool, x: T, s: seq<T>, all: seq<T>)
    requires TotalPreorderOn(leq, all) && x in all && (forall y :: y in s ==> y in all) && Sorted(leq, s)
    ensures Sorted(leq, Insert(leq, x, s))
  {
    if s != [] && !leq(x, s[0]) {
      InsertSorted(leq, x, s[1..], all);
      InsertContents(leq, x, s[1..]);
      var t := Insert(leq, x, s[1..]);
      forall j | 0 <= j < |t| ensures leq(s[0], t[j]) {
        assert t[j] in multiset(t);
        if t[j] != x {
          assert t[j] in s[1..];
        }
      }
    } else if s != [] {
      forall j | 0 <= j < |s| ensures leq(x, s[j]) {
        assert s[0] in all && s[j] in all && (j > 0 ==> leq(s[0], s[j]));
      }
    }
  }

  lemma {:induction false} SortSortedOn<T(!new)>(leq: (T, T) -> bool, s: seq<T>, all: seq<T>)
    requires TotalPreorderOn(leq, all) && forall y :: y in s ==> y in all
    ensures Sorted(leq, Sort(leq, s))
  {
    if s != [] {
      SortSortedOn(leq, s[1..], all);
      SortContents(leq, s[1..]);
      InsertSorted(leq, s[0], Sort(leq, s[1..]), all);
    }
  }

  lemma SortSorted<T(!new)>(leq: (T, T) -> bool, s: seq<T>)
    requires TotalPreorder(leq)
    ensures Sorted(leq, Sort(leq, s))
  {
    SortSortedOn(leq, s, s);
  }

  /** A sorted sequence is left as it is. */
  lemma {:induction false} SortKeepsSorted<T(!new)>(leq: (T, T) -> bool, s: seq<T>)
    requires Sorted(leq, s)
    ensures Sort(leq, s) == s
  {
    if s != [] {
      SortKeepsSorted(leq, s[1..]);
      assert s == [s[0]] + s[1..];
      if |s| > 1 {
        assert leq(s[0], s[1]);
      }
    }
  }

  // ---------- stability ----------

  lemma {:induction false} InsertFiltered<T(!new)>(leq: (T, T) -> bool, keep: T -> bool, x: T, s: seq<T>)
    requires keep(x) ==> forall y :: keep(y) ==> leq(x, y)
    ensures Filter(keep, Insert(leq, x, s)) == (if keep(x) then [x] else []) + Filter(keep, s)
  {
    if s == [] || leq(x, s[0]) {
      assert ([x] + s)[1..] == s;
    } else {
      var t := Insert(leq, x, s[1..]);
      InsertFiltered(leq, keep, x, s[1..]);
      assert Insert(leq, x, s)[0] == s[0] && Insert(leq, x, s)[1..] == t;
      if keep(x) {
        assert !keep(s[0]);
        assert Filter(keep, Insert(leq, x, s)) == Filter(keep, t);
      } else {
        assert Filter(keep, t) == Filter(keep, s[1..]);
      }
    }
  }

  /** Elements that tie with one another come out in the order they went in. */
  lemma {:induction false} SortStable<T(!new)>(leq: (T, T) -> bool, keep: T -> bool, s: seq<T>)
    requires forall y, z :: keep(y) && keep(z) ==> leq(y, z)
    ensures Filter(keep, Sort(leq, s)) == Filter(keep, s)
  {
    if s != [] {
      SortStable(leq, keep, s[1..]);
      InsertFiltered(leq, keep, s[0], Sort(leq, s[1..]));
    }
  }

  // ---------- sorting a concatenation of separated classes ----------

  lemma {:induction false} InsertLeft<T(!new)>(leq: (T, T) -> bool, x: T, a: seq<T>, b: seq<T>)
    requires forall y :: y in b ==> leq(x, y)
    ensures Insert(leq, x, a + b) == Insert(leq, x, a) + b
  {
    if a == [] {
      assert a + b == b;
    } else {
      assert (a + b)[1..] == a[1..] + b;
      if !leq(x, a[0]) {
        InsertLeft(leq, x, a[1..], b);
      }
    }
  }

  lemma {:induction false} InsertRight<T(!new)>(leq: (T, T) -> bool, x: T, a: seq<T>, b: seq<T>)
    requires forall y :: y in a ==> !leq(x, y)
    ensures Insert(leq, x, a + b) == a + Insert(leq, x, b)
  {
    if a == [] {
      assert a + b == b;
    } else {
      assert a[0] in a;
      assert (a + b)[1..] == a[1..] + b;
      InsertRight(leq, x, a[1..], b);
      assert a == [a[0]] + a[1..];
    }
  }

  function Except<T(!new)>(keep: T -> bool): T -> bool {
    (x: T) => !keep(x)
  }

  /**
   * When every `first` element sorts strictly before every other one, sorting is sorting the two classes apart and
   * concatenating, ties included.
   */
  lemma {:induction false} SortSplit<T(!new)>(leq: (T, T) -> bool, first: T -> bool, s: seq<T>)
    requires forall x, y :: x in s && y in s && first(x) && !first(y) ==> leq(x, y) && !leq(y, x)
    ensures Sort(leq, s) == Sort(leq, Filter(first, s)) + Sort(leq, Filter(Except(first), s))
  {
    if s != [] {
      var rest := s[1..];
      SortSplit(leq, first, rest);
      var a, b := Filter(first, rest), Filter(Except(first), rest);
      SortContents(leq, a);
      SortContents(leq, b);
      if first(s[0]) {
        InsertLeft(leq, s[0], Sort(leq, a), Sort(leq, b));
        assert ([s[0]] + a)[1..] == a;
        assert Filter(first, s) == [s[0]] + a && Filter(Except(first), s) == b;
      } else {
        InsertRight(leq, s[0], Sort(leq, a), Sort(leq, b));
        assert ([s[0]] + b)[1..] == b;
        assert Filter(first, s) == a && Filter(Except(first), s) == [s[0]] + b;
      }
    }
  }

  // ---------- sorting forgets the input order when there are no ties ----------

  lemma HeadLeast<T(!new)>(leq: (T, T) -> bool, s: seq<T>, x: T)
    requires TotalPreorder(leq) && Sorted(leq, s) && x in s
    ensures leq(s[0], x)
  {
  }

  lemma RemoveHead<T>(s: seq<T>)
    requires s != []
    ensures multiset(s[1..]) == multiset(s) - multiset{s[0]}
  {
    assert s == [s[0]] + s[1..];
  }

  lemma {:induction false} SortedUnique<T(!new)>(leq: (T, T) -> bool, s: seq<T>, t: seq<T>)
    requires TotalPreorder(leq) && Sorted(leq, s) && Sorted(leq, t) && TieFree(leq, s)
    requires multiset(s) == multiset(t)
    ensures s == t
  {
    SameContents(s, t);
    if s != [] {
      HeadLeast(leq, s, t[0]);
      HeadLeast(leq, t, s[0]);
      assert s[0] == t[0];
      RemoveHead(s);
      RemoveHead(t);
      assert TieFree(leq, s[1..]);
      SortedUnique(leq, s[1..], t[1..]);
    }
  }

  lemma SortForgetsOrder<T(!new)>(leq: (T, T) -> bool, s: seq<T>, t: seq<T>)
    requires TotalPreorder(leq) && TieFree(leq, s)
    requires multiset(s) == multiset(t)
    ensures Sort(leq, s) == Sort(leq, t)
  {
    SortSorted(leq, s);
    SortSorted(leq, t);
    SortContents(leq, s);
    SortContents(leq, t);
    SortedUnique(leq, Sort(leq, s), Sort(leq, t));
  }

  // ---------- comparators ----------

  /** cmp of a key. */
  function By<T(!new), K>(key: T -> K, leq: (K, K) -> bool): (T, T) -> bool {
    (x: T, y: T) => leq(key(x), key(y))
  }

  function Descending<T(!new)>(leq: (T, T) -> bool): (T, T) -> bool {
    (x: T, y: T) => leq(y, x)
  }

  /** first.then_with(second). */
  function Then<T(!new)>(first: (T, T) -> bool, second: (T, T) -> bool): (T, T) -> bool {
    (x: T, y: T) => first(x, y) && (first(y, x) ==> second(x, y))
  }

  lemma ByTotal<T(!new), K(!new)>(key: T -> K, leq: (K, K) -> bool)
    requires TotalPreorder(leq)
    ensures TotalPreorder(By(key, leq))
  {
  }

  lemma DescendingTotal<T(!new)>(leq: (T, T) -> bool)
    requires TotalPreorder(leq)
    ensures TotalPreorder(Descending(leq))
  {
  }

  lemma ThenTotal<T(!new)>(first: (T, T) -> bool, second: (T, T) -> bool)
    requires TotalPreorder(first) && TotalPreorder(second)
    ensures TotalPreorder(Then(first, second))
  {
    var leq := Then(first, second);
    forall x, y, z | leq(x, y) && leq(y, z) ensures leq(x, z) {
      assert first(x, z);
      if first(z, x) {
        assert first(z, y) && first(y, x);
      }
    }
    forall x, y ensures leq(x, y) || leq(y, x) {
      assert first(x, y) || first(y, x);
      assert second(x, y) || second(y, x);
    }
  }

  // ---------- permutations ----------

  lemma {:induction false} FilterCounts<T(!new)>(keep: T -> bool, s: seq<T>, x: T)
    ensures multiset(Filter(keep, s))[x] == if keep(x) then multiset(s)[x] else 0
  {
    if s != [] {
      FilterCounts(keep, s[1..], x);
      assert s == [s[0]] + s[1..];
    }
  }

  lemma FilterPermutes<T(!new)>(keep: T -> bool, s: seq<T>, t: seq<T>)
    requires multiset(s) == multiset(t)
    ensures multiset(Filter(keep, s)) == multiset(Filter(keep, t))
  {
    forall x ensures multiset(Filter(keep, s))[x] == multiset(Filter(keep, t))[x] {
      FilterCounts(keep, s, x);
      FilterCounts(keep, t, x);
    }
  }

  lemma TakeOut<T>(s: seq<T>, k: nat)
    requires k < |s|
    ensures multiset(s) == multiset(s[..k] + s[k + 1..]) + multiset{s[k]}
  {
    assert s == s[..k] + ([s[k]] + s[k + 1..]);
  }

  lemma RemoveShared<T>(s: seq<T>, t: seq<T>, k: nat)
    requires multiset(s) == multiset(t) && s != [] && k < |t| && t[k] == s[|s| - 1]
    ensures multiset(s[..|s| - 1]) == multiset(t[..k] + t[k + 1..])
  {
    TakeOut(t, k);
    assert s == s[..|s| - 1] + [t[k]];
    assert multiset(s[..|s| - 1]) == multiset(s) - multiset{t[k]};
  }

  function Map<T, U>(f: T -> U, s: seq<T>): (r: seq<U>)
    ensures |r| == |s| && forall i :: 0 <= i < |s| ==> r[i] == f(s[i])
  {
    seq(|s|, i requires 0 <= i < |s| => f(s[i]))
  }

  lemma MapAppend<T, U>(f: T -> U, s: seq<T>, t: seq<T>)
    ensures Map(f, s + t) == Map(f, s) + Map(f, t)
  {
  }

  lemma MapTakeOut<T, U>(f: T -> U, s: seq<T>, k: nat)
    requires k < |s|
    ensures Map(f, s[..k] + s[k + 1..]) == Map(f, s)[..k] + Map(f, s)[k + 1..]
  {
  }

  lemma {:induction false} MapPermutes<T, U>(f: T -> U, s: seq<T>, t: seq<T>)
    requires multiset(s) == multiset(t)
    ensures multiset(Map(f, s)) == multiset(Map(f, t))
  {
    assert |multiset(s)| == |s| && |multiset(t)| == |t|;
    if s != [] {
      var n := |s| - 1;
      assert s[n] in multiset(t);
      var k :| 0 <= k < |t| && t[k] == s[n];
      RemoveShared(s, t, k);
      MapPermutes(f, s[..n], t[..k] + t[k + 1..]);
      MapTakeOut(f, s, n);
      MapTakeOut(f, t, k);
      TakeOut(Map(f, s), n);
      TakeOut(Map(f, t), k);
      assert s[..n] + s[n + 1..] == s[..n];
    }
  }

  /** Lists with the same images can be arranged to have them in one order. */
  lemma {:induction false} MapArranges<T, U>(f: T -> U, s: seq<T>, t: seq<T>) returns (u: seq<T>)
    requires multiset(Map(f, s)) == multiset(Map(f, t))
    ensures multiset(u) == multiset(t) && Map(f, s) == Map(f, u)
  {
    assert |multiset(Map(f, s))| == |s| && |multiset(Map(f, t))| == |t|;
    if s == [] {
      u := [];
    } else {
      var n := |s| - 1;
      assert Map(f, s)[n] in multiset(Map(f, t));
      var k :| 0 <= k < |t| && Map(f, t)[k] == f(s[n]);
      RemoveShared(Map(f, s), Map(f, t), k);
      MapTakeOut(f, t, k);
      assert Map(f, s)[..n] == Map(f, s[..n]);
      var v := MapArranges(f, s[..n], t[..k] + t[k + 1..]);
      u := v + [t[k]];
      TakeOut(t, k);
      assert s == s[..n] + [s[n]];
      MapAppend(f, s[..n], [s[n]]);
      MapAppend(f, v, [t[k]]);
    }
  }

  ghost predicate DistinctBy<T, K>(key: T -> K, s: seq<T>) {
    forall i, j :: 0 <= i < j < |s| ==> key(s[i]) != key(s[j])
  }

  lemma RepeatCounted<T>(s: seq<T>, i: nat, j: nat)
    requires i < j < |s| && s[i] == s[j]
    ensures multiset(s)[s[i]] >= 2
  {
    assert s == s[..j] + [s[j]] + s[j + 1..];
    assert s[..j][i] == s[i];
  }

  lemma {:induction false} DistinctCountedOnce<T, K>(key: T -> K, s: seq<T>, x: T)
    requires DistinctBy(key, s)
    ensures multiset(s)[x] <= 1
  {
    if s != [] {
      assert s == [s[0]] + s[1..];
      DistinctCountedOnce(key, s[1..], x);
      assert s[0] == x ==> x !in s[1..];
    }
  }

  /** Keys stay distinct in anything drawn from the same elements. */
  lemma DistinctDrawn<T(!new), K>(key: T -> K, s: seq<T>, t: seq<T>)
    requires multiset(t) <= multiset(s) && DistinctBy(key, s)
    ensures DistinctBy(key, t)
  {
    forall i, j | 0 <= i < j < |t| ensures key(t[i]) != key(t[j]) {
      assert t[i] in multiset(t) && t[j] in multiset(t);
      assert t[i] in s && t[j] in s;
      if t[i] == t[j] {
        RepeatCounted(t, i, j);
        DistinctCountedOnce(key, s, t[i]);
      }
    }
  }

  lemma DistinctPermutes<T(!new), K>(key: T -> K, s: seq<T>, t: seq<T>)
    requires multiset(s) == multiset(t) && DistinctBy(key, s)
    ensures DistinctBy(key, t)
  {
    DistinctDrawn(key, s, t);
  }

  /** Strictly sorted by leq: sorted, and never tied. */
  ghost predicate StrictlySorted<T>(leq: (T, T) -> bool, s: seq<T>) {
    forall i, j :: 0 <= i < j < |s| ==> leq(s[i], s[j]) && !leq(s[j], s[i])
  }

  lemma HeadMember<T>(s: seq<T>)
    ensures s == [] || s[0] in s
  {
  }

  lemma {:induction false} StrictlySortedUnique<T(!new)>(leq: (T, T) -> bool, s: seq<T>, t: seq<T>)
    requires StrictlySorted(leq, s) && StrictlySorted(leq, t)
    requires forall x :: x in s <==> x in t
    ensures s == t
  {
    HeadMember(t);
    if s != [] {
      assert s[0] in t && t != [] && t[0] in s;
      assert s[0] == t[0];
      forall x ensures x in s[1..] <==> x in t[1..] {
        assert x in s[1..] ==> x in s && x != s[0];
        assert x in t[1..] ==> x in t && x != t[0];
      }
      StrictlySortedUnique(leq, s[1..], t[1..]);
    }
  }
}
