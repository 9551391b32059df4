/** Sorting by a key, newest or largest first; equal keys may come in any order, as `sort.Slice` leaves them. */
module Sorting {

  ghost predicate Descending<T>(s: seq<T>, key: T -> int)
  {
    forall i, j :: 0 <= i < j < |s| ==> key(s[i]) >= key(s[j])
  }

  lemma Member<T>(s: seq<T>, i: nat)
    requires i < |s|
    ensures s[i] in s
  {
  }

  function Without<T>(s: seq<T>, j: nat): seq<T>
    requires j < |s|
  {
    s[..j] + s[j + 1..]
  }

  lemma WithoutOne<T>(s: seq<T>, j: nat)
    requires j < |s|
    ensures multiset(s) == multiset(Without(s, j)) + multiset{s[j]}
  {
    assert s == s[..j] + ([s[j]] + s[j + 1..]);
  }

  lemma WithoutHead<T>(s: seq<T>)
    requires s != []
    ensures multiset(s) == multiset(s[1..]) + multiset{s[0]}
  {
    assert s == [s[0]] + s[1..];
  }

  /** The head of a sequence sits somewhere in any permutation of it; the others then match up. */
  lemma Peel<T>(a: seq<T>, b: seq<T>) returns (j: nat)
    requires multiset(a) == multiset(b) && a != []
    ensures j < |b| && b[j] == a[0] && multiset(a[1..]) == multiset(Without(b, j))
  {
    WithoutHead(a);
    assert a[0] in multiset(b);
    j :| 0 <= j < |b| && b[j] == a[0];
    WithoutOne(b, j);
    assert multiset(a[1..]) == multiset(a) - multiset{a[0]} == multiset(b) - multiset{b[j]} == multiset(Without(b, j));
  }

  lemma SameSize<T>(a: seq<T>, b: seq<T>)
    requires multiset(a) == multiset(b)
    ensures |a| == |b|
  {
    assert |a| == |multiset(a)| == |multiset(b)| == |b|;
  }

  lemma SameMembers<T>(a: seq<T>, b: seq<T>)
    requires multiset(a) == multiset(b)
    ensures forall x :: x in a <==> x in b
  {
    forall x ensures x in a <==> x in b {
      assert x in multiset(a) <==> x in multiset(b);
    }
  }

  function Inserted<T>(s: seq<T>, i: nat, x: T): seq<T>
    requires i <= |s|
  {
    s[..i] + [x] + s[i..]
  }

  lemma InsertedAdds<T>(s: seq<T>, i: nat, x: T)
    requires i <= |s|
    ensures multiset(Inserted(s, i, x)) == multiset(s) + multiset{x}
  {
    assert s == s[..i] + s[i..];
  }

  lemma InsertedKeeps<T>(s: seq<T>, i: nat, x: T, key: T -> int)
    requires i <= |s| && Descending(s, key)
    requires i > 0 ==> key(s[i - 1]) >= key(x)
    requires i < |s| ==> key(s[i]) <= key(x)
    ensures Descending(Inserted(s, i, x), key)
  {
    var out := Inserted(s, i, x);
    assert forall k :: 0 <= k < i ==> out[k] == s[k];
    assert forall k :: i < k < |out| ==> out[k] == s[k - 1];
    assert forall k :: 0 <= k < i ==> key(s[k]) >= key(x);
    assert forall k :: i <= k < |s| ==> key(x) >= key(s[k]);
  }

  method Insert<T(==)>(s: seq<T>, x: T, key: T -> int) returns (out: seq<T>)
    requires Descending(s, key)
    ensures Descending(out, key) && multiset(out) == multiset(s) + multiset{x}
  {
    var i := 0;
    while i < |s| && key(s[i]) >= key(x)
      invariant i <= |s| && (i > 0 ==> key(s[i - 1]) >= key(x))
    {
      i := i + 1;
    }
    InsertedKeeps(s, i, x, key);
    InsertedAdds(s, i, x);
    out := Inserted(s, i, x);
  }

  method SortDescending<T(==)>(s: seq<T>, key: T -> int) returns (out: seq<T>)
    ensures Descending(out, key) && multiset(out) == multiset(s)
  {
    out := [];
    for n := 0 to |s|
      invariant Descending(out, key) && multiset(out) == multiset(s[..n])
    {
      out := Insert(out, s[n], key);
      assert s[..n + 1] == s[..n] + [s[n]];
    }
    assert s[..|s|] == s;
  }

  ghost predicate NonIncreasing(s: seq<int>)
  {
    forall i, j :: 0 <= i < j < |s| ==> s[i] >= s[j]
  }

  lemma LargestFirst(s: seq<int>, x: int)
    requires NonIncreasing(s) && x in s
    ensures s[0] >= x
  {
    var i :| 0 <= i < |s| && s[i] == x;
  }

  ghost predicate AtLeast(front: seq<int>, rest: seq<int>)
  {
    forall i, j :: 0 <= i < |front| && 0 <= j < |rest| ==> front[i] >= rest[j]
  }

  lemma SameLargest(all: seq<int>, front: seq<int>, rest: seq<int>)
    requires NonIncreasing(all) && NonIncreasing(front) && front != []
    requires multiset(all) == multiset(front + rest)
    requires AtLeast(front, rest)
    ensures all != [] && all[0] == front[0]
  {
    SameSize(all, front + rest);
    SameMembers(all, front + rest);
    assert front[0] == (front + rest)[0] && all[0] in front + rest;
    LargestFirst(all, front[0]);
    if all[0] in front {
      LargestFirst(front, all[0]);
    } else {
      assert all[0] in rest;
    }
  }

  lemma DropHeads<T>(a: seq<T>, b: seq<T>)
    requires multiset(a) == multiset(b) && a != [] && b != [] && a[0] == b[0]
    ensures multiset(a[1..]) == multiset(b[1..])
  {
    WithoutHead(a);
    WithoutHead(b);
    assert multiset(a[1..]) == multiset(a) - multiset{a[0]};
    assert multiset(b[1..]) == multiset(b) - multiset{b[0]};
  }

  /**
   The front of a descending sequence is determined by its elements: any descending front
   whose elements are no smaller than the others is it.
   */
  lemma {:induction false} FrontOfDescending(all: seq<int>, front: seq<int>, rest: seq<int>)
    requires NonIncreasing(all) && NonIncreasing(front)
    requires multiset(all) == multiset(front + rest)
    requires AtLeast(front, rest)
    ensures |front| <= |all| && all[..|front|] == front
    decreases |front|
  {
    if front != [] {
      SameLargest(all, front, rest);
      var all', front' := all[1..], front[1..];
      DropHeads(all, front + rest);
      assert (front + rest)[1..] == front' + rest;
      FrontOfDescending(all', front', rest);
      assert forall i :: 0 < i < |front| ==> all[i] == all'[i - 1] == all'[..|front'|][i - 1] == front'[i - 1];
    }
  }

  function Map<T, U>(s: seq<T>, f: T -> U): (out: seq<U>)
    ensures |out| == |s| && forall i :: 0 <= i < |s| ==> out[i] == f(s[i])
  {
    seq(|s|, i requires 0 <= i < |s| => f(s[i]))
  }

  lemma MapWithout<T, U>(s: seq<T>, j: nat, f: T -> U)
    requires j < |s|
    ensures multiset(Map(s, f)) == multiset(Map(Without(s, j), f)) + multiset{f(s[j])}
  {
    WithoutOne(Map(s, f), j);
    assert Without(Map(s, f), j) == Map(Without(s, j), f);
  }

  /** Mapping a permutation gives a permutation. */
  lemma {:induction false} MapPermutation<T, U>(a: seq<T>, b: seq<T>, f: T -> U)
    requires multiset(a) == multiset(b)
    ensures multiset(Map(a, f)) == multiset(Map(b, f))
    decreases |a|
  {
    SameSize(a, b);
    if a != [] {
      var j := Peel(a, b);
      MapPermutation(a[1..], Without(b, j), f);
      MapWithout(b, j, f);
      MapWithout(a, 0, f);
      assert Without(a, 0) == a[1..];
    }
  }

  /** The results for each element, one after another. */
  function Collect<T, U>(s: seq<T>, f: T -> seq<U>): seq<U>
  {
    if s == [] then [] else Collect(s[..|s| - 1], f) + f(s[|s| - 1])
  }

  lemma CollectSnoc<T, U>(s: seq<T>, x: T, f: T -> seq<U>)
    ensures Collect(s + [x], f) == Collect(s, f) + f(x)
  {
    assert (s + [x])[..|s|] == s;
  }

  lemma {:induction false} CollectAppend<T, U>(a: seq<T>, b: seq<T>, f: T -> seq<U>)
    ensures Collect(a + b, f) == Collect(a, f) + Collect(b, f)
    decreases |b|
  {
    if b == [] {
      assert a + b == a;
    } else {
      var n := |b| - 1;
      CollectAppend(a, b[..n], f);
      CollectSnoc(a + b[..n], b[n], f);
      assert a + b == (a + b[..n]) + [b[n]];
    }
  }

  ghost predicate Distinct<T(!new)>(s: seq<T>)
  {
    forall i, j :: 0 <= i < j < |s| ==> s[i] != s[j]
  }

  lemma {:induction false} DistinctOnce<T(!new)>(s: seq<T>, x: T)
    requires Distinct(s)
    ensures multiset(s)[x] <= 1
    decreases |s|
  {
    if s != [] {
      DistinctOnce(s[1..], x);
      WithoutHead(s);
      if x == s[0] {
        assert x !in s[1..];
      }
    }
  }

  lemma DistinctPermutation<T(!new)>(a: seq<T>, b: seq<T>)
    requires Distinct(a) && multiset(a) == multiset(b)
    ensures Distinct(b)
  {
    forall i, j | 0 <= i < j < |b| ensures b[i] != b[j] {
      DistinctOnce(a, b[i]);
      WithoutOne(b, i);
      Member(Without(b, i), j - 1);
    }
  }

  lemma BothFollowedBy<U>(a: seq<U>, b: seq<U>, c: seq<U>, last: seq<U>)
    requires multiset(a) == multiset(b) + multiset(c)
    ensures multiset(a + last) == multiset(b + last) + multiset(c)
  {
  }

  lemma {:induction false} CollectWithout<T, U>(s: seq<T>, j: nat, f: T -> seq<U>)
    requires j < |s|
    ensures multiset(Collect(s, f)) == multiset(Collect(Without(s, j), f)) + multiset(f(s[j]))
    decreases |s|
  {
    var n := |s| - 1;
    if j == n {
      assert Without(s, j) == s[..n];
    } else {
      CollectWithout(s[..n], j, f);
      var others := Without(s[..n], j);
      CollectSnoc(others, s[n], f);
      assert Without(s, j) == others + [s[n]];
      BothFollowedBy(Collect(s[..n], f), Collect(others, f), f(s[j]), f(s[n]));
    }
  }

  /** Collecting in another order gives the same elements. */
  lemma {:induction false} CollectPermutation<T, U>(a: seq<T>, b: seq<T>, f: T -> seq<U>)
    requires multiset(a) == multiset(b)
    ensures multiset(Collect(a, f)) == multiset(Collect(b, f))
    decreases |a|
  {
    SameSize(a, b);
    if a != [] {
      var j := Peel(a, b);
      CollectPermutation(a[1..], Without(b, j), f);
      CollectWithout(a, 0, f);
      CollectWithout(b, j, f);
      assert Without(a, 0) == a[1..];
    }
  }

  lemma {:induction false} CollectMembers<T, U>(s: seq<T>, f: T -> seq<U>, x: U)
    requires x in Collect(s, f)
    ensures exists i :: 0 <= i < |s| && x in f(s[i])
    decreases |s|
  {
    var n := |s| - 1;
    if x in Collect(s[..n], f) {
      CollectMembers(s[..n], f, x);
      var i :| 0 <= i < n && x in f(s[..n][i]);
      assert s[i] == s[..n][i];
    } else {
      assert x in f(s[n]);
    }
  }
}
