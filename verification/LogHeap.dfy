/**
 The bounded min-heap that keeps the newest entries of a day
 (webmanager/backend/internal/logstore/logstore.go, `newestEntries`), with the sift
 loops of container/heap written out.
 */
module LogHeap {

  datatype Entry = Entry(timestamp: int, app: string, level: string, message: string)

  function Parent(k: nat): (p: nat)
    requires k > 0
    ensures p < k
  {
    (k - 1) / 2
  }

  /** The entry at k is no older than its parent. */
  predicate Above(d: seq<Entry>, k: nat)
    requires k < |d|
  {
    k == 0 || d[Parent(k)].timestamp <= d[k].timestamp
  }

  ghost predicate IsHeap(d: seq<Entry>)
  {
    forall k :: 0 <= k < |d| ==> Above(d, k)
  }

  lemma {:induction false} RootIsOldest(d: seq<Entry>, k: nat)
    requires IsHeap(d) && k < |d|
    ensures d[0].timestamp <= d[k].timestamp
    decreases k
  {
    if k > 0 {
      RootIsOldest(d, Parent(k));
      assert Above(d, k);
    }
  }

  function Swapped(d: seq<Entry>, i: nat, j: nat): seq<Entry>
    requires i < |d| && j < |d|
  {
    d[i := d[j]][j := d[i]]
  }

  lemma SwapKeepsEntries(d: seq<Entry>, i: nat, j: nat)
    requires i < |d| && j < |d|
    ensures multiset(Swapped(d, i, j)) == multiset(d)
  {
  }

  /** A heap but for the entry at j, which may be older than its parent. */
  ghost predicate HeapButUp(d: seq<Entry>, j: nat)
  {
    && (forall k :: 0 <= k < |d| && k != j ==> Above(d, k))
    && (forall k :: 0 < k < |d| && Parent(k) == j && j > 0 ==> d[Parent(j)].timestamp <= d[k].timestamp)
  }

  /** A heap but for the entry at i, which may be newer than its children. */
  ghost predicate HeapButDown(d: seq<Entry>, i: nat)
  {
    && (forall k :: 0 < k < |d| && Parent(k) != i ==> Above(d, k))
    && (forall k :: 0 < k < |d| && Parent(k) == i && 0 < i < |d| ==> d[Parent(i)].timestamp <= d[k].timestamp)
  }

  lemma SiftUpStep(d: seq<Entry>, j: nat)
    requires 0 < j < |d| && HeapButUp(d, j) && d[j].timestamp < d[Parent(j)].timestamp
    ensures HeapButUp(Swapped(d, Parent(j), j), Parent(j))
  {
    var i := Parent(j);
    var d' := Swapped(d, i, j);
    assert i > 0 ==> Above(d, i);
    forall k | 0 <= k < |d| && k != i ensures Above(d', k) {
      assert k != j ==> Above(d, k);
    }
    forall k | 0 < k < |d| && Parent(k) == i && i > 0 ensures d'[Parent(i)].timestamp <= d'[k].timestamp {
      assert k != j ==> Above(d, k);
    }
  }

  ghost predicate OldestChild(d: seq<Entry>, i: nat, j: nat)
  {
    && i < j < |d| && Parent(j) == i
    && forall k :: 0 < k < |d| && Parent(k) == i ==> d[j].timestamp <= d[k].timestamp
  }

  lemma SiftDownStep(d: seq<Entry>, i: nat, j: nat)
    requires i < |d| && HeapButDown(d, i) && OldestChild(d, i, j) && d[j].timestamp < d[i].timestamp
    ensures HeapButDown(Swapped(d, i, j), j) && Above(Swapped(d, i, j), j)
  {
    var d' := Swapped(d, i, j);
    forall k | 0 < k < |d| && Parent(k) != j ensures Above(d', k) {
      assert Parent(k) != i ==> Above(d, k);
    }
    forall k | 0 < k < |d| && Parent(k) == j ensures d'[Parent(j)].timestamp <= d'[k].timestamp {
      assert Above(d, k);
    }
  }

  class NewestEntries {
    var data: seq<Entry>

    constructor ()
      ensures data == []
    {
      data := [];
    }

    method Swap(i: nat, j: nat)
      requires i < |data| && j < |data|
      modifies this
      ensures data == Swapped(old(data), i, j)
    {
      data := data[i := data[j]][j := data[i]];
    }

    method Up(j0: nat)
      requires j0 < |data| && HeapButUp(data, j0)
      modifies this
      ensures IsHeap(data) && multiset(data) == multiset(old(data))
    {
      var j: nat := j0;
      while true
        invariant j < |data| && HeapButUp(data, j) && multiset(data) == multiset(old(data))
        decreases j
      {
        var i: nat := if j == 0 then 0 else (j - 1) / 2;  // Go's (0-1)/2 is 0
        if i == j || !(data[j].timestamp < data[i].timestamp) {
          assert Above(data, j);
          break;
        }
        SiftUpStep(data, j);
        SwapKeepsEntries(data, i, j);
        Swap(i, j);
        j := i;
      }
    }

    method Down(i0: nat) returns (moved: bool)
      requires i0 < |data| && HeapButDown(data, i0)
      modifies this
      ensures multiset(data) == multiset(old(data))
      ensures moved ==> IsHeap(data)
      ensures !moved ==> data == old(data) && HeapButUp(data, i0)
    {
      var n := |data|;
      var i: nat := i0;
      while true
        invariant i0 <= i < n == |data| && multiset(data) == multiset(old(data))
        invariant HeapButDown(data, i)
        invariant i == i0 ==> data == old(data)
        invariant i > i0 ==> Above(data, i)
        decreases n - i
      {
        Children(i, n);
        var j1: nat := 2 * i + 1;
        if j1 >= n {
          break;
        }
        var j := j1;
        var j2 := j1 + 1;
        if j2 < n && data[j2].timestamp < data[j1].timestamp {
          j := j2;
        }
        assert OldestChild(data, i, j);
        if !(data[j].timestamp < data[i].timestamp) {
          break;
        }
        SiftDownStep(data, i, j);
        SwapKeepsEntries(data, i, j);
        Swap(i, j);
        i := j;
      }
      Settled(data, i);
      return i > i0;
    }

    lemma Children(i: nat, n: nat)
      ensures forall k :: 0 < k < n && Parent(k) == i ==> k == 2 * i + 1 || k == 2 * i + 2
      ensures Parent(2 * i + 1) == i && Parent(2 * i + 2) == i
    {
    }

    lemma Settled(d: seq<Entry>, i: nat)
      requires i < |d| && HeapButDown(d, i)
      requires forall k :: 0 < k < |d| && Parent(k) == i ==> d[i].timestamp <= d[k].timestamp
      ensures forall k :: 0 <= k < |d| && k != i ==> Above(d, k)
      ensures HeapButUp(d, i)
      ensures Above(d, i) ==> IsHeap(d)
    {
      forall k | 0 <= k < |d| && k != i ensures Above(d, k) {
        assert k > 0 && Parent(k) != i ==> Above(d, k);
      }
    }

    /** heap.Push */
    method Push(e: Entry)
      requires IsHeap(data)
      modifies this
      ensures IsHeap(data) && multiset(data) == multiset(old(data)) + multiset{e}
    {
      var d := data;
      data := data + [e];
      forall k | 0 <= k < |d| ensures Above(data, k) { assert Above(d, k); }
      forall k | 0 < k < |data| ensures Parent(k) != |d| {}
      Up(|data| - 1);
    }

    /** heap.Fix, after the entry at i was replaced. */
    method Fix(i: nat)
      requires i < |data| && HeapButDown(data, i)
      modifies this
      ensures IsHeap(data) && multiset(data) == multiset(old(data))
    {
      var moved := Down(i);
      if !moved {
        Up(i);
      }
    }

    /** `kept[0] = e; heap.Fix(&kept, 0)`: drops the oldest entry for e. */
    method ReplaceOldest(e: Entry)
      requires IsHeap(data) && data != []
      modifies this
      ensures IsHeap(data) && multiset(data) == multiset(old(data)) - multiset{old(data)[0]} + multiset{e}
    {
      var d := data;
      data := data[0 := e];
      forall k | 0 < k < |d| && Parent(k) != 0 ensures Above(data, k) { assert Above(d, k); }
      Fix(0);
    }
  }
}
