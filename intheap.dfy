/** The slice of 64-bit hash values BottomK keeps, with the five methods of
    Go's heap.Interface, and the container/heap algorithms run on it. Less
    compares with >, so the heap those algorithms maintain is a max-heap. */
module IntHeaps {
  import opened Bits

  class IntHeap {
    var data: seq<Uint64>

    /** An empty intHeap{}. */
    constructor ()
      ensures data == []
    {
      data := [];
    }

    function Len(): (r: nat)
      reads this
    {
      |data|
    }

    /** Named Less, but true when element i is the greater one. */
    predicate Less(i: nat, j: nat)
      reads this
      requires i < |data| && j < |data|
    {
      data[i] > data[j]
    }

    /** Exchanges two elements; the contents as a multiset stay the same. */
    method Swap(i: nat, j: nat)
      requires i < |data| && j < |data|
      modifies this
      ensures data == old(data)[i := old(data)[j]][j := old(data)[i]]
      ensures multiset(data) == multiset(old(data))
    {
      data := data[i := data[j]][j := data[i]];
    }

    /** Appends at the end. */
    method Push(x: Uint64)
      modifies this
      ensures data == old(data) + [x]
    {
      data := data + [x];
    }

    /** Removes and returns the last element. */
    method Pop() returns (x: Uint64)
      requires |data| > 0
      modifies this
      ensures x == old(data)[|old(data)| - 1]
      ensures data == old(data)[..|old(data)| - 1]
      ensures multiset(data) == multiset(old(data)) - multiset{x}
    {
      var n := |data|;
      x := data[n - 1];
      assert data == data[..n - 1] + [x];
      data := data[..n - 1];
    }
  }

  // ---------------------------------------------------------------------
  // The heap property

  /** The parent index (j-1)/2 as Go computes it: division truncates toward
      zero, so the parent of the root is the root itself. */
  function Parent(j: nat): (p: nat)
    ensures j > 0 ==> p < j && (j == 2 * p + 1 || j == 2 * p + 2)
    ensures j == 0 ==> p == 0
  {
    if j == 0 then 0 else (j - 1) / 2
  }

  /** Every element among the first n is at most its parent. */
  predicate HeapBelow(s: seq<Uint64>, n: nat)
    requires n <= |s|
  {
    forall k :: 0 < k < n ==> s[Parent(k)] >= s[k]
  }

  predicate IsMaxHeap(s: seq<Uint64>) {
    HeapBelow(s, |s|)
  }

  /** In a max-heap the element at index 0 is the largest. */
  lemma {:induction false} RootIsMax(s: seq<Uint64>)
    requires IsMaxHeap(s) && |s| > 0
    ensures forall k :: 0 <= k < |s| ==> s[k] <= s[0]
    ensures forall x :: x in multiset(s) ==> x <= s[0]
  {
    forall k | 0 <= k < |s|
      ensures s[k] <= s[0]
    {
      AncestorsBound(s, k);
    }
    forall x | x in multiset(s)
      ensures x <= s[0]
    {
      var k :| 0 <= k < |s| && s[k] == x;
    }
  }

  lemma {:induction false} AncestorsBound(s: seq<Uint64>, k: nat)
    requires IsMaxHeap(s) && k < |s|
    ensures s[k] <= s[0]
    decreases k
  {
    if k > 0 {
      AncestorsBound(s, Parent(k));
    }
  }

  // ---------------------------------------------------------------------
  // up: sift the element at j toward the root

  /** The heap property holds everywhere except between j and its parent, and
      j's parent also dominates j's children. */
  predicate UpState(s: seq<Uint64>, j: nat) {
    (forall k :: 0 < k < |s| && k != j ==> s[Parent(k)] >= s[k]) &&
    (forall k :: 0 < k < |s| && Parent(k) == j && j > 0 ==> s[Parent(j)] >= s[k])
  }

  lemma UpStep(s: seq<Uint64>, j: nat)
    requires j < |s| && j > 0 && UpState(s, j) && s[j] > s[Parent(j)]
    ensures UpState(s[Parent(j) := s[j]][j := s[Parent(j)]], Parent(j))
  {
    UpStepApart(s, j);
    UpStepAbove(s, j);
  }

  /** After the swap, every element but the one at Parent(j) is below its parent. */
  lemma UpStepApart(s: seq<Uint64>, j: nat)
    requires j < |s| && j > 0 && UpState(s, j) && s[j] > s[Parent(j)]
    ensures var i := Parent(j); var t := s[i := s[j]][j := s[i]];
      forall k :: 0 < k < |t| && k != i ==> t[Parent(k)] >= t[k]
  {
    var i := Parent(j);
    var t := s[i := s[j]][j := s[i]];
    forall k | 0 < k < |t| && k != i
      ensures t[Parent(k)] >= t[k]
    {
      var p := Parent(k);
      if k == j {
        assert t[p] == s[j] && t[k] == s[i];
      } else if p == i {
        assert t[p] == s[j] && t[k] == s[k] && s[i] >= s[k];
      } else if p == j {
        assert t[p] == s[i] && t[k] == s[k] && s[i] >= s[k];
      } else {
        assert t[p] == s[p] && t[k] == s[k];
      }
    }
  }

  /** After the swap, the new element at Parent(j) is below its own parent. */
  lemma UpStepAbove(s: seq<Uint64>, j: nat)
    requires j < |s| && j > 0 && UpState(s, j) && s[j] > s[Parent(j)]
    ensures var i := Parent(j); var t := s[i := s[j]][j := s[i]];
      forall k :: 0 < k < |t| && Parent(k) == i && i > 0 ==> t[Parent(i)] >= t[k]
  {
    var i := Parent(j);
    var t := s[i := s[j]][j := s[i]];
    forall k | 0 < k < |t| && Parent(k) == i && i > 0
      ensures t[Parent(i)] >= t[k]
    {
      assert t[Parent(i)] == s[Parent(i)] && s[Parent(i)] >= s[i];
      if k == j {
        assert t[k] == s[i];
      } else {
        assert t[k] == s[k] && s[i] >= s[k];
      }
    }
  }

  /** container/heap's up(h, j). */
  method Up(h: IntHeap, j0: nat)
    requires j0 < |h.data| && UpState(h.data, j0)
    modifies h
    ensures IsMaxHeap(h.data)
    ensures multiset(h.data) == multiset(old(h.data)) && |h.data| == |old(h.data)|
  {
    var j: nat := j0;
    while true
      invariant |h.data| == |old(h.data)| && multiset(h.data) == multiset(old(h.data))
      invariant j < |h.data| && UpState(h.data, j)
      decreases j
    {
      var i := Parent(j);
      if i == j || !h.Less(j, i) {
        break;
      }
      UpStep(h.data, j);
      h.Swap(i, j);
      j := i;
    }
  }

  // ---------------------------------------------------------------------
  // down: sift the element at i away from the root, within the first n

  /** Among the first n elements the heap property holds everywhere except
      between i and its children, and i's parent also dominates i's children. */
  predicate DownState(s: seq<Uint64>, n: nat, i: nat)
    requires n <= |s|
  {
    (forall k :: 0 < k < n && Parent(k) != i ==> s[Parent(k)] >= s[k]) &&
    (forall k :: 0 < k < n && Parent(k) == i && i > 0 ==> s[Parent(i)] >= s[k])
  }

  /** Swapping i with its largest child j, when j is greater, moves the
      exception down to j. */
  lemma DownStep(s: seq<Uint64>, n: nat, i: nat, j: nat)
    requires n <= |s| && DownState(s, n, i) && j < n && Parent(j) == i && j > 0
    requires s[j] > s[i]
    requires forall k :: 0 < k < n && Parent(k) == i ==> s[k] <= s[j]
    ensures DownState(s[i := s[j]][j := s[i]], n, j)
  {
    DownStepApart(s, n, i, j);
    DownStepBelow(s, n, i, j);
  }

  /** After the swap, every pair outside j and its children is ordered. */
  lemma DownStepApart(s: seq<Uint64>, n: nat, i: nat, j: nat)
    requires n <= |s| && DownState(s, n, i) && j < n && Parent(j) == i && j > 0
    requires s[j] > s[i]
    requires forall k :: 0 < k < n && Parent(k) == i ==> s[k] <= s[j]
    ensures var t := s[i := s[j]][j := s[i]];
      forall k :: 0 < k < n && Parent(k) != j ==> t[Parent(k)] >= t[k]
  {
    var t := s[i := s[j]][j := s[i]];
    forall k | 0 < k < n && Parent(k) != j
      ensures t[Parent(k)] >= t[k]
    {
      var p := Parent(k);
      if k == i {
        assert p != j && t[p] == s[p] && t[k] == s[j];
        assert s[p] >= s[j];
      } else if k == j {
        assert t[p] == s[j] && t[k] == s[i];
      } else if p == i {
        assert t[p] == s[j] && t[k] == s[k];
      } else {
        assert p != j && t[k] == s[k] && t[p] == s[p];
      }
    }
  }

  /** After the swap, j's children are still below j's new parent, i. */
  lemma DownStepBelow(s: seq<Uint64>, n: nat, i: nat, j: nat)
    requires n <= |s| && DownState(s, n, i) && j < n && Parent(j) == i && j > 0
    requires s[j] > s[i]
    ensures var t := s[i := s[j]][j := s[i]];
      forall k :: 0 < k < n && Parent(k) == j ==> t[i] >= t[k]
  {
    var t := s[i := s[j]][j := s[i]];
    forall k | 0 < k < n && Parent(k) == j
      ensures t[i] >= t[k]
    {
      assert k != i && k != j && t[k] == s[k] && t[i] == s[j];
    }
  }

  /** container/heap's down(h, i0, n): it leaves what SiftDown describes, whose
      properties SiftDownProperties states. */
  method Down(h: IntHeap, i0: nat, n: nat)
    requires i0 <= n <= |h.data|
    modifies h
    ensures h.data == SiftDown(old(h.data), n, i0)
  {
    var i: nat := i0;
    while true
      invariant i <= n <= |h.data|
      invariant SiftDown(h.data, n, i) == SiftDown(old(h.data), n, i0)
      decreases n - i
    {
      var j1 := 2 * i + 1;
      if j1 >= n {
        break;
      }
      var j := j1;
      var j2 := j1 + 1;
      if j2 < n && h.Less(j2, j1) {
        j := j2;
      }
      if !h.Less(j, i) {
        break;
      }
      h.Swap(i, j);
      i := j;
    }
  }

  /** down's loop as a function: the sequence it leaves behind when it starts at i. */
  function SiftDown(s: seq<Uint64>, n: nat, i: nat): (r: seq<Uint64>)
    requires i <= n <= |s|
    decreases n - i
  {
    var j1 := 2 * i + 1;
    if j1 >= n then s
    else
      var j := if j1 + 1 < n && s[j1 + 1] > s[j1] then j1 + 1 else j1;
      if s[j] <= s[i] then s
      else SiftDown(s[i := s[j]][j := s[i]], n, j)
  }

  /** From a heap with one exception at i, down leaves a heap among the first n,
      the same elements, and index n and beyond alone. */
  lemma {:induction false} SiftDownProperties(s: seq<Uint64>, n: nat, i: nat, t: seq<Uint64>)
    requires i <= n <= |s| && DownState(s, n, i) && t == SiftDown(s, n, i)
    ensures |t| == |s| && multiset(t) == multiset(s)
    ensures HeapBelow(t, n)
    ensures forall k :: n <= k < |s| ==> t[k] == s[k]
    decreases n - i
  {
    var j1 := 2 * i + 1;
    if j1 >= n {
      NoChildren(n, i);
      DownDone(s, n, i);
    } else {
      var j := if j1 + 1 < n && s[j1 + 1] > s[j1] then j1 + 1 else j1;
      LargerChild(s, n, i, j);
      if s[j] <= s[i] {
        DownDone(s, n, i);
      } else {
        var u := s[i := s[j]][j := s[i]];
        DownStep(s, n, i, j);
        SwapMultiset(s, i, j);
        SiftDownProperties(u, n, j, t);
      }
    }
  }

  lemma SwapMultiset(s: seq<Uint64>, i: nat, j: nat)
    requires i < |s| && j < |s|
    ensures multiset(s[i := s[j]][j := s[i]]) == multiset(s)
  {
  }

  /** down stops when no child of i among the first n is greater than i. */
  lemma DownDone(s: seq<Uint64>, n: nat, i: nat)
    requires n <= |s| && DownState(s, n, i)
    requires forall k :: 0 < k < n && Parent(k) == i ==> s[k] <= s[i]
    ensures HeapBelow(s, n)
  {
  }

  lemma NoChildren(n: nat, i: nat)
    requires 2 * i + 1 >= n
    ensures forall k :: 0 < k < n ==> Parent(k) != i
  {
  }

  /** The child down picks: the right one only when it is the greater. */
  lemma LargerChild(s: seq<Uint64>, n: nat, i: nat, j: nat)
    requires n <= |s| && 2 * i + 1 < n
    requires j == if 2 * i + 2 < n && s[2 * i + 2] > s[2 * i + 1] then 2 * i + 2 else 2 * i + 1
    ensures j < n && j > 0 && Parent(j) == i
    ensures forall k :: 0 < k < n && Parent(k) == i ==> s[k] <= s[j]
  {
    forall k | 0 < k < n && Parent(k) == i
      ensures s[k] <= s[j]
    {
      assert k == 2 * i + 1 || k == 2 * i + 2;
    }
  }

  // ---------------------------------------------------------------------
  // heap.Push and heap.Pop

  /** heap.Push(h, x): append, then sift the new last element up. */
  method HeapPush(h: IntHeap, x: Uint64)
    requires IsMaxHeap(h.data)
    modifies h
    ensures IsMaxHeap(h.data)
    ensures multiset(h.data) == multiset(old(h.data)) + multiset{x}
    ensures |h.data| == |old(h.data)| + 1
  {
    h.Push(x);
    Up(h, h.Len() - 1);
  }

  /** heap.Pop(h): move the root to the end, restore the heap in front of it,
      and remove it. The value returned is the old maximum. */
  method HeapPop(h: IntHeap) returns (x: Uint64)
    requires IsMaxHeap(h.data) && |h.data| > 0
    modifies h
    ensures x == old(h.data)[0]
    ensures IsMaxHeap(h.data)
    ensures multiset(h.data) == multiset(old(h.data)) - multiset{x}
    ensures |h.data| == |old(h.data)| - 1
  {
    var n := h.Len() - 1;
    h.Swap(0, n);
    Down(h, 0, n);
    PopProperties(old(h.data), h.data);
    x := h.Pop();
  }

  /** After the root is swapped to the end and sifted down within the rest,
      the front is a heap of every element but the old root, which sits last. */
  lemma PopProperties(s: seq<Uint64>, t: seq<Uint64>)
    requires IsMaxHeap(s) && |s| > 0
    requires t == SiftDown(s[0 := s[|s| - 1]][|s| - 1 := s[0]], |s| - 1, 0)
    ensures |t| == |s| && t[|s| - 1] == s[0]
    ensures IsMaxHeap(t[..|s| - 1])
    ensures multiset(t[..|s| - 1]) == multiset(s) - multiset{s[0]}
  {
    var n := |s| - 1;
    var u := s[0 := s[n]][n := s[0]];
    SwapRootState(s);
    SiftDownProperties(u, n, 0, t);
    assert t[n] == u[n];
    SwapMultiset(s, 0, n);
    assert t == t[..n] + [t[n]];
    HeapPrefix(t, n);
  }

  lemma SwapRootState(s: seq<Uint64>)
    requires IsMaxHeap(s) && |s| > 0
    ensures DownState(s[0 := s[|s| - 1]][|s| - 1 := s[0]], |s| - 1, 0)
  {
    var n := |s| - 1;
    var u := s[0 := s[n]][n := s[0]];
    forall k | 0 < k < n && Parent(k) != 0
      ensures u[Parent(k)] >= u[k]
    {
      assert u[Parent(k)] == s[Parent(k)] && u[k] == s[k];
    }
  }

  lemma HeapPrefix(t: seq<Uint64>, n: nat)
    requires n <= |t| && HeapBelow(t, n)
    ensures IsMaxHeap(t[..n])
  {
    forall k | 0 < k < n
      ensures t[..n][Parent(k)] >= t[..n][k]
    {
      assert t[..n][Parent(k)] == t[Parent(k)];
    }
  }

  // ---------------------------------------------------------------------
  // sort.Sort on an intHeap

  /** Pairwise order as sort.Sort leaves it under this Less: no element is
      greater than one before it. */
  predicate NonIncreasing(s: seq<Uint64>) {
    forall p, q :: 0 <= p < q < |s| ==> s[p] >= s[q]
  }

  /** In a non-increasing sequence no element exceeds the first. */
  lemma HeadIsMax(s: seq<Uint64>, x: Uint64)
    requires NonIncreasing(s) && x in multiset(s)
    ensures |s| > 0 && x <= s[0]
  {
    assert x in s;
    var i :| 0 <= i < |s| && s[i] == x;
    if i > 0 {
      assert s[0] >= s[i];
    }
  }

  /** A multiset has only one non-increasing arrangement, so every correct
      sort under this Less returns the same sequence. */
  lemma {:induction false} SortedUnique(s: seq<Uint64>, t: seq<Uint64>)
    requires NonIncreasing(s) && NonIncreasing(t) && multiset(s) == multiset(t)
    ensures s == t
    decreases |s|
  {
    if |s| == 0 {
      assert |multiset(t)| == 0;
    } else {
      assert s[0] in multiset(s);
      HeadIsMax(t, s[0]);
      assert t[0] in multiset(t);
      HeadIsMax(s, t[0]);
      assert s[0] == t[0];
      assert s == [s[0]] + s[1..] && t == [t[0]] + t[1..];
      assert multiset(s) == multiset{s[0]} + multiset(s[1..]);
      assert multiset(t) == multiset{t[0]} + multiset(t[1..]);
      assert multiset(s[1..]) == multiset(s) - multiset{s[0]};
      assert multiset(t[1..]) == multiset(t) - multiset{t[0]};
      SortedUnique(s[1..], t[1..]);
    }
  }

  /** Orders h so that Less(i+1, i) holds for no i, through Less and Swap alone
      (insertion sort; the Go library's choice of algorithm is not modelled). */
  method Sort(h: IntHeap)
    modifies h
    ensures NonIncreasing(h.data)
    ensures multiset(h.data) == multiset(old(h.data))
  {
    var i := 1;
    while i < h.Len()
      invariant |h.data| == |old(h.data)| && 1 <= i
      invariant i <= |h.data| || |h.data| == 0
      invariant NonIncreasing(h.data[..Min(i, |h.data|)])
      invariant multiset(h.data) == multiset(old(h.data))
      decreases |h.data| - i
    {
      Insert(h, i);
      i := i + 1;
    }
    assert h.data[..Min(i, |h.data|)] == h.data;
  }

  /** One pass of the insertion sort: swaps element i towards the front while
      it is greater than its predecessor, extending the ordered prefix by one. */
  method Insert(h: IntHeap, i: nat)
    requires i < |h.data| && NonIncreasing(h.data[..i])
    modifies h
    ensures |h.data| == |old(h.data)| && multiset(h.data) == multiset(old(h.data))
    ensures NonIncreasing(h.data[..i + 1])
  {
    InsertStart(h.data, i);
    var j := i;
    while j > 0 && h.Less(j, j - 1)
      invariant 0 <= j <= i < |h.data| == |old(h.data)|
      invariant InsertState(h.data, i, j)
      invariant multiset(h.data) == multiset(old(h.data))
      decreases j
    {
      InsertStep(h.data, i, j);
      h.Swap(j - 1, j);
      j := j - 1;
    }
    InsertDone(h.data, i, j);
  }

  lemma InsertStart(s: seq<Uint64>, i: nat)
    requires i < |s| && NonIncreasing(s[..i])
    ensures InsertState(s, i, i)
  {
    forall p, q | 0 <= p < q <= i && p != i && q != i
      ensures s[p] >= s[q]
    {
      assert s[..i][p] == s[p] && s[..i][q] == s[q];
    }
  }

  /** The first i + 1 elements are in order except for the one at j, which is
      at least every element after it. */
  predicate InsertState(s: seq<Uint64>, i: nat, j: nat)
    requires j <= i < |s|
  {
    (forall p, q :: 0 <= p < q <= i && p != j && q != j ==> s[p] >= s[q]) &&
    (forall q :: j < q <= i ==> s[j] >= s[q])
  }

  lemma InsertStep(s: seq<Uint64>, i: nat, j: nat)
    requires 0 < j <= i < |s| && InsertState(s, i, j) && s[j] > s[j - 1]
    ensures InsertState(s[j - 1 := s[j]][j := s[j - 1]], i, j - 1)
  {
    var t := s[j - 1 := s[j]][j := s[j - 1]];
    forall p, q | 0 <= p < q <= i && p != j - 1 && q != j - 1
      ensures t[p] >= t[q]
    {
      if p == j {
        assert t[p] == s[j - 1];
      } else if q == j {
        assert s[p] >= s[j - 1];
      }
    }
  }

  lemma InsertDone(s: seq<Uint64>, i: nat, j: nat)
    requires j <= i < |s| && InsertState(s, i, j)
    requires j > 0 ==> s[j - 1] >= s[j]
    ensures NonIncreasing(s[..i + 1])
  {
    forall p, q | 0 <= p < q <= i
      ensures s[p] >= s[q]
    {
      if q == j && p < j - 1 {
        assert s[p] >= s[j - 1];
      } else if p == j - 1 && q > j {
        assert s[j] >= s[q];
      }
    }
  }
}
