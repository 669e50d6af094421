/** The bottom-k sketch: a bounded max-heap of the k smallest nonzero 64-bit
    hash values seen, duplicates kept. */
module BottomKSketch {
  import opened Bits
  import opened Estimates
  import opened IntHeaps

  // ---------------------------------------------------------------------
  // What the heap holds

  /** r is a bottom-k of all: a sub-multiset of min(k, |all|) elements, none
      greater than an element of all that r leaves out. */
  predicate IsBottomK(r: multiset<Uint64>, all: multiset<Uint64>, k: int) {
    r <= all && |r| == Min(Max(k, 0), |all|) &&
    forall x, y :: x in r && y in all - r ==> x <= y
  }

  /** A sub-multiset and what it leaves out add up to the whole. */
  lemma SplitCard(r: multiset<Uint64>, all: multiset<Uint64>)
    requires r <= all
    ensures all == r + (all - r)
    ensures |all| == |r| + |all - r|
  {
    assert forall x :: all[x] == (r + (all - r))[x];
  }

  /** While there is room, everything added is retained, so one more value is
      simply retained too. */
  lemma BottomKInsert(r: multiset<Uint64>, all: multiset<Uint64>, k: int, x: Uint64)
    requires IsBottomK(r, all, k) && |r| < k
    ensures IsBottomK(r + multiset{x}, all + multiset{x}, k)
  {
    SplitCard(r, all);
    assert all - r == multiset{};
    assert all == r;
    var r', all' := r + multiset{x}, all + multiset{x};
    assert all' - r' == multiset{};
  }

  /** When full, a value below the maximum top replaces one copy of top. */
  lemma BottomKReplace(r: multiset<Uint64>, all: multiset<Uint64>, k: int, x: Uint64, top: Uint64)
    requires IsBottomK(r, all, k) && |r| >= k
    requires top in r && (forall y :: y in r ==> y <= top) && x < top
    ensures IsBottomK(r - multiset{top} + multiset{x}, all + multiset{x}, k)
  {
    var r', all' := r - multiset{top} + multiset{x}, all + multiset{x};
    ReplaceLeftOut(r, all, x, top);
    assert |r'| == |r|;
    forall u, v | u in r' && v in all' - r'
      ensures u <= v
    {
      if v != top {
        assert v in all - r;
        if u != x {
          assert u in r;
        }
      }
    }
  }

  /** Swapping top for x in r leaves out what r left out, and top. */
  lemma ReplaceLeftOut(r: multiset<Uint64>, all: multiset<Uint64>, x: Uint64, top: Uint64)
    requires r <= all && top in r
    ensures r - multiset{top} + multiset{x} <= all + multiset{x}
    ensures (all + multiset{x}) - (r - multiset{top} + multiset{x}) == (all - r) + multiset{top}
  {
    var r', all' := r - multiset{top} + multiset{x}, all + multiset{x};
    assert forall v :: (all' - r')[v] == ((all - r) + multiset{top})[v];
  }

  /** When full, a value no smaller than every retained one changes nothing. */
  lemma BottomKKeep(r: multiset<Uint64>, all: multiset<Uint64>, k: int, x: Uint64)
    requires IsBottomK(r, all, k) && |r| >= k
    requires forall y :: y in r ==> y <= x
    ensures IsBottomK(r, all + multiset{x}, k)
  {
    var all' := all + multiset{x};
    SplitCard(r, all);
    assert all' - r == (all - r) + multiset{x} by {
      assert forall v :: (all' - r)[v] == ((all - r) + multiset{x})[v];
    }
  }

  // ---------------------------------------------------------------------
  // Similarity of two sketches

  /** |a * b| / max(|a|, |b|) for sketches of the same size. */
  function SketchSimilarity(size1: int, size2: int, a: multiset<Uint64>, b: multiset<Uint64>): (r: Estimate) {
    if size1 != size2 then Panic("minhash minimums size mismatch")
    else Quotient(|a * b|, Max(|a|, |b|))
  }

  lemma IntersectionCard(a: multiset<Uint64>, b: multiset<Uint64>)
    ensures |a * b| <= |a| && |a * b| <= |b|
  {
    SplitCard(a * b, a);
    SplitCard(a * b, b);
  }

  /** The estimate lies in [0, 1], and is 0/0 only for two empty sketches. */
  lemma SketchSimilarityBounds(size1: int, size2: int, a: multiset<Uint64>, b: multiset<Uint64>)
    requires size1 == size2
    ensures SketchSimilarity(size1, size2, a, b).Quotient?
    ensures SketchSimilarity(size1, size2, a, b).matches <= SketchSimilarity(size1, size2, a, b).total
    ensures SketchSimilarity(size1, size2, a, b).IsNaN() <==> |a| == 0 && |b| == 0
  {
    IntersectionCard(a, b);
  }

  lemma SketchSimilaritySymmetric(size1: int, size2: int, a: multiset<Uint64>, b: multiset<Uint64>)
    ensures SketchSimilarity(size1, size2, a, b) == SketchSimilarity(size2, size1, b, a)
  {
    assert a * b == b * a;
  }

  /** A non-empty sketch compared with itself gives exactly 1. */
  lemma SketchSimilaritySelf(size: int, a: multiset<Uint64>)
    requires |a| > 0
    ensures SketchSimilarity(size, size, a, a).Value() == 1.0
  {
    assert a * a == a;
  }

  /** One more element of b adds its value to a * b exactly when a still has
      an unmatched copy of it. */
  lemma IntersectionSnoc(a: multiset<Uint64>, b: multiset<Uint64>, v: Uint64)
    ensures a * (b + multiset{v}) == if a[v] > b[v] then a * b + multiset{v} else a * b
  {
    if a[v] > b[v] {
      assert forall u :: (a * (b + multiset{v}))[u] == (a * b + multiset{v})[u];
    } else {
      assert forall u :: (a * (b + multiset{v}))[u] == (a * b)[u];
    }
  }

  /** A Go map lookup with the zero value for a missing key. */
  function Count(m: map<Uint64, int>, v: Uint64): (r: int) {
    if v in m then m[v] else 0
  }

  /** The map holds the multiplicity of every value in m. */
  predicate Counts(mins: map<Uint64, int>, m: multiset<Uint64>) {
    forall v :: Count(mins, v) == m[v]
  }

  /** Similarity's first loop: mins[v]++ for every retained value. */
  method CountValues(d: seq<Uint64>) returns (mins: map<Uint64, int>)
    ensures Counts(mins, multiset(d))
  {
    mins := map[];
    var i := 0;
    while i < |d|
      invariant 0 <= i <= |d|
      invariant Counts(mins, multiset(d[..i]))
    {
      var v := d[i];
      CountStep(mins, d, i);
      mins := mins[v := Count(mins, v) + 1];
      i := i + 1;
    }
    assert d[..i] == d;
  }

  /** mins[v]++ on a map counting the first i values counts the first i + 1. */
  lemma CountStep(mins: map<Uint64, int>, d: seq<Uint64>, i: nat)
    requires i < |d| && Counts(mins, multiset(d[..i]))
    ensures Counts(mins[d[i] := Count(mins, d[i]) + 1], multiset(d[..i + 1]))
  {
    assert d[..i + 1] == d[..i] + [d[i]];
  }

  /** Matching d[j] against the counts of what a has left unmatched by d[..j]. */
  lemma MatchStep(mins: map<Uint64, int>, a: multiset<Uint64>, d: seq<Uint64>, j: nat)
    requires j < |d| && Counts(mins, a - a * multiset(d[..j]))
    ensures var v, b, b' := d[j], multiset(d[..j]), multiset(d[..j + 1]);
      if v in mins && mins[v] > 0 then
        |a * b'| == |a * b| + 1 && Counts(mins[v := mins[v] - 1], a - a * b')
      else
        |a * b'| == |a * b| && Counts(mins, a - a * b')
  {
    var v, b, b' := d[j], multiset(d[..j]), multiset(d[..j + 1]);
    assert d[..j + 1] == d[..j] + [v];
    assert b' == b + multiset{v};
    IntersectionSnoc(a, b, v);
    assert Count(mins, v) == a[v] - (a * b)[v];
    if a[v] > b[v] {
      assert v in mins && mins[v] > 0;
      var mins' := mins[v := mins[v] - 1];
      forall u
        ensures Count(mins', u) == (a - a * b')[u]
      {
        assert (a - a * b')[u] == (a - a * b)[u] - (if u == v then 1 else 0);
      }
    } else {
      assert !(v in mins && mins[v] > 0);
    }
  }

  // ---------------------------------------------------------------------
  // The sketch

  class BottomK {
    const size: int
    const minimums: IntHeap
    /** The nonzero hash values added so far. */
    ghost var added: multiset<Uint64>

    /** The slice is a max-heap holding a bottom-size of what was added. */
    ghost predicate Valid()
      reads this, minimums
    {
      IsMaxHeap(minimums.data) && IsBottomK(multiset(minimums.data), added, size)
    }

    /** NewBottomK, with the hash function left out: an empty heap. */
    constructor (k: int)
      ensures Valid() && fresh(minimums)
      ensures size == k && minimums.data == [] && added == multiset{}
    {
      size := k;
      minimums := new IntHeap();
      added := multiset{};
    }

    /** Add, given the computed 64-bit hash x. A zero hash is ignored; while
        the heap has room x is pushed; when full, x replaces the maximum if it
        is smaller. With size <= 0 reading the root of the empty heap panics. */
    method Add(x: Uint64) returns (panicked: bool)
      requires Valid()
      modifies this, minimums
      ensures Valid()
      ensures panicked <==> x != 0 && size <= 0
      ensures added == if x == 0 || panicked then old(added) else old(added) + multiset{x}
      ensures x == 0 || panicked ==> minimums.data == old(minimums.data)
      ensures x != 0 && old(|minimums.data|) < size ==>
        multiset(minimums.data) == old(multiset(minimums.data)) + multiset{x}
      ensures x != 0 && 1 <= size <= old(|minimums.data|) ==>
        |minimums.data| == size &&
        if x < old(minimums.data)[0] then
          multiset(minimums.data) == old(multiset(minimums.data)) - multiset{old(minimums.data)[0]} + multiset{x}
        else minimums.data == old(minimums.data)
    {
      if x == 0 {
        return false;
      }
      if minimums.Len() < size {
        BottomKInsert(multiset(minimums.data), added, size, x);
        HeapPush(minimums, x);
        added := added + multiset{x};
        return false;
      }
      if minimums.Len() == 0 {
        return true;
      }
      RootIsMax(minimums.data);
      if x < minimums.data[0] {
        BottomKReplace(multiset(minimums.data), added, size, x, minimums.data[0]);
        var _ := HeapPop(minimums);
        HeapPush(minimums, x);
      } else {
        BottomKKeep(multiset(minimums.data), added, size, x);
      }
      added := added + multiset{x};
      return false;
    }

    /** A sorted copy: non-increasing, because the sort uses this Less. */
    method Signature() returns (sig: seq<Uint64>)
      ensures NonIncreasing(sig)
      ensures multiset(sig) == multiset(minimums.data)
    {
      var mins := new IntHeap();
      mins.data := minimums.data;
      Sort(mins);
      sig := mins.data;
    }

    /** Counts each retained value of this sketch in a map, then matches the
        values of m2 against the counts. */
    method Similarity(m2: BottomK) returns (r: Estimate)
      ensures r == SketchSimilarity(size, m2.size, multiset(minimums.data), multiset(m2.minimums.data))
    {
      if size != m2.size {
        return Panic("minhash minimums size mismatch");
      }
      var d1, d2 := minimums.data, m2.minimums.data;
      ghost var a := multiset(d1);
      var mins := CountValues(d1);
      assert a - a * multiset(d2[..0]) == a;
      var intersect := 0;
      var j := 0;
      while j < |d2|
        invariant 0 <= j <= |d2|
        invariant intersect == |a * multiset(d2[..j])|
        invariant Counts(mins, a - a * multiset(d2[..j]))
      {
        var v := d2[j];
        MatchStep(mins, a, d2, j);
        if v in mins && mins[v] > 0 {
          intersect := intersect + 1;
          mins := mins[v := mins[v] - 1];
        }
        j := j + 1;
      }
      assert d2[..j] == d2;
      var maxlength := |d1|;
      if maxlength < |d2| {
        maxlength := |d2|;
      }
      return Quotient(intersect, maxlength);
    }
  }
}
