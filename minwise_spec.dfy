/** What the MinWise sketch computes, as functions on its slots: the hash each
    slot applies to a 32-bit element hash, the slots after pushing a sequence
    of elements, merging, and the count the similarity is built from. */
module MinWiseSpec {
  import opened Bits
  import opened Estimates

  /** p32: the exponent of the Mersenne prime. */
  const P32: nat := 61
  /** prime32 = 2^61 - 1. */
  const Prime32: Uint64 := 0x1FFF_FFFF_FFFF_FFFF

  // ---------------------------------------------------------------------
  // The per-slot hash

  /** One round of Push's reduction loop shrinks any value that has bits at
      position 61 or above. */
  lemma FoldStep(x: nat)
    ensures And(x, Prime32) == x % 0x2000_0000_0000_0000
    ensures Shr(x, P32) == x / 0x2000_0000_0000_0000
    ensures Shr(x, P32) != 0 ==> And(x, Prime32) + Shr(x, P32) < x
  {
    Pow2Of61();
    AndLowBits(x, 61);
    ShrIsDiv(x, 61);
  }

  /** Push's reduction loop: while x >> 61 != 0, x = (x & prime32) + (x >> 61). */
  function Fold(x: nat): (r: nat)
    decreases x
  {
    if Shr(x, P32) == 0 then x
    else
      FoldStep(x);
      Fold(And(x, Prime32) + Shr(x, P32))
  }

  /** x mod (2^61 - 1) as the reduction loop delivers it: a nonzero multiple of
      the prime comes out as the prime itself, not as 0. */
  function MersenneMod(x: nat): (r: nat) {
    if x == 0 then 0
    else if x % Prime32 == 0 then Prime32
    else x % Prime32
  }

  /** The reduction loop computes MersenneMod. */
  lemma {:induction false} FoldValue(x: nat)
    ensures Fold(x) == MersenneMod(x)
    ensures Fold(x) <= Prime32
    decreases x
  {
    FoldStep(x);
    if Shr(x, P32) == 0 {
      FoldDone(x);
    } else {
      var q, r := x / 0x2000_0000_0000_0000, x % 0x2000_0000_0000_0000;
      FoldValue(r + q);
      FoldCongruent(x, q, r);
    }
  }

  /** A value below 2^61 is its own MersenneMod. */
  lemma FoldDone(x: nat)
    requires x < 0x2000_0000_0000_0000
    ensures MersenneMod(x) == x
  {
    if x == Prime32 {
      MulDivCancel(1, Prime32, 0);
    } else {
      MulDivCancel(0, Prime32, x);
    }
  }

  /** Since 2^61 = prime32 + 1, folding the high part onto the low part keeps
      the residue mod prime32, and keeps a nonzero value nonzero. */
  lemma FoldCongruent(x: nat, q: nat, r: nat)
    requires x == q * 0x2000_0000_0000_0000 + r && q >= 1
    ensures MersenneMod(x) == MersenneMod(r + q)
  {
    assert x == q * Prime32 + (r + q);
    ModAddMultiple(q, Prime32, r + q);
  }

  /** x & MaxUint32 is x mod 2^32. */
  lemma LowWord(x: nat)
    ensures And(x, MaxUint32) == x % TwoTo32
  {
    Pow2Of32();
    AndLowBits(x, 32);
  }

  /** The value Push compares against slot i: uint32((a*hv + b) folded, & MaxUint32),
      with the multiply and the add wrapping modulo 2^64. */
  function SlotHash(a: Uint64, b: Uint64, hv: Uint32): (r: Uint32) {
    FoldValue(Add64(Mul64(a, hv), b));
    And(Fold(Add64(Mul64(a, hv), b)), MaxUint32)
  }

  /** The slot hash in ordinary arithmetic: the low 32 bits of the wrapped
      a*hv + b reduced by MersenneMod. */
  lemma SlotHashValue(a: Uint64, b: Uint64, hv: Uint32)
    ensures SlotHash(a, b, hv) == MersenneMod(Add64(Mul64(a, hv), b)) % TwoTo32
  {
    var x := Add64(Mul64(a, hv), b);
    FoldValue(x);
    LowWord(Fold(x));
  }

  /** When a*hv + b is the prime itself, the loop leaves it unreduced and the
      slot hash is MaxUint32 where the residue mod the prime would give 0. */
  lemma PrimeIsNotReduced()
    ensures SlotHash(1, Prime32 - 1, 1) == MaxUint32
    ensures ((1 * 1 + (Prime32 - 1)) % Prime32) % TwoTo32 == 0
  {
    assert Mul64(1, 1) == 1 by {
      MulDivCancel(0, TwoTo64, 1);
    }
    assert Add64(1, Prime32 - 1) == Prime32 by {
      MulDivCancel(0, TwoTo64, Prime32);
    }
    assert Prime32 % Prime32 == 0 by {
      MulDivCancel(1, Prime32, 0);
    }
    assert MersenneMod(Prime32) == Prime32;
    assert Prime32 % TwoTo32 == MaxUint32 by {
      assert Prime32 == 0x1FFF_FFFF * TwoTo32 + MaxUint32;
      MulDivCancel(0x1FFF_FFFF, TwoTo32, MaxUint32);
    }
    SlotHashValue(1, Prime32 - 1, 1);
  }

  /** The product a*hv overflows 64 bits for coefficients above 2^32: with
      a = 2^40 and hv = 2^30 it wraps to 0, while (a*hv + b) mod (2^61 - 1)
      would be 2^9. */
  lemma ProductWraps()
    ensures Mul64(0x100_0000_0000, 0x4000_0000) == 0
    ensures SlotHash(0x100_0000_0000, 0, 0x4000_0000) == 0
    ensures (0x100_0000_0000 * 0x4000_0000) % Prime32 == 0x200
  {
    MulDivCancel(64, TwoTo64, 0);
    assert 0x100_0000_0000 * 0x4000_0000 == 64 * TwoTo64;
    SlotHashValue(0x100_0000_0000, 0, 0x4000_0000);
    MulDivCancel(0, TwoTo64, 0);
    assert 0x100_0000_0000 * 0x4000_0000 == 512 * (Prime32 + 1);
    MulDivCancel(512, Prime32, 0x200);
  }

  // ---------------------------------------------------------------------
  // Pushing elements

  /** The slots after Push(hv): each slot keeps the smaller of its value and
      its slot hash of hv. */
  function PushSlots(ms: seq<Uint32>, ca: seq<Uint64>, cb: seq<Uint64>, hv: Uint32): (r: seq<Uint32>)
    requires |ca| == |ms| && |cb| == |ms|
    ensures |r| == |ms|
    ensures forall i :: 0 <= i < |ms| ==>
      r[i] <= ms[i] && r[i] <= SlotHash(ca[i], cb[i], hv) &&
      (r[i] == ms[i] || r[i] == SlotHash(ca[i], cb[i], hv))
  {
    seq(|ms|, i requires 0 <= i < |ms| =>
      if SlotHash(ca[i], cb[i], hv) < ms[i] then SlotHash(ca[i], cb[i], hv) else ms[i])
  }

  /** The slots after pushing every element hash of hvs in turn. */
  function PushAll(ms: seq<Uint32>, ca: seq<Uint64>, cb: seq<Uint64>, hvs: seq<Uint32>): (r: seq<Uint32>)
    requires |ca| == |ms| && |cb| == |ms|
    ensures |r| == |ms|
    decreases |hvs|
  {
    if hvs == [] then ms
    else PushSlots(PushAll(ms, ca, cb, hvs[..|hvs| - 1]), ca, cb, hvs[|hvs| - 1])
  }

  /** The smallest slot hash over the element hashes hvs (MaxUint32 when none). */
  function MinHash(a: Uint64, b: Uint64, hvs: seq<Uint32>): (r: Uint32)
    ensures forall k :: 0 <= k < |hvs| ==> r <= SlotHash(a, b, hvs[k])
    ensures r == MaxUint32 || exists k :: 0 <= k < |hvs| && r == SlotHash(a, b, hvs[k])
    decreases |hvs|
  {
    if hvs == [] then MaxUint32
    else
      var n := |hvs|;
      var m := MinHash(a, b, hvs[..n - 1]);
      var h := SlotHash(a, b, hvs[n - 1]);
      assert forall k :: 0 <= k < n - 1 ==> hvs[..n - 1][k] == hvs[k];
      if h < m then h else m
  }

  /** Slot i after pushing hvs holds the smaller of its start value and its
      minimum slot hash over hvs. */
  lemma {:induction false} PushAllSlot(ms: seq<Uint32>, ca: seq<Uint64>, cb: seq<Uint64>, hvs: seq<Uint32>, i: nat)
    requires |ca| == |ms| && |cb| == |ms| && i < |ms|
    ensures PushAll(ms, ca, cb, hvs)[i] == Min(ms[i], MinHash(ca[i], cb[i], hvs))
    decreases |hvs|
  {
    if hvs != [] {
      PushAllSlot(ms, ca, cb, hvs[..|hvs| - 1], i);
    }
  }

  /** The minimum depends only on which element hashes occur. */
  lemma MinHashOfSameElements(a: Uint64, b: Uint64, xs: seq<Uint32>, ys: seq<Uint32>)
    requires forall h :: h in xs <==> h in ys
    ensures MinHash(a, b, xs) == MinHash(a, b, ys)
  {
    var mx, my := MinHash(a, b, xs), MinHash(a, b, ys);
    if my != MaxUint32 {
      var k :| 0 <= k < |ys| && my == SlotHash(a, b, ys[k]);
      assert ys[k] in xs;
      var k' :| 0 <= k' < |xs| && xs[k'] == ys[k];
      assert mx <= my;
    }
    if mx != MaxUint32 {
      var k :| 0 <= k < |xs| && mx == SlotHash(a, b, xs[k]);
      assert xs[k] in ys;
      var k' :| 0 <= k' < |ys| && ys[k'] == xs[k];
      assert my <= mx;
    }
  }

  /** Pushing the same elements in any order, any number of times, gives the
      same slots. */
  lemma PushOrderIrrelevant(ms: seq<Uint32>, ca: seq<Uint64>, cb: seq<Uint64>, xs: seq<Uint32>, ys: seq<Uint32>)
    requires |ca| == |ms| && |cb| == |ms|
    requires forall h :: h in xs <==> h in ys
    ensures PushAll(ms, ca, cb, xs) == PushAll(ms, ca, cb, ys)
  {
    forall i | 0 <= i < |ms| ensures PushAll(ms, ca, cb, xs)[i] == PushAll(ms, ca, cb, ys)[i] {
      PushAllSlot(ms, ca, cb, xs, i);
      PushAllSlot(ms, ca, cb, ys, i);
      MinHashOfSameElements(ca[i], cb[i], xs, ys);
    }
  }

  /** The minimum over two runs of elements is the smaller of the two minimums. */
  lemma {:induction false} MinHashAppend(a: Uint64, b: Uint64, xs: seq<Uint32>, ys: seq<Uint32>)
    ensures MinHash(a, b, xs + ys) == Min(MinHash(a, b, xs), MinHash(a, b, ys))
    decreases |ys|
  {
    if ys == [] {
      assert xs + ys == xs;
    } else {
      var n, zs := |ys|, xs + ys;
      assert zs[..|zs| - 1] == xs + ys[..n - 1];
      assert zs[|zs| - 1] == ys[n - 1];
      MinHashAppend(a, b, xs, ys[..n - 1]);
      MinHashSnoc(a, b, zs);
      MinHashSnoc(a, b, ys);
    }
  }

  lemma MinHashSnoc(a: Uint64, b: Uint64, hvs: seq<Uint32>)
    requires hvs != []
    ensures MinHash(a, b, hvs)
         == Min(MinHash(a, b, hvs[..|hvs| - 1]), SlotHash(a, b, hvs[|hvs| - 1]))
  {
  }

  // ---------------------------------------------------------------------
  // Merging

  /** Merge's result: each of m1's slots takes m2's value where m2 has a slot
      there and it is smaller. */
  function MergeSlots(m1: seq<Uint32>, m2: seq<Uint32>): (r: seq<Uint32>)
  {
    seq(|m1|, i requires 0 <= i < |m1| => if i < |m2| && m2[i] < m1[i] then m2[i] else m1[i])
  }

  /** Merging the sketches of two element sequences gives the sketch of their
      concatenation, from the merged start values. */
  lemma MergeIsUnion(ms1: seq<Uint32>, ms2: seq<Uint32>, ca: seq<Uint64>, cb: seq<Uint64>, xs: seq<Uint32>, ys: seq<Uint32>)
    requires |ms2| == |ms1| && |ca| == |ms1| && |cb| == |ms1|
    ensures MergeSlots(PushAll(ms1, ca, cb, xs), PushAll(ms2, ca, cb, ys))
         == PushAll(MergeSlots(ms1, ms2), ca, cb, xs + ys)
  {
    var ms := MergeSlots(ms1, ms2);
    forall i | 0 <= i < |ms1|
      ensures MergeSlots(PushAll(ms1, ca, cb, xs), PushAll(ms2, ca, cb, ys))[i]
           == PushAll(ms, ca, cb, xs + ys)[i]
    {
      PushAllSlot(ms1, ca, cb, xs, i);
      PushAllSlot(ms2, ca, cb, ys, i);
      PushAllSlot(ms, ca, cb, xs + ys, i);
      MinHashAppend(ca[i], cb[i], xs, ys);
    }
  }

  /** Merging equally long sketches is commutative. */
  lemma MergeCommutative(m1: seq<Uint32>, m2: seq<Uint32>)
    requires |m1| == |m2|
    ensures MergeSlots(m1, m2) == MergeSlots(m2, m1)
  {
  }

  /** Merging a sketch into itself leaves it as it is. */
  lemma MergeIdempotent(m: seq<Uint32>)
    ensures MergeSlots(m, m) == m
  {
  }

  /** Merging is associative. */
  lemma MergeAssociative(m1: seq<Uint32>, m2: seq<Uint32>, m3: seq<Uint32>)
    requires |m1| == |m2| == |m3|
    ensures MergeSlots(MergeSlots(m1, m2), m3) == MergeSlots(m1, MergeSlots(m2, m3))
  {
  }

  // ---------------------------------------------------------------------
  // Similarity

  /** The number of slots on which two equally long sketches agree. */
  function EqualSlots(m1: seq<Uint32>, m2: seq<Uint32>): (r: nat)
    requires |m1| == |m2|
    decreases |m1|
  {
    if m1 == [] then 0
    else EqualSlots(m1[..|m1| - 1], m2[..|m2| - 1]) + (if m1[|m1| - 1] == m2[|m2| - 1] then 1 else 0)
  }

  /** Similarity's result: a panic for sketches of different sizes, otherwise
      the fraction of equal slots (0/0 for two empty sketches). */
  function Similarity(m1: seq<Uint32>, m2: seq<Uint32>): (r: Estimate) {
    if |m1| != |m2| then Panic("minhash minimums size mismatch")
    else Quotient(EqualSlots(m1, m2), |m1|)
  }

  /** At most every slot agrees, and every slot agrees exactly when the
      sketches are equal. */
  lemma {:induction false} EqualSlotsBound(m1: seq<Uint32>, m2: seq<Uint32>)
    requires |m1| == |m2|
    ensures EqualSlots(m1, m2) <= |m1|
    ensures EqualSlots(m1, m2) == |m1| <==> m1 == m2
    decreases |m1|
  {
    if m1 != [] {
      var n := |m1|;
      EqualSlotsBound(m1[..n - 1], m2[..n - 1]);
      assert m1 == m1[..n - 1] + [m1[n - 1]];
      assert m2 == m2[..n - 1] + [m2[n - 1]];
    }
  }

  lemma {:induction false} EqualSlotsSymmetric(m1: seq<Uint32>, m2: seq<Uint32>)
    requires |m1| == |m2|
    ensures EqualSlots(m1, m2) == EqualSlots(m2, m1)
    decreases |m1|
  {
    if m1 != [] {
      EqualSlotsSymmetric(m1[..|m1| - 1], m2[..|m2| - 1]);
    }
  }

  /** The estimate does not depend on the order of the sketches: a length
      mismatch panics both ways, and empty sketches give 0/0 both ways. */
  lemma SimilaritySymmetric(m1: seq<Uint32>, m2: seq<Uint32>)
    ensures Similarity(m1, m2) == Similarity(m2, m1)
  {
    if |m1| == |m2| {
      EqualSlotsSymmetric(m1, m2);
    }
  }

  /** For non-empty sketches of one length the estimate lies in [0, 1] and is
      1 exactly for equal sketches. */
  lemma SimilarityProperties(m1: seq<Uint32>, m2: seq<Uint32>)
    requires |m1| == |m2| > 0
    ensures 0.0 <= Similarity(m1, m2).Value() <= 1.0
    ensures Similarity(m1, m2).Value() == 1.0 <==> m1 == m2
  {
    EqualSlotsBound(m1, m2);
  }
}
