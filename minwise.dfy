/** The MinWise sketch: one minimum per slot, each slot with its own
    universal hash a*x + b over the Mersenne prime 2^61 - 1, and the b-bit
    reduction of its signature. */
module MinWiseSketch {
  import opened Bits
  import opened Estimates
  import opened Bbit
  import opened MinWiseSpec

  class MinWise {
    /** The current minimum of each slot; Signature hands this array out. */
    const minimums: array<Uint32>
    /** The coefficients of each slot's hash, drawn once at construction. */
    const a: seq<Uint64>
    const b: seq<Uint64>

    /** One coefficient pair per slot, with 0 < a < prime32 and b < prime32. */
    predicate Valid() {
      |a| == minimums.Length && |b| == minimums.Length &&
      forall i :: 0 <= i < |a| ==> 0 < a[i] < Prime32 && b[i] < Prime32
    }

    /** NewMinWise with the random draws passed in: every slot starts at MaxUint32. */
    constructor (size: nat, coefA: seq<Uint64>, coefB: seq<Uint64>)
      requires |coefA| == size && |coefB| == size
      requires forall i :: 0 <= i < size ==> 0 < coefA[i] < Prime32 && coefB[i] < Prime32
      ensures Valid() && fresh(minimums)
      ensures a == coefA && b == coefB
      ensures minimums[..] == seq(size, _ => MaxUint32)
    {
      a := coefA;
      b := coefB;
      minimums := new Uint32[size];
      new;
      var i := 0;
      while i < size
        invariant 0 <= i <= size
        invariant forall j :: 0 <= j < i ==> minimums[j] == MaxUint32
      {
        minimums[i] := MaxUint32;
        i := i + 1;
      }
    }

    /** Adds an element, given its 32-bit hash: every slot keeps the smaller of
        its minimum and its hash of hv. */
    method Push(hv: Uint32)
      requires Valid()
      modifies minimums
      ensures minimums[..] == PushSlots(old(minimums[..]), a, b, hv)
    {
      ghost var start := minimums[..];
      var i := 0;
      while i < minimums.Length
        invariant 0 <= i <= minimums.Length
        invariant forall j :: 0 <= j < i ==> minimums[j] == PushSlots(start, a, b, hv)[j]
        invariant forall j :: i <= j < minimums.Length ==> minimums[j] == start[j]
      {
        var h := SlotValue(a[i], b[i], hv);
        if h < minimums[i] {
          minimums[i] := h;
        }
        i := i + 1;
      }
    }

    /** Merges m2 into this sketch slot by slot. When m2 has more slots, every
        slot of this sketch is merged and the next index panics. */
    method Merge(m2: MinWise) returns (panicked: bool)
      modifies minimums
      ensures panicked <==> m2.minimums.Length > minimums.Length
      ensures minimums[..] == MergeSlots(old(minimums[..]), old(m2.minimums[..]))
      ensures m2.minimums[..] == old(m2.minimums[..])
    {
      ghost var m1start, m2start := minimums[..], m2.minimums[..];
      var i := 0;
      while i < m2.minimums.Length
        invariant 0 <= i <= m2.minimums.Length && i <= minimums.Length
        invariant forall j :: 0 <= j < i ==> minimums[j] == MergeSlots(m1start, m2start)[j]
        invariant forall j :: i <= j < minimums.Length ==> minimums[j] == m1start[j]
        invariant forall j :: i <= j < m2.minimums.Length ==> m2.minimums[j] == m2start[j]
      {
        if i >= minimums.Length {
          return true;
        }
        var v := m2.minimums[i];
        if v < minimums[i] {
          minimums[i] := v;
        }
        i := i + 1;
      }
      return false;
    }

    /** The signature is the sketch's own array, not a copy. */
    method Signature() returns (sig: array<Uint32>)
      ensures sig == minimums
    {
      return minimums;
    }

    /** The fraction of slots on which the two sketches hold the same minimum. */
    method Similarity(m2: MinWise) returns (r: Estimate)
      ensures r == MinWiseSpec.Similarity(minimums[..], m2.minimums[..])
    {
      if minimums.Length != m2.minimums.Length {
        return Panic("minhash minimums size mismatch");
      }
      var intersect := 0;
      var i := 0;
      while i < minimums.Length
        invariant 0 <= i <= minimums.Length
        invariant intersect == EqualSlots(minimums[..i], m2.minimums[..i])
      {
        assert minimums[..i + 1][..i] == minimums[..i];
        assert m2.minimums[..i + 1][..i] == m2.minimums[..i];
        if minimums[i] == m2.minimums[i] {
          intersect := intersect + 1;
        }
        i := i + 1;
      }
      assert minimums[..i] == minimums[..] && m2.minimums[..i] == m2.minimums[..];
      return Quotient(intersect, minimums.Length);
    }

    /** Packs the low bw bits of each minimum into 32-bit words, the first
        value of a word in its highest field; the value that arrives when a word
        is full only closes the word. */
    method SignatureBbit(bw: nat) returns (sig: seq<Uint32>)
      ensures sig == BbitSignature(minimums[..], bw)
    {
      ghost var vs := minimums[..];
      sig := [];
      var w: Uint32 := 0;
      var bits: nat := 32;
      var mask := Mask32(bw);
      var i := 0;
      while i < minimums.Length
        invariant vs == minimums[..] && i <= minimums.Length
        invariant PackLoop(vs, bw, i) == PackAcc(sig, w, bits)
      {
        if bits >= bw {
          Pow2Of32();
          OrBound(Shl32(w, bw), And(minimums[i], mask), 32);
          w := Shl32(w, bw);
          w := Or(w, And(minimums[i], mask));
          bits := bits - bw;
        } else {
          sig := sig + [w];
          w := 0;
          bits := 32;
        }
        i := i + 1;
      }
      PackLoopDone(vs, bw);
      if bits != 32 {
        sig := sig + [w];
      }
    }
  }

  /** The value Push compares against a slot with coefficients a and b:
      a*hv + b on uint64, reduced by the Mersenne fold, low 32 bits. */
  method SlotValue(a: Uint64, b: Uint64, hv: Uint32) returns (h: Uint32)
    ensures h == SlotHash(a, b, hv)
    ensures h == MersenneMod(Add64(Mul64(a, hv), b)) % TwoTo32
  {
    var phv: Uint64 := Add64(Mul64(a, hv), b);
    ghost var product := phv;
    while Shr(phv, P32) != 0
      invariant Fold(phv) == Fold(product)
      decreases phv
    {
      FoldStep(phv);
      phv := And(phv, Prime32) + Shr(phv, P32);
    }
    h := And(phv, MaxUint32);
    SlotHashValue(a, b, hv);
  }

  /** SimilarityBbit's inner loop over one pair of words: reads fields from
      the least significant end while b bits remain, counting the fields read
      and those that are equal. */
  method WordMatches(w1: Uint32, w2: Uint32, b: nat, mask: Uint32) returns (matches: nat, fields: nat)
    requires 1 <= b && mask == Mask32(b)
    ensures matches == MatchingFields(w1, w2, b, FieldsPerWord(b))
    ensures fields == FieldsPerWord(b)
  {
    var v1: Uint32, v2: Uint32 := w1, w2;
    var bits: nat := 32;
    matches, fields := 0, 0;
    while bits >= b
      invariant matches + MatchingFields(v1, v2, b, FieldsIn(bits, b)) == MatchingFields(w1, w2, b, FieldsPerWord(b))
      invariant fields + FieldsIn(bits, b) == FieldsPerWord(b)
      decreases bits
    {
      FieldStep(v1, v2, b, bits);
      if And(v1, mask) == And(v2, mask) {
        matches := matches + 1;
      }
      fields := fields + 1;
      bits := bits - b;
      v1 := Shr(v1, b);
      v2 := Shr(v2, b);
    }
  }

  /** Compares two b-bit signatures field by field, reading each word from its
      least significant end. With b = 0 the field loop would never stop, so a
      non-empty pair of equally long signatures is excluded for b = 0. */
  method SimilarityBbit(sig1: seq<Uint32>, sig2: seq<Uint32>, b: nat) returns (r: Estimate)
    requires b > 0 || |sig1| == 0 || |sig1| != |sig2|
    ensures r == BbitSimilarity(sig1, sig2, b)
  {
    if |sig1| != |sig2| {
      return Panic("signature size mismatch");
    }
    ghost var f := FieldsPerWord(b);
    var intersect, count := 0, 0;
    var mask := Mask32(b);
    var i := 0;
    while i < |sig1|
      invariant 0 <= i <= |sig1|
      invariant intersect == SignatureMatches(sig1[..i], sig2[..i], b)
      invariant count == i * f
    {
      var matches, fields := WordMatches(sig1[i], sig2[i], b, mask);
      SignatureMatchesSnoc(sig1, sig2, b, i);
      MulSucc(i, i + 1, f);
      intersect, count := intersect + matches, count + fields;
      i := i + 1;
    }
    assert sig1[..i] == sig1 && sig2[..i] == sig2;
    return Quotient(intersect, count);
  }
}
