/** The b-bit reduction of a MinWise signature as pure functions: how
    SignatureBbit lays the low b bits of the minimums out in 32-bit words, and
    how SimilarityBbit reads the fields back, from the least significant end. */
module Bbit {
  import opened Bits
  import opened Estimates

  /** The low b bits of v. */
  function Low(v: nat, b: nat): (r: nat) { v % Pow2(b) }

  /** How many b-bit fields fit in a word with the given number of free bits,
      counted as both loops count them: while bits >= b, take b bits. */
  function FieldsIn(bits: nat, b: nat): (r: nat)
    requires b >= 1
    decreases bits
  {
    if bits < b then 0 else 1 + FieldsIn(bits - b, b)
  }

  /** How many b-bit fields one 32-bit word holds (b = 0 never reaches a word:
      SimilarityBbit's loop would not stop there). */
  function FieldsPerWord(b: nat): (r: nat) { if b == 0 then 0 else FieldsIn(32, b) }

  /** n fields of b bits fit in the free bits exactly when n <= FieldsIn(bits, b). */
  lemma {:induction false} FieldsInFit(bits: nat, n: nat, b: nat)
    requires b >= 1
    ensures n * b <= bits <==> n <= FieldsIn(bits, b)
    decreases bits
  {
    if n > 0 {
      assert n * b == (n - 1) * b + b;
      MulMonotone(1, n, b);
      if bits >= b {
        FieldsInFit(bits - b, n - 1, b);
      }
    }
  }

  lemma FieldsFit(n: nat, b: nat)
    requires b >= 1
    ensures n * b <= 32 <==> n <= FieldsPerWord(b)
  {
    FieldsInFit(32, n, b);
  }

  /** FieldsPerWord(b) is the quotient 32 / b. */
  lemma FieldsPerWordIsQuotient(b: nat)
    requires b >= 1
    ensures FieldsPerWord(b) == 32 / b
  {
    var f := FieldsPerWord(b);
    FieldsFit(f, b);
    FieldsFit(f + 1, b);
    assert (f + 1) * b == f * b + b;
    DivModUnique(32, b, f, 32 - f * b);
  }

  // ---------------------------------------------------------------------
  // Packing one word

  /** The word obtained by shifting in the low b bits of each value in turn:
      the first value ends up in the highest field. */
  function PackWord(vs: seq<Uint32>, b: nat): (r: nat)
    decreases |vs|
  {
    if vs == [] then 0 else PackWord(vs[..|vs| - 1], b) * Pow2(b) + Low(vs[|vs| - 1], b)
  }

  /** n fields of b bits fit in bn = b*n bits. */
  lemma {:induction false} PackWordBound(vs: seq<Uint32>, b: nat, bn: nat)
    requires bn == b * |vs|
    ensures PackWord(vs, b) < Pow2(bn)
    decreases |vs|
  {
    if vs != [] {
      var n := |vs|;
      MulSucc(n - 1, n, b);
      var bm := bn - b;
      PackWordBound(vs[..n - 1], b, bm);
      ShiftInBound(PackWord(vs[..n - 1], b), Low(vs[n - 1], b), Pow2(b), Pow2(bm));
      Pow2Add(bm, b);
    }
  }

  lemma ShiftInBound(p: nat, l: nat, bp: nat, bq: nat)
    requires p < bq && l < bp
    ensures p * bp + l < bq * bp
  {
    MulMonotone(p + 1, bq, bp);
  }

  /** A word of at most 32/b fields. */
  function Word(vs: seq<Uint32>, b: nat): (w: Uint32)
    requires 1 <= b && |vs| <= FieldsPerWord(b)
    ensures w == PackWord(vs, b)
  {
    FieldsFit(|vs|, b);
    PackWordBound(vs, b, |vs| * b);
    Pow2Monotone(|vs| * b, 32);
    Pow2Of32();
    PackWord(vs, b)
  }

  // ---------------------------------------------------------------------
  // Reading fields back

  /** Field t of w counted from the least significant end: what the decoder
      sees after shifting w right by b, t times. */
  function Field(w: nat, b: nat, t: nat): (r: nat)
    decreases t
  {
    if t == 0 then Low(w, b) else Field(Shr(w, b), b, t - 1)
  }

  lemma {:induction false} FieldOfZero(b: nat, t: nat)
    ensures Field(0, b, t) == 0
    decreases t
  {
    MulDivCancel(0, Pow2(b), 0);
    if t > 0 {
      ShrIsDiv(0, b);
      FieldOfZero(b, t - 1);
    }
  }

  /** The decoder reads a packed word in the opposite order: field t holds the
      t-th value from the end, and the fields above the last value are 0. */
  lemma {:induction false} FieldOfPackWord(vs: seq<Uint32>, b: nat, t: nat)
    ensures Field(PackWord(vs, b), b, t) == if t < |vs| then Low(vs[|vs| - 1 - t], b) else 0
    decreases |vs|
  {
    if vs == [] {
      FieldOfZero(b, t);
    } else {
      var n := |vs|;
      var p := PackWord(vs[..n - 1], b);
      var l := Low(vs[n - 1], b);
      MulDivCancel(p, Pow2(b), l);
      ShrIsDiv(PackWord(vs, b), b);
      assert Shr(PackWord(vs, b), b) == p;
      if t > 0 {
        FieldOfPackWord(vs[..n - 1], b, t - 1);
      }
    }
  }

  /** The number of fields t < n on which w1 and w2 agree, read from the least
      significant end as SimilarityBbit's inner loop reads them. */
  function MatchingFields(w1: nat, w2: nat, b: nat, n: nat): (r: nat)
    ensures r <= n
    decreases n
  {
    if n == 0 then 0
    else (if Low(w1, b) == Low(w2, b) then 1 else 0) + MatchingFields(Shr(w1, b), Shr(w2, b), b, n - 1)
  }

  /** w1 and w2 agree on their n lowest b-bit fields. */
  predicate FieldsAgree(w1: nat, w2: nat, b: nat, n: nat) {
    forall t :: 0 <= t < n ==> Field(w1, b, t) == Field(w2, b, t)
  }

  lemma MatchingFieldsAll(w1: nat, w2: nat, b: nat, n: nat)
    ensures MatchingFields(w1, w2, b, n) == n <==> FieldsAgree(w1, w2, b, n)
  {
    if MatchingFields(w1, w2, b, n) == n {
      AllMatchedFields(w1, w2, b, n);
    } else if FieldsAgree(w1, w2, b, n) {
      FieldsAllMatch(w1, w2, b, n);
    }
  }

  lemma {:induction false} AllMatchedFields(w1: nat, w2: nat, b: nat, n: nat)
    requires MatchingFields(w1, w2, b, n) == n
    ensures FieldsAgree(w1, w2, b, n)
    decreases n
  {
    if n > 0 {
      var s1, s2 := Shr(w1, b), Shr(w2, b);
      var head := if Low(w1, b) == Low(w2, b) then 1 else 0;
      assert MatchingFields(w1, w2, b, n) == head + MatchingFields(s1, s2, b, n - 1);
      AllMatchedFields(s1, s2, b, n - 1);
      forall t | 0 <= t < n ensures Field(w1, b, t) == Field(w2, b, t) {
        if t > 0 {
          assert Field(w1, b, t) == Field(s1, b, t - 1);
          assert Field(w2, b, t) == Field(s2, b, t - 1);
        }
      }
    }
  }

  lemma {:induction false} FieldsAllMatch(w1: nat, w2: nat, b: nat, n: nat)
    requires FieldsAgree(w1, w2, b, n)
    ensures MatchingFields(w1, w2, b, n) == n
    decreases n
  {
    if n > 0 {
      var s1, s2 := Shr(w1, b), Shr(w2, b);
      assert Field(w1, b, 0) == Field(w2, b, 0);
      forall t | 0 <= t < n - 1 ensures Field(s1, b, t) == Field(s2, b, t) {
        assert Field(w1, b, t + 1) == Field(w2, b, t + 1);
      }
      FieldsAllMatch(s1, s2, b, n - 1);
    }
  }

  lemma {:induction false} MatchingFieldsSymmetric(w1: nat, w2: nat, b: nat, n: nat)
    ensures MatchingFields(w1, w2, b, n) == MatchingFields(w2, w1, b, n)
    decreases n
  {
    if n > 0 {
      MatchingFieldsSymmetric(Shr(w1, b), Shr(w2, b), b, n - 1);
    }
  }

  lemma {:induction false} MatchingFieldsSelf(w: nat, b: nat, n: nat)
    ensures MatchingFields(w, w, b, n) == n
    decreases n
  {
    if n > 0 {
      MatchingFieldsSelf(Shr(w, b), b, n - 1);
    }
  }

  /** What SimilarityBbit counts as intersecting: matching fields over all words. */
  function SignatureMatches(s1: seq<Uint32>, s2: seq<Uint32>, b: nat): (r: nat)
    requires |s1| == |s2|
    decreases |s1|
  {
    if s1 == [] then 0
    else
      var n := |s1|;
      SignatureMatches(s1[..n - 1], s2[..n - 1], b) + MatchingFields(s1[n - 1], s2[n - 1], b, FieldsPerWord(b))
  }

  /** The count over the first i + 1 words adds word i's matching fields. */
  lemma SignatureMatchesSnoc(s1: seq<Uint32>, s2: seq<Uint32>, b: nat, i: nat)
    requires |s1| == |s2| && i < |s1|
    ensures SignatureMatches(s1[..i + 1], s2[..i + 1], b)
         == SignatureMatches(s1[..i], s2[..i], b) + MatchingFields(s1[i], s2[i], b, FieldsPerWord(b))
  {
    assert s1[..i + 1][..i] == s1[..i] && s2[..i + 1][..i] == s2[..i];
  }

  /** At most every field of every word matches. */
  lemma {:induction false} SignatureMatchesBound(s1: seq<Uint32>, s2: seq<Uint32>, b: nat)
    requires |s1| == |s2|
    ensures SignatureMatches(s1, s2, b) <= |s1| * FieldsPerWord(b)
    decreases |s1|
  {
    if s1 != [] {
      var n, f := |s1|, FieldsPerWord(b);
      SignatureMatchesBound(s1[..n - 1], s2[..n - 1], b);
      MulSucc(n - 1, n, f);
    }
  }

  lemma {:induction false} SignatureMatchesSymmetric(s1: seq<Uint32>, s2: seq<Uint32>, b: nat)
    requires |s1| == |s2|
    ensures SignatureMatches(s1, s2, b) == SignatureMatches(s2, s1, b)
    decreases |s1|
  {
    if s1 != [] {
      var n := |s1|;
      SignatureMatchesSymmetric(s1[..n - 1], s2[..n - 1], b);
      MatchingFieldsSymmetric(s1[n - 1], s2[n - 1], b, FieldsPerWord(b));
    }
  }

  lemma {:induction false} SignatureMatchesSelf(s: seq<Uint32>, b: nat)
    ensures SignatureMatches(s, s, b) == |s| * FieldsPerWord(b)
    decreases |s|
  {
    if s != [] {
      var n := |s|;
      SignatureMatchesSelf(s[..n - 1], b);
      MatchingFieldsSelf(s[n - 1], b, FieldsPerWord(b));
      MulSucc(n - 1, n, FieldsPerWord(b));
    }
  }

  lemma {:induction false} SignatureMatchesAppend(s1: seq<Uint32>, s2: seq<Uint32>, t1: seq<Uint32>, t2: seq<Uint32>, b: nat)
    requires |s1| == |s2| && |t1| == |t2|
    ensures SignatureMatches(s1 + t1, s2 + t2, b) == SignatureMatches(s1, s2, b) + SignatureMatches(t1, t2, b)
    decreases |t1|
  {
    if t1 == [] {
      assert s1 + t1 == s1 && s2 + t2 == s2;
    } else {
      var n := |t1|;
      assert (s1 + t1)[..|s1| + n - 1] == s1 + t1[..n - 1];
      assert (s2 + t2)[..|s2| + n - 1] == s2 + t2[..n - 1];
      SignatureMatchesAppend(s1, s2, t1[..n - 1], t2[..n - 1], b);
    }
  }

  // ---------------------------------------------------------------------
  // Grouping: which values share a word

  /** The runs of values SignatureBbit packs into words when f fields fit in a
      word: f values fill a word, and the value after them is spent on emitting
      the word and encoded nowhere. */
  function Groups(vs: seq<Uint32>, f: nat): (gs: seq<seq<Uint32>>)
    requires f >= 1
    ensures forall j :: 0 <= j < |gs| ==> 0 < |gs[j]| <= f
    decreases |vs|
  {
    if vs == [] then []
    else if |vs| <= f then [vs]
    else [vs[..f]] + Groups(vs[f + 1..], f)
  }

  /** There is one group per started run of f + 1 values. */
  lemma {:induction false} GroupsLength(vs: seq<Uint32>, f: nat)
    requires f >= 1
    ensures |Groups(vs, f)| == (|vs| + f) / (f + 1)
    decreases |vs|
  {
    if vs == [] {
      MulDivCancel(0, f + 1, f);
    } else if |vs| <= f {
      DivModUnique(|vs| + f, f + 1, 1, |vs| - 1);
    } else {
      var rest := vs[f + 1..];
      GroupsLength(rest, f);
      assert |Groups(vs, f)| == 1 + |Groups(rest, f)|;
      DivAddDivisor(|vs| - 1, f + 1);
      assert |vs| + f == |vs| - 1 + (f + 1);
    }
  }

  /** Grouping a whole number of runs and then the rest is grouping both. */
  lemma {:induction false} GroupsAppend(xs: seq<Uint32>, ys: seq<Uint32>, f: nat, g: nat)
    requires f >= 1 && |xs| == RunStart(g, f)
    ensures Groups(xs + ys, f) == Groups(xs, f) + Groups(ys, f)
    decreases g
  {
    if g == 0 {
      assert xs == [] && xs + ys == ys;
    } else {
      var rest := xs[f + 1..];
      GroupsUnfold(xs, ys, f);
      GroupsAppend(rest, ys, f, g - 1);
    }
  }

  /** A prefix longer than f contributes its first group to xs + ys. */
  lemma GroupsUnfold(xs: seq<Uint32>, ys: seq<Uint32>, f: nat)
    requires f >= 1 && |xs| > f
    ensures Groups(xs + ys, f) == [xs[..f]] + Groups(xs[f + 1..] + ys, f)
    ensures Groups(xs, f) == [xs[..f]] + Groups(xs[f + 1..], f)
  {
    assert (xs + ys)[..f] == xs[..f];
    assert (xs + ys)[f + 1..] == xs[f + 1..] + ys;
  }

  /** Where run j begins: j * (f + 1), counted run by run. */
  function RunStart(j: nat, f: nat): (r: nat) {
    if j == 0 then 0 else RunStart(j - 1, f) + f + 1
  }

  lemma {:induction false} RunStartIsProduct(j: nat, f: nat)
    ensures RunStart(j, f) == j * (f + 1)
  {
    if j > 0 {
      RunStartIsProduct(j - 1, f);
      NextGroupStart(j, f);
    }
  }

  /** Group j holds exactly the values at positions start = j*(f+1) up to (not
      including) start + f. */
  lemma {:induction false} GroupsLayout(vs: seq<Uint32>, f: nat, j: nat, start: nat)
    requires f >= 1 && j < |Groups(vs, f)| && start == RunStart(j, f)
    ensures start < |vs|
    ensures Groups(vs, f)[j] == vs[start..Min(start + f, |vs|)]
    decreases j
  {
    if j == 0 {
      GroupsFirst(vs, f);
    } else {
      var rest := vs[f + 1..];
      var start' := start - (f + 1);
      GroupsTail(vs, f, j);
      GroupsLayout(rest, f, j - 1, start');
      var hi := Min(start' + f, |rest|);
      SuffixSlice(vs, f + 1, start', hi);
      assert start' + f + 1 + f == start + f;
    }
  }

  lemma GroupsFirst(vs: seq<Uint32>, f: nat)
    requires f >= 1 && 0 < |Groups(vs, f)|
    ensures 0 < |vs| && Groups(vs, f)[0] == vs[0..Min(f, |vs|)]
  {
    if |vs| <= f {
      assert vs[0..|vs|] == vs;
    }
  }

  lemma GroupsTail(vs: seq<Uint32>, f: nat, j: nat)
    requires f >= 1 && 0 < j < |Groups(vs, f)|
    ensures |vs| > f && j - 1 < |Groups(vs[f + 1..], f)|
    ensures Groups(vs, f)[j] == Groups(vs[f + 1..], f)[j - 1]
  {
  }

  lemma SuffixSlice(vs: seq<Uint32>, k: nat, lo: nat, hi: nat)
    requires k <= |vs| && lo <= hi <= |vs| - k
    ensures vs[k..][lo..hi] == vs[k + lo..k + hi]
  {
  }

  lemma NextGroupStart(j: nat, f: nat)
    requires j > 0
    ensures j * (f + 1) == (j - 1) * (f + 1) + f + 1
  {
  }

  /** Position i is the value that arrives when the current word is full: the
      f-th position of its run of f + 1, counting from 0. */
  predicate Dropped(i: nat, f: nat)
    decreases i
  {
    if i < f then false else if i == f then true else Dropped(i - (f + 1), f)
  }

  /** The dropped positions are those with i mod (f + 1) == f. */
  lemma {:induction false} DroppedIsRemainder(i: nat, f: nat)
    ensures Dropped(i, f) <==> i % (f + 1) == f
    decreases i
  {
    if i <= f {
      MulDivCancel(0, f + 1, i);
    } else {
      ModAddMultiple(1, f + 1, i - (f + 1));
      assert i == 1 * (f + 1) + (i - (f + 1));
      DroppedIsRemainder(i - (f + 1), f);
    }
  }

  /** The value that arrives when the current word is full is dropped:
      changing it does not change the groups. */
  lemma {:induction false} DroppedValue(vs: seq<Uint32>, f: nat, i: nat, v: Uint32)
    requires f >= 1 && i < |vs| && Dropped(i, f)
    ensures Groups(vs[i := v], f) == Groups(vs, f)
    decreases i
  {
    var ws := vs[i := v];
    if i == f {
      assert ws[..f] == vs[..f] && ws[f + 1..] == vs[f + 1..];
    } else {
      assert ws[..f] == vs[..f];
      assert ws[f + 1..] == vs[f + 1..][i - (f + 1) := v];
      DroppedValue(vs[f + 1..], f, i - (f + 1), v);
    }
  }

  // ---------------------------------------------------------------------
  // The whole b-bit signature

  /** No group holds more than n values. */
  predicate GroupsFit(gs: seq<seq<Uint32>>, n: nat) {
    forall j :: 0 <= j < |gs| ==> |gs[j]| <= n
  }

  /** One packed word per group. */
  function PackGroups(gs: seq<seq<Uint32>>, b: nat): (ws: seq<Uint32>)
    requires 1 <= b && GroupsFit(gs, FieldsPerWord(b))
    ensures |ws| == |gs|
    ensures forall j :: 0 <= j < |gs| ==> ws[j] == PackWord(gs[j], b)
  {
    seq(|gs|, j requires 0 <= j < |gs| => Word(gs[j], b))
  }

  lemma PackGroupsAppend(gs: seq<seq<Uint32>>, hs: seq<seq<Uint32>>, b: nat)
    requires 1 <= b && GroupsFit(gs, FieldsPerWord(b)) && GroupsFit(hs, FieldsPerWord(b))
    ensures GroupsFit(gs + hs, FieldsPerWord(b))
    ensures PackGroups(gs + hs, b) == PackGroups(gs, b) + PackGroups(hs, b)
  {
    var n := FieldsPerWord(b);
    forall j | 0 <= j < |gs + hs|
      ensures |(gs + hs)[j]| <= n
    {
      if j >= |gs| {
        assert (gs + hs)[j] == hs[j - |gs|];
      }
    }
  }

  /** Packing one more group appends one more word. */
  lemma PackGroupsSnoc(gs: seq<seq<Uint32>>, r: seq<Uint32>, b: nat)
    requires 1 <= b && |r| <= FieldsPerWord(b) && GroupsFit(gs, FieldsPerWord(b))
    ensures GroupsFit(gs + [r], FieldsPerWord(b))
    ensures PackGroups(gs + [r], b) == PackGroups(gs, b) + [Word(r, b)]
  {
    PackGroupsAppend(gs, [r], b);
  }

  lemma PackGroupsCons(hd: seq<Uint32>, gs: seq<seq<Uint32>>, b: nat)
    requires 1 <= b && |hd| <= FieldsPerWord(b) && GroupsFit(gs, FieldsPerWord(b))
    ensures GroupsFit([hd] + gs, FieldsPerWord(b))
    ensures PackGroups([hd] + gs, b) == [Word(hd, b)] + PackGroups(gs, b)
  {
    assert GroupsFit([hd], FieldsPerWord(b));
    PackGroupsAppend([hd], gs, b);
    var one := PackGroups([hd], b);
    assert |one| == 1 && one[0] == Word(hd, b);
    assert one == [Word(hd, b)];
  }

  /** SignatureBbit's output for 1 <= b <= 32. */
  function Packed(vs: seq<Uint32>, b: nat): (r: seq<Uint32>)
    requires 1 <= b <= 32
  {
    PackGroups(Groups(vs, FieldsPerWord(b)), b)
  }

  /** SignatureBbit's output for every b: b = 0 shifts nothing in and never
      fills a word, so nothing is emitted; b > 32 never has room, so every value
      emits the (empty) current word. */
  function BbitSignature(vs: seq<Uint32>, b: nat): (r: seq<Uint32>) {
    if b == 0 then []
    else if b > 32 then seq(|vs|, _ => 0)
    else Packed(vs, b)
  }

  /** The signature has ceil(k / (32/b + 1)) words, and word j holds the low b
      bits of the minimums at positions j*(32/b+1) .. j*(32/b+1) + 32/b - 1
      (fewer in the last word), earliest value in the highest field. */
  lemma PackedLayout(vs: seq<Uint32>, b: nat, j: nat)
    requires 1 <= b <= 32
    ensures |Packed(vs, b)| == (|vs| + 32 / b) / (32 / b + 1)
    ensures j < |Packed(vs, b)| ==>
      var start := j * (32 / b + 1);
      start < |vs| && Packed(vs, b)[j] == PackWord(vs[start..Min(start + 32 / b, |vs|)], b)
  {
    var f := FieldsPerWord(b);
    FieldsPerWordIsQuotient(b);
    GroupsLength(vs, f);
    if j < |Packed(vs, b)| {
      RunStartIsProduct(j, f);
      GroupsLayout(vs, f, j, RunStart(j, f));
    }
  }

  // ---------------------------------------------------------------------
  // One step of SignatureBbit's loop, for 1 <= b <= 32

  /** With c fields in the current word, 32 - c*b bits are free, and there is
      room for another field exactly when c < 32/b. */
  lemma BitsFree(c: nat, b: nat)
    requires 1 <= b && c <= FieldsPerWord(b)
    ensures c * b <= 32
    ensures 32 - c * b >= b <==> c < FieldsPerWord(b)
  {
    FieldsFit(c, b);
    FieldsFit(c + 1, b);
    assert (c + 1) * b == c * b + b;
  }

  /** Shifting the word left by b and or-ing in v & mask appends v's field. */
  lemma PackStep(vs: seq<Uint32>, b: nat, start: nat, i: nat, w: Uint32)
    requires 1 <= b <= 32 && start <= i < |vs| && i - start < FieldsPerWord(b)
    requires w == PackWord(vs[start..i], b)
    ensures Or(Shl32(w, b), And(vs[i], Mask32(b))) == PackWord(vs[start..i + 1], b)
  {
    var c := i - start;
    var p := Pow2(b);
    ShiftWithoutLoss(vs, b, start, i, w);
    AndMask32(vs[i], b);
    OrDisjoint(w, Low(vs[i], b), b);
    assert Or(Shl32(w, b), And(vs[i], Mask32(b))) == w * p + Low(vs[i], b);
    var run := vs[start..i + 1];
    assert run[..c] == vs[start..i] && run[c] == vs[i];
    assert PackWord(run, b) == PackWord(run[..c], b) * p + Low(vs[i], b);
  }

  /** While the word has room for another field, the shift by b loses no bit. */
  lemma ShiftWithoutLoss(vs: seq<Uint32>, b: nat, start: nat, i: nat, w: Uint32)
    requires 1 <= b <= 32 && start <= i < |vs| && i - start < FieldsPerWord(b)
    requires w == PackWord(vs[start..i], b)
    ensures Shl32(w, b) == w * Pow2(b)
  {
    var c := i - start;
    var bc := b * c;
    assert w < Pow2(bc) by {
      PackWordBound(vs[start..i], b, bc);
    }
    RoomForField(c, b);
    ShlWithoutLoss(w, b, bc);
  }

  /** Below FieldsPerWord(b) fields, one more field of b bits still fits. */
  lemma RoomForField(c: nat, b: nat)
    requires 1 <= b && c < FieldsPerWord(b)
    ensures b * c + b <= 32
  {
    FieldsFit(c + 1, b);
    MulSucc(c, c + 1, b);
  }

  lemma ShlWithoutLoss(w: Uint32, b: nat, bc: nat)
    requires w < Pow2(bc) && bc + b <= 32
    ensures Shl32(w, b) == w * Pow2(b)
  {
    WiderWord(w, b, bc);
    MulDivCancel(0, TwoTo32, w * Pow2(b));
  }

  /** A word below 2^bc still fits in 32 bits after a shift by b when bc + b <= 32. */
  lemma WiderWord(w: nat, b: nat, bc: nat)
    requires bc + b <= 32 && w < Pow2(bc)
    ensures w * Pow2(b) < TwoTo32
  {
    var p, q := Pow2(b), Pow2(bc);
    Pow2Add(bc, b);
    Pow2Monotone(bc + b, 32);
    Pow2Of32();
    assert q * p <= TwoTo32;
    ShiftInBound(w, 0, p, q);
  }

  /** When the word is full, the next value emits it and is itself dropped. */
  lemma CloseStep(vs: seq<Uint32>, b: nat, f: nat, g: nat, i: nat, sig: seq<Uint32>, w: Uint32)
    requires 1 <= b <= 32 && f == FieldsPerWord(b)
    requires i == RunStart(g, f) + f && i < |vs|
    requires sig == Packed(vs[..RunStart(g, f)], b)
    requires w == PackWord(vs[RunStart(g, f)..i], b)
    ensures RunStart(g + 1, f) == i + 1
    ensures sig + [w] == Packed(vs[..i + 1], b)
  {
    var start := RunStart(g, f);
    var xs, run, hd := vs[..start], vs[start..i + 1], vs[start..i];
    assert vs[..i + 1] == xs + run;
    LastGroup(vs, start, i, f);
    GroupsAppend(xs, run, f, g);
    PackGroupsSnoc(Groups(xs, f), hd, b);
  }

  /** A run of f + 1 values forms one group, of its first f. */
  lemma LastGroup(vs: seq<Uint32>, start: nat, i: nat, f: nat)
    requires f >= 1 && start + f == i < |vs|
    ensures Groups(vs[start..i + 1], f) == [vs[start..i]]
  {
    var run := vs[start..i + 1];
    assert |run| == f + 1;
    assert run[..f] == vs[start..i];
    assert run[f + 1..] == [];
  }

  /** After the last value the partial word, if it holds anything, is emitted. */
  lemma FinishStep(vs: seq<Uint32>, b: nat, f: nat, g: nat, c: nat, sig: seq<Uint32>, w: Uint32)
    requires 1 <= b <= 32 && f == FieldsPerWord(b)
    requires |vs| == RunStart(g, f) + c && c <= f
    requires sig == Packed(vs[..RunStart(g, f)], b)
    requires w == PackWord(vs[RunStart(g, f)..], b)
    ensures (if c == 0 then sig else sig + [w]) == Packed(vs, b)
  {
    var start := RunStart(g, f);
    var xs, rest := vs[..start], vs[start..];
    assert vs == xs + rest;
    GroupsAppend(xs, rest, f, g);
    if c == 0 {
      assert rest == [];
      assert Groups(vs, f) == Groups(xs, f);
    } else {
      assert Groups(rest, f) == [rest];
      PackGroupsSnoc(Groups(xs, f), rest, b);
    }
  }

  /** The state of SignatureBbit's loop after the values before position i:
      for b = 0 nothing has been emitted and the word stays empty; for b > 32
      one empty word has been emitted per value; for 1 <= b <= 32, g runs of
      f + 1 values are packed and c values sit in the current word. */
  predicate PackState(vs: seq<Uint32>, b: nat, i: nat, g: nat, c: nat, sig: seq<Uint32>, w: Uint32, bits: nat) {
    var f := FieldsPerWord(b);
    i <= |vs| &&
    (b == 0 ==> sig == [] && w == 0 && bits == 32) &&
    (b > 32 ==> sig == seq(i, _ => 0) && w == 0 && bits == 32) &&
    (1 <= b <= 32 ==>
      c <= f && bits == 32 - c * b && i == RunStart(g, f) + c &&
      sig == Packed(vs[..RunStart(g, f)], b) && w == PackWord(vs[RunStart(g, f)..i], b))
  }

  lemma PackStateInit(vs: seq<Uint32>, b: nat)
    ensures PackState(vs, b, 0, 0, 0, [], 0, 32)
  {
    if 1 <= b <= 32 {
      assert vs[..0] == [] && vs[0..0] == [];
      assert Groups([], FieldsPerWord(b)) == [];
    }
  }

  /** The branch with room: w <<= b; w |= v & mask; bits -= b. */
  lemma PackStateShift(vs: seq<Uint32>, b: nat, i: nat, g: nat, c: nat, sig: seq<Uint32>, w: Uint32, bits: nat)
    requires PackState(vs, b, i, g, c, sig, w, bits) && i < |vs| && bits >= b
    ensures Or(Shl32(w, b), And(vs[i], Mask32(b))) < TwoTo32
    ensures PackState(vs, b, i + 1, g, c + 1, sig, Or(Shl32(w, b), And(vs[i], Mask32(b))), bits - b)
  {
    Pow2Of32();
    if b == 0 {
      assert Shl32(w, b) == 0;
      assert And(vs[i], Mask32(b)) == 0;
    } else if b <= 32 {
      var f := FieldsPerWord(b);
      BitsFree(c, b);
      PackStep(vs, b, RunStart(g, f), i, w);
      MulSucc(c, c + 1, b);
      OrBound(Shl32(w, b), And(vs[i], Mask32(b)), 32);
    }
  }

  /** The branch without room: the word is appended and starts over empty. */
  lemma PackStateClose(vs: seq<Uint32>, b: nat, i: nat, g: nat, c: nat, sig: seq<Uint32>, w: Uint32, bits: nat)
    requires PackState(vs, b, i, g, c, sig, w, bits) && i < |vs| && bits < b
    ensures PackState(vs, b, i + 1, g + 1, 0, sig + [w], 0, 32)
  {
    if b <= 32 {
      var f := FieldsPerWord(b);
      BitsFree(c, b);
      CloseStep(vs, b, f, g, i, sig, w);
      assert vs[i + 1..i + 1] == [];
    }
  }

  /** After the loop a non-empty current word is appended, giving BbitSignature. */
  lemma PackStateDone(vs: seq<Uint32>, b: nat, g: nat, c: nat, sig: seq<Uint32>, w: Uint32, bits: nat)
    requires PackState(vs, b, |vs|, g, c, sig, w, bits)
    ensures (if bits != 32 then sig + [w] else sig) == BbitSignature(vs, b)
  {
    if 1 <= b <= 32 {
      var f := FieldsPerWord(b);
      var start := RunStart(g, f);
      assert bits == 32 - c * b && |vs| == start + c;
      if c > 0 {
        MulAtLeast(c, b);
      }
      assert (bits != 32) == (c != 0);
      assert vs[start..|vs|] == vs[start..];
      FinishStep(vs, b, f, g, c, sig, w);
    }
  }

  /** The values SignatureBbit's loop carries: the words emitted, the current
      word and the bits still free in it. */
  datatype PackAcc = PackAcc(sig: seq<Uint32>, w: Uint32, bits: nat)

  /** The loop's state after the first i values, one iteration at a time. */
  function PackLoop(vs: seq<Uint32>, b: nat, i: nat): (r: PackAcc)
    requires i <= |vs|
  {
    if i == 0 then PackAcc([], 0, 32)
    else
      var acc := PackLoop(vs, b, i - 1);
      if acc.bits >= b then
        Pow2Of32();
        OrBound(Shl32(acc.w, b), And(vs[i - 1], Mask32(b)), 32);
        PackAcc(acc.sig, Or(Shl32(acc.w, b), And(vs[i - 1], Mask32(b))), acc.bits - b)
      else PackAcc(acc.sig + [acc.w], 0, 32)
  }

  /** The loop state after i values satisfies PackState for some run count g
      and fill c. */
  lemma {:induction false} PackLoopState(vs: seq<Uint32>, b: nat, i: nat) returns (g: nat, c: nat)
    requires i <= |vs|
    ensures PackState(vs, b, i, g, c, PackLoop(vs, b, i).sig, PackLoop(vs, b, i).w, PackLoop(vs, b, i).bits)
  {
    if i == 0 {
      PackStateInit(vs, b);
      g, c := 0, 0;
    } else {
      g, c := PackLoopState(vs, b, i - 1);
      if PackLoop(vs, b, i - 1).bits >= b {
        PackLoopShift(vs, b, i, g, c);
        c := c + 1;
      } else {
        PackLoopClose(vs, b, i, g, c);
        g, c := g + 1, 0;
      }
    }
  }

  lemma PackLoopShift(vs: seq<Uint32>, b: nat, i: nat, g: nat, c: nat)
    requires 0 < i <= |vs| && PackLoop(vs, b, i - 1).bits >= b
    requires PackState(vs, b, i - 1, g, c, PackLoop(vs, b, i - 1).sig, PackLoop(vs, b, i - 1).w, PackLoop(vs, b, i - 1).bits)
    ensures PackState(vs, b, i, g, c + 1, PackLoop(vs, b, i).sig, PackLoop(vs, b, i).w, PackLoop(vs, b, i).bits)
  {
    var acc, cur := PackLoop(vs, b, i - 1), PackLoop(vs, b, i);
    PackStateShift(vs, b, i - 1, g, c, acc.sig, acc.w, acc.bits);
    assert cur == PackAcc(acc.sig, Or(Shl32(acc.w, b), And(vs[i - 1], Mask32(b))), acc.bits - b);
  }

  lemma PackLoopClose(vs: seq<Uint32>, b: nat, i: nat, g: nat, c: nat)
    requires 0 < i <= |vs| && PackLoop(vs, b, i - 1).bits < b
    requires PackState(vs, b, i - 1, g, c, PackLoop(vs, b, i - 1).sig, PackLoop(vs, b, i - 1).w, PackLoop(vs, b, i - 1).bits)
    ensures PackState(vs, b, i, g + 1, 0, PackLoop(vs, b, i).sig, PackLoop(vs, b, i).w, PackLoop(vs, b, i).bits)
  {
    var acc, cur := PackLoop(vs, b, i - 1), PackLoop(vs, b, i);
    PackStateClose(vs, b, i - 1, g, c, acc.sig, acc.w, acc.bits);
    assert cur == PackAcc(acc.sig + [acc.w], 0, 32);
  }

  /** Running the loop over all values and flushing a partly filled word gives
      the b-bit signature. */
  lemma PackLoopDone(vs: seq<Uint32>, b: nat)
    ensures var acc := PackLoop(vs, b, |vs|);
      (if acc.bits != 32 then acc.sig + [acc.w] else acc.sig) == BbitSignature(vs, b)
  {
    var acc := PackLoop(vs, b, |vs|);
    var g, c := PackLoopState(vs, b, |vs|);
    PackStateDone(vs, b, g, c, acc.sig, acc.w, acc.bits);
  }

  // ---------------------------------------------------------------------
  // One step of SimilarityBbit's field loop

  /** With bits >= b still unread, the next field is w & mask, and the fields
      after it are read from w >> b. */
  lemma FieldStep(w1: Uint32, w2: Uint32, b: nat, bits: nat)
    requires 1 <= b <= bits
    ensures And(w1, Mask32(b)) == Low(w1, b) && And(w2, Mask32(b)) == Low(w2, b)
    ensures MatchingFields(w1, w2, b, FieldsIn(bits, b))
         == (if Low(w1, b) == Low(w2, b) then 1 else 0)
          + MatchingFields(Shr(w1, b), Shr(w2, b), b, FieldsIn(bits - b, b))
  {
    AndMask32(w1, b);
    AndMask32(w2, b);
  }

  // ---------------------------------------------------------------------
  // What a b-bit similarity of 1 means

  /** The low b bits of xs and ys agree position by position. */
  predicate LowAgree(xs: seq<Uint32>, ys: seq<Uint32>, b: nat)
    requires |xs| == |ys|
  {
    forall k :: 0 <= k < |xs| ==> Low(xs[k], b) == Low(ys[k], b)
  }

  /** The low b bits agree at every position that SignatureBbit encodes, that
      is, at every position that is not dropped. */
  predicate EncodedAgree(xs: seq<Uint32>, ys: seq<Uint32>, b: nat, f: nat)
    requires |xs| == |ys|
  {
    forall i :: 0 <= i < |xs| && !Dropped(i, f) ==> Low(xs[i], b) == Low(ys[i], b)
  }

  /** Two packed words match on all f fields exactly when the values packed
      into them agree on their low b bits. */
  lemma WordMatchesIff(xg: seq<Uint32>, yg: seq<Uint32>, b: nat, f: nat)
    requires 1 <= b <= 32 && f == FieldsPerWord(b) && |xg| == |yg| <= f
    ensures MatchingFields(PackWord(xg, b), PackWord(yg, b), b, f) == f <==> LowAgree(xg, yg, b)
  {
    var wx, wy, n := PackWord(xg, b), PackWord(yg, b), |xg|;
    MatchingFieldsAll(wx, wy, b, f);
    if FieldsAgree(wx, wy, b, f) {
      forall k | 0 <= k < n ensures Low(xg[k], b) == Low(yg[k], b) {
        var t := n - 1 - k;
        assert Field(wx, b, t) == Field(wy, b, t);
        FieldOfPackWord(xg, b, t);
        FieldOfPackWord(yg, b, t);
      }
    }
    if LowAgree(xg, yg, b) {
      forall t | 0 <= t < f ensures Field(wx, b, t) == Field(wy, b, t) {
        FieldOfPackWord(xg, b, t);
        FieldOfPackWord(yg, b, t);
        if t < n {
          assert Low(xg[n - 1 - t], b) == Low(yg[n - 1 - t], b);
        }
      }
    }
  }

  /** A run shorter than a word lies wholly before the first dropped position. */
  lemma EncodedAgreeShort(xs: seq<Uint32>, ys: seq<Uint32>, b: nat, f: nat)
    requires |xs| == |ys| <= f
    ensures EncodedAgree(xs, ys, b, f) <==> LowAgree(xs, ys, b)
  {
  }

  /** Agreement on the encoded positions splits into the first word's run and
      the rest after the dropped value. */
  lemma EncodedAgreeSplit(xs: seq<Uint32>, ys: seq<Uint32>, b: nat, f: nat)
    requires |xs| == |ys| > f
    ensures EncodedAgree(xs, ys, b, f) <==>
      LowAgree(xs[..f], ys[..f], b) && EncodedAgree(xs[f + 1..], ys[f + 1..], b, f)
  {
    var rx, ry := xs[f + 1..], ys[f + 1..];
    if EncodedAgree(xs, ys, b, f) {
      forall i | 0 <= i < |rx| && !Dropped(i, f) ensures Low(rx[i], b) == Low(ry[i], b) {
        assert Dropped(i + (f + 1), f) == Dropped(i, f);
        assert rx[i] == xs[i + (f + 1)] && ry[i] == ys[i + (f + 1)];
      }
    }
    if LowAgree(xs[..f], ys[..f], b) && EncodedAgree(rx, ry, b, f) {
      forall i | 0 <= i < |xs| && !Dropped(i, f) ensures Low(xs[i], b) == Low(ys[i], b) {
        if i < f {
          assert xs[..f][i] == xs[i] && ys[..f][i] == ys[i];
        } else {
          assert rx[i - (f + 1)] == xs[i] && ry[i - (f + 1)] == ys[i];
        }
      }
    }
  }

  /** Equally long minimums are cut into equally many runs. */
  lemma {:induction false} GroupsSameLength(xs: seq<Uint32>, ys: seq<Uint32>, f: nat)
    requires f >= 1 && |xs| == |ys|
    ensures |Groups(xs, f)| == |Groups(ys, f)|
    decreases |xs|
  {
    if |xs| > f {
      GroupsSameLength(xs[f + 1..], ys[f + 1..], f);
    }
  }

  /** A sum of two bounded counts reaches the sum of the bounds only when each does. */
  lemma SumAtBound(head: nat, rest: nat, n: nat, m: nat, f: nat)
    requires m == n + 1 && head <= f && rest <= n * f
    ensures head + rest == m * f <==> head == f && rest == n * f
  {
    assert m * f == f + n * f;
  }

  /** SimilarityBbit on two b-bit signatures of equally long minimums counts
      every field as matching exactly when the minimums agree on their low b bits
      at every encoded position. */
  lemma PackedMatchesIff(xs: seq<Uint32>, ys: seq<Uint32>, b: nat)
    requires 1 <= b <= 32 && |xs| == |ys|
    ensures |Packed(xs, b)| == |Packed(ys, b)| &&
      ((SignatureMatches(Packed(xs, b), Packed(ys, b), b) == |Packed(xs, b)| * (FieldsPerWord(b)))
       <==> EncodedAgree(xs, ys, b, FieldsPerWord(b)))
  {
    RunsMatchIff(xs, ys, b, FieldsPerWord(b));
  }

  lemma {:induction false} RunsMatchIff(xs: seq<Uint32>, ys: seq<Uint32>, b: nat, f: nat)
    requires 1 <= b <= 32 && f == FieldsPerWord(b) && |xs| == |ys|
    ensures |Groups(xs, f)| == |Groups(ys, f)|
    ensures (SignatureMatches(PackGroups(Groups(xs, f), b), PackGroups(Groups(ys, f), b), b)
             == |Groups(xs, f)| * f)
      <==> EncodedAgree(xs, ys, b, f)
    decreases |xs|
  {
    GroupsSameLength(xs, ys, f);
    if xs == [] {
    } else if |xs| <= f {
      RunsMatchOne(xs, ys, b, f);
    } else {
      RunsMatchIff(xs[f + 1..], ys[f + 1..], b, f);
      RunsMatchCons(xs, ys, b, f);
    }
  }

  /** RunsMatchIff for minimums that fit in one word. */
  lemma RunsMatchOne(xs: seq<Uint32>, ys: seq<Uint32>, b: nat, f: nat)
    requires 1 <= b <= 32 && f == FieldsPerWord(b) && 0 < |xs| == |ys| <= f
    ensures |Groups(xs, f)| == |Groups(ys, f)| == 1
    ensures (SignatureMatches(PackGroups(Groups(xs, f), b), PackGroups(Groups(ys, f), b), b) == f)
      <==> EncodedAgree(xs, ys, b, f)
  {
    assert Groups(xs, f) == [xs] && Groups(ys, f) == [ys];
    var wx, wy := Word(xs, b), Word(ys, b);
    assert PackGroups(Groups(xs, f), b) == [wx] && PackGroups(Groups(ys, f), b) == [wy];
    OneWordMatches(wx, wy, b, f);
    WordMatchesIff(xs, ys, b, f);
    EncodedAgreeShort(xs, ys, b, f);
  }

  /** The inductive step of RunsMatchIff: the first word and the rest. */
  lemma RunsMatchCons(xs: seq<Uint32>, ys: seq<Uint32>, b: nat, f: nat)
    requires 1 <= b <= 32 && f == FieldsPerWord(b) && |xs| == |ys| > f
    requires |Groups(xs[f + 1..], f)| == |Groups(ys[f + 1..], f)|
    requires (SignatureMatches(PackGroups(Groups(xs[f + 1..], f), b), PackGroups(Groups(ys[f + 1..], f), b), b)
              == |Groups(xs[f + 1..], f)| * f)
      <==> EncodedAgree(xs[f + 1..], ys[f + 1..], b, f)
    ensures |Groups(xs, f)| == |Groups(ys, f)|
    ensures (SignatureMatches(PackGroups(Groups(xs, f), b), PackGroups(Groups(ys, f), b), b)
             == |Groups(xs, f)| * f)
      <==> EncodedAgree(xs, ys, b, f)
  {
    var hx, hy, rx, ry := xs[..f], ys[..f], xs[f + 1..], ys[f + 1..];
    var wx, wy := Word(hx, b), Word(hy, b);
    var gx, gy := Groups(rx, f), Groups(ry, f);
    var qx, qy := PackGroups(gx, b), PackGroups(gy, b);
    var n := |gx|;
    PackedCons(xs, b, f);
    PackedCons(ys, b, f);
    SignatureMatchesAppend([wx], [wy], qx, qy, b);
    OneWordMatches(wx, wy, b, f);
    var head, rest := MatchingFields(wx, wy, b, f), SignatureMatches(qx, qy, b);
    assert SignatureMatches(PackGroups(Groups(xs, f), b), PackGroups(Groups(ys, f), b), b) == head + rest;
    SignatureMatchesBound(qx, qy, b);
    SumAtBound(head, rest, n, |Groups(xs, f)|, f);
    WordMatchesIff(hx, hy, b, f);
    EncodedAgreeSplit(xs, ys, b, f);
  }

  /** The first run's word comes first, followed by the words of the rest. */
  lemma PackedCons(xs: seq<Uint32>, b: nat, f: nat)
    requires 1 <= b <= 32 && f == FieldsPerWord(b) && |xs| > f
    ensures |Groups(xs, f)| == 1 + |Groups(xs[f + 1..], f)|
    ensures PackGroups(Groups(xs, f), b) == [Word(xs[..f], b)] + PackGroups(Groups(xs[f + 1..], f), b)
  {
    var hd, gx := xs[..f], Groups(xs[f + 1..], f);
    assert Groups(xs, f) == [hd] + gx;
    assert GroupsFit(gx, f);
    PackGroupsCons(hd, gx, b);
  }

  lemma OneWordMatches(wx: Uint32, wy: Uint32, b: nat, f: nat)
    requires 1 <= b && f == FieldsPerWord(b)
    ensures SignatureMatches([wx], [wy], b) == MatchingFields(wx, wy, b, f)
  {
    assert [wx][..0] == [] && [wy][..0] == [];
  }

  // ---------------------------------------------------------------------
  // The b-bit similarity

  /** SimilarityBbit's result: a panic for signatures of different lengths,
      otherwise matching fields over fields read (0/0 when no field is read). */
  function BbitSimilarity(sig1: seq<Uint32>, sig2: seq<Uint32>, b: nat): (r: Estimate) {
    if |sig1| != |sig2| then Panic("signature size mismatch")
    else Quotient(SignatureMatches(sig1, sig2, b), |sig1| * FieldsPerWord(b))
  }

  /** For 1 <= b <= 32, the b-bit similarity of two equally long sketches is a
      fraction at most 1, defined exactly when the sketches are non-empty, and
      equal to 1 exactly when the minimums agree on their low b bits at every
      position SignatureBbit encodes. */
  lemma BbitSimilarityOfSignatures(m1: seq<Uint32>, m2: seq<Uint32>, b: nat)
    requires 1 <= b <= 32 && |m1| == |m2|
    ensures var e := BbitSimilarity(BbitSignature(m1, b), BbitSignature(m2, b), b);
      e.Quotient? && e.matches <= e.total && (e.total > 0 <==> |m1| > 0) &&
      (e.matches == e.total <==> EncodedAgree(m1, m2, b, FieldsPerWord(b)))
  {
    var f := FieldsPerWord(b);
    PackedMatchesIff(m1, m2, b);
    var p1, p2 := Packed(m1, b), Packed(m2, b);
    SignatureMatchesBound(p1, p2, b);
    assert |p1| > 0 <==> |m1| > 0 by {
      assert |p1| == |Groups(m1, f)|;
    }
    assert f >= 1;
    MulAtLeast(1, f);
    if |p1| > 0 {
      MulAtLeast(|p1|, f);
    }
  }

  /** A sketch compared with itself has b-bit similarity 1 (for a non-empty
      sketch and 1 <= b <= 32). */
  lemma BbitSimilaritySelf(m: seq<Uint32>, b: nat)
    requires 1 <= b <= 32 && |m| > 0
    ensures BbitSimilarity(BbitSignature(m, b), BbitSignature(m, b), b).Value() == 1.0
  {
    BbitSimilarityOfSignatures(m, m, b);
  }

  /** The b-bit similarity is symmetric. */
  lemma BbitSimilaritySymmetric(sig1: seq<Uint32>, sig2: seq<Uint32>, b: nat)
    requires |sig1| == |sig2|
    ensures BbitSimilarity(sig1, sig2, b) == BbitSimilarity(sig2, sig1, b)
  {
    SignatureMatchesSymmetric(sig1, sig2, b);
  }

  /** Widths outside 1..32: b = 0 emits no word, and b > 32 emits a zero word
      per minimum from which no field is read; either way the estimate is 0/0. */
  lemma BbitOutOfRange(m1: seq<Uint32>, m2: seq<Uint32>, b: nat)
    requires (b == 0 || b > 32) && |m1| == |m2|
    ensures b == 0 ==> BbitSignature(m1, b) == []
    ensures b > 32 ==> BbitSignature(m1, b) == seq(|m1|, _ => 0)
    ensures BbitSimilarity(BbitSignature(m1, b), BbitSignature(m2, b), b).IsNaN()
  {
    if b > 32 {
      assert FieldsPerWord(b) == 0;
    }
  }
}
