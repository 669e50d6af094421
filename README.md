# go-minhash in Dafny

This project models the two similarity sketches of the Go package `minhash` and proves properties of the model.

**MinWise** keeps one 32-bit minimum per slot.
- Each slot hashes an element's 32-bit hash `hv` with its own universal hash `a*hv + b`.
- The reduction uses the Mersenne prime `prime32 = 2^61 - 1` (exponent `p32 = 61`) and a fast fold, then keeps the low 32 bits.
- Two sketches merge slot by slot, and their similarity is the fraction of equal slots.
- A b-bit signature packs the low `b` bits of every minimum into 32-bit words. A free function compares two such signatures field by field.

**BottomK** keeps the `k` smallest nonzero 64-bit hash values it has seen, duplicates included.
- The values live in `intHeap`, a slice whose `Less` means "greater". The `container/heap` algorithms therefore maintain a max-heap whose root is the largest retained value.
- Its signature is a sorted copy of the heap.
- Its similarity is the multiset intersection of two sketches divided by the larger sketch.

The Dafny modules follow the two Go files:

| module | file | contents |
|---|---|---|
| `Bits` | bits.dfy | `uint32`/`uint64`; the Go operators `&`, `\|`, `<<`, `>>`, wrapping `*` and `+`, and `uint32(1<<b) - 1`; the lemmas that turn each operator into ordinary arithmetic |
| `Estimates` | estimate.dfy | the result of a similarity: a panic with its message, or a quotient of two counts |
| `MinWiseSpec` | minwise_spec.dfy | the slot hash, the fold loop as a function, the slots after pushing a sequence of elements, merging, and the equal-slot count |
| `Bbit` | bbit.dfy | the layout of a b-bit signature and the field-matching count of `SimilarityBbit` |
| `MinWiseSketch` | minwise.dfy | `class MinWise` over an `array<Uint32>` and the free function `SimilarityBbit`, as imperative methods proved against the functions above |
| `IntHeaps` | intheap.dfy | `class IntHeap` (the slice and its five methods), `container/heap`'s `up`, `down`, `Push` and `Pop`, and the sort |
| `BottomKSketch` | bottomk.dfy | `class BottomK` and what its heap holds, as a bottom-k of every value added |

Each method is proved against a specification: a function of the old state and the inputs, or the invariant it keeps. Lemmas then state what the code promises about that function.

The model follows the code where the code differs from how it is described:
- **The multiply wraps.** The comment at minwise.go:56-57 says `a*hv + b` cannot overflow. With `a` up to `2^61 - 2` it wraps modulo `2^64`, and the model wraps too (`MinWiseSpec.ProductWraps`).
- **The fold can return the prime.** The loop at minwise.go:60-62 stops at a value below `2^61` that is congruent to its input. That value can be `prime32` itself, so the slot hash is `MersenneMod`: a nonzero multiple of the prime maps to the prime, not to 0 (`MinWiseSpec.PrimeIsNotReduced`).
- **SignatureBbit drops a value per word.** The value that arrives when the current word has fewer than `b` free bits only closes that word and is not encoded (minwise.go:133-137). Each word holds `32/b` fields, and every `(32/b + 1)`-th minimum is dropped (`Bbit.DroppedIsRemainder`, `Bbit.DroppedValue`).
- **Fields are unpacked in the opposite direction.** Packing puts the earliest value in the highest field, while `SimilarityBbit` reads fields from the lowest end. It counts `32/b` fields per word, including the zero fields of a partly filled last word.
- **BottomK's signature is non-increasing, not ascending.** `sort.Sort` orders by `intHeap.Less`, which is `>`, so BottomK's `Signature` is non-increasing.

`intHeap.Len` and `intHeap.Less` are the functions `IntHeaps.IntHeap.Len` and `IntHeaps.IntHeap.Less`. Their meaning is their one-line body, so they have no row below.

## Model

| member | source | states |
|---|---|---|
| MinWiseSketch.MinWise.constructor | minwise.go:26-48 | every slot starts at MaxUint32, there is one coefficient pair per slot, and each pair satisfies 0 < a < prime32 and b < prime32 (`Valid`) |
| MinWiseSketch.MinWise.Push | minwise.go:51-69 | the new slots are `PushSlots` of the old slots, the coefficients and hv; only the minimums array changes |
| MinWiseSpec.PushSlots | minwise.go:55-68 | Push never raises a slot: each new slot is at most its old value and at most its hash of hv, and equals one of them |
| MinWiseSketch.SlotValue | minwise.go:58-64 | the fold loop terminates, and its masked result is the slot hash: `MersenneMod(a*hv + b mod 2^64) mod 2^32` |
| MinWiseSpec.FoldStep | minwise.go:60-61 | `x & prime32` is `x mod 2^61` and `x >> 61` is `x div 2^61`; while the high part is nonzero, a fold step strictly decreases x |
| MinWiseSpec.FoldValue | minwise.go:60-62 | the fold loop's result is `MersenneMod(x)`, at most prime32 and congruent to x modulo prime32 |
| MinWiseSpec.FoldCongruent | minwise.go:60-62 | since 2^61 = prime32 + 1, adding the high part to the low part keeps the residue modulo prime32 |
| MinWiseSpec.LowWord | minwise.go:64 | `x & MaxUint32` is `x mod 2^32` |
| MinWiseSpec.SlotHashValue | minwise.go:58-64 | the slot hash in ordinary arithmetic: low 32 bits of `MersenneMod` of the wrapped `a*hv + b` |
| MinWiseSpec.ProductWraps | minwise.go:56-58 | with a = 2^40 and hv = 2^30 the uint64 product wraps to 0, although a*hv mod prime32 is 512 |
| MinWiseSpec.PrimeIsNotReduced | minwise.go:60-64 | with a = 1, b = prime32 - 1 and hv = 1 the slot hash is MaxUint32, while the true residue gives 0 |
| MinWiseSpec.MinHash | minwise.go:55-68 | the smallest slot hash over a sequence of element hashes: no greater than any of them and equal to one of them, or MaxUint32 for none |
| MinWiseSpec.PushAllSlot | minwise.go:55-68 | after pushing a sequence of elements, slot i is the smaller of its start value and the slot's MinHash over the sequence |
| MinWiseSpec.MinHashAppend | minwise.go:55-68 | the MinHash over two runs of elements is the smaller of the two MinHashes |
| MinWiseSpec.MinHashOfSameElements | minwise.go:55-68 | MinHash depends only on which element hashes occur |
| MinWiseSpec.PushOrderIrrelevant | minwise.go:51-69 | pushing the same elements in any order, with any repetition, gives the same slots |
| MinWiseSketch.MinWise.Merge | minwise.go:72-80 | the new slots are `MergeSlots` of both old slot arrays (a slot takes m2's value where it is smaller); it panics exactly when m2 has more slots, after merging every slot of this sketch; m2's slots are unchanged, also when both are the same array |
| MinWiseSpec.MergeIsUnion | minwise.go:72-80 | merging the sketches of two element sequences gives the sketch of their concatenation, from the merged start slots |
| MinWiseSpec.MergeCommutative | minwise.go:74-79 | merging equally long sketches is commutative |
| MinWiseSpec.MergeIdempotent | minwise.go:74-79 | merging a sketch with itself leaves it as it is |
| MinWiseSpec.MergeAssociative | minwise.go:74-79 | merging is associative |
| MinWiseSketch.MinWise.Signature | minwise.go:97-99 | the signature is the minimums array itself, not a copy |
| MinWiseSketch.MinWise.Similarity | minwise.go:102-117 | the result is `MinWiseSpec.Similarity`: a panic "minhash minimums size mismatch" for different lengths, otherwise equal slots over slots |
| MinWiseSpec.EqualSlotsBound | minwise.go:108-116 | at most every slot is equal, and every slot is equal exactly when the sketches are equal |
| MinWiseSpec.EqualSlotsSymmetric | minwise.go:108-116 | the equal-slot count does not depend on the order of the sketches |
| MinWiseSpec.SimilaritySymmetric | minwise.go:102-117 | the similarity does not depend on the order of the sketches, for every input: a length mismatch panics both ways and empty sketches give 0/0 both ways |
| MinWiseSpec.SimilarityProperties | minwise.go:102-117 | for non-empty sketches of one length the similarity is in [0, 1], and it is 1 exactly when the sketches are equal |
| MinWiseSketch.MinWise.SignatureBbit | minwise.go:120-145 | the packed words are `BbitSignature` of the minimums: nothing for b = 0, one zero word per minimum for b > 32, `Packed` otherwise |
| Bbit.PackedLayout | minwise.go:126-144 | for 1 <= b <= 32 there are ceil(k / (32/b + 1)) words, and word j packs the low b bits of the minimums from j*(32/b + 1) on, at most 32/b of them |
| Bbit.FieldOfPackWord | minwise.go:129-132 | field t of a word, counted from the low end, is the low b bits of the value t places before the last one packed; fields past the values are 0 |
| Bbit.FieldsPerWordIsQuotient | minwise.go:165-174 | the loop `while bits >= b { bits -= b }` from 32 runs 32/b times |
| Bbit.DroppedIsRemainder | minwise.go:133-137 | the minimums that are not encoded are exactly those at positions i with i mod (32/b + 1) = 32/b |
| Bbit.DroppedValue | minwise.go:133-137 | changing a minimum at a dropped position does not change the signature |
| Bbit.BbitOutOfRange | minwise.go:126-145 | for b = 0 the signature is empty, for b > 32 it is one zero word per minimum, and in both cases the b-bit similarity of two such signatures is 0/0 |
| MinWiseSketch.SimilarityBbit | minwise.go:148-181 | the result is `BbitSimilarity`: a panic "signature size mismatch" for different lengths, otherwise matching fields over len * 32/b fields |
| MinWiseSketch.WordMatches | minwise.go:163-177 | the field loop over one pair of words reads 32/b fields from the low end and counts those that are equal |
| Bbit.MatchingFieldsAll | minwise.go:165-177 | every field read matches exactly when the two words agree on all those fields |
| Bbit.SignatureMatchesBound | minwise.go:159-178 | at most len * 32/b fields match |
| Bbit.SignatureMatchesSymmetric | minwise.go:159-178 | the matching count does not depend on the order of the signatures |
| Bbit.SignatureMatchesSelf | minwise.go:159-178 | a signature matches itself on every field |
| Bbit.PackedMatchesIff | minwise.go:120-181 | two packed signatures match on every field exactly when the minimums agree on their low b bits at every encoded position |
| Bbit.BbitSimilarityOfSignatures | minwise.go:120-181 | for 1 <= b <= 32, the b-bit similarity of two sketches' signatures is a quotient at most 1, defined exactly when the sketches are non-empty, and 1 exactly when the encoded low bits agree |
| Bbit.BbitSimilaritySelf | minwise.go:148-181 | a non-empty sketch's b-bit signature compared with itself gives 1 |
| Bbit.BbitSimilaritySymmetric | minwise.go:148-181 | the b-bit similarity is symmetric |
| IntHeaps.IntHeap.constructor | bottomk.go:40 | a new intHeap is empty |
| IntHeaps.IntHeap.Swap | bottomk.go:15 | elements i and j trade places, and the contents as a multiset stay the same |
| IntHeaps.IntHeap.Push | bottomk.go:17-19 | x is appended at the end |
| IntHeaps.IntHeap.Pop | bottomk.go:21-27 | the last element is returned and removed, and the rest is untouched |
| IntHeaps.RootIsMax | bottomk.go:13-14 | under Less = `>`, the heap property makes element 0 the maximum |
| IntHeaps.Up | bottomk.go:55 | `up` turns a heap with one element out of place below its parent into a heap of the same elements |
| IntHeaps.Down | bottomk.go:60 | `down` leaves what `SiftDown` describes: the element at i swapped with its larger child while that child is greater |
| IntHeaps.SiftDownProperties | bottomk.go:60 | from a heap out of place only at i, `down` gives a heap among the first n of the same elements, and index n and beyond are untouched |
| IntHeaps.HeapPush | bottomk.go:55 | heap.Push keeps the max-heap property and adds exactly x to the contents |
| IntHeaps.PopProperties | bottomk.go:60 | after the root is swapped to the end and sifted down in front of it, the front is a heap of every element except the old root, which is last |
| IntHeaps.HeapPop | bottomk.go:60 | heap.Pop returns the old root, keeps the max-heap property and removes exactly one copy of the root |
| IntHeaps.Sort | bottomk.go:68 | sorting by Less and Swap gives a non-increasing permutation of the contents |
| IntHeaps.SortedUnique | bottomk.go:68 | two non-increasing sequences with the same elements are equal, so the sorted order is the only one any correct sort can return |
| IntHeaps.Insert | bottomk.go:68 | one insertion pass extends the non-increasing prefix by one element and permutes the contents |
| BottomKSketch.BottomK.constructor | bottomk.go:36-42 | a new sketch has the given size, an empty heap, and nothing added |
| BottomKSketch.BottomK.Add | bottomk.go:44-63 | it keeps the heap a max-heap holding a bottom-size of the nonzero values added; 0 changes nothing; while there is room x is inserted; a full heap replaces one copy of its maximum when x is smaller and is otherwise unchanged; it panics exactly for nonzero x when size <= 0 |
| BottomKSketch.BottomKInsert | bottomk.go:54-57 | while the heap has room, inserting x keeps it the bottom-k of what was added plus x |
| BottomKSketch.BottomKReplace | bottomk.go:59-62 | when full, replacing one copy of the maximum by a smaller x keeps it the bottom-k |
| BottomKSketch.BottomKKeep | bottomk.go:59-62 | when full, ignoring an x no smaller than the maximum keeps it the bottom-k |
| BottomKSketch.BottomK.Signature | bottomk.go:65-70 | the signature is a non-increasing permutation of the retained values, and the sketch is unchanged; by `IntHeaps.SortedUnique` two calls with no `Add` between them return the same sequence |
| BottomKSketch.CountValues | bottomk.go:78-82 | the map counts every retained value, a missing key standing for 0 |
| BottomKSketch.MatchStep | bottomk.go:86-91 | matching one value of m2 against the counts adds to the intersection exactly when an unmatched copy remains, and keeps the counts of what is left |
| BottomKSketch.BottomK.Similarity | bottomk.go:72-99 | the result is a panic "minhash minimums size mismatch" for different sizes, otherwise the multiset intersection's size over the larger retained count |
| BottomKSketch.SketchSimilarityBounds | bottomk.go:84-98 | the similarity is a quotient at most 1, and 0/0 only for two empty sketches |
| BottomKSketch.SketchSimilaritySymmetric | bottomk.go:72-99 | the similarity is symmetric |
| BottomKSketch.SketchSimilaritySelf | bottomk.go:78-98 | a non-empty sketch compared with itself gives 1 |

## Left out

- `Cardinality` (minwise.go:83-94) is not modelled, because it is float64 logarithms and division.
- MinWiseSketch.MinWise.constructor: takes `size` as a natural number, so the run-time panic of `make([]uint32, size)` for a negative size (minwise.go:29) is not modelled.
- The coefficient draws from `math/rand` (minwise.go:34-45) are constructor inputs. The retry that rejects `a = 0` is the requirement `0 < a`.
- The hash functions (`Hash32` at minwise.go:54 and `hash.Hash64` at bottomk.go:46-48) are foreign calls. `Push` takes the 32-bit hash and `Add` takes the 64-bit hash.
- A float64 quotient is exact counts (`Quotient(matches, total)`), read as a real in `Estimate.Value`. Go's NaN for 0/0 is a quotient with total 0, and a Go panic is a `Panic(message)` result.
- MinWiseSketch.SimilarityBbit: requires b > 0 when the signatures are equally long and non-empty, because with b = 0 the loop at minwise.go:165 never ends.
- BottomKSketch.BottomK.Add: with size <= 0 and a nonzero hash, Go panics reading index 0 of the empty slice. This is the `panicked` result, and the heap and `added` are then unchanged.
- `sort.Sort`'s algorithm is not modelled; `IntHeaps.Sort` is an insertion sort using only Less and Swap. Its result is the only non-increasing arrangement of the values (`IntHeaps.SortedUnique`), so any correct sort returns the same sequence.
- `container/heap`'s other functions (`Init`, `Fix`, `Remove`) are not modelled, because the package does not call them. `down`'s boolean result is not modelled, because only `Fix` and `Remove` read it.
- Go's `int` counters are unbounded integers, because the counts stay far below 2^63.
- The benchmark in minwisebench_test.go is not modelled, because its accuracy claims are statistical.
- Concurrency is not modelled, because neither sketch is safe for concurrent use.
