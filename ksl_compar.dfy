/**
 * The comparators shipped with the key skip list (lib/nghttp3_ksl.c) and
 * `key_equal`, which derives key equivalence from a "less than" comparator.
 *
 * A comparator `compar(lhs, rhs)` returns nonzero when `lhs` must be placed
 * before `rhs`.  Keys are C structs read through a pointer; here they are
 * the values themselves.
 */
module KslCompar {
  import opened NghttpTypes

  newtype int64 = x: int | -0x8000_0000_0000_0000 <= x < 0x8000_0000_0000_0000

  /** `nghttp3_range`: the half-open interval [begin, end). */
  datatype Range = Range(begin: uint64, end: uint64)

  function MaxU(a: uint64, b: uint64): uint64 { if a > b then a else b }
  function MinU(a: uint64, b: uint64): uint64 { if a < b then a else b }

  /** The two ranges share at least one integer. */
  ghost predicate Overlap(a: Range, b: Range) {
    exists x: int {:trigger Contains(a, x)} :: Contains(a, x) && Contains(b, x)
  }

  predicate Contains(r: Range, x: int) { r.begin as int <= x < r.end as int }

  /** `key_equal`: neither key is placed before the other. */
  function KeyEqual<K>(compar: (K, K) -> bool, lhs: K, rhs: K): bool {
    !compar(lhs, rhs) && !compar(rhs, lhs)
  }

  /** `nghttp3_ksl_range_compar`: ranges ordered by their start. */
  function RangeCompar(lhs: Range, rhs: Range): bool {
    lhs.begin < rhs.begin
  }

  /**
   * `nghttp3_ksl_range_exclusive_compar`: `lhs` starts first and the two
   * ranges do not intersect.
   */
  function RangeExclusiveCompar(lhs: Range, rhs: Range): bool {
    lhs.begin < rhs.begin
    && !(MaxU(lhs.begin, rhs.begin) < MinU(lhs.end, rhs.end))
  }

  /** `nghttp3_ksl_uint64_less`. */
  function Uint64Less(lhs: uint64, rhs: uint64): bool {
    lhs < rhs
  }

  /** `nghttp3_ksl_int64_greater`: signed keys in descending order. */
  function Int64Greater(lhs: int64, rhs: int64): bool {
    lhs > rhs
  }

  /** Two ranges overlap exactly when the later start is below the earlier end. */
  lemma OverlapIff(a: Range, b: Range)
    ensures Overlap(a, b) <==> MaxU(a.begin, b.begin) < MinU(a.end, b.end)
  {
    var m := MaxU(a.begin, b.begin);
    if m < MinU(a.end, b.end) {
      assert Contains(a, m as int) && Contains(b, m as int);
    }
  }

  /**
   * Under the exclusive comparator, `lhs` is placed before `rhs` exactly
   * when it starts first and the two do not overlap, that is when it
   * ends no later than a nonempty `rhs` starts.
   */
  lemma RangeExclusiveComparIff(lhs: Range, rhs: Range)
    ensures RangeExclusiveCompar(lhs, rhs) <==> lhs.begin < rhs.begin && !Overlap(lhs, rhs)
    ensures rhs.begin < rhs.end ==>
              (RangeExclusiveCompar(lhs, rhs) <==> lhs.begin < rhs.begin && lhs.end <= rhs.begin)
  {
    OverlapIff(lhs, rhs);
  }

  /** Two ranges are equivalent under the exclusive comparator exactly when they start together or overlap. */
  lemma RangeExclusiveEqual(a: Range, b: Range)
    ensures KeyEqual(RangeExclusiveCompar, a, b) <==> a.begin == b.begin || Overlap(a, b)
  {
    OverlapIff(a, b);
    OverlapIff(b, a);
  }

  /** Two ranges are equivalent under `range_compar` exactly when they start together. */
  lemma RangeComparEqual(a: Range, b: Range)
    ensures KeyEqual(RangeCompar, a, b) <==> a.begin == b.begin
  {
  }

  /** `range_compar` is a strict weak order: irreflexive, transitive, with transitive equivalence. */
  lemma RangeComparOrder(a: Range, b: Range, c: Range)
    ensures !RangeCompar(a, a)
    ensures RangeCompar(a, b) && RangeCompar(b, c) ==> RangeCompar(a, c)
    ensures KeyEqual(RangeCompar, a, b) && KeyEqual(RangeCompar, b, c) ==> KeyEqual(RangeCompar, a, c)
  {
  }

  /**
   * Equivalence under the exclusive comparator is not transitive:
   * [0,2) ~ [1,3) and [1,3) ~ [2,4), yet [0,2) precedes [2,4).  A list
   * built on it must therefore only hold pairwise disjoint ranges.
   */
  lemma RangeExclusiveNotTransitive()
    ensures KeyEqual(RangeExclusiveCompar, Range(0, 2), Range(1, 3))
    ensures KeyEqual(RangeExclusiveCompar, Range(1, 3), Range(2, 4))
    ensures RangeExclusiveCompar(Range(0, 2), Range(2, 4))
  {
    RangeExclusiveEqual(Range(0, 2), Range(1, 3));
    RangeExclusiveEqual(Range(1, 3), Range(2, 4));
    assert Contains(Range(0, 2), 1) && Contains(Range(1, 3), 1);
    assert Contains(Range(1, 3), 2) && Contains(Range(2, 4), 2);
  }

  /** `uint64_less` is a strict total order: its equivalent keys are equal. */
  lemma Uint64LessOrder(a: uint64, b: uint64, c: uint64)
    ensures !Uint64Less(a, a)
    ensures Uint64Less(a, b) && Uint64Less(b, c) ==> Uint64Less(a, c)
    ensures KeyEqual(Uint64Less, a, b) <==> a == b
  {
  }

  /** `int64_greater` is a strict total order: its equivalent keys are equal. */
  lemma Int64GreaterOrder(a: int64, b: int64, c: int64)
    ensures !Int64Greater(a, a)
    ensures Int64Greater(a, b) && Int64Greater(b, c) ==> Int64Greater(a, c)
    ensures KeyEqual(Int64Greater, a, b) <==> a == b
  {
  }

  /** `int64_greater` orders keys exactly in reverse of their values. */
  lemma Int64GreaterReverses(a: int64, b: int64)
    ensures Int64Greater(a, b) <==> (b as int) < (a as int)
  {
  }
}
