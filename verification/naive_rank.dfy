/**
 * The reference rank structure (rank_structures/naive_rank.rs): rank(ind) is the number of
 * positions before ind at which either of the two bit vectors is set. It keeps no state.
 */
module NaiveRank {
  import opened Strings

  /** Number of positions i < ind with v0[i] || v1[i]. */
  function Count(v0: Str, v1: Str, ind: nat): (c: nat)
    requires ind <= |v0| && ind <= |v1|
    ensures c <= ind
  {
    if ind == 0 then 0
    else Count(v0, v1, ind - 1) + (if v0[ind - 1] || v1[ind - 1] then 1 else 0)
  }

  /** The set positions before ind. */
  ghost function SetPositions(v0: Str, v1: Str, ind: nat): set<nat>
    requires ind <= |v0| && ind <= |v1|
  {
    set i: nat | i < ind && (v0[i] || v1[i])
  }

  datatype NaiveRank = NaiveRank {

    /** rank(ind, v0, v1): asserts ind < |v0| and counts the set positions before ind. */
    method Rank(ind: nat, v0: Str, v1: Str) returns (r: nat)
      requires ind < |v0| && ind <= |v1|
      ensures r == Count(v0, v1, ind)
    {
      r := 0;
      for i := 0 to ind
        invariant r == Count(v0, v1, i)
      {
        if v0[i] || v1[i] {
          r := r + 1;
        }
      }
    }
  }

  /** Count is the number of set positions before ind. */
  lemma {:induction false} CountIsCardinality(v0: Str, v1: Str, ind: nat)
    requires ind <= |v0| && ind <= |v1|
    ensures Count(v0, v1, ind) == |SetPositions(v0, v1, ind)|
  {
    if ind > 0 {
      CountIsCardinality(v0, v1, ind - 1);
      var prev := SetPositions(v0, v1, ind - 1);
      if v0[ind - 1] || v1[ind - 1] {
        assert SetPositions(v0, v1, ind) == prev + {ind - 1};
      } else {
        assert SetPositions(v0, v1, ind) == prev;
      }
    }
  }

  /**
   * Rank grows by at most one per position: 0 <= Count(j) - Count(i) <= j - i, so rank(0) == 0
   * and consecutive ranks differ by 0 or 1.
   */
  lemma {:induction false} CountMonotone(v0: Str, v1: Str, i: nat, j: nat)
    requires i <= j <= |v0| && j <= |v1|
    ensures Count(v0, v1, i) <= Count(v0, v1, j) <= Count(v0, v1, i) + (j - i)
    decreases j
  {
    if i < j {
      CountMonotone(v0, v1, i, j - 1);
    }
  }

  /** A set position strictly separates the ranks before and after it. */
  lemma CountStrict(v0: Str, v1: Str, i: nat, j: nat)
    requires i < j <= |v0| && j <= |v1|
    requires v0[i] || v1[i]
    ensures Count(v0, v1, i) < Count(v0, v1, j)
  {
    CountMonotone(v0, v1, i + 1, j);
  }
}
