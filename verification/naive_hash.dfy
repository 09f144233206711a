/**
 * The identity prefix hash (hashes/naive_hash.rs): the digest of a prefix is the prefix itself,
 * so two prefixes collide exactly when they are equal. It needs no precomputed state.
 */
module NaiveHash {
  import opened Strings

  datatype NaiveHash = NaiveHash {

    /** slow_prefix_hash(s, ind): the first ind bits of s; slicing past the end panics. */
    function SlowPrefixHash(s: Str, ind: nat): (r: Str)
      requires ind <= |s|
      ensures |r| == ind && IsPrefix(r, s)
    {
      s[0..ind]
    }

    /** hash(s) is the slow prefix hash of the whole string, i.e. s itself. */
    function Hash(s: Str): (r: Str)
      ensures r == s
    {
      SlowPrefixHash(s, |s|)
    }

    /** compute_state(s): the state is the unit value. */
    function ComputeState(s: Str): () {
      ()
    }

    /** fast_prefix_hash(s, state, ind) ignores the state and is the slow prefix hash. */
    function FastPrefixHash(s: Str, state: (), ind: nat): (r: Str)
      requires ind <= |s|
      ensures |r| == ind && IsPrefix(r, s)
    {
      SlowPrefixHash(s, ind)
    }
  }

  /** Two prefixes of the same string get the same digest exactly when they have equal length. */
  lemma PrefixDigestsCollideIffSameLength(h: NaiveHash, s: Str, i: nat, j: nat)
    requires i <= |s| && j <= |s|
    ensures h.FastPrefixHash(s, h.ComputeState(s), i) == h.SlowPrefixHash(s, j) <==> i == j
  {
    if h.FastPrefixHash(s, h.ComputeState(s), i) == h.SlowPrefixHash(s, j) {
      assert |h.SlowPrefixHash(s, i)| == i;
    }
  }
}
