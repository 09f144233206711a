/**
 * Jacobson's rank structure (rank_structures/jacobson_rank.rs) over the bitwise OR of two bit
 * vectors. The sequence is cut into superblocks of `superBlockDim` bits and blocks of
 * `blockDim` bits (a superblock is a whole number of blocks). rank(i) adds the rank at the
 * start of i's superblock, the rank of i's block start relative to that superblock, and the
 * rank of i within its block, read from a table that holds one rank list per block pattern.
 */
module JacobsonRank {
  import opened Wrappers
  import opened BitwiseOperations
  import opened Strings
  import opened ModArith
  import opened NaiveRank

  /** `v0 | v1` on bit vectors of equal length. */
  function OrBits(a: Str, b: Str): (s: Str)
    requires |a| == |b|
    ensures |s| == |a|
    ensures forall i :: 0 <= i < |s| ==> s[i] == (a[i] || b[i])
  {
    seq(|a|, i requires 0 <= i < |a| => a[i] || b[i])
  }

  lemma WindowInside(s: Str, l: nat, r: nat)
    requires l <= r
    ensures r <= |s| ==> Window(s, l, r) == s[l..r]
  {
    if r <= |s| {
      assert Window(s, l, r) == s[l..r];
    }
  }

  /** Bitwise OR of two naturals. */
  function BitOr(x: nat, y: nat): nat
    decreases x + y
  {
    if x == 0 && y == 0 then 0
    else (if x % 2 == 1 || y % 2 == 1 then 1 else 0) + 2 * BitOr(x / 2, y / 2)
  }

  /** Loading two slices and OR-ing the words is loading the OR of the slices. */
  lemma {:induction false} LoadLsbOr(a: Str, b: Str)
    requires |a| == |b|
    ensures BitOr(LoadLsb(a), LoadLsb(b)) == LoadLsb(OrBits(a, b))
  {
    if |a| > 0 {
      LoadLsbOr(a[1..], b[1..]);
      assert OrBits(a, b)[1..] == OrBits(a[1..], b[1..]);
    }
  }

  /** Bits [l, r) of s, with positions past the end of s reading as 0. */
  function Window(s: Str, l: nat, r: nat): (w: Str)
    requires l <= r
    ensures |w| == r - l
    ensures forall k :: 0 <= k < r - l ==> w[k] == (l + k < |s| && s[l + k])
  {
    seq(r - l, k requires 0 <= k < r - l => l + k < |s| && s[l + k])
  }

  /**
   * get_index(l, r, v0, v1) as written: loads v0[l..r] and v1[l..r] least significant bit
   * first and ORs them. Slicing past the end of either vector panics (None).
   */
  function GetIndexAsWritten(l: nat, r: nat, v0: Str, v1: Str): (x: Option<nat>)
    ensures x.Some? <==> l <= r <= |v0| && r <= |v1|
    ensures x.Some? ==> x.value == LoadLsb(OrBits(v0[l..r], v1[l..r]))
  {
    if l <= r <= |v0| && r <= |v1| then
      LoadLsbOr(v0[l..r], v1[l..r]);
      Some(BitOr(LoadLsb(v0[l..r]), LoadLsb(v1[l..r])))
    else
      None
  }

  /**
   * get_index with the block zero-padded past the end of the vectors: the pattern of block
   * [l, r), least significant bit first. Inside the vectors it is the value read as written.
   */
  function GetIndex(l: nat, r: nat, v0: Str, v1: Str): (x: nat)
    requires l <= r
    ensures x == LoadLsb(OrBits(Window(v0, l, r), Window(v1, l, r)))
    ensures x < Pow2(r - l)
  {
    LoadLsbOr(Window(v0, l, r), Window(v1, l, r));
    BitOr(LoadLsb(Window(v0, l, r)), LoadLsb(Window(v1, l, r)))
  }

  /** Inside the vectors the padded block read is the read as written. */
  lemma GetIndexInside(l: nat, r: nat, v0: Str, v1: Str)
    requires l <= r <= |v0| && r <= |v1|
    ensures GetIndexAsWritten(l, r, v0, v1) == Some(GetIndex(l, r, v0, v1))
  {
    WindowInside(v0, l, r);
    WindowInside(v1, l, r);
  }

  /** x shifted right by j bits. */
  function Shr(x: nat, j: nat): nat {
    if j == 0 then x else Shr(x, j - 1) / 2
  }

  /** Number of set bits among the j lowest bits of x. */
  function PopCountLow(x: nat, j: nat): (c: nat)
    ensures c <= j
  {
    if j == 0 then 0 else PopCountLow(x, j - 1) + Shr(x, j - 1) % 2
  }

  /** The rank list of block pattern x: entry j counts the set bits of x below bit j. */
  function RankList(x: nat, size: nat): seq<nat> {
    seq(size, j requires 0 <= j < size => PopCountLow(x, j))
  }

  /**
   * compute_ranklist(x, size, k) (jacobson_rank.rs:107-118): emits the running count of x's
   * low bits, shifting x right once per entry. The field width k is not modelled.
   */
  method ComputeRanklist(x: nat, size: nat) returns (ranklist: seq<nat>)
    ensures |ranklist| == size
    ensures forall j :: 0 <= j < size ==> ranklist[j] == PopCountLow(x, j)
  {
    var y := x;
    var currT: nat := 0;
    ranklist := [];
    for j := 0 to size
      invariant y == Shr(x, j) && currT == PopCountLow(x, j)
      invariant ranklist == RankList(x, j)
    {
      ranklist := ranklist + [currT];
      if y % 2 == 1 {
        currT := currT + 1;
      }
      y := y / 2;
    }
  }

  /** Shifting a loaded slice right by j bits loads the slice from j on. */
  lemma {:induction false} ShrLoadLsb(w: Str, j: nat)
    requires j <= |w|
    ensures Shr(LoadLsb(w), j) == LoadLsb(w[j..])
  {
    if j > 0 {
      ShrLoadLsb(w, j - 1);
      assert w[j - 1..][1..] == w[j..];
    }
  }

  /** The parity of the value read from position j onwards is the bit at j. */
  lemma LowBit(w: Str, j: nat)
    requires j < |w|
    ensures LoadLsb(w[j..]) % 2 == (if w[j] then 1 else 0)
  {
    assert w[j..][0] == w[j] && w[j..][1..] == w[j + 1..];
  }

  /**
   * The rank list of a block's pattern holds the ranks inside the block: when w is the
   * zero-padded v0 | v1 from l on, Count(l + j) == Count(l) + PopCountLow(LoadLsb(w), j).
   */
  lemma {:induction false} BlockRanks(v0: Str, v1: Str, l: nat, w: Str, j: nat)
    requires |v0| == |v1| && j <= |w| && l + j <= |v0|
    requires forall k :: 0 <= k < |w| ==> w[k] == (l + k < |v0| && (v0[l + k] || v1[l + k]))
    ensures Count(v0, v1, l + j) == Count(v0, v1, l) + PopCountLow(LoadLsb(w), j)
  {
    if j > 0 {
      BlockRanks(v0, v1, l, w, j - 1);
      ShrLoadLsb(w, j - 1);
      LowBit(w, j - 1);
    }
  }

  lemma MulMono(a: nat, b: nat, d: nat)
    requires a <= b
    ensures Mul(a, d) <= Mul(b, d)
  {
    MulIsProduct(a, d);
    MulIsProduct(b, d);
    assert b * d == a * d + (b - a) * d;
  }

  /** Mul(q, d) + r with r < d has quotient q and remainder r. */
  lemma {:induction false} DivModOf(q: nat, d: nat, r: nat)
    requires d >= 1 && r < d
    ensures Div(Mul(q, d) + r, d) == q && Mod(Mul(q, d) + r, d) == r
  {
    if q > 0 {
      DivModOf(q - 1, d, r);
    }
  }

  /** DivModOf for a number already known to be q * d + r. */
  lemma QuotientOf(i: nat, q: nat, d: nat, r: nat)
    requires d >= 1 && r < d && i == Mul(q, d) + r
    ensures Div(i, d) == q
  {
    DivModOf(q, d, r);
  }

  /** Mul(c, d) <= x implies c <= Div(x, d). */
  lemma DivAtLeast(x: nat, d: nat, c: nat)
    requires d >= 1 && Mul(c, d) <= x
    ensures c <= Div(x, d)
  {
    DivModSplit(x, d);
    if Div(x, d) < c {
      MulMono(Div(x, d) + 1, c, d);
    }
  }

  /** The start of superblock (or block) j < ceil(n / d) lies inside [0, n). */
  lemma CeilDivBound(n: nat, d: nat, j: nat)
    requires d >= 1 && j < Div(n + d - 1, d)
    ensures Mul(j, d) < n
  {
    DivModSplit(n + d - 1, d);
    MulMono(j + 1, Div(n + d - 1, d), d);
  }

  /** Every position i < n lies in one of the ceil(n / d) units of d bits. */
  lemma DivBelowCeil(i: nat, n: nat, d: nat)
    requires d >= 1 && i < n
    ensures Div(i, d) < Div(n + d - 1, d)
  {
    DivModSplit(i, d);
    DivAtLeast(n + d - 1, d, Div(i, d) + 1);
  }

  /** The least multiple of d that is at least s. */
  lemma NextMultiple(s: nat, d: nat)
    requires d >= 1
    ensures Mod(Mul(Div(s + d - 1, d), d), d) == 0
    ensures s <= Mul(Div(s + d - 1, d), d) < s + d
  {
    DivModSplit(s + d - 1, d);
    DivModOf(Div(s + d - 1, d), d, 0);
  }

  /** The remainder of a + 1 follows the remainder of a, wrapping at d. */
  lemma ModSucc(a: nat, d: nat)
    requires d >= 1
    ensures Mod(a + 1, d) == if Mod(a, d) + 1 == d then 0 else Mod(a, d) + 1
  {
    DivModSplit(a, d);
    if Mod(a, d) + 1 == d {
      DivModOf(Div(a, d) + 1, d, 0);
    } else {
      DivModOf(Div(a, d), d, Mod(a, d) + 1);
    }
  }

  lemma {:induction false} MulAdd(a: nat, b: nat, d: nat)
    ensures Mul(a + b, d) == Mul(a, d) + Mul(b, d)
  {
    if a > 0 {
      MulAdd(a - 1, b, d);
    }
  }

  lemma {:induction false} MulAssoc(q: nat, m: nat, d: nat)
    ensures Mul(q, Mul(m, d)) == Mul(Mul(q, m), d)
  {
    if q > 0 {
      MulAssoc(q - 1, m, d);
      MulAdd(Mul(q - 1, m), m, d);
    }
  }

  /** Regrouping q * sd + rb * d + ro as a multiple of d when sd == m * d. */
  lemma Regroup(q: nat, sd: nat, m: nat, d: nat, rb: nat)
    requires sd == Mul(m, d)
    ensures Mul(Mul(q, m) + rb, d) == Mul(q, sd) + Mul(rb, d)
  {
    MulAssoc(q, m, d);
    MulAdd(Mul(q, m), rb, d);
  }

  /** Block index of i = q * sd + rb * d + ro, when sd == m * d: q * m + rb. */
  lemma BlockIndexParts(i: nat, d: nat, sd: nat, q: nat, r: nat, m: nat, rb: nat, ro: nat)
    requires d >= 1 && sd >= 1
    requires i == Mul(q, sd) + r && r == Mul(rb, d) + ro && ro < d && sd == Mul(m, d)
    ensures Div(i, d) == Mul(q, m) + rb
  {
    var k: nat := Mul(q, m) + rb;
    Regroup(q, sd, m, d, rb);
    assert i == Mul(k, d) + ro;
    QuotientOf(i, k, d, ro);
  }

  /** The start of block k = q * m + rb, with rb * d < sd == m * d, lies in superblock q. */
  lemma BlockStartParts(d: nat, sd: nat, q: nat, m: nat, rb: nat, k: nat)
    requires d >= 1 && sd >= 1 && sd == Mul(m, d) && Mul(rb, d) < sd && k == Mul(q, m) + rb
    ensures Div(Mul(k, d), sd) == q
  {
    var s := Mul(rb, d);
    Regroup(q, sd, m, d, rb);
    assert Mul(k, d) == Mul(q, sd) + s;
    QuotientOf(Mul(k, d), q, sd, s);
  }

  /** When d divides sd, block k = i / d lies in superblock q = i / sd. */
  lemma BlockInSuperBlock(i: nat, d: nat, sd: nat, k: nat, q: nat)
    requires d >= 1 && sd >= 1 && Mod(sd, d) == 0 && k == Div(i, d) && q == Div(i, sd)
    ensures Div(Mul(k, d), sd) == q
  {
    var r, m := Mod(i, sd), Div(sd, d);
    var rb, ro := Div(r, d), Mod(r, d);
    DivModSplit(i, sd);
    DivModSplit(r, d);
    DivModSplit(sd, d);
    assert sd == Mul(m, d);
    BlockIndexParts(i, d, sd, q, r, m, rb, ro);
    BlockStartParts(d, sd, q, m, rb, k);
  }

  /**
   * The last step of rank(i), for i = l + off inside the block starting at l: the rank of the
   * block start plus the in-block rank read from the block pattern is the rank of i.
   */
  lemma PartsAddUp(v0: Str, v1: Str, l: nat, bd: nat, off: nat, i: nat, start: nat, entry: nat)
    requires |v0| == |v1| && off < bd && l + off == i <= |v0|
    requires start == Count(v0, v1, l) && entry == PopCountLow(GetIndex(l, l + bd, v0, v1), off)
    ensures start + entry == Count(v0, v1, i)
  {
    var r := l + bd;
    var w := OrWindow(v0, v1, l, r);
    var x := LoadLsb(w);
    assert entry == PopCountLow(x, off);
    BlockRanks(v0, v1, l, w, off);
  }

  /** The or of the windows [l, r) of v0 and v1, which the block pattern loads. */
  lemma OrWindow(v0: Str, v1: Str, l: nat, r: nat) returns (w: Str)
    requires |v0| == |v1| && l <= r
    ensures w == OrBits(Window(v0, l, r), Window(v1, l, r)) && LoadLsb(w) == GetIndex(l, r, v0, v1)
    ensures |w| == r - l && forall k :: 0 <= k < |w| ==> w[k] == (l + k < |v0| && (v0[l + k] || v1[l + k]))
  {
    var a, b := Window(v0, l, r), Window(v1, l, r);
    w := OrBits(a, b);
    forall k | 0 <= k < |w|
      ensures w[k] == (l + k < |v0| && (v0[l + k] || v1[l + k]))
    {
      assert w[k] == (a[k] || b[k]);
    }
  }

  /** supers[j] is the rank of the start of superblock j, for superblocks of sbd positions. */
  ghost predicate SuperTable(v0: Str, v1: Str, sbd: nat, supers: seq<nat>) {
    && |v0| == |v1|
    && forall j {:trigger supers[j]} :: 0 <= j < |supers| ==>
         Mul(j, sbd) <= |v0| && supers[j] == Count(v0, v1, Mul(j, sbd))
  }

  /**
   * blocks[k] is the rank of the start of block k (of bd positions) relative to the start of
   * the superblock (of sbd positions) that holds it.
   */
  ghost predicate BlockTable(v0: Str, v1: Str, bd: nat, sbd: nat, supers: seq<nat>, blocks: seq<nat>)
    requires sbd >= 1
  {
    && |v0| == |v1|
    && forall k {:trigger blocks[k]} :: 0 <= k < |blocks| ==>
         && Mul(k, bd) <= |v0| && Div(Mul(k, bd), sbd) < |supers|
         && blocks[k] + supers[Div(Mul(k, bd), sbd)] == Count(v0, v1, Mul(k, bd))
  }

  /**
   * The running-rank table t of build (jacobson_rank.rs:50-63): t[k] is the number of set
   * positions of v0 | v1 before k, for every k up to and including the length.
   */
  method PrefixRanks(v0: Str, v1: Str) returns (t: seq<nat>)
    requires |v0| == |v1|
    ensures |t| == |v0| + 1
    ensures forall k :: 0 <= k < |t| ==> t[k] == Count(v0, v1, k)
  {
    var sequence := OrBits(v0, v1);
    t := [];
    var currT: nat := 0;
    for i := 0 to |sequence|
      invariant |t| == i && currT == Count(v0, v1, i)
      invariant forall k :: 0 <= k < i ==> t[k] == Count(v0, v1, k)
    {
      t := t + [currT];
      if sequence[i] {
        currT := currT + 1;
      }
    }
    t := t + [currT];
  }

  /**
   * The superblock table of build (jacobson_rank.rs:74-76): entry j is the rank of the start
   * of superblock j, one entry per superblock of the length-plus-one positions.
   */
  method SuperBlockRankTable(v0: Str, v1: Str, t: seq<nat>, sbd: nat, num: nat) returns (supers: seq<nat>)
    requires |v0| == |v1| && |t| == |v0| + 1 && sbd >= 1 && num == Div(|t| + sbd - 1, sbd)
    requires forall k :: 0 <= k < |t| ==> t[k] == Count(v0, v1, k)
    ensures |supers| == num && SuperTable(v0, v1, sbd, supers)
  {
    supers := [];
    for j := 0 to num
      invariant |supers| == j && SuperTable(v0, v1, sbd, supers)
    {
      CeilDivBound(|t|, sbd, j);
      var m := Mul(j, sbd);
      assert t[m] == Count(v0, v1, m);
      ghost var prev := supers;
      supers := supers + [t[m]];
      forall k | 0 <= k < |supers|
        ensures Mul(k, sbd) <= |v0| && supers[k] == Count(v0, v1, Mul(k, sbd))
      {
        if k < j {
          assert supers[k] == prev[k];
        }
      }
    }
  }

  /**
   * The block table of build (jacobson_rank.rs:77-86): entry k is the rank of the start of
   * block k minus the rank of the start of its superblock.
   */
  method BlockRankTable(v0: Str, v1: Str, t: seq<nat>, bd: nat, sbd: nat, num: nat, supers: seq<nat>)
    returns (blocks: seq<nat>)
    requires |v0| == |v1| && |t| == |v0| + 1 && bd >= 1 && sbd >= 1 && num == Div(|t| + bd - 1, bd)
    requires forall k :: 0 <= k < |t| ==> t[k] == Count(v0, v1, k)
    requires |supers| == Div(|t| + sbd - 1, sbd) && SuperTable(v0, v1, sbd, supers)
    ensures |blocks| == num && BlockTable(v0, v1, bd, sbd, supers, blocks)
  {
    blocks := [];
    for k := 0 to num
      invariant |blocks| == k && BlockTable(v0, v1, bd, sbd, supers, blocks)
    {
      var m := Mul(k, bd);
      CeilDivBound(|t|, bd, k);
      var s := Div(m, sbd);
      DivBelowCeil(m, |t|, sbd);
      DivModSplit(m, sbd);
      CountMonotone(v0, v1, Mul(s, sbd), m);
      assert supers[s] == Count(v0, v1, Mul(s, sbd)) && t[m] == Count(v0, v1, m);
      ghost var prev := blocks;
      blocks := blocks + [t[m] - supers[s]];
      forall k' | 0 <= k' < |blocks|
        ensures && Mul(k', bd) <= |v0| && Div(Mul(k', bd), sbd) < |supers|
                && blocks[k'] + supers[Div(Mul(k', bd), sbd)] == Count(v0, v1, Mul(k', bd))
      {
        if k' < k {
          assert blocks[k'] == prev[k'];
        }
      }
    }
  }

  /** The rank lists of build (jacobson_rank.rs:87-89), one per bd-bit block pattern. */
  method PatternRankLists(bd: nat) returns (lists: seq<seq<nat>>)
    ensures lists == seq(Pow2(bd), p requires 0 <= p => RankList(p, bd))
  {
    lists := [];
    for p := 0 to Pow2(bd)
      invariant lists == seq(p, q requires 0 <= q => RankList(q, bd))
    {
      var list := ComputeRanklist(p, bd);
      assert list == RankList(p, bd);
      lists := lists + [list];
    }
  }

  class JacobsonRank {
    /** Length of the sequence plus one: ranks are defined for positions 0..n - 1. */
    var n: nat
    var blockDim: nat
    var superBlockDim: nat
    var blockNum: nat
    var superBlockNum: nat
    /** Rank of each block start relative to its superblock's start. */
    var blockRanks: seq<nat>
    /** Rank of each superblock start. */
    var superBlockRanks: seq<nat>
    /** One rank list per block pattern. */
    var partialRanks: seq<seq<nat>>

    /** new() (jacobson_rank.rs:23-37). */
    constructor()
      ensures n == 0 && blockDim == 0 && superBlockDim == 0 && blockNum == 0 && superBlockNum == 0
      ensures blockRanks == [] && superBlockRanks == [] && partialRanks == []
    {
      n, blockDim, superBlockDim, blockNum, superBlockNum := 0, 0, 0, 0, 0;
      blockRanks, superBlockRanks, partialRanks := [], [], [];
    }

    /** The sizes and counts stored by build(v0, v1). */
    ghost predicate Sized(v0: Str, v1: Str)
      reads this
    {
      && |v0| == |v1| && n == |v0| + 1
      && blockDim >= 1 && superBlockDim >= 1 && Mod(superBlockDim, blockDim) == 0
      && blockNum == Div(n + blockDim - 1, blockDim)
      && superBlockNum == Div(n + superBlockDim - 1, superBlockDim)
      && |superBlockRanks| == superBlockNum && |blockRanks| == blockNum
      && SuperTable(v0, v1, superBlockDim, superBlockRanks)
      && BlockTable(v0, v1, blockDim, superBlockDim, superBlockRanks, blockRanks)
    }

    /** The first 2^blockDim rank lists are those of the block patterns. */
    ghost predicate PatternsListed()
      reads this
    {
      && |partialRanks| >= Pow2(blockDim)
      && forall p :: 0 <= p < Pow2(blockDim) ==> partialRanks[p] == RankList(p, blockDim)
    }

    /** The structure answers rank queries over v0 | v1. */
    ghost predicate Valid(v0: Str, v1: Str)
      reads this
    {
      Sized(v0, v1) && PatternsListed()
    }

    /**
     * build(v0, v1) (jacobson_rank.rs:39-90). `bd` and `sbd` are the block and superblock
     * sizes that the source derives with floating-point logarithms; the superblock size is
     * then raised to the next multiple of the block size. The rank lists are appended to
     * whatever the structure already held, so only a fresh structure is certainly valid.
     */
    method Build(v0: Str, v1: Str, bd: nat, sbd: nat)
      requires |v0| == |v1| && bd >= 1 && sbd >= 1
      modifies this
      ensures Sized(v0, v1) && blockDim == bd
      ensures Mod(superBlockDim, bd) == 0 && sbd <= superBlockDim < sbd + bd
      ensures partialRanks == old(partialRanks) + seq(Pow2(bd), p requires 0 <= p => RankList(p, bd))
      ensures old(partialRanks) == [] ==> Valid(v0, v1)
    {
      var nn := |v0| + 1;
      var sbdim := sbd;
      NextMultiple(sbd, bd);
      ghost var next := Mul(Div(sbd + bd - 1, bd), bd);
      while Mod(sbdim, bd) != 0
        invariant sbd <= sbdim <= next
        decreases next - sbdim
      {
        sbdim := sbdim + 1;
      }
      var bnum := Div(nn + bd - 1, bd);
      var sbnum := Div(nn + sbdim - 1, sbdim);
      var t := PrefixRanks(v0, v1);
      var supers := SuperBlockRankTable(v0, v1, t, sbdim, sbnum);
      var blocks := BlockRankTable(v0, v1, t, bd, sbdim, bnum, supers);
      var lists := PatternRankLists(bd);
      n, blockDim, superBlockDim, blockNum, superBlockNum := nn, bd, sbdim, bnum, sbnum;
      superBlockRanks, blockRanks, partialRanks := supers, blocks, partialRanks + lists;
    }

    /**
     * The superblock and block tables of rank(i): both reads are in range and together give
     * the rank of l, the start of i's block.
     */
    lemma BlockStartRank(i: nat, v0: Str, v1: Str, l: nat)
      requires Sized(v0, v1) && i <= |v0| && l + Mod(i, blockDim) == i
      ensures Div(i, superBlockDim) < |superBlockRanks| && Div(i, blockDim) < |blockRanks|
      ensures Mod(i, blockDim) < blockDim
      ensures superBlockRanks[Div(i, superBlockDim)] + blockRanks[Div(i, blockDim)] == Count(v0, v1, l)
    {
      var q, k := Div(i, superBlockDim), Div(i, blockDim);
      DivModSplit(i, blockDim);
      DivBelowCeil(i, n, superBlockDim);
      DivBelowCeil(i, n, blockDim);
      BlockInSuperBlock(i, blockDim, superBlockDim, k, q);
      assert blockRanks[k] + superBlockRanks[Div(Mul(k, blockDim), superBlockDim)]
             == Count(v0, v1, Mul(k, blockDim));
    }

    /** Entry j of the rank list stored for block pattern x is the number of ones of x below j. */
    lemma PatternEntry(x: nat, j: nat)
      requires PatternsListed() && x < Pow2(blockDim) && j < blockDim
      ensures x < |partialRanks| && j < |partialRanks[x]| && partialRanks[x][j] == PopCountLow(x, j)
    {
      assert partialRanks[x] == RankList(x, blockDim);
    }

    /**
     * The three table reads of rank(i), where l is the start of i's block and x its pattern,
     * are in range and add up to the rank of i.
     */
    lemma RankParts(i: nat, v0: Str, v1: Str, l: nat, x: nat)
      requires Valid(v0, v1) && i <= |v0|
      requires l + Mod(i, blockDim) == i && x == GetIndex(l, l + blockDim, v0, v1)
      ensures Div(i, superBlockDim) < |superBlockRanks| && Div(i, blockDim) < |blockRanks|
      ensures x < |partialRanks| && Mod(i, blockDim) < |partialRanks[x]|
      ensures superBlockRanks[Div(i, superBlockDim)] + blockRanks[Div(i, blockDim)]
              + partialRanks[x][Mod(i, blockDim)] == Count(v0, v1, i)
    {
      BlockStartRank(i, v0, v1, l);
      PatternEntry(x, Mod(i, blockDim));
      PartsAddUp(v0, v1, l, blockDim, Mod(i, blockDim), i,
        superBlockRanks[Div(i, superBlockDim)] + blockRanks[Div(i, blockDim)], partialRanks[x][Mod(i, blockDim)]);
    }

    /**
     * rank(i, v0, v1) (jacobson_rank.rs:92-103) with the zero-padded block read: it is the
     * number of set positions of v0 | v1 before i, i.e. NaiveRank's rank.
     */
    function Rank(i: nat, v0: Str, v1: Str): (r: nat)
      reads this
      requires Valid(v0, v1) && i <= |v0|
      ensures r == Count(v0, v1, i)
    {
      DivModSplit(i, blockDim);
      var l := i - Mod(i, blockDim);
      var x := GetIndex(l, l + blockDim, v0, v1);
      RankParts(i, v0, v1, l, x);
      superBlockRanks[Div(i, superBlockDim)] + blockRanks[Div(i, blockDim)] + partialRanks[x][Mod(i, blockDim)]
    }

    /**
     * rank(i, v0, v1) as written: the block read panics (None) exactly when i's block runs
     * past the end of the vectors; otherwise the result is the rank of i.
     */
    function RankAsWritten(i: nat, v0: Str, v1: Str): (r: Option<nat>)
      reads this
      requires Valid(v0, v1) && i <= |v0|
      ensures Mod(i, blockDim) <= i
      ensures r.None? <==> i - Mod(i, blockDim) + blockDim > |v0|
      ensures r.Some? ==> r.value == Count(v0, v1, i)
    {
      DivModSplit(i, blockDim);
      var l := i - Mod(i, blockDim);
      match GetIndexAsWritten(l, l + blockDim, v0, v1)
      case None => None
      case Some(x) =>
        GetIndexInside(l, l + blockDim, v0, v1);
        RankParts(i, v0, v1, l, x);
        Some(superBlockRanks[Div(i, superBlockDim)] + blockRanks[Div(i, blockDim)] + partialRanks[x][Mod(i, blockDim)])
    }
  }

  /**
   * Whenever the length of the vectors is not a multiple of the block size, the rank of the
   * last position panics as written, although the padded read gives its true rank.
   */
  lemma LastBlockPanics(ds: JacobsonRank, v0: Str, v1: Str)
    requires ds.Valid(v0, v1) && Mod(|v0|, ds.blockDim) != 0
    ensures ds.RankAsWritten(|v0| - 1, v0, v1).None?
    ensures ds.Rank(|v0| - 1, v0, v1) == Count(v0, v1, |v0| - 1)
  {
    DivModSplit(|v0| - 1, ds.blockDim);
    ModSucc(|v0| - 1, ds.blockDim);
  }

  /**
   * A 101-bit vector with 4-bit blocks, the sizes used for a dictionary of 101 slots: its
   * last block [100, 104) runs past the end, so slicing it panics.
   */
  lemma TrailingBlockExample()
    ensures var z := seq(101, _ => false); GetIndexAsWritten(100, 104, z, z) == None
  {
  }
}
