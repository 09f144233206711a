# Static z-fast tries in Dafny

This project models the static part of a library of tries over bit strings. Each trie is built
once from a list of keys and then answers four kinds of queries:

- the predecessor of x: the greatest key strictly below x;
- the successor of x: the least key at or above x;
- whether some key has x as a prefix;
- whether some key lies in the half-open range [x, y).

Keys are compared lexicographically, bit by bit, and a prefix sorts before its extensions.

It models five tries:

- **`NaiveTrie`**, a sorted vector searched linearly. Its functions `PredOf`, `SuccOf`,
  `ExPrefOf` and `ExRangeOf` are also the reference that every other trie is proved against.
- **`CompactTrie`**, a compacted binary trie with explicit labels, queried by recursive descent.
- **`ZFastTrie`**, the z-fast trie. Its nodes carry extents, jump links and leaf threads, and a
  z-map takes the handle of each internal node to that node. Queries find the exit node of x by
  a fat binary search over handle lengths.
- **`ZFastTrieSux`**, the same trie whose z-map is a minimal perfect hash static dictionary. The
  dictionary also answers strings that are not handles, and the queries filter those answers out.
- The support structures:
  - the bit helpers (`get_fattest`, `lcp`);
  - two prefix hashes (`NaiveHash`, and `RollingHash` with constant-time prefix hashing);
  - two rank structures (`NaiveRank`, `JacobsonRank`);
  - the 3-hypergraph peeling dictionary `MinimalPerfectHashStaticDict`.

Modelling choices:

- A bit string is a `seq<bool>`.
- Machine words are unbounded naturals. Where the width matters, the model says so below.
- The reference-counted node graph of the source is an arena.
  - Nodes are `TrieNode` records in a `seq`.
  - A pointer is an index into that sequence.
  - Children come before their parents.
  - A ghost `shape` ties each index to the abstract node `Node(l, r, lind)` of the trie of the
    sorted keys (module `TrieStructure`).
- Randomness is a function parameter `draw`. The dictionary's unbounded retry loop is bounded
  by an `attempts` count.
- A panic of the source is modelled in one of two ways:
  - as an `Outcome.Panic` or a `Panicked` result where a caller can reach it;
  - as a `requires` where the source asserts a condition its callers keep.

  Each `requires` of the second kind is listed under "## Left out".

## Model

| member | source | states |
|---|---|---|
| BitwiseOperations.NextPowerOfTwo | static_implementation/src/utils/bitwise_operations.rs:13-15 | the least power of two at or above n: p >= n and p/2 < n |
| BitwiseOperations.Calc | static_implementation/src/utils/bitwise_operations.rs:13-15 | calc(i) is the exponent k with 2^k == next_power_of_two(i+1); the mask clears all of i, and for i == 0 it keeps every bit |
| BitwiseOperations.GetFattest | static_implementation/src/utils/bitwise_operations.rs:1-11 | with low == 0 the result is 0; otherwise it is the fattest number of [low, x]: the unique one with the most trailing zeros |
| BitwiseOperations.SplitIsFattest | static_implementation/src/utils/bitwise_operations.rs:7-10 | the highest differing bit of a-1 and b gives, masked, the fattest number of (a, b] |
| BitwiseOperations.FattestUnique | static_implementation/src/utils/bitwise_operations.rs:1-11 | two fattest numbers of overlapping intervals that lie in each other's interval are equal |
| BitwiseOperations.XorHighBit | static_implementation/src/utils/bitwise_operations.rs:7-9 | for a != b the bit length of a xor b is the first position from the top where they differ |
| BitwiseOperations.NextPowerOfTwoIsPow2BitLen | static_implementation/src/utils/bitwise_operations.rs:13-15 | next_power_of_two(n) == 2^(bit length of n-1) |
| BitwiseOperations.KeepHighIdempotent | static_implementation/src/utils/bitwise_operations.rs:8-9 | masking twice with the same mask is masking once |
| BitwiseOperations.TrailingZerosKeepHigh | static_implementation/src/utils/bitwise_operations.rs:8-9 | y survives the mask of k low bits iff y has at least k trailing zeros |
| Strings.CommonPrefixLength | static_implementation/src/utils/str.rs:7-29 | the longest d at which x and y agree on their first d bits and differ at bit d, if both are longer |
| Strings.Lcp | static_implementation/src/utils/str.rs:7-29 | the 32-bit chunked loop returns a common prefix of x and y of length CommonPrefixLength(x, y) |
| Strings.Cmp | static_implementation/src/utils/str.rs:4 | the order of `BitVec`, which the `Str` alias inherits from the bitvec crate: lexicographic, bit by bit, with a proper prefix first; Equal exactly when the strings are equal |
| Strings.LtTransitive | static_implementation/src/utils/str.rs:4 | the key order is transitive |
| Strings.LtTotal | static_implementation/src/utils/str.rs:4 | the key order is total: a < b, a == b or b < a |
| Strings.LeAntisymmetric | static_implementation/src/utils/str.rs:4 | a <= b and b <= a imply a == b |
| Strings.PrefixLe | static_implementation/src/utils/str.rs:4 | a prefix sorts at or before its extensions |
| Strings.BetweenExtends | static_implementation/src/utils/str.rs:4 | a string between x and an extension of x extends x as well |
| Strings.CommonPrefixLengthUnique | static_implementation/src/utils/str.rs:7-29 | any length with the common-prefix property is the common prefix length |
| SortedStrings.SortByCmp | static_implementation/src/tries/naive_trie.rs:17-20 | the result is sorted and a permutation of the input |
| SortedStrings.SortedUnique | static_implementation/src/tries/naive_trie.rs:17-20 | two sorted permutations of the same keys are equal, so the sorted key list is determined by the input |
| NaiveTrie.LowerBound | static_implementation/src/tries/naive_trie.rs:22-43 | the index of the first key at or above x: every key before it is below x |
| NaiveTrie.NaiveTrie.Build | static_implementation/src/tries/naive_trie.rs:17-20 | the stored keys are the input, sorted, as a permutation |
| NaiveTrie.NaiveTrie.PredQuery | static_implementation/src/tries/naive_trie.rs:22-32 | the linear scan returns PredOf(v, x) |
| NaiveTrie.NaiveTrie.SuccQuery | static_implementation/src/tries/naive_trie.rs:34-43 | the linear scan returns SuccOf(v, x) |
| NaiveTrie.NaiveTrie.ExPrefQuery | static_implementation/src/tries/naive_trie.rs:45-47 | answers ExPrefOf(v, x) |
| NaiveTrie.NaiveTrie.ExRangeQuery | static_implementation/src/tries/naive_trie.rs:49-51 | answers ExRangeOf(v, x, y) |
| NaiveTrie.PredIsGreatestBelow | static_implementation/src/tries/naive_trie.rs:22-32 | on sorted keys PredOf is None iff no key is below x, and otherwise it is the greatest key below x |
| NaiveTrie.SuccIsLeastAtLeast | static_implementation/src/tries/naive_trie.rs:34-43 | on sorted keys SuccOf is None iff every key is below x, and otherwise it is the least key at or above x |
| NaiveTrie.ExPrefIff | static_implementation/src/tries/naive_trie.rs:45-47 | ExPrefOf holds iff some key has x as a prefix |
| NaiveTrie.ExRangeIff | static_implementation/src/tries/naive_trie.rs:49-51 | ExRangeOf holds iff some key s has x <= s < y |
| NaiveTrie.ExRangeEmpty | static_implementation/src/tries/naive_trie.rs:49-51 | for y <= x the range is empty |
| NaiveTrie.LowerBoundSplits | static_implementation/src/tries/naive_trie.rs:34-43 | on sorted keys every key from the lower bound on is at or above x |
| NaiveHash.NaiveHash.SlowPrefixHash | static_implementation/src/hashes/naive_hash.rs:19-21 | the digest of a prefix is the prefix itself: ind bits, a prefix of s |
| NaiveHash.NaiveHash.FastPrefixHash | static_implementation/src/hashes/naive_hash.rs:25-32 | the fast prefix hash is the prefix itself: ind bits, a prefix of s |
| NaiveHash.NaiveHash.Hash | static_implementation/src/hashes/naive_hash.rs:15-17 | the hash of s is s |
| NaiveHash.PrefixDigestsCollideIffSameLength | static_implementation/src/hashes/naive_hash.rs:19-32 | fast and slow prefix digests of s agree exactly when the prefix lengths agree |
| NaiveRank.Count | static_implementation/src/rank_structures/naive_rank.rs:13-22 | the count of positions below ind set in v0 or v1 is at most ind |
| NaiveRank.NaiveRank.Rank | static_implementation/src/rank_structures/naive_rank.rs:13-22 | the loop counts the positions below ind where v0 or v1 is set |
| NaiveRank.CountIsCardinality | static_implementation/src/rank_structures/naive_rank.rs:13-22 | the count is the size of the set of set positions below ind |
| NaiveRank.CountMonotone | static_implementation/src/rank_structures/naive_rank.rs:13-22 | rank grows with ind, by at most one per position |
| NaiveRank.CountStrict | static_implementation/src/rank_structures/naive_rank.rs:13-22 | a set position i below j makes rank(i) < rank(j) |
| RollingHash.Default | static_implementation/src/hashes/rolling_hash.rs:5-6 | the default modulus and base make a valid rolling hash |
| RollingHash.NewParametric | static_implementation/src/hashes/rolling_hash.rs:110-116 | new_parametric(n, draw) hashes onto [0, n) with a base coprime to n that divides draw mod (n-1) + 1 |
| RollingHash.GetCoprime | static_implementation/src/hashes/rolling_hash.rs:128-145 | divides out common factors: the result divides num and is coprime to the domain size |
| RollingHash.RollingHash.Hash | static_implementation/src/hashes/rolling_hash.rs:22-24 | hash(s) is the digest of all of s, below the modulus |
| RollingHash.RollingHash.SlowPrefixHash | static_implementation/src/hashes/rolling_hash.rs:26-60 | word loop then bit loop compute Digest(s, ind), the digest of the first ind bits |
| RollingHash.RollingHash.ComputeState | static_implementation/src/hashes/rolling_hash.rs:62-80 | the state holds the digest and power of every whole-word prefix |
| RollingHash.RollingHash.FastPrefixHash | static_implementation/src/hashes/rolling_hash.rs:82-106 | from the state, the deferred-modulo bit loop computes the same Digest(s, ind) as the slow hash |
| RollingHash.RollingHash.DigestOfPrefix | static_implementation/src/hashes/rolling_hash.rs:26-60 | the digest of the first ind bits of s depends only on those bits |
| RollingHash.RollingHash.FastAgrees | static_implementation/src/hashes/rolling_hash.rs:82-106 | summing without reduction and reducing once equals reducing at every step |
| RollingHash.RollingHash.PowerIsPow | static_implementation/src/hashes/rolling_hash.rs:26-60 | the loops' running power after j steps is base^(j+2) mod modulo |
| RollingHash.RollingHash.DigestWordStep | static_implementation/src/hashes/rolling_hash.rs:32-45 | one whole word advances the digest by one word step |
| RollingHash.RollingHash.DigestBitStep | static_implementation/src/hashes/rolling_hash.rs:46-58 | one bit inside a word advances the digest by one or two powers |
| RollingHash.BitsValueAgree | static_implementation/src/hashes/rolling_hash.rs:32-45 | a word's value depends only on its own 32 bits |
| JacobsonRank.GetIndexAsWritten | static_implementation/src/rank_structures/jacobson_rank.rs:119-121 | as written: defined exactly when [l, r) lies inside v0 and v1, and then the little-endian value of their OR |
| JacobsonRank.GetIndex | static_implementation/src/rank_structures/jacobson_rank.rs:119-121 | corrected: the value of the OR over [l, r), with bits past the end read as 0; it is below 2^(r-l) |
| JacobsonRank.GetIndexInside | static_implementation/src/rank_structures/jacobson_rank.rs:119-121 | inside the vectors the corrected index is the one as written |
| JacobsonRank.ComputeRanklist | static_implementation/src/rank_structures/jacobson_rank.rs:107-118 | the list of running popcounts of the low bits of x |
| JacobsonRank.PrefixRanks | static_implementation/src/rank_structures/jacobson_rank.rs:50-63 | t[k] is the rank of every position k, 0 <= k <= n |
| JacobsonRank.SuperBlockRankTable | static_implementation/src/rank_structures/jacobson_rank.rs:74-76 | entry j is the rank at the start of super-block j |
| JacobsonRank.BlockRankTable | static_implementation/src/rank_structures/jacobson_rank.rs:77-86 | entry j is the rank at the start of block j relative to its super-block |
| JacobsonRank.PatternRankLists | static_implementation/src/rank_structures/jacobson_rank.rs:87-89 | one rank list for every bit pattern of a block |
| JacobsonRank.BlockRanks | static_implementation/src/rank_structures/jacobson_rank.rs:92-103 | rank at l + j is rank at l plus the popcount of the j low bits of the block window |
| JacobsonRank.JacobsonRank.Build | static_implementation/src/rank_structures/jacobson_rank.rs:39-90 | the tables are sized and filled; the super-block size is the requested one rounded up to a multiple of the block size; the pattern lists are appended |
| JacobsonRank.JacobsonRank.Rank | static_implementation/src/rank_structures/jacobson_rank.rs:92-103 | corrected: super-block + block + partial entry is the rank Count(v0, v1, i) for every i <= n |
| JacobsonRank.JacobsonRank.RankAsWritten | static_implementation/src/rank_structures/jacobson_rank.rs:92-103 | as written: panics exactly when the block window of i runs past the end, and otherwise returns Count(v0, v1, i) |
| JacobsonRank.LastBlockPanics | static_implementation/src/rank_structures/jacobson_rank.rs:97-98 | when the length is not a multiple of the block size, rank of the last position panics as written while the corrected rank is defined |
| JacobsonRank.TrailingBlockExample | static_implementation/src/rank_structures/jacobson_rank.rs:119-121 | on 101 bits, get_index(100, 104) reads past the end |
| Hypergraph.AddEdge | static_implementation/src/static_dicts/minimal_perfect_hash_static_dict.rs:56-58 | inserting an edge at its three vertices keeps the lists the incidence lists of the edge set plus the edge |
| Hypergraph.InitialQueue | static_implementation/src/static_dicts/minimal_perfect_hash_static_dict.rs:64-69 | the queue lists, in increasing order, exactly the vertices of degree one |
| Hypergraph.RemoveEdge | static_implementation/src/static_dicts/minimal_perfect_hash_static_dict.rs:84-89 | removing an edge from its vertices' lists leaves the incidence lists of the rest, and queues the vertices left with degree one |
| Hypergraph.Peel | static_implementation/src/static_dicts/minimal_perfect_hash_static_dict.rs:71-91 | the queue loop produces a peeling sequence of the edge set: each edge is alone at its free vertex when peeled |
| Hypergraph.PeelingExtend | static_implementation/src/static_dicts/minimal_perfect_hash_static_dict.rs:74-83 | peeling the only edge at a vertex extends a peeling sequence |
| Hypergraph.CompletePeeling | static_implementation/src/static_dicts/minimal_perfect_hash_static_dict.rs:92-94 | a peeling with at least as many steps as edges has peeled every edge |
| Hypergraph.FreeVerticesDiffer | static_implementation/src/static_dicts/minimal_perfect_hash_static_dict.rs:71-91 | distinct steps of a peeling have distinct free vertices |
| Hypergraph.PeelingDistinct | static_implementation/src/static_dicts/minimal_perfect_hash_static_dict.rs:71-91 | a peeling sequence never peels an edge twice |
| Hypergraph.ElementsCard | static_implementation/src/static_dicts/minimal_perfect_hash_static_dict.rs:92-94 | a sequence has at most as many distinct elements as entries, exactly as many iff none repeats |
| MinimalPerfectHashStaticDict.TableSize | static_implementation/src/static_dicts/minimal_perfect_hash_static_dict.rs:37 | the size is floor(1.23 * number of keys) |
| MinimalPerfectHashStaticDict.VertexCount | static_implementation/src/static_dicts/minimal_perfect_hash_static_dict.rs:38 | the vertex count is the size, but at least 101 |
| MinimalPerfectHashStaticDict.WeightRoundTrip | static_implementation/src/static_dicts/minimal_perfect_hash_static_dict.rs:171-184 | get_w reads back any weight below 3 that set_w stored, and a stored weight always sets one of the two bits |
| MinimalPerfectHashStaticDict.FreeWeight | static_implementation/src/static_dicts/minimal_perfect_hash_static_dict.rs:99-114 | the weight written at the free vertex makes the edge's weights sum to its index mod 3 |
| MinimalPerfectHashStaticDict.EdgeSumSet | static_implementation/src/static_dicts/minimal_perfect_hash_static_dict.rs:99-114 | setting the free vertex's weight moves the edge sum by exactly that weight |
| MinimalPerfectHashStaticDict.ReplayStep | static_implementation/src/static_dicts/minimal_perfect_hash_static_dict.rs:98-115 | one step of the reversed peeling keeps every later-peeled edge's sum and solves the current one |
| MinimalPerfectHashStaticDict.SolvedSlots | static_implementation/src/static_dicts/minimal_perfect_hash_static_dict.rs:119-130 | in a solved build the keys' slots are distinct and below the number of keys |
| MinimalPerfectHashStaticDict.PickedDistinct | static_implementation/src/static_dicts/minimal_perfect_hash_static_dict.rs:119-130 | two keys never pick the same slot |
| MinimalPerfectHashStaticDict.PickedBelow | static_implementation/src/static_dicts/minimal_perfect_hash_static_dict.rs:119-130 | a key's slot is below the number of keys: exactly as many weighted vertices as keys |
| MinimalPerfectHashStaticDict.WeightedAreFree | static_implementation/src/static_dicts/minimal_perfect_hash_static_dict.rs:96-117 | the weighted vertices are exactly the free vertices, one per key |
| MinimalPerfectHashStaticDict.DistinctEdgesDistinctKeys | static_implementation/src/static_dicts/minimal_perfect_hash_static_dict.rs:47-62 | distinct edges come from distinct keys |
| MinimalPerfectHashStaticDict.DrawHashes | static_implementation/src/static_dicts/minimal_perfect_hash_static_dict.rs:42-45 | three valid hashes onto [0, n), each from the draws at cc + 2t |
| MinimalPerfectHashStaticDict.MinimalPerfectHashStaticDict.GetW | static_implementation/src/static_dicts/minimal_perfect_hash_static_dict.rs:171-178 | the weight at a vertex is below 3 |
| MinimalPerfectHashStaticDict.MinimalPerfectHashStaticDict.SetW | static_implementation/src/static_dicts/minimal_perfect_hash_static_dict.rs:180-184 | only vertex ind changes, and get_w then reads val |
| MinimalPerfectHashStaticDict.MinimalPerfectHashStaticDict.EdgeOf | static_implementation/src/static_dicts/minimal_perfect_hash_static_dict.rs:48 | the three hash values of a key form its edge |
| MinimalPerfectHashStaticDict.MinimalPerfectHashStaticDict.EdgeLists | static_implementation/src/static_dicts/minimal_perfect_hash_static_dict.rs:47-62 | ok iff no key's edge repeats a vertex; then the lists are the incidence lists of the keys' edges |
| MinimalPerfectHashStaticDict.MinimalPerfectHashStaticDict.PeelKeys | static_implementation/src/static_dicts/minimal_perfect_hash_static_dict.rs:47-94 | ok yields a complete peeling of the keys' edges, one step per key, and then the keys are distinct; no keys always succeed |
| MinimalPerfectHashStaticDict.MinimalPerfectHashStaticDict.AssignWeights | static_implementation/src/static_dicts/minimal_perfect_hash_static_dict.rs:96-115 | from zero weights, the reversed peeling makes every edge sum to its peeled index |
| MinimalPerfectHashStaticDict.MinimalPerfectHashStaticDict.Place | static_implementation/src/static_dicts/minimal_perfect_hash_static_dict.rs:118-130 | with distinct slots, every key's slot holds its value |
| MinimalPerfectHashStaticDict.MinimalPerfectHashStaticDict.Finish | static_implementation/src/static_dicts/minimal_perfect_hash_static_dict.rs:96-130 | after a complete peeling the build panics iff there are no values, and otherwise stores every key's value at its slot |
| MinimalPerfectHashStaticDict.MinimalPerfectHashStaticDict.Build | static_implementation/src/static_dicts/minimal_perfect_hash_static_dict.rs:35-133 | panics iff there are no keys; Built implies distinct keys, every key's lookup is its value, and the table holds only values; keys with a duplicate never reach Built |
| MinimalPerfectHashStaticDict.MinimalPerfectHashStaticDict.StoredLookup | static_implementation/src/static_dicts/minimal_perfect_hash_static_dict.rs:135-146 | for stored keys the slot is below the number of keys and the lookup is the key's value |
| MinimalPerfectHashStaticDict.MinimalPerfectHashStaticDict.Position | static_implementation/src/static_dicts/minimal_perfect_hash_static_dict.rs:136-144 | the rank of the picked vertex is the key's slot |
| MinimalPerfectHashStaticDict.MinimalPerfectHashStaticDict.Get | static_implementation/src/static_dicts/minimal_perfect_hash_static_dict.rs:135-146 | get(key) returns the table entry at the key's slot: for a stored key, its value |
| MinimalPerfectHashStaticDict.MinimalPerfectHashStaticDict.ComputeState | static_implementation/src/static_dicts/minimal_perfect_hash_static_dict.rs:148-150 | one rolling-hash state per hash function |
| MinimalPerfectHashStaticDict.MinimalPerfectHashStaticDict.PrefixDigest | static_implementation/src/static_dicts/minimal_perfect_hash_static_dict.rs:152-160 | the fast prefix hash is the edge vertex of the prefix key[..ind] |
| MinimalPerfectHashStaticDict.MinimalPerfectHashStaticDict.FastPrefixGet | static_implementation/src/static_dicts/minimal_perfect_hash_static_dict.rs:152-167 | the lookup of the prefix key[..ind], the same as get(key[..ind]) |
| CompactTrie.Tree | static_implementation/src/tries/compact_trie.rs:56-90 | the node built for a range is a leaf iff the range is one key, and otherwise has two children |
| CompactTrie.New | static_implementation/src/tries/compact_trie.rs:56-90 | succeeds iff the range starts inside v and is prefix-free; then it builds Tree(v, node) |
| CompactTrie.TreeZeroOrTwo | static_implementation/src/tries/compact_trie.rs:56-90 | every built node has zero or two children |
| CompactTrie.TreeSpells | static_implementation/src/tries/compact_trie.rs:56-90 | the labels along the root-to-leaf paths of a node spell the suffixes of its keys |
| CompactTrie.TreeSpellsKeys | static_implementation/src/tries/compact_trie.rs:23-28 | the built trie spells exactly the keys, in order |
| CompactTrie.UpdCurrSucc | static_implementation/src/tries/compact_trie.rs:151-166 | panics iff the answer is not found yet and curr is already as long as x; otherwise it accepts bit c iff found, c, or x has 0 there |
| CompactTrie.UpdCurrPred | static_implementation/src/tries/compact_trie.rs:92-106 | accepts bit c iff the answer is found already, or x is longer than curr and c does not exceed the bit of x there |
| CompactTrie.ReadLabelSucc | static_implementation/src/tries/compact_trie.rs:168-185 | reading a node label keeps the successor-search state, with the same panic condition |
| CompactTrie.ReadLabelPred | static_implementation/src/tries/compact_trie.rs:108-125 | reading a node label keeps the predecessor-search state or stops at a label that passes x |
| CompactTrie.SuccFrom | static_implementation/src/tries/compact_trie.rs:168-207 | the descent returns SuccIn(v, node, x), the least key of the subtree at or above x |
| CompactTrie.PredFrom | static_implementation/src/tries/compact_trie.rs:108-149 | the descent returns PredIn(v, node, x), the greatest key of the subtree below x |
| CompactTrie.SuccInRoot | static_implementation/src/tries/compact_trie.rs:38-44 | at the root the subtree successor is SuccOf |
| CompactTrie.PredInRoot | static_implementation/src/tries/compact_trie.rs:30-36 | at the root the subtree predecessor is PredOf |
| CompactTrie.EmptySuccIsFirst | static_implementation/src/tries/compact_trie.rs:38-44 | the successor of the empty string is the first key |
| CompactTrie.CompactTrie.constructor | static_implementation/src/tries/compact_trie.rs:17-19 | an empty trie |
| CompactTrie.CompactTrie.Build | static_implementation/src/tries/compact_trie.rs:23-28 | the keys are the sorted input; the build succeeds iff they are non-empty, distinct and prefix-free |
| CompactTrie.CompactTrie.SuccQueryAsWritten | static_implementation/src/tries/compact_trie.rs:38-44 | as written: panics iff there are keys and x is empty, and otherwise returns SuccOf(v, x) |
| CompactTrie.CompactTrie.SuccQuery | static_implementation/src/tries/compact_trie.rs:38-44 | corrected: returns SuccOf(v, x) for every x |
| CompactTrie.CompactTrie.PredQuery | static_implementation/src/tries/compact_trie.rs:30-36 | returns PredOf(v, x) |
| CompactTrie.CompactTrie.ExPrefQuery | static_implementation/src/tries/compact_trie.rs:46-49 | returns ExPrefOf(v, x) |
| CompactTrie.CompactTrie.ExRangeQuery | static_implementation/src/tries/compact_trie.rs:50-52 | returns ExRangeOf(v, x, y) |
| TrieStructure.Mid | static_implementation/src/tries/z_fast_trie.rs:95-110 | the first key of the range with bit rind set: both halves are non-empty |
| TrieStructure.ChildWf | static_implementation/src/tries/z_fast_trie.rs:95-110 | the children of a well-formed internal node are well formed |
| TrieStructure.Exit | static_implementation/src/tries/z_fast_trie.rs:259-273 | the exit node of x is a node of the trie; ExitStops and StopIsExit characterise it |
| TrieStructure.ExitStops | static_implementation/src/tries/z_fast_trie.rs:259-273 | the exit node is on the path of x and x stops there |
| TrieStructure.StopIsExit | static_implementation/src/tries/z_fast_trie.rs:232-257 | a node on the path where x stops is the exit node |
| TrieStructure.StopLowerBound | static_implementation/src/tries/z_fast_trie.rs:275-300 | at the exit node the lower bound of x is the node's first key or one past its last, as x compares with its extent |
| TrieStructure.StopPrefix | static_implementation/src/tries/z_fast_trie.rs:302-308 | x is a prefix of some key iff x is a prefix of its exit node's extent |
| TrieHandles.Fat | static_implementation/src/tries/z_fast_trie.rs:468-479 | the handle length get_fattest(rind, lind) lies in [lind, rind] and is the fattest number there |
| TrieHandles.Handle | static_implementation/src/tries/z_fast_trie.rs:468-479 | the handle extends the node's name and is a prefix of its extent |
| TrieHandles.HandleBeginsKeys | static_implementation/src/tries/z_fast_trie.rs:468-479 | every key below a node begins with the node's handle |
| TrieHandles.HandlesInjective | static_implementation/src/tries/z_fast_trie.rs:481-497 | two nodes with equal handles are the same node, so the z-map keys are distinct |
| TrieHandles.KthLeft | static_implementation/src/tries/z_fast_trie.rs:421-430 | the node on the left spine whose [lind, rind] holds k, or the leftmost leaf |
| TrieHandles.KthRight | static_implementation/src/tries/z_fast_trie.rs:432-441 | the node on the right spine whose [lind, rind] holds k, or the rightmost leaf |
| TrieHandles.JumpBeyond | static_implementation/src/tries/z_fast_trie.rs:443-466 | a node's jump target lies past its extent |
| TrieHandles.JumpLeftDown | static_implementation/src/tries/z_fast_trie.rs:443-466 | the left jump goes strictly down the left spine to the node holding the jump target |
| TrieHandles.JumpRightDown | static_implementation/src/tries/z_fast_trie.rs:443-466 | the right jump goes strictly down the right spine to the node holding the jump target |
| FatSearch.TargetLocatesExit | static_implementation/src/tries/z_fast_trie.rs:216-257 | the node the fat binary search seeks is absent only when the exit node is the root, and otherwise is the exit node or its parent |
| FatSearch.ParentOfExit | static_implementation/src/tries/z_fast_trie.rs:169-214 | the exit node's parent is a hit for both searches and x descends from it into the exit node |
| FatSearch.HitBelowTarget | static_implementation/src/tries/z_fast_trie.rs:126-167 | every hit lies above the target of the search |
| FatSearch.AcceptHit | static_implementation/src/tries/z_fast_trie.rs:126-167 | a hit at the queried handle length moves the lower end past its extent and keeps the search sound |
| FatSearch.Miss | static_implementation/src/tries/z_fast_trie.rs:126-167 | a miss at handle length f moves the upper end below f and keeps the search sound |
| FatSearch.AcceptWrong | static_implementation/src/tries/z_fast_trie.rs:126-167 | accepting a node that is not a hit turns the search bad, which the later handle check catches |
| FatSearch.MaskQuery | static_implementation/src/tries/z_fast_trie.rs:126-167 | the length queried under the current mask is the fattest number of the search interval |
| FatSearch.MaskSkip | static_implementation/src/tries/z_fast_trie.rs:126-167 | when the mask clears the interval, shifting it keeps the mask invariant |
| FatSearch.MaskHit | static_implementation/src/tries/z_fast_trie.rs:126-167 | raising the lower end keeps the mask invariant after one shift |
| FatSearch.MaskMiss | static_implementation/src/tries/z_fast_trie.rs:126-167 | lowering the upper end keeps the mask invariant after one shift |
| FatSearch.ShiftMask | static_implementation/src/tries/z_fast_trie.rs:126-167 | m >> 1 on a mask keeps one bit more, and a mask that keeps everything stays |
| ZFastNodes.GetKthLeft | static_implementation/src/tries/z_fast_trie.rs:421-430 | the walk stays at or below the start index |
| ZFastNodes.GetKthRight | static_implementation/src/tries/z_fast_trie.rs:432-441 | the walk stays at or below the start index |
| ZFastNodes.ExtentAgrees | static_implementation/src/tries/z_fast_trie.rs:395-405 | get_extent of an arena node is the extent of the node it stands for |
| ZFastNodes.PrefixExtentAgrees | static_implementation/src/tries/z_fast_trie.rs:407-419 | get_prefix_extent(x) is the extent cut to min(rind, x) |
| ZFastNodes.HandleAgrees | static_implementation/src/tries/z_fast_trie.rs:468-479 | get_handle is None on a leaf and the node's handle otherwise |
| ZFastNodes.NodeLinked | static_implementation/src/tries/z_fast_trie.rs:385-393 | get_rind of an arena node is the rind of its node |
| ZFastNodes.KthLeftAgrees | static_implementation/src/tries/z_fast_trie.rs:421-430 | get_kth_left follows the left spine to KthLeft |
| ZFastNodes.KthRightAgrees | static_implementation/src/tries/z_fast_trie.rs:432-441 | get_kth_right follows the right spine to KthRight |
| ZFastNodes.LeftmostAgrees | static_implementation/src/tries/z_fast_trie.rs:361-371 | get_leftmost reaches the leaf of the node's first key |
| ZFastNodes.RightmostAgrees | static_implementation/src/tries/z_fast_trie.rs:373-383 | get_rightmost reaches the leaf of the node's last key |
| ZFastBuild.BuildTree | static_implementation/src/tries/z_fast_trie.rs:61-124 | panics iff the range is past the end of v or not prefix-free; otherwise appends the subtree with children before parents, leaves threaded in key order and to_leaf links set |
| ZFastBuild.BuildSplit | static_implementation/src/tries/z_fast_trie.rs:95-118 | builds the two halves of a splitting range and links them under a new node |
| ZFastBuild.BuildCollapse | static_implementation/src/tries/z_fast_trie.rs:86-94 | a range whose keys share the next bit is built one bit further, under the same node |
| ZFastPrecalc.PrecalcJumps | static_implementation/src/tries/z_fast_trie.rs:443-466 | sets the jump links of every internal node below i to the nodes holding their jump targets, and changes nothing else |
| ZFastPrecalc.PrecalcZMap | static_implementation/src/tries/z_fast_trie.rs:481-497 | every internal node below i enters its handle, earlier entries stay, and every entry leads to the node with that handle |
| ZFastPrecalc.InsertHandle | static_implementation/src/tries/z_fast_trie.rs:481-490 | an internal node adds its own handle to the z-map |
| ZFastRange.IsNonemptyCorrect | static_implementation/src/tries/z_fast_trie.rs:310-357 | for x <= y, is_nonempty answers ExRangeOf: some key s has x <= s < y |
| ZFastRange.IsNonemptyWhenReversed | static_implementation/src/tries/z_fast_trie.rs:310-357 | keys [0], [1], x = 00, y = empty: is_nonempty is true though x > y and the range is empty |
| ZFastRange.FirstCaseAnswers | static_implementation/src/tries/z_fast_trie.rs:314-323 | when x is at most its exit node's extent, the first case answers the range query |
| ZFastRange.SecondCaseAnswers | static_implementation/src/tries/z_fast_trie.rs:325-332 | when x passes the extent of y's exit node, the second case answers the range query |
| ZFastRange.ThirdCaseAnswers | static_implementation/src/tries/z_fast_trie.rs:334-353 | otherwise x and y part at their common prefix's exit node, and the third case answers the range query |
| ZFastRange.RangeByBounds | static_implementation/src/tries/z_fast_trie.rs:310-357 | the range is non-empty iff the lower bound of x is below that of y |
| ZFastRange.PartingNode | static_implementation/src/tries/z_fast_trie.rs:334-337 | in the third case x < y, and the exit node of lcp(x, y) is the internal node where x goes left and y goes right |
| ZFastTrie.LookupCovers | static_implementation/src/tries/z_fast_trie.rs:126-167 | when the node at depth f is a hit with handle length f, the lookup of x[..f] finds it |
| ZFastTrie.HandleCheck | static_implementation/src/tries/z_fast_trie.rs:216-230 | the handle test after the probabilistic search detects exactly the misled case |
| ZFastTrie.TargetsLocateExit | static_implementation/src/tries/z_fast_trie.rs:232-257 | from the node found, one descent step reaches the exit node, or the root is the exit |
| ZFastTrie.QueryLeft | static_implementation/src/tries/z_fast_trie.rs:275-300 | when x is at most the exit extent, the leftmost leaf and its left thread give the predecessor and successor |
| ZFastTrie.QueryRight | static_implementation/src/tries/z_fast_trie.rs:275-300 | when x is past the exit extent, the rightmost leaf and its right thread give the predecessor and successor |
| ZFastTrie.PrefixAnswer | static_implementation/src/tries/z_fast_trie.rs:302-308 | the exit extent cut to \|x\| is a prefix of a key, and equals x iff some key extends x |
| ZFastTrie.SkipLeft | static_implementation/src/tries/z_fast_trie.rs:315-321 | the left jump walk ends on the left spine at the node whose extent decides the comparison with w |
| ZFastTrie.SkipRight | static_implementation/src/tries/z_fast_trie.rs:327-330 | the right jump walk ends on the right spine at the node whose extent decides the comparison with w |
| ZFastTrie.PartedRange | static_implementation/src/tries/z_fast_trie.rs:337-353 | the walks below the parting node answer the third case |
| ZFastTrie.RangeBeyond | static_implementation/src/tries/z_fast_trie.rs:325-332 | the right walk from y's exit node answers the second case |
| ZFastTrie.BuildArena | static_implementation/src/tries/z_fast_trie.rs:24-33 | on sorted keys, succeeds iff the keys are non-empty, distinct and prefix-free, and then yields a complete arena with jumps and z-map |
| ZFastTrie.ZFastTrie.constructor | static_implementation/src/tries/z_fast_trie.rs:57-59 | an empty trie |
| ZFastTrie.ZFastTrie.Build | static_implementation/src/tries/z_fast_trie.rs:24-33 | keys are the sorted input; the build succeeds iff they are non-empty, distinct and prefix-free, and then the trie is valid |
| ZFastTrie.ZFastTrie.LocateExitOrParexProb | static_implementation/src/tries/z_fast_trie.rs:126-167 | the fat binary search ends with the exit node or its parent, or with a misled result the handle check catches |
| ZFastTrie.ZFastTrie.LocateParex | static_implementation/src/tries/z_fast_trie.rs:169-214 | the exact search finds the parent of the exit node, or the root when there is none |
| ZFastTrie.ZFastTrie.LocateExitOrParex | static_implementation/src/tries/z_fast_trie.rs:216-230 | finds the exit node or its parent |
| ZFastTrie.ZFastTrie.LocateExitFromNode | static_implementation/src/tries/z_fast_trie.rs:232-257 | returns the exit node of x |
| ZFastTrie.ZFastTrie.LocateExit | static_implementation/src/tries/z_fast_trie.rs:259-273 | None before a build, otherwise the exit node of x |
| ZFastTrie.ZFastTrie.Query | static_implementation/src/tries/z_fast_trie.rs:275-300 | returns (PredOf(keys, x), SuccOf(keys, x)) |
| ZFastTrie.ZFastTrie.PredQuery | static_implementation/src/tries/z_fast_trie.rs:35-37 | returns PredOf(keys, x) |
| ZFastTrie.ZFastTrie.SuccQuery | static_implementation/src/tries/z_fast_trie.rs:39-41 | returns SuccOf(keys, x) |
| ZFastTrie.ZFastTrie.PrefQuery | static_implementation/src/tries/z_fast_trie.rs:302-308 | a prefix of some key, no longer than x, equal to x iff some key extends x |
| ZFastTrie.ZFastTrie.ExPrefQuery | static_implementation/src/tries/z_fast_trie.rs:43-49 | returns ExPrefOf: some key has x as a prefix |
| ZFastTrie.ZFastTrie.IsNonempty | static_implementation/src/tries/z_fast_trie.rs:310-357 | false before a build, otherwise IsNonemptyAsWritten(keys, x, y) |
| ZFastTrie.ZFastTrie.IsNonemptyFrom | static_implementation/src/tries/z_fast_trie.rs:314-335 | from the exit node of x, the first case, or on to the exit node of y |
| ZFastTrie.ZFastTrie.IsNonemptyBeyond | static_implementation/src/tries/z_fast_trie.rs:325-335 | from the exit node of y, the second case, or on to the common prefix |
| ZFastTrie.ZFastTrie.IsNonemptyParted | static_implementation/src/tries/z_fast_trie.rs:337-353 | from the exit node of the common prefix, the third case |
| ZFastTrie.ZFastTrie.ExRangeQuery | static_implementation/src/tries/z_fast_trie.rs:51-53 | corrected: returns ExRangeOf(keys, x, y): some key s has x <= s < y |
| ZFastTrieSux.PreOrderMembers | static_implementation/src/tries/z_fast_trie_sux.rs:532-545 | the pre-order list of a node holds exactly the internal nodes below it |
| ZFastTrieSux.PreOrderSplits | static_implementation/src/tries/z_fast_trie_sux.rs:532-545 | an internal node comes first, then the nodes of its left subtree, then those of its right |
| ZFastTrieSux.PreOrderCount | static_implementation/src/tries/z_fast_trie_sux.rs:532-545 | a subtree of k keys has k-1 internal nodes |
| ZFastTrieSux.HandlesConcat | static_implementation/src/tries/z_fast_trie_sux.rs:532-545 | the handles of two lists are the handles of each, concatenated |
| ZFastTrieSux.PushedInOrder | static_implementation/src/tries/z_fast_trie_sux.rs:532-545 | pushing a node, then its left subtree, then its right subtree pushes its pre-order list |
| ZFastTrieSux.PrecalcZMap | static_implementation/src/tries/z_fast_trie_sux.rs:532-545 | appends the handles and indices of the internal nodes below i in pre-order, one pair per node, keeping earlier pairs |
| ZFastTrieSux.FromRoot | static_implementation/src/tries/z_fast_trie_sux.rs:58-70 | the pairs collected from the root are all the handles with their nodes |
| ZFastTrieSux.BuildNodes | static_implementation/src/tries/z_fast_trie_sux.rs:98-155 | succeeds iff the sorted keys are distinct and prefix-free; then it yields the threaded arena with jumps and the z-map pairs |
| ZFastTrieSux.StoredNode | static_implementation/src/tries/z_fast_trie_sux.rs:532-545 | every stored index is an internal node |
| ZFastTrieSux.HandleFound | static_implementation/src/tries/z_fast_trie_sux.rs:157-195 | the dictionary answers a handle with the index of its own node |
| ZFastTrieSux.DictFilled | static_implementation/src/tries/z_fast_trie_sux.rs:58-70 | a dictionary storing the pairs answers each handle with its node and anything else with some internal node |
| ZFastTrieSux.FillDict | static_implementation/src/tries/z_fast_trie_sux.rs:62-68 | the dictionary build panics iff there is one key, since there are then no values; when built it answers as DictFilled says |
| ZFastTrieSux.ZFastTrieSux.constructor | static_implementation/src/tries/z_fast_trie_sux.rs:94-96 | an empty trie |
| ZFastTrieSux.ZFastTrieSux.Build | static_implementation/src/tries/z_fast_trie_sux.rs:58-70 | keys are the sorted input; panics iff they are not distinct and prefix-free or there is a single key; Built yields a valid trie of at least two keys |
| ZFastTrieSux.ZFastTrieSux.Probe | static_implementation/src/tries/z_fast_trie_sux.rs:171 | fast_prefix_get(x, state, f) answers x[..f] with its node when it is a handle, and with some internal node or nothing otherwise |
| ZFastTrieSux.ZFastTrieSux.LocateExitOrParexProb | static_implementation/src/tries/z_fast_trie_sux.rs:157-195 | with false positives from the dictionary, the search still ends with the exit node, its parent, or a misled result the handle check catches |
| ZFastTrieSux.ZFastTrieSux.LocateParex | static_implementation/src/tries/z_fast_trie_sux.rs:197-240 | the exact search, which filters false positives by the fattest-number test, finds the parent of the exit node |
| ZFastTrieSux.ZFastTrieSux.LocateExitOrParex | static_implementation/src/tries/z_fast_trie_sux.rs:242-256 | finds the exit node or its parent |
| ZFastTrieSux.ZFastTrieSux.LocateExitFromNode | static_implementation/src/tries/z_fast_trie_sux.rs:258-283 | returns the exit node of x |
| ZFastTrieSux.ZFastTrieSux.LocateExit | static_implementation/src/tries/z_fast_trie_sux.rs:285-299 | None before a build, otherwise the exit node of x |
| ZFastTrieSux.ZFastTrieSux.Query | static_implementation/src/tries/z_fast_trie_sux.rs:301-326 | returns (PredOf(keys, x), SuccOf(keys, x)) for any dictionary answers on non-handles |
| ZFastTrieSux.ZFastTrieSux.PredQuery | static_implementation/src/tries/z_fast_trie_sux.rs:72-74 | returns PredOf(keys, x) |
| ZFastTrieSux.ZFastTrieSux.SuccQuery | static_implementation/src/tries/z_fast_trie_sux.rs:76-78 | returns SuccOf(keys, x) |
| ZFastTrieSux.ZFastTrieSux.PrefQuery | static_implementation/src/tries/z_fast_trie_sux.rs:328-334 | a prefix of some key, no longer than x, equal to x iff some key extends x |
| ZFastTrieSux.ZFastTrieSux.ExPrefQuery | static_implementation/src/tries/z_fast_trie_sux.rs:80-86 | returns ExPrefOf: some key has x as a prefix |
| ZFastTrieSux.ZFastTrieSux.IsNonempty | static_implementation/src/tries/z_fast_trie_sux.rs:336-420 | false before a build, otherwise IsNonemptyAsWritten(keys, x, y) |
| ZFastTrieSux.ZFastTrieSux.IsNonemptyFrom | static_implementation/src/tries/z_fast_trie_sux.rs:339-357 | from the exit node of x, the first case, or on to y |
| ZFastTrieSux.ZFastTrieSux.IsNonemptyAcross | static_implementation/src/tries/z_fast_trie_sux.rs:358 | locates the exit node of y and continues |
| ZFastTrieSux.ZFastTrieSux.IsNonemptyBeyond | static_implementation/src/tries/z_fast_trie_sux.rs:358-376 | from the exit node of y, the second case, or on to the common prefix |
| ZFastTrieSux.ZFastTrieSux.IsNonemptyParting | static_implementation/src/tries/z_fast_trie_sux.rs:377-378 | computes lcp(x, y) and its exit node |
| ZFastTrieSux.ZFastTrieSux.IsNonemptyParted | static_implementation/src/tries/z_fast_trie_sux.rs:377-420 | from the exit node of the common prefix, the third case |
| ZFastTrieSux.ZFastTrieSux.ExRangeQuery | static_implementation/src/tries/z_fast_trie_sux.rs:88-90 | corrected: returns ExRangeOf(keys, x, y): some key s has x <= s < y |

## Left out

- CompactTrie.CompactTrie.SuccQuery: corrected so that the search starts with `found` set when x is
  empty. The source's succ_query panics on an empty x whenever there are keys: it reads x at
  index 0 in upd_curr_succ (compact_trie.rs:38-44, 153, 183). `SuccQueryAsWritten` models the
  panic. `ExPrefQuery` and `ExRangeQuery` call the corrected `SuccQuery` (compact_trie.rs:46-52).
  See "## Findings".
- CompactTrie.CompactTrie.ExPrefQuery: built on the corrected `SuccQuery`, so an empty x answers
  whether there are keys instead of panicking (compact_trie.rs:46-49).
- CompactTrie.CompactTrie.ExRangeQuery: built on the corrected `SuccQuery`, so an empty x does not
  panic (compact_trie.rs:50-52).
- ZFastTrie.ZFastTrie.ExRangeQuery: answers false without calling `is_nonempty` when x >= y,
  because the range is then empty. The source calls `is_nonempty` directly (z_fast_trie.rs:51-53),
  which can answer true for x > y. See "## Findings".
- ZFastTrieSux.ZFastTrieSux.ExRangeQuery: the same guard against z_fast_trie_sux.rs:88-90.
- MinimalPerfectHashStaticDict.MinimalPerfectHashStaticDict.Position: uses the corrected,
  zero-padded `JacobsonRank.Rank`. The source's `rank` slices past the end of the weight bits in
  the last block (jacobson_rank.rs:92-103, 119-121). `Get` and `FastPrefixGet` inherit this.
  `RankAsWritten` models the slice as written. See "## Findings".
- MinimalPerfectHashStaticDict.MinimalPerfectHashStaticDict.Get: looks up the slot through the
  corrected rank (minimal_perfect_hash_static_dict.rs:144), as `Position` does.
- MinimalPerfectHashStaticDict.MinimalPerfectHashStaticDict.FastPrefixGet: looks up the slot
  through the corrected rank (minimal_perfect_hash_static_dict.rs:161), as `Position` does.
- NaiveRank.NaiveRank.Rank: `requires ind < |v0| && ind <= |v1|`, the condition the source asserts
  (naive_rank.rs:14). The panic on other arguments is not modelled.
- MinimalPerfectHashStaticDict.MinimalPerfectHashStaticDict.SetW: `requires val < 3` and an index
  inside the bit vectors. The source relies on callers for both (rs:180-184), and every caller
  meets them.
- BitwiseOperations.GetFattest: `requires x >= low`, the source's assertion
  (bitwise_operations.rs:2). The panic is not modelled.
- Strings.Cmp: the source compares keys with the `Ord` of `BitVec` from the bitvec crate, which
  is not part of this model. The model takes it to be lexicographic, bit by bit, with a proper
  prefix before its extensions.
- RollingHash.RollingHash.SlowPrefixHash: `requires ind <= |s|`, the condition the source asserts
  (rolling_hash.rs:27). The panic on a longer prefix is not modelled.
- RollingHash.RollingHash.FastPrefixHash: `requires ind <= |s|`. The source indexes its state at
  ind / 32 and would fail past the end (rolling_hash.rs:88-89); the panic is not modelled.
- NaiveHash.NaiveHash.SlowPrefixHash: `requires ind <= |s|`. The source slices `s[0..ind]`
  (naive_hash.rs:20), which panics past the end; the panic is not modelled. `FastPrefixHash`
  calls it and has the same requires.
- MinimalPerfectHashStaticDict.MinimalPerfectHashStaticDict.FastPrefixGet: `requires ind <= |key|`,
  which the prefix hashes it calls demand (minimal_perfect_hash_static_dict.rs:155).
- RollingHash.WordValue: a 32-bit word's value plus one is computed unbounded. The u32 wrap of
  0xFFFFFFFF + 1 to 0 is not modelled.
- MinimalPerfectHashStaticDict.MinimalPerfectHashStaticDict.Build: differs from the source in four
  ways.
  - The source retries forever. The model makes at most `attempts` tries and returns
    `OutOfAttempts` after the last one. So the promise for distinct keys is "Built, Panicked or
    OutOfAttempts", not "eventually Built".
  - The random seeds of new_parametric are the parameter `draw`.
  - The build requires a fresh dictionary (`Fresh()`). A second build in the source keeps the old
    weight bits and appends to the rank structure's pattern lists.
  - The build `requires |keys| == |values|`, the condition the source asserts
    (minimal_perfect_hash_static_dict.rs:36). The panic on lists of different lengths is not
    modelled; the only caller, the sux trie build, passes lists of equal length.
- MinimalPerfectHashStaticDict.TableSize: the floating-point product GAMMA * |keys| is modelled as
  the exact floor of 123 * |keys| / 100. The f64 rounding is not modelled.
- JacobsonRank.JacobsonRank.Build: the block size and super-block size are parameters `bd` and
  `sbd`. The source derives them from log2 of the length in floating point (jacobson_rank.rs:41-48).
  The IntVector field widths are not modelled.
- ZFastTrie.ZFastTrie.Build: the z-map is a Dafny `map` keyed by the handle string. This is what
  the NaiveHash handle (the identity) gives. A ZFastTrie over RollingHash, whose digests can
  collide, is not modelled.
- ZFastTrieSux.ZFastTrieSux.Build: differs from the source in four ways.
  - The dictionary is `MinimalPerfectHashStaticDict` over `RollingHash`, which fixes the source's
    generic hash H.
  - The parameters `draw`, `bd`, `sbd` and `attempts` are handed to the dictionary build. Its
    `OutOfAttempts` outcome exists only in the model.
  - The tree is built by `ZFastBuild.BuildTree`, the same arena as the plain trie. A leaf's `prev`
    and `next` are its two jump links, and `to_internal` is its back link. The placeholder jump
    links the sux build_tree writes before precalc_jumps are not modelled.
  - The separate leaf and internal node types of the source (z_fast_trie_sux.rs:424-625) are one
    record type.
- NaiveRank build (naive_rank.rs:11) does nothing and is not modelled.
- Integer widths: `usize` lengths are unbounded naturals. `FitsUsize` requires every key to be
  shorter than 2^64, which the source needs for its masks and jump targets. Overflow of counts is
  not modelled.
- Shared ownership (`Rc<RefCell<..>>`, utils/ptr.rs) is an arena of indices. Aliasing and reference
  counts are not modelled.
- The benchmarks and tests, the trait declarations (traits/*.rs) and the module files are not part
  of this model.

## Findings

| source | as written | input that shows it | evidently intended | confidence | as-written member | corrected member |
|---|---|---|---|---|---|---|
| static_implementation/src/rank_structures/jacobson_rank.rs:97-98,119-121 | rank reads the block window `v0[l..l + block_dim]` through get_index, which slices past the end when the last block is partial; the dictionary calls rank on its weight bits (minimal_perfect_hash_static_dict.rs:128, 144, 161) | 101 zero bits with block size 4: get_index(100, 104) slices beyond position 101 | bits past the end read as 0, so rank(i) is the count of set positions below i for every i <= n | not executed | JacobsonRank.JacobsonRank.RankAsWritten, JacobsonRank.GetIndexAsWritten, JacobsonRank.LastBlockPanics, JacobsonRank.TrailingBlockExample | JacobsonRank.JacobsonRank.Rank, JacobsonRank.GetIndex |
| static_implementation/src/tries/compact_trie.rs:153,183 | succ_query starts with `found` false and upd_curr_succ reads `x[curr.len()]`, so an empty x panics at the first label bit | keys [[true]], x = [] | the successor of the empty string is the first key | not executed | CompactTrie.CompactTrie.SuccQueryAsWritten | CompactTrie.CompactTrie.SuccQuery, CompactTrie.EmptySuccIsFirst |
| static_implementation/src/tries/z_fast_trie.rs:51-53,310-357 | ex_range_query returns is_nonempty(x, y), which does not check x < y; the same in z_fast_trie_sux.rs:88-90,336-420 | keys [[false], [true]], x = [false, false], y = []: answers true although no key s has x <= s < y | false whenever y <= x | not executed | ZFastTrie.ZFastTrie.IsNonempty, ZFastRange.IsNonemptyAsWritten, ZFastRange.IsNonemptyWhenReversed | ZFastRange.IsNonemptyCorrect, ZFastTrie.ZFastTrie.ExRangeQuery, ZFastTrieSux.ZFastTrieSux.ExRangeQuery |
