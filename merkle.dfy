/**
 * The Merkle root over a block's file digests. Every level is folded pairwise
 * from the left, each pair hashed as left ‖ right; an odd level pairs its last
 * node with itself. No leaves at all give the hash of the empty byte string.
 */
module Merkle {
  import opened Ledger

  /** The node at position k of the level above: the hash of pair k. */
  function PairHash(h: Bytes -> Digest, level: seq<Digest>, k: nat): Digest
    requires 2 * k < |level|
  {
    var left := level[2 * k];
    var right := if 2 * k + 1 < |level| then level[2 * k + 1] else left;
    h(left + right)
  }

  /** One pass of the fold: a level of n nodes becomes one of ceil(n/2) nodes. */
  function NextLevel(h: Bytes -> Digest, level: seq<Digest>): (r: seq<Digest>)
    ensures |r| == (|level| + 1) / 2
    decreases |level|
  {
    if |level| == 0 then []
    else if |level| == 1 then [h(level[0] + level[0])]
    else [h(level[0] + level[1])] + NextLevel(h, level[2..])
  }

  /** Fold levels until exactly one digest remains. */
  function Fold(h: Bytes -> Digest, level: seq<Digest>): Digest
    requires |level| >= 1
    decreases |level|
  {
    if |level| == 1 then level[0] else Fold(h, NextLevel(h, level))
  }

  function MerkleRoot(h: Bytes -> Digest, leaves: seq<Digest>): Digest
  {
    if leaves == [] then h([]) else Fold(h, leaves)
  }

  /** The stored Merkle root matches the one recomputed from the files, in order. */
  predicate MerkleOk(c: Crypto, b: Block)
  {
    b.header.merkleRoot == MerkleRoot(c.hash, Leaves(b.header.files))
  }

  /** Node k of the next level hashes nodes 2k and 2k+1, or node 2k twice when it is last and unpaired. */
  lemma {:induction false} NextLevelAt(h: Bytes -> Digest, level: seq<Digest>, k: nat)
    requires 2 * k < |level|
    ensures NextLevel(h, level)[k] == PairHash(h, level, k)
    decreases |level|
  {
    if k > 0 {
      NextLevelAt(h, level[2..], k - 1);
      assert level[2..][2 * (k - 1)] == level[2 * k];
      assert 2 * (k - 1) + 1 < |level[2..]| ==> level[2..][2 * (k - 1) + 1] == level[2 * k + 1];
    }
  }

  /** The next level is determined node by node by PairHash. */
  lemma NextLevelIs(h: Bytes -> Digest, level: seq<Digest>, nxt: seq<Digest>)
    requires |nxt| == (|level| + 1) / 2
    requires forall k :: 0 <= k < |nxt| ==> nxt[k] == PairHash(h, level, k)
    ensures nxt == NextLevel(h, level)
  {
    forall k | 0 <= k < |nxt|
      ensures nxt[k] == NextLevel(h, level)[k]
    {
      NextLevelAt(h, level, k);
    }
  }

  /** The inner loop of merkle_root: hash the level pair by pair, left to right. */
  method PairUp(h: Bytes -> Digest, level: seq<Digest>) returns (nxt: seq<Digest>)
    requires |level| >= 1
    ensures nxt == NextLevel(h, level)
  {
    nxt := [];
    var i := 0;
    while i < |level|
      invariant i == 2 * |nxt| && i <= |level| + 1
      invariant forall k :: 0 <= k < |nxt| ==> nxt[k] == PairHash(h, level, k)
      decreases |level| - i
    {
      var left := level[i];
      var right := if i + 1 < |level| then level[i + 1] else left;
      nxt := nxt + [h(left + right)];
      i := i + 2;
    }
    NextLevelIs(h, level, nxt);
  }

  /**
   * merkle_root as the tools run it: a while loop that rebuilds the level from
   * a list of pair hashes until one node is left.
   */
  method ComputeMerkleRoot(h: Bytes -> Digest, hashes: seq<Digest>) returns (root: Digest)
    ensures root == MerkleRoot(h, hashes)
    ensures hashes == [] ==> root == h([])
    ensures |hashes| == 1 ==> root == hashes[0]
  {
    if hashes == [] {
      return h([]);
    }
    var level := hashes;
    while |level| > 1
      invariant |level| >= 1
      invariant Fold(h, level) == Fold(h, hashes)
      decreases |level|
    {
      level := PairUp(h, level);
    }
    root := level[0];
  }

  /** The three-file scenario: H(H(D1 ‖ D2) ‖ H(D3 ‖ D3)). */
  lemma ThreeLeaves(h: Bytes -> Digest, d1: Digest, d2: Digest, d3: Digest)
    ensures MerkleRoot(h, [d1, d2, d3]) == h(h(d1 + d2) + h(d3 + d3))
  {
    var top := [h(d1 + d2), h(d3 + d3)];
    NextLevelIs(h, [d1, d2, d3], top);
    NextLevelIs(h, top, [h(top[0] + top[1])]);
    assert Fold(h, [d1, d2, d3]) == Fold(h, top);
    assert Fold(h, top) == Fold(h, [h(top[0] + top[1])]);
  }

  /**
   * The duplicate-last-node rule makes an odd list of at least three leaves
   * and the same list with its last leaf repeated share a root, so the root
   * alone does not fix the number of files.
   */
  lemma DuplicateLastLeaf(h: Bytes -> Digest, leaves: seq<Digest>)
    requires |leaves| % 2 == 1 && |leaves| >= 3
    ensures MerkleRoot(h, leaves + [leaves[|leaves| - 1]]) == MerkleRoot(h, leaves)
  {
    var longer := leaves + [leaves[|leaves| - 1]];
    var nxt := NextLevel(h, leaves);
    forall k | 0 <= k < |nxt|
      ensures nxt[k] == PairHash(h, longer, k)
    {
      NextLevelAt(h, leaves, k);
    }
    NextLevelIs(h, longer, nxt);
  }
}
