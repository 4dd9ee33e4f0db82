/**
 * The co-signer: picks a block (the last one, or the first with the given
 * index), drops any earlier signature by the same signer, appends a new one
 * over the raw block_hash bytes, and rewrites the ledger sorted by index.
 */
module CoSign {
  import opened Wrappers
  import opened Ledger

  /** The first block at or after `from` whose claimed index is `index`. */
  function FirstWithIndex(blocks: seq<Block>, index: int, from: nat): (r: Option<nat>)
    requires from <= |blocks|
    ensures r.Some? ==> from <= r.value < |blocks| && blocks[r.value].header.index == index
    ensures r.Some? ==> forall q :: from <= q < r.value ==> blocks[q].header.index != index
    ensures r.None? ==> forall q :: from <= q < |blocks| ==> blocks[q].header.index != index
    decreases |blocks| - from
  {
    if from == |blocks| then None
    else if blocks[from].header.index == index then Some(from)
    else FirstWithIndex(blocks, index, from + 1)
  }

  /** The position of the block to co-sign: the last block when no index is given, else the first block with that index. */
  function FindTarget(blocks: seq<Block>, index: Option<int>): (r: Option<nat>)
    ensures r.Some? ==> r.value < |blocks|
    ensures index.None? ==> (r.None? <==> blocks == []) && (r.Some? ==> r.value == |blocks| - 1)
    ensures index.Some? && r.Some? ==> blocks[r.value].header.index == index.value
    ensures index.Some? && r.Some? ==> forall q :: 0 <= q < r.value ==> blocks[q].header.index != index.value
    ensures index.Some? && r.None? ==> forall q :: 0 <= q < |blocks| ==> blocks[q].header.index != index.value
  {
    match index
    case None => if blocks == [] then None else Some(|blocks| - 1)
    case Some(i) => FirstWithIndex(blocks, i, 0)
  }

  /** The signatures whose signer is not `signer`, in their original order. */
  function Without(sigs: seq<Signature>, signer: string): (r: seq<Signature>)
    ensures |r| <= |sigs|
    ensures forall s :: s in r <==> s in sigs && s.signer != signer
  {
    if sigs == [] then []
    else
      var init := sigs[..|sigs| - 1];
      var last := sigs[|sigs| - 1];
      assert sigs == init + [last];
      if last.signer == signer then Without(init, signer) else Without(init, signer) + [last]
  }

  lemma {:induction false} WithoutAppend(xs: seq<Signature>, ys: seq<Signature>, signer: string)
    ensures Without(xs + ys, signer) == Without(xs, signer) + Without(ys, signer)
    decreases |ys|
  {
    if ys == [] {
      assert xs + ys == xs;
    } else {
      var init := ys[..|ys| - 1];
      assert (xs + ys)[..|xs + ys| - 1] == xs + init;
      WithoutAppend(xs, init, signer);
    }
  }

  /** With no entry by `signer`, nothing is dropped. */
  lemma {:induction false} WithoutNone(sigs: seq<Signature>, signer: string)
    requires forall s :: s in sigs ==> s.signer != signer
    ensures Without(sigs, signer) == sigs
  {
    if sigs != [] {
      var init := sigs[..|sigs| - 1];
      var last := sigs[|sigs| - 1];
      assert sigs == init + [last];
      assert last in sigs;
      forall s | s in init
        ensures s.signer != signer
      {
        assert s in sigs;
      }
      WithoutNone(init, signer);
      assert Without(sigs, signer) == Without(init, signer) + [last];
    }
  }

  /** Dropping entries keeps signer names unique. */
  lemma {:induction false} WithoutUnique(sigs: seq<Signature>, signer: string)
    requires UniqueSigners(sigs)
    ensures UniqueSigners(Without(sigs, signer))
  {
    if sigs != [] {
      var init := sigs[..|sigs| - 1];
      var last := sigs[|sigs| - 1];
      WithoutUnique(init, signer);
      var w := Without(init, signer);
      forall s | s in w
        ensures s.signer != last.signer
      {
        var i :| 0 <= i < |init| && init[i] == s;
        assert sigs[i] == s;
      }
    }
  }

  /** The signature-replacement step: the entries of other signers, then the new entry. */
  function ReplaceSignature(sigs: seq<Signature>, s: Signature): seq<Signature>
  {
    Without(sigs, s.signer) + [s]
  }

  /**
   * After replacement the new entry is last and is the signer's only one;
   * the other signers' entries are those of before, in the same order; and
   * unique signer names stay unique.
   */
  lemma ReplaceSignatureSpec(sigs: seq<Signature>, s: Signature)
    ensures var r := ReplaceSignature(sigs, s);
      && |r| >= 1 && r[|r| - 1] == s
      && (forall i :: 0 <= i < |r| - 1 ==> r[i].signer != s.signer)
      && Without(r, s.signer) == Without(sigs, s.signer)
      && (UniqueSigners(sigs) ==> UniqueSigners(r))
  {
    var others := Without(sigs, s.signer);
    var r := others + [s];
    WithoutAppend(others, [s], s.signer);
    WithoutNone(others, s.signer);
    assert Without([s], s.signer) == [];
    forall i | 0 <= i < |r| - 1
      ensures r[i].signer != s.signer
    {
      assert r[i] in others;
    }
    if UniqueSigners(sigs) {
      WithoutUnique(sigs, s.signer);
    }
  }

  /** The entry co-signing adds: signer, the key derived from the signing key, and the signature over the raw block_hash. */
  function NewSignature(c: Crypto, b: Block, signer: string, sk: SecretKey): Signature
  {
    Signature(signer, c.publicKey(sk), c.sign(sk, b.blockHash))
  }

  /** The co-signed block: only its signature list changes. */
  function CoSignBlock(c: Crypto, b: Block, signer: string, sk: SecretKey): Block
  {
    b.(signatures := ReplaceSignature(b.signatures, NewSignature(c, b, signer, sk)))
  }

  predicate SortedByIndex(blocks: seq<Block>)
  {
    forall i, j :: 0 <= i < j < |blocks| ==> blocks[i].header.index <= blocks[j].header.index
  }

  /** Stable insertion: `x` goes after every block whose index is at most its own. */
  function Insert(sorted: seq<Block>, x: Block): (r: seq<Block>)
    ensures |r| == |sorted| + 1
    ensures multiset(r) == multiset(sorted) + multiset{x}
    decreases |sorted|
  {
    if sorted == [] || sorted[|sorted| - 1].header.index <= x.header.index then
      sorted + [x]
    else
      var init := sorted[..|sorted| - 1];
      var last := sorted[|sorted| - 1];
      assert sorted == init + [last];
      Insert(init, x) + [last]
  }

  /** A block whose index is at least the last one's extends a sorted ledger. */
  lemma AppendSorted(sorted: seq<Block>, x: Block)
    requires SortedByIndex(sorted)
    requires sorted != [] ==> sorted[|sorted| - 1].header.index <= x.header.index
    ensures SortedByIndex(sorted + [x])
  {
    var r := sorted + [x];
    forall i, j | 0 <= i < j < |r|
      ensures r[i].header.index <= r[j].header.index
    {
      if j == |sorted| && i < |sorted| - 1 {
        assert sorted[i].header.index <= sorted[|sorted| - 1].header.index;
      }
    }
  }

  /** Inserting into a ledger sorted by index keeps it sorted. */
  lemma {:induction false} InsertSorted(sorted: seq<Block>, x: Block)
    requires SortedByIndex(sorted)
    ensures SortedByIndex(Insert(sorted, x))
    decreases |sorted|
  {
    if sorted == [] || sorted[|sorted| - 1].header.index <= x.header.index {
      AppendSorted(sorted, x);
    } else {
      var init := sorted[..|sorted| - 1];
      var last := sorted[|sorted| - 1];
      assert sorted == init + [last];
      assert SortedByIndex(init);
      InsertSorted(init, x);
      var front := Insert(init, x);
      var y := front[|front| - 1];
      assert y in multiset(front);
      if y != x {
        assert y in multiset(init);
        var i :| 0 <= i < |init| && init[i] == y;
        assert sorted[i] == y;
      }
      AppendSorted(front, last);
    }
  }

  /** The order the co-signer writes the ledger in: ascending index, stable. */
  function SortByIndex(blocks: seq<Block>): (r: seq<Block>)
    ensures SortedByIndex(r)
    ensures multiset(r) == multiset(blocks)
  {
    if blocks == [] then []
    else
      var init := blocks[..|blocks| - 1];
      assert blocks == init + [blocks[|blocks| - 1]];
      var sortedInit := SortByIndex(init);
      InsertSorted(sortedInit, blocks[|blocks| - 1]);
      Insert(sortedInit, blocks[|blocks| - 1])
  }

  /** Sorting an already sorted ledger leaves it as it is. */
  lemma {:induction false} SortSorted(blocks: seq<Block>)
    requires SortedByIndex(blocks)
    ensures SortByIndex(blocks) == blocks
  {
    if blocks != [] {
      var init := blocks[..|blocks| - 1];
      assert blocks == init + [blocks[|blocks| - 1]];
      SortSorted(init);
    }
  }
}
