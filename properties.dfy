/**
 * What the four tools promise one another: a built block extends an
 * accepted ledger, the two verifiers agree and differ where their code does,
 * and co-signing keeps a ledger accepted.
 */
module ChainProperties {
  import opened Wrappers
  import opened Ledger
  import opened Merkle
  import opened Builder
  import opened CoSign
  import Basic = BasicVerifier
  import Threshold = ThresholdVerifier

  // ---------------------------------------------------------------- builder

  /**
   * Appending the block built for the next index, linked to the last block's
   * hash, with the Merkle root of its own files and signed with the key the
   * registry records for the signer, keeps a ledger accepted by the basic
   * verifier.
   */
  lemma AppendKeepsBasicAcceptance(c: Crypto, registry: map<string, string>, blocks: seq<Block>, h: Header, signer: string, sk: SecretKey)
    requires SoundSigning(c)
    requires Basic.Accepts(c, registry, blocks)
    requires h.index == NextIndex(blocks) && h.prevHash == Running(blocks).0
    requires h.merkleRoot == MerkleRoot(c.hash, Leaves(h.files))
    requires signer in registry && registry[signer] == c.publicKey(sk)
    ensures Basic.Accepts(c, registry, blocks + [Sealed(c, h, signer, registry[signer], sk)])
  {
    var b := Sealed(c, h, signer, registry[signer], sk);
    var n := |blocks|;
    if n > 0 {
      assert Basic.BlockSound(c, registry, blocks, n - 1);
    }
    assert (blocks + [b])[n] == b;
    assert Basic.SignatureAccepted(c, registry, b, b.signatures[0]);
    assert Basic.BlockSound(c, registry, blocks + [b], n);
    Basic.AcceptsSnoc(c, registry, blocks, b);
  }

  /**
   * On a ledger without blank lines whose blocks carry their positions as
   * indexes, the builder's index (line position + 1) and prev_hash are the
   * intended ones.
   */
  lemma TailAgreesOnCleanLedger(lines: seq<Line>)
    requires NoBlank(lines)
    requires forall k :: 0 <= k < |Blocks(lines)| ==> Blocks(lines)[k].header.index == k
    ensures Tail(lines).1 + 1 == NextIndex(Blocks(lines))
    ensures PrevHashOf(Tail(lines).0) == Running(Blocks(lines)).0
  {
    BlocksOfNoBlank(lines);
    TailIsLastBlock(lines);
    if lines != [] {
      assert lines[|lines| - 1].Entry?;
    }
  }

  /**
   * The block the builder appends, as written, to an accepted ledger without
   * blank lines is accepted too.
   */
  lemma NewBlockKeepsBasicAcceptance(c: Crypto, registry: map<string, string>, lines: seq<Line>, h: Header, signer: string, sk: SecretKey)
    requires SoundSigning(c)
    requires NoBlank(lines) && Basic.Accepts(c, registry, Blocks(lines))
    requires h.index == Tail(lines).1 + 1 && h.prevHash == PrevHashOf(Tail(lines).0)
    requires h.merkleRoot == MerkleRoot(c.hash, Leaves(h.files))
    requires signer in registry && registry[signer] == c.publicKey(sk)
    ensures Basic.Accepts(c, registry, Blocks(lines + [Entry(Sealed(c, h, signer, registry[signer], sk))]))
  {
    var blocks := Blocks(lines);
    forall k | 0 <= k < |blocks|
      ensures blocks[k].header.index == k
    {
      assert Basic.BlockSound(c, registry, blocks, k);
    }
    TailAgreesOnCleanLedger(lines);
    AppendKeepsBasicAcceptance(c, registry, blocks, h, signer, sk);
    var b := Sealed(c, h, signer, registry[signer], sk);
    BlocksSnoc(lines + [Entry(b)], |lines|);
    assert (lines + [Entry(b)])[..|lines|] == lines;
    assert (lines + [Entry(b)])[..|lines| + 1] == lines + [Entry(b)];
  }

  /**
   * A blank line before the first block shifts the builder's index: the
   * block appended after it claims index 2 where 1 is due, and both
   * verifiers reject the result.
   */
  lemma BlankLineSkewsIndex(c: Crypto, registry: map<string, string>, policy: Threshold.Policy, b0: Block, b: Block)
    requires b0.header.index == 0
    requires b.header.index == Tail([Blank, Entry(b0)]).1 + 1
    ensures b.header.index == 2 && NextIndex(Blocks([Blank, Entry(b0)])) == 1
    ensures !Basic.Accepts(c, registry, Blocks([Blank, Entry(b0), Entry(b)]))
    ensures !Threshold.Accepts(c, Threshold.AllowedSigners(policy), Threshold.Threshold(policy), Blocks([Blank, Entry(b0), Entry(b)]))
  {
    var lines := [Blank, Entry(b0)];
    assert lines[..1] == [Blank];
    assert [Blank][..0] == [];
    assert Blocks(lines) == [b0];
    var more := [Blank, Entry(b0), Entry(b)];
    assert more[..2] == lines;
    assert Blocks(more) == [b0, b];
    assert !Basic.BlockSound(c, registry, [b0, b], 1);
    assert !Threshold.BlockSound(c, Threshold.AllowedSigners(policy), Threshold.Threshold(policy), [b0, b], 1);
  }

  // ------------------------------------------------------ the two verifiers

  /** A ledger the basic verifier accepts passes the threshold verifier under the default policy. */
  lemma BasicImpliesDefaultThreshold(c: Crypto, registry: map<string, string>, blocks: seq<Block>)
    requires Basic.Accepts(c, registry, blocks)
    ensures Threshold.Accepts(c, Threshold.AllowedSigners(Threshold.Policy(None, None)),
                              Threshold.Threshold(Threshold.Policy(None, None)), blocks)
  {
    assert Threshold.AllowedSigners(Threshold.Policy(None, None)) == {};
    forall k | 0 <= k < |blocks|
      ensures Threshold.BlockSound(c, {}, 1, blocks, k)
    {
      var b := blocks[k];
      assert Basic.BlockSound(c, registry, blocks, k);
      assert forall s :: s in b.signatures ==> Threshold.Counts(c, {}, b.blockHash, s) by {
        forall s | s in b.signatures
          ensures Threshold.Counts(c, {}, b.blockHash, s)
        {
          assert Basic.SignatureAccepted(c, registry, b, s);
        }
      }
      Threshold.CountValidAll(c, {}, b.blockHash, b.signatures);
    }
  }

  /**
   * The basic verifier demands a null prev_hash on the first block; the
   * threshold verifier never looks at it, so a ledger it accepts with a
   * non-null first prev_hash is one the basic verifier rejects.
   */
  lemma GenesisPrevHashDivergence(c: Crypto, registry: map<string, string>, allowed: set<string>, threshold: int,
                                  blocks: seq<Block>)
    requires Threshold.Accepts(c, allowed, threshold, blocks)
    requires blocks != [] && blocks[0].header.prevHash.Some?
    ensures Threshold.Accepts(c, allowed, threshold, blocks) && !Basic.Accepts(c, registry, blocks)
  {
    assert !Basic.BlockSound(c, registry, blocks, 0);
  }

  /**
   * Adding a signature that does not verify to a block: the threshold
   * verifier still accepts the ledger, the basic verifier no longer does.
   */
  lemma BadSignatureDivergence(c: Crypto, registry: map<string, string>, allowed: set<string>, threshold: int,
                               blocks: seq<Block>, p: nat, s: Signature)
    requires p < |blocks|
    requires Threshold.Accepts(c, allowed, threshold, blocks)
    requires !c.verify(s.pubkey, blocks[p].blockHash, s.sig)
    ensures var after := blocks[p := blocks[p].(signatures := blocks[p].signatures + [s])];
      Threshold.Accepts(c, allowed, threshold, after) && !Basic.Accepts(c, registry, after)
  {
    var b := blocks[p];
    var b' := b.(signatures := b.signatures + [s]);
    var after := blocks[p := b'];
    Threshold.CountValidIgnores(c, allowed, b.blockHash, b.signatures, s);
    forall k | 0 <= k < |after|
      ensures Threshold.BlockSound(c, allowed, threshold, after, k)
    {
      assert Threshold.BlockSound(c, allowed, threshold, blocks, k);
    }
    assert s in b'.signatures && !Basic.SignatureAccepted(c, registry, b', s);
    assert !Basic.BlockSound(c, registry, after, p);
  }

  // --------------------------------------------------------------- co-sign

  /** Some entry of `signer` counts towards the threshold. */
  predicate HasValidFrom(c: Crypto, allowed: set<string>, blockHash: Digest, sigs: seq<Signature>, signer: string)
  {
    exists s :: s in sigs && s.signer == signer && Threshold.Counts(c, allowed, blockHash, s)
  }

  /** An entry of `signer` that counts is in the front of the list or is its last entry. */
  lemma HasValidFromSnoc(c: Crypto, allowed: set<string>, blockHash: Digest, init: seq<Signature>, last: Signature, signer: string)
    ensures HasValidFrom(c, allowed, blockHash, init + [last], signer)
        <==> HasValidFrom(c, allowed, blockHash, init, signer) || (last.signer == signer && Threshold.Counts(c, allowed, blockHash, last))
  {
    var sigs := init + [last];
    if HasValidFrom(c, allowed, blockHash, sigs, signer) {
      var s :| s in sigs && s.signer == signer && Threshold.Counts(c, allowed, blockHash, s);
      if s != last {
        assert s in init;
      }
    }
    if HasValidFrom(c, allowed, blockHash, init, signer) {
      var s :| s in init && s.signer == signer && Threshold.Counts(c, allowed, blockHash, s);
      assert s in sigs;
    }
    if last.signer == signer && Threshold.Counts(c, allowed, blockHash, last) {
      assert last in sigs;
    }
  }

  /** With unique signer names, the last entry's signer has no entry before it. */
  lemma LastSignerUnique(init: seq<Signature>, last: Signature)
    requires UniqueSigners(init + [last])
    ensures forall s :: s in init ==> s.signer != last.signer
  {
    var sigs := init + [last];
    forall s | s in init
      ensures s.signer != last.signer
    {
      var i :| 0 <= i < |init| && init[i] == s;
      assert sigs[i] == s && sigs[|init|] == last;
    }
  }

  /** With unique signer names, dropping one signer's entry lowers the count by one exactly when that entry counted. */
  lemma {:induction false} CountWithout(c: Crypto, allowed: set<string>, blockHash: Digest, sigs: seq<Signature>, signer: string)
    requires UniqueSigners(sigs)
    ensures Threshold.CountValid(c, allowed, blockHash, Without(sigs, signer))
          + (if HasValidFrom(c, allowed, blockHash, sigs, signer) then 1 else 0)
         == Threshold.CountValid(c, allowed, blockHash, sigs)
  {
    if sigs != [] {
      var init := sigs[..|sigs| - 1];
      var last := sigs[|sigs| - 1];
      assert sigs == init + [last];
      assert UniqueSigners(init);
      HasValidFromSnoc(c, allowed, blockHash, init, last, signer);
      if last.signer == signer {
        LastSignerUnique(init, last);
        WithoutNone(init, signer);
        assert !HasValidFrom(c, allowed, blockHash, init, signer);
        assert Without(sigs, signer) == init;
      } else {
        CountWithout(c, allowed, blockHash, init, signer);
        var w := Without(init, signer);
        assert Without(sigs, signer) == w + [last];
        assert (w + [last])[..|w|] == w;
      }
    }
  }

  /**
   * Co-signing with a sound key: the new entry counts when the signer is
   * eligible, and (with unique signer names) the count never drops; a signer
   * who had not signed raises it by one, and taking that entry away again
   * lowers it by one.
   */
  lemma CoSignCount(c: Crypto, allowed: set<string>, b: Block, signer: string, sk: SecretKey)
    requires SoundSigning(c)
    requires UniqueSigners(b.signatures)
    ensures var after := CoSignBlock(c, b, signer, sk).signatures;
      && Threshold.CountValid(c, allowed, b.blockHash, after) >= Threshold.CountValid(c, allowed, b.blockHash, b.signatures)
      && ((Threshold.Eligible(allowed, signer) && forall s :: s in b.signatures ==> s.signer != signer) ==>
           && Threshold.CountValid(c, allowed, b.blockHash, after) == Threshold.CountValid(c, allowed, b.blockHash, b.signatures) + 1
           && Threshold.CountValid(c, allowed, b.blockHash, Without(after, signer)) == Threshold.CountValid(c, allowed, b.blockHash, b.signatures))
  {
    var s := NewSignature(c, b, signer, sk);
    var w := Without(b.signatures, signer);
    var after := ReplaceSignature(b.signatures, s);
    ReplaceSignatureSpec(b.signatures, s);
    assert after == w + [s] && after[..|w|] == w;
    CountWithout(c, allowed, b.blockHash, b.signatures, signer);
    if !Threshold.Eligible(allowed, signer) {
      assert !HasValidFrom(c, allowed, b.blockHash, b.signatures, signer);
    }
    if forall s' :: s' in b.signatures ==> s'.signer != signer {
      WithoutNone(b.signatures, signer);
      assert !HasValidFrom(c, allowed, b.blockHash, b.signatures, signer);
    }
  }

  /**
   * Without unique signer names the count can drop: two verifying entries
   * by the co-signer count twice before, and the single entry that replaces
   * them counts once after.
   */
  lemma CoSignCanLowerCount(c: Crypto, allowed: set<string>, b: Block, signer: string, sk: SecretKey, s1: Signature, s2: Signature)
    requires SoundSigning(c)
    requires b.signatures == [s1, s2] && s1.signer == signer && s2.signer == signer
    requires Threshold.Counts(c, allowed, b.blockHash, s1) && Threshold.Counts(c, allowed, b.blockHash, s2)
    ensures Threshold.CountValid(c, allowed, b.blockHash, b.signatures) == 2
    ensures Threshold.CountValid(c, allowed, b.blockHash, CoSignBlock(c, b, signer, sk).signatures) == 1
  {
    var s := NewSignature(c, b, signer, sk);
    assert b.signatures[..1] == [s1];
    assert [s1][..0] == [];
    assert Without([s1], signer) == [];
    assert Without(b.signatures, signer) == [];
    assert CoSignBlock(c, b, signer, sk).signatures == [s];
    assert [s][..0] == [];
  }

  /** Blocks that carry their positions as indexes are sorted by index. */
  lemma IndexedIsSorted(blocks: seq<Block>)
    requires forall k :: 0 <= k < |blocks| ==> blocks[k].header.index == k
    ensures SortedByIndex(blocks)
  {
  }

  /**
   * Co-signing a block of a ledger the threshold verifier accepts, with a
   * sound key and unique signer names on that block, rewrites the ledger in
   * the same order and keeps it accepted.
   */
  lemma CoSignKeepsThresholdAcceptance(c: Crypto, allowed: set<string>, threshold: int, blocks: seq<Block>, p: nat, signer: string, sk: SecretKey)
    requires SoundSigning(c)
    requires Threshold.Accepts(c, allowed, threshold, blocks)
    requires p < |blocks| && UniqueSigners(blocks[p].signatures)
    ensures var after := blocks[p := CoSignBlock(c, blocks[p], signer, sk)];
      SortByIndex(after) == after && Threshold.Accepts(c, allowed, threshold, after)
  {
    var b := blocks[p];
    var b' := CoSignBlock(c, b, signer, sk);
    var after := blocks[p := b'];
    CoSignCount(c, allowed, b, signer, sk);
    ReplaceSignatureSpec(b.signatures, NewSignature(c, b, signer, sk));
    assert Threshold.BlockSound(c, allowed, threshold, blocks, p);
    ThresholdReplaceSignatures(c, allowed, threshold, blocks, p, b');
    forall k | 0 <= k < |after|
      ensures after[k].header.index == k
    {
      assert Threshold.BlockSound(c, allowed, threshold, after, k);
    }
    IndexedIsSorted(after);
    SortSorted(after);
  }

  /** Replacing one block's signature list by one that still meets the threshold keeps the ledger accepted. */
  lemma ThresholdReplaceSignatures(c: Crypto, allowed: set<string>, threshold: int, blocks: seq<Block>, p: nat, b': Block)
    requires Threshold.Accepts(c, allowed, threshold, blocks)
    requires p < |blocks| && b'.header == blocks[p].header && b'.blockHash == blocks[p].blockHash
    requires b'.signatures != [] && Threshold.CountValid(c, allowed, b'.blockHash, b'.signatures) >= threshold
    ensures Threshold.Accepts(c, allowed, threshold, blocks[p := b'])
  {
    var after := blocks[p := b'];
    forall k | 0 <= k < |after|
      ensures Threshold.BlockSound(c, allowed, threshold, after, k)
    {
      assert Threshold.BlockSound(c, allowed, threshold, blocks, k);
      assert after[k].header == blocks[k].header && after[k].blockHash == blocks[k].blockHash;
      if k > 0 {
        assert after[k - 1].blockHash == blocks[k - 1].blockHash;
      }
    }
  }

  /**
   * Co-signing a block of a ledger the basic verifier accepts, with a sound
   * key that the registry already records for the signer (or a signer it does
   * not know yet), keeps the ledger accepted under the updated registry.
   */
  lemma CoSignKeepsBasicAcceptance(c: Crypto, registry: map<string, string>, blocks: seq<Block>, p: nat, signer: string, sk: SecretKey)
    requires SoundSigning(c)
    requires Basic.Accepts(c, registry, blocks)
    requires p < |blocks|
    requires signer in registry ==> registry[signer] == c.publicKey(sk)
    ensures var after := blocks[p := CoSignBlock(c, blocks[p], signer, sk)];
      SortByIndex(after) == after && Basic.Accepts(c, registry[signer := c.publicKey(sk)], after)
  {
    var registry' := registry[signer := c.publicKey(sk)];
    var b := blocks[p];
    var s := NewSignature(c, b, signer, sk);
    var b' := CoSignBlock(c, b, signer, sk);
    var after := blocks[p := b'];
    ReplaceSignatureSpec(b.signatures, s);
    forall k | 0 <= k < |after|
      ensures Basic.BlockSound(c, registry', after, k)
    {
      assert Basic.BlockSound(c, registry, blocks, k);
      forall t | t in blocks[k].signatures
        ensures Basic.SignatureAccepted(c, registry', blocks[k], t)
      {
        assert Basic.SignatureAccepted(c, registry, blocks[k], t);
      }
      if k == p {
        forall t | t in b'.signatures
          ensures Basic.SignatureAccepted(c, registry', b', t)
        {
          if t != s {
            assert t in Without(b.signatures, signer);
          }
        }
      }
    }
    forall k | 0 <= k < |after|
      ensures after[k].header.index == k
    {
      assert Basic.BlockSound(c, registry', after, k);
    }
    IndexedIsSorted(after);
    SortSorted(after);
  }

  // ------------------------------------------- counting entries, not signers

  /**
   * The threshold verifier counts entries: the same verifying entry twice
   * meets a threshold of 2 although only one signer signed, and the count
   * can exceed the number of allowed signers.
   */
  lemma DuplicateEntryMeetsThreshold(c: Crypto, allowed: set<string>, blockHash: Digest, s: Signature)
    requires Threshold.Counts(c, allowed, blockHash, s)
    ensures Threshold.CountValid(c, allowed, blockHash, [s, s]) == 2
    ensures |ValidSigners(c, allowed, blockHash, [s, s])| == 1
    ensures allowed == {s.signer} ==> Threshold.CountValid(c, allowed, blockHash, [s, s]) > |allowed|
  {
    assert [s, s][..1] == [s];
    assert ValidSigners(c, allowed, blockHash, [s, s]) == {s.signer};
  }

  /** The distinct eligible signers with a verifying entry: what a threshold of signers counts. */
  function ValidSigners(c: Crypto, allowed: set<string>, blockHash: Digest, sigs: seq<Signature>): (r: set<string>)
    ensures forall n :: n in r ==> Threshold.Eligible(allowed, n)
  {
    set s | s in sigs && Threshold.Counts(c, allowed, blockHash, s) :: s.signer
  }

  /** The signers that count after one more entry: those before, plus the entry's signer when it counts. */
  lemma ValidSignersSnoc(c: Crypto, allowed: set<string>, blockHash: Digest, init: seq<Signature>, last: Signature)
    ensures ValidSigners(c, allowed, blockHash, init + [last])
         == ValidSigners(c, allowed, blockHash, init) + (if Threshold.Counts(c, allowed, blockHash, last) then {last.signer} else {})
  {
    assert forall s :: s in init + [last] <==> s in init || s == last;
  }

  /** With unique signer names, as the builder and the co-signer write them, counting entries counts signers. */
  lemma {:induction false} ValidSignersAgree(c: Crypto, allowed: set<string>, blockHash: Digest, sigs: seq<Signature>)
    requires UniqueSigners(sigs)
    ensures |ValidSigners(c, allowed, blockHash, sigs)| == Threshold.CountValid(c, allowed, blockHash, sigs)
  {
    if sigs != [] {
      var init := sigs[..|sigs| - 1];
      var last := sigs[|sigs| - 1];
      assert sigs == init + [last];
      assert UniqueSigners(init);
      ValidSignersAgree(c, allowed, blockHash, init);
      ValidSignersSnoc(c, allowed, blockHash, init, last);
      assert last.signer !in ValidSigners(c, allowed, blockHash, init);
    }
  }

  /** Under a non-empty allow-set, no more signers can count than the set names. */
  lemma ValidSignersBounded(c: Crypto, allowed: set<string>, blockHash: Digest, sigs: seq<Signature>)
    requires allowed != {}
    ensures |ValidSigners(c, allowed, blockHash, sigs)| <= |allowed|
  {
    var v := ValidSigners(c, allowed, blockHash, sigs);
    assert v <= allowed;
    SubsetSize(v, allowed);
  }

  lemma {:induction false} SubsetSize(a: set<string>, b: set<string>)
    requires a <= b
    ensures |a| <= |b|
    decreases |b|
  {
    if a != {} {
      var x :| x in a;
      SubsetSize(a - {x}, b - {x});
    }
  }
}
