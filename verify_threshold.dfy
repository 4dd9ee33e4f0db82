/**
 * The threshold verifier: the same replay as the basic verifier, except that
 * the first block's prev_hash is not checked, the registry is not consulted,
 * and a block passes on signatures when it has at least `threshold` entries
 * that come from an eligible signer and verify. Signatures from signers
 * outside a non-empty allow-set, and bad signatures, are reported but do not
 * by themselves fail the block.
 */
module ThresholdVerifier {
  import opened Wrappers
  import opened Ledger
  import opened Merkle

  /** The policy file: each key is None when the file or the key is absent. */
  datatype Policy = Policy(allowedSigners: Option<seq<string>>, threshold: Option<int>)

  /** `allowed_signers`, as a set; empty when the policy omits it.
      The ensures clauses only spell the cases out for the verifier. */
  function AllowedSigners(p: Policy): (r: set<string>)
    ensures p.allowedSigners.None? ==> r == {}
    ensures p.allowedSigners.Some? ==> forall n :: n in r <==> n in p.allowedSigners.value
  {
    match p.allowedSigners
    case None => {}
    case Some(names) => set n | n in names
  }

  /** `threshold`; 1 when the policy omits it.
      The ensures clauses only spell the cases out for the verifier. */
  function Threshold(p: Policy): (r: int)
    ensures p.threshold.None? ==> r == 1
    ensures p.threshold.Some? ==> r == p.threshold.value
  {
    match p.threshold
    case None => 1
    case Some(t) => t
  }

  /** An empty allow-set admits every signer; otherwise only its members. */
  predicate Eligible(allowed: set<string>, signer: string)
  {
    allowed == {} || signer in allowed
  }

  /** A signature entry that counts towards the threshold: eligible, and it verifies over the raw block hash. */
  predicate Counts(c: Crypto, allowed: set<string>, blockHash: Digest, s: Signature)
  {
    Eligible(allowed, s.signer) && c.verify(s.pubkey, blockHash, s.sig)
  }

  /** The number of entries (not of distinct signers) that count. */
  function CountValid(c: Crypto, allowed: set<string>, blockHash: Digest, sigs: seq<Signature>): (r: nat)
    ensures r <= |sigs|
  {
    if sigs == [] then 0
    else CountValid(c, allowed, blockHash, sigs[..|sigs| - 1]) + (if Counts(c, allowed, blockHash, sigs[|sigs| - 1]) then 1 else 0)
  }

  /** The diagnostic for one entry that does not count; it never fails the block. */
  function SignatureNote(c: Crypto, allowed: set<string>, b: Block, s: Signature): seq<Defect>
  {
    if !Eligible(allowed, s.signer) then [Defect(b.header.index, SignerNotAllowed(s.signer))]
    else if !c.verify(s.pubkey, b.blockHash, s.sig) then [Defect(b.header.index, BadSignature(s.signer))]
    else []
  }

  function SignatureNotes(c: Crypto, allowed: set<string>, b: Block, sigs: seq<Signature>): seq<Defect>
  {
    if sigs == [] then []
    else SignatureNotes(c, allowed, b, sigs[..|sigs| - 1]) + SignatureNote(c, allowed, b, sigs[|sigs| - 1])
  }

  /** The failures of one block, in the order the checks run, given the running state. */
  function BlockDefects(c: Crypto, allowed: set<string>, threshold: int, b: Block, prevHash: Option<Digest>, prevIndex: int): seq<Defect>
  {
    var i := b.header.index;
    var valid := CountValid(c, allowed, b.blockHash, b.signatures);
    Flag(i != prevIndex + 1, Defect(i, IndexJump(prevIndex)))
    + Flag(prevHash.Some? && b.header.prevHash != prevHash, Defect(i, PrevHashMismatch))
    + Flag(!MerkleOk(c, b), Defect(i, MerkleMismatch))
    + Flag(!HashOk(c, b), Defect(i, BlockHashMismatch))
    + Flag(b.signatures == [], Defect(i, NoSignatures))
    + Flag(valid < threshold, Defect(i, ThresholdNotMet(valid, threshold)))
  }

  function ChainDefects(c: Crypto, allowed: set<string>, threshold: int, blocks: seq<Block>): seq<Defect>
  {
    if blocks == [] then []
    else
      var init := blocks[..|blocks| - 1];
      ChainDefects(c, allowed, threshold, init)
      + BlockDefects(c, allowed, threshold, blocks[|blocks| - 1], Running(init).0, Running(init).1)
  }

  function ChainNotes(c: Crypto, allowed: set<string>, blocks: seq<Block>): seq<Defect>
  {
    if blocks == [] then []
    else
      var b := blocks[|blocks| - 1];
      ChainNotes(c, allowed, blocks[..|blocks| - 1]) + SignatureNotes(c, allowed, b, b.signatures)
  }

  /** Block k of an accepted ledger, stated without the running state. */
  predicate BlockSound(c: Crypto, allowed: set<string>, threshold: int, blocks: seq<Block>, k: nat)
    requires k < |blocks|
  {
    var b := blocks[k];
    && b.header.index == k
    && (k > 0 ==> b.header.prevHash == Some(blocks[k - 1].blockHash))
    && MerkleOk(c, b)
    && HashOk(c, b)
    && b.signatures != []
    && CountValid(c, allowed, b.blockHash, b.signatures) >= threshold
  }

  predicate Accepts(c: Crypto, allowed: set<string>, threshold: int, blocks: seq<Block>)
  {
    forall k :: 0 <= k < |blocks| ==> BlockSound(c, allowed, threshold, blocks, k)
  }

  /** Counting distributes over concatenation. */
  lemma {:induction false} CountValidAppend(c: Crypto, allowed: set<string>, blockHash: Digest, xs: seq<Signature>, ys: seq<Signature>)
    ensures CountValid(c, allowed, blockHash, xs + ys) == CountValid(c, allowed, blockHash, xs) + CountValid(c, allowed, blockHash, ys)
    decreases |ys|
  {
    if ys == [] {
      assert xs + ys == xs;
    } else {
      var init := ys[..|ys| - 1];
      CountValidAppend(c, allowed, blockHash, xs, init);
      assert (xs + ys)[..|xs + ys| - 1] == xs + init;
    }
  }

  /** When every entry counts, the count is the number of entries. */
  lemma {:induction false} CountValidAll(c: Crypto, allowed: set<string>, blockHash: Digest, sigs: seq<Signature>)
    requires forall s :: s in sigs ==> Counts(c, allowed, blockHash, s)
    ensures CountValid(c, allowed, blockHash, sigs) == |sigs|
  {
    if sigs != [] {
      var init := sigs[..|sigs| - 1];
      assert forall s :: s in init ==> s in sigs;
      CountValidAll(c, allowed, blockHash, init);
    }
  }

  /** An entry that does not count (a bad signature, a signer outside the allow-set) leaves the count as it was. */
  lemma CountValidIgnores(c: Crypto, allowed: set<string>, blockHash: Digest, sigs: seq<Signature>, s: Signature)
    requires !Counts(c, allowed, blockHash, s)
    ensures CountValid(c, allowed, blockHash, sigs + [s]) == CountValid(c, allowed, blockHash, sigs)
  {
    assert (sigs + [s])[..|sigs|] == sigs;
  }

  lemma BlockDefectsEmpty(c: Crypto, allowed: set<string>, threshold: int, b: Block, prevHash: Option<Digest>, prevIndex: int)
    ensures BlockDefects(c, allowed, threshold, b, prevHash, prevIndex) == [] <==>
      && b.header.index == prevIndex + 1
      && (prevHash.Some? ==> b.header.prevHash == prevHash)
      && MerkleOk(c, b)
      && HashOk(c, b)
      && b.signatures != []
      && CountValid(c, allowed, b.blockHash, b.signatures) >= threshold
  {
  }

  lemma BlockSoundPrefix(c: Crypto, allowed: set<string>, threshold: int, blocks: seq<Block>, n: nat, k: nat)
    requires k < n <= |blocks|
    ensures BlockSound(c, allowed, threshold, blocks[..n], k) == BlockSound(c, allowed, threshold, blocks, k)
  {
  }

  lemma ChainDefectsSnoc(c: Crypto, allowed: set<string>, threshold: int, blocks: seq<Block>, b: Block)
    ensures ChainDefects(c, allowed, threshold, blocks + [b])
         == ChainDefects(c, allowed, threshold, blocks) + BlockDefects(c, allowed, threshold, b, Running(blocks).0, Running(blocks).1)
  {
    assert (blocks + [b])[..|blocks|] == blocks;
  }

  lemma ChainNotesSnoc(c: Crypto, allowed: set<string>, blocks: seq<Block>, b: Block)
    ensures ChainNotes(c, allowed, blocks + [b]) == ChainNotes(c, allowed, blocks) + SignatureNotes(c, allowed, b, b.signatures)
  {
    assert (blocks + [b])[..|blocks|] == blocks;
  }

  lemma AcceptsSnoc(c: Crypto, allowed: set<string>, threshold: int, init: seq<Block>, b: Block)
    ensures Accepts(c, allowed, threshold, init + [b])
        <==> Accepts(c, allowed, threshold, init) && BlockSound(c, allowed, threshold, init + [b], |init|)
  {
    var blocks := init + [b];
    assert blocks[..|init|] == init;
    forall k | 0 <= k < |init|
      ensures BlockSound(c, allowed, threshold, blocks, k) == BlockSound(c, allowed, threshold, init, k)
    {
      BlockSoundPrefix(c, allowed, threshold, blocks, |init|, k);
    }
  }

  lemma NextBlockDefectsEmpty(c: Crypto, allowed: set<string>, threshold: int, init: seq<Block>, b: Block)
    requires Accepts(c, allowed, threshold, init)
    ensures BlockDefects(c, allowed, threshold, b, Running(init).0, Running(init).1) == []
        <==> BlockSound(c, allowed, threshold, init + [b], |init|)
  {
    if init != [] {
      assert BlockSound(c, allowed, threshold, init, |init| - 1);
    }
    BlockDefectsEmpty(c, allowed, threshold, b, Running(init).0, Running(init).1);
  }

  /** The replay reports no failure exactly when every block is sound at its position. */
  lemma {:induction false} ChainDefectsEmpty(c: Crypto, allowed: set<string>, threshold: int, blocks: seq<Block>)
    ensures ChainDefects(c, allowed, threshold, blocks) == [] <==> Accepts(c, allowed, threshold, blocks)
  {
    if blocks != [] {
      var init := blocks[..|blocks| - 1];
      var b := blocks[|blocks| - 1];
      assert blocks == init + [b];
      ChainDefectsEmpty(c, allowed, threshold, init);
      ChainDefectsSnoc(c, allowed, threshold, init, b);
      AcceptsSnoc(c, allowed, threshold, init, b);
      if Accepts(c, allowed, threshold, init) {
        NextBlockDefectsEmpty(c, allowed, threshold, init, b);
      }
    }
  }

  /** The inner loop: count the entries that are eligible and verify; note the others. */
  method CountSignatures(c: Crypto, allowed: set<string>, b: Block) returns (valid: nat, notes: seq<Defect>)
    ensures valid == CountValid(c, allowed, b.blockHash, b.signatures)
    ensures notes == SignatureNotes(c, allowed, b, b.signatures)
  {
    var idx := b.header.index;
    var sigs := b.signatures;
    valid := 0;
    notes := [];
    for j := 0 to |sigs|
      invariant valid == CountValid(c, allowed, b.blockHash, sigs[..j])
      invariant notes == SignatureNotes(c, allowed, b, sigs[..j])
    {
      var s := sigs[j];
      assert sigs[..j + 1][..j] == sigs[..j];
      if allowed != {} && s.signer !in allowed {
        notes := notes + [Defect(idx, SignerNotAllowed(s.signer))];
        continue;
      }
      if c.verify(s.pubkey, b.blockHash, s.sig) {
        valid := valid + 1;
      } else {
        notes := notes + [Defect(idx, BadSignature(s.signer))];
      }
    }
    assert sigs[..|sigs|] == sigs;
  }

  /** The checks the replay loop runs on one block. */
  method CheckBlock(c: Crypto, allowed: set<string>, threshold: int, b: Block, prevHash: Option<Digest>, prevIndex: int)
    returns (found: seq<Defect>, notes: seq<Defect>)
    ensures found == BlockDefects(c, allowed, threshold, b, prevHash, prevIndex)
    ensures notes == SignatureNotes(c, allowed, b, b.signatures)
  {
    var idx := b.header.index;
    found := Flag(idx != prevIndex + 1, Defect(idx, IndexJump(prevIndex)));
    found := found + Flag(prevHash.Some? && b.header.prevHash != prevHash, Defect(idx, PrevHashMismatch));
    var root := ComputeMerkleRoot(c.hash, Leaves(b.header.files));
    found := found + Flag(b.header.merkleRoot != root, Defect(idx, MerkleMismatch));
    var computed := c.hash(c.canonical(b.header));
    found := found + Flag(computed != b.blockHash, Defect(idx, BlockHashMismatch));
    found := found + Flag(b.signatures == [], Defect(idx, NoSignatures));
    var valid;
    valid, notes := CountSignatures(c, allowed, b);
    found := found + Flag(valid < threshold, Defect(idx, ThresholdNotMet(valid, threshold)));
  }

  /**
   * The replay loop under a policy: blank lines are skipped, every failure
   * clears `ok` and is reported, entries that do not count are noted, and the
   * running state takes each block's claimed hash and index.
   */
  method Verify(c: Crypto, policy: Policy, lines: seq<Line>) returns (ok: bool, defects: seq<Defect>, notes: seq<Defect>)
    ensures defects == ChainDefects(c, AllowedSigners(policy), Threshold(policy), Blocks(lines))
    ensures notes == ChainNotes(c, AllowedSigners(policy), Blocks(lines))
    ensures ok <==> defects == []
    ensures ok <==> Accepts(c, AllowedSigners(policy), Threshold(policy), Blocks(lines))
  {
    var allowed := AllowedSigners(policy);
    var threshold := Threshold(policy);
    var prevHash: Option<Digest> := None;
    var prevIndex := -1;
    ok := true;
    defects := [];
    notes := [];
    for i := 0 to |lines|
      invariant defects == ChainDefects(c, allowed, threshold, Blocks(lines[..i]))
      invariant notes == ChainNotes(c, allowed, Blocks(lines[..i]))
      invariant prevHash == Running(Blocks(lines[..i])).0
      invariant prevIndex == Running(Blocks(lines[..i])).1
      invariant ok <==> defects == []
    {
      BlocksSnoc(lines, i);
      if lines[i].Blank? {
        assert Blocks(lines[..i + 1]) == Blocks(lines[..i]);
        continue;
      }
      var b := lines[i].block;
      ghost var before := Blocks(lines[..i]);
      assert Blocks(lines[..i + 1]) == before + [b];
      ChainDefectsSnoc(c, allowed, threshold, before, b);
      ChainNotesSnoc(c, allowed, before, b);
      var found, noted := CheckBlock(c, allowed, threshold, b, prevHash, prevIndex);
      if found != [] {
        ok := false;
      }
      defects := defects + found;
      notes := notes + noted;
      assert defects == ChainDefects(c, allowed, threshold, Blocks(lines[..i + 1]));
      prevHash, prevIndex := Some(b.blockHash), b.header.index;
    }
    assert lines[..|lines|] == lines;
    ChainDefectsEmpty(c, allowed, threshold, Blocks(lines));
  }
}
