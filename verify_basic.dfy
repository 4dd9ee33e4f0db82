/**
 * The basic verifier: replays the ledger from the first block, checking index
 * continuity, the hash chain (block 0 included, whose prev_hash must be null),
 * the Merkle root, the block hash, that there are signatures, that every
 * signer's embedded key is the one the registry records, and every signature.
 * Every failure is reported; the scan never stops early.
 */
module BasicVerifier {
  import opened Wrappers
  import opened Ledger
  import opened Merkle

  /** The registry entry must match the embedded key; only then is the signature checked. */
  function SignatureDefect(c: Crypto, registry: map<string, string>, b: Block, s: Signature): seq<Defect>
  {
    if s.signer !in registry || registry[s.signer] != s.pubkey then
      [Defect(b.header.index, PubkeyMismatch(s.signer))]
    else if !c.verify(s.pubkey, b.blockHash, s.sig) then
      [Defect(b.header.index, BadSignature(s.signer))]
    else []
  }

  function SignatureDefects(c: Crypto, registry: map<string, string>, b: Block, sigs: seq<Signature>): seq<Defect>
  {
    if sigs == [] then []
    else SignatureDefects(c, registry, b, sigs[..|sigs| - 1]) + SignatureDefect(c, registry, b, sigs[|sigs| - 1])
  }

  /** The defects of one block, in the order the checks run, given the running state. */
  function BlockDefects(c: Crypto, registry: map<string, string>, b: Block, prevHash: Option<Digest>, prevIndex: int): seq<Defect>
  {
    var i := b.header.index;
    Flag(i != prevIndex + 1, Defect(i, IndexJump(prevIndex)))
    + Flag(b.header.prevHash != prevHash, Defect(i, PrevHashMismatch))
    + Flag(!MerkleOk(c, b), Defect(i, MerkleMismatch))
    + Flag(!HashOk(c, b), Defect(i, BlockHashMismatch))
    + Flag(b.signatures == [], Defect(i, NoSignatures))
    + SignatureDefects(c, registry, b, b.signatures)
  }

  /** The report of a whole replay. */
  function ChainDefects(c: Crypto, registry: map<string, string>, blocks: seq<Block>): seq<Defect>
  {
    if blocks == [] then []
    else
      var init := blocks[..|blocks| - 1];
      ChainDefects(c, registry, init) + BlockDefects(c, registry, blocks[|blocks| - 1], Running(init).0, Running(init).1)
  }

  lemma SignatureDefectsSnoc(c: Crypto, registry: map<string, string>, b: Block, sigs: seq<Signature>, j: nat)
    requires j < |sigs|
    ensures SignatureDefects(c, registry, b, sigs[..j + 1]) == SignatureDefects(c, registry, b, sigs[..j]) + SignatureDefect(c, registry, b, sigs[j])
  {
    assert sigs[..j + 1][..j] == sigs[..j];
  }

  /** A signature the basic verifier accepts: registry key matches, and it verifies over the raw block hash. */
  predicate SignatureAccepted(c: Crypto, registry: map<string, string>, b: Block, s: Signature)
  {
    s.signer in registry && registry[s.signer] == s.pubkey && c.verify(s.pubkey, b.blockHash, s.sig)
  }

  /** Block k of an accepted ledger, stated without the running state. */
  predicate BlockSound(c: Crypto, registry: map<string, string>, blocks: seq<Block>, k: nat)
    requires k < |blocks|
  {
    var b := blocks[k];
    && b.header.index == k
    && b.header.prevHash == (if k == 0 then None else Some(blocks[k - 1].blockHash))
    && MerkleOk(c, b)
    && HashOk(c, b)
    && b.signatures != []
    && forall s :: s in b.signatures ==> SignatureAccepted(c, registry, b, s)
  }

  /** The ledger the basic verifier accepts: every block is sound at its position. */
  predicate Accepts(c: Crypto, registry: map<string, string>, blocks: seq<Block>)
  {
    forall k :: 0 <= k < |blocks| ==> BlockSound(c, registry, blocks, k)
  }

  lemma {:induction false} SignatureDefectsEmpty(c: Crypto, registry: map<string, string>, b: Block, sigs: seq<Signature>)
    ensures SignatureDefects(c, registry, b, sigs) == [] <==> forall s :: s in sigs ==> SignatureAccepted(c, registry, b, s)
  {
    if sigs != [] {
      var init := sigs[..|sigs| - 1];
      var last := sigs[|sigs| - 1];
      SignatureDefectsEmpty(c, registry, b, init);
      assert sigs == init + [last];
      assert SignatureDefect(c, registry, b, last) == [] <==> SignatureAccepted(c, registry, b, last);
      assert forall s :: s in sigs <==> s in init || s == last;
    }
  }

  /** One block reports nothing exactly when it passes every check against the running state. */
  lemma BlockDefectsEmpty(c: Crypto, registry: map<string, string>, b: Block, prevHash: Option<Digest>, prevIndex: int)
    ensures BlockDefects(c, registry, b, prevHash, prevIndex) == [] <==>
      && b.header.index == prevIndex + 1
      && b.header.prevHash == prevHash
      && MerkleOk(c, b)
      && HashOk(c, b)
      && b.signatures != []
      && forall s :: s in b.signatures ==> SignatureAccepted(c, registry, b, s)
  {
    SignatureDefectsEmpty(c, registry, b, b.signatures);
    assert |BlockDefects(c, registry, b, prevHash, prevIndex)| >= |SignatureDefects(c, registry, b, b.signatures)|;
  }

  /** Block k's soundness depends only on blocks k-1 and k, so it survives extending the ledger. */
  lemma BlockSoundPrefix(c: Crypto, registry: map<string, string>, blocks: seq<Block>, n: nat, k: nat)
    requires k < n <= |blocks|
    ensures BlockSound(c, registry, blocks[..n], k) == BlockSound(c, registry, blocks, k)
  {
  }

  lemma ChainDefectsSnoc(c: Crypto, registry: map<string, string>, blocks: seq<Block>, b: Block)
    ensures ChainDefects(c, registry, blocks + [b])
         == ChainDefects(c, registry, blocks) + BlockDefects(c, registry, b, Running(blocks).0, Running(blocks).1)
  {
    assert (blocks + [b])[..|blocks|] == blocks;
  }

  /** A ledger one block longer is accepted when the shorter one is and the new block is sound. */
  lemma AcceptsSnoc(c: Crypto, registry: map<string, string>, init: seq<Block>, b: Block)
    ensures Accepts(c, registry, init + [b]) <==> Accepts(c, registry, init) && BlockSound(c, registry, init + [b], |init|)
  {
    var blocks := init + [b];
    assert blocks[..|init|] == init;
    forall k | 0 <= k < |init|
      ensures BlockSound(c, registry, blocks, k) == BlockSound(c, registry, init, k)
    {
      BlockSoundPrefix(c, registry, blocks, |init|, k);
    }
  }

  /** After an accepted ledger, the running state makes the checks on the next block say exactly BlockSound. */
  lemma NextBlockDefectsEmpty(c: Crypto, registry: map<string, string>, init: seq<Block>, b: Block)
    requires Accepts(c, registry, init)
    ensures BlockDefects(c, registry, b, Running(init).0, Running(init).1) == [] <==> BlockSound(c, registry, init + [b], |init|)
  {
    if init != [] {
      assert BlockSound(c, registry, init, |init| - 1);
    }
    BlockDefectsEmpty(c, registry, b, Running(init).0, Running(init).1);
  }

  /** The replay reports nothing exactly when every block is sound at its position. */
  lemma {:induction false} ChainDefectsEmpty(c: Crypto, registry: map<string, string>, blocks: seq<Block>)
    ensures ChainDefects(c, registry, blocks) == [] <==> Accepts(c, registry, blocks)
  {
    if blocks != [] {
      var init := blocks[..|blocks| - 1];
      var b := blocks[|blocks| - 1];
      assert blocks == init + [b];
      ChainDefectsEmpty(c, registry, init);
      ChainDefectsSnoc(c, registry, init, b);
      AcceptsSnoc(c, registry, init, b);
      if Accepts(c, registry, init) {
        NextBlockDefectsEmpty(c, registry, init, b);
      }
    }
  }

  /** The checks the replay loop runs on one block, with the inner loop over its signatures. */
  method CheckBlock(c: Crypto, registry: map<string, string>, b: Block, prevHash: Option<Digest>, prevIndex: int)
    returns (found: seq<Defect>)
    ensures found == BlockDefects(c, registry, b, prevHash, prevIndex)
  {
    var idx := b.header.index;
    found := Flag(idx != prevIndex + 1, Defect(idx, IndexJump(prevIndex)));
    found := found + Flag(b.header.prevHash != prevHash, Defect(idx, PrevHashMismatch));
    var root := ComputeMerkleRoot(c.hash, Leaves(b.header.files));
    found := found + Flag(b.header.merkleRoot != root, Defect(idx, MerkleMismatch));
    var computed := c.hash(c.canonical(b.header));
    found := found + Flag(computed != b.blockHash, Defect(idx, BlockHashMismatch));
    found := found + Flag(b.signatures == [], Defect(idx, NoSignatures));
    var sigFound := CheckSignatures(c, registry, b);
    found := found + sigFound;
  }

  /** The inner loop over the block's signatures: registry cross-check, then the signature itself. */
  method CheckSignatures(c: Crypto, registry: map<string, string>, b: Block) returns (found: seq<Defect>)
    ensures found == SignatureDefects(c, registry, b, b.signatures)
  {
    var idx := b.header.index;
    var sigs := b.signatures;
    found := [];
    for j := 0 to |sigs|
      invariant found == SignatureDefects(c, registry, b, sigs[..j])
    {
      var s := sigs[j];
      SignatureDefectsSnoc(c, registry, b, sigs, j);
      if s.signer !in registry || registry[s.signer] != s.pubkey {
        found := found + [Defect(idx, PubkeyMismatch(s.signer))];
        continue;
      }
      if !c.verify(s.pubkey, b.blockHash, s.sig) {
        found := found + [Defect(idx, BadSignature(s.signer))];
      }
    }
    assert sigs[..|sigs|] == sigs;
  }

  /** Replaying one more line that holds a block appends that block's defects and moves the running state to it. */
  lemma ReplayStep(c: Crypto, registry: map<string, string>, lines: seq<Line>, i: nat, found: seq<Defect>)
    requires i < |lines| && lines[i].Entry?
    requires found == BlockDefects(c, registry, lines[i].block, Running(Blocks(lines[..i])).0, Running(Blocks(lines[..i])).1)
    ensures ChainDefects(c, registry, Blocks(lines[..i + 1])) == ChainDefects(c, registry, Blocks(lines[..i])) + found
    ensures Running(Blocks(lines[..i + 1])) == (Some(lines[i].block.blockHash), lines[i].block.header.index)
  {
    BlocksSnoc(lines, i);
    ChainDefectsSnoc(c, registry, Blocks(lines[..i]), lines[i].block);
  }

  /**
   * The replay loop: blank lines are skipped, each block is checked against
   * the running state, any failure clears `ok` and is reported, and the
   * running state then takes the block's claimed hash and index.
   */
  method Verify(c: Crypto, registry: map<string, string>, lines: seq<Line>) returns (ok: bool, defects: seq<Defect>)
    ensures defects == ChainDefects(c, registry, Blocks(lines))
    ensures ok <==> defects == []
    ensures ok <==> Accepts(c, registry, Blocks(lines))
  {
    var prevHash: Option<Digest> := None;
    var prevIndex := -1;
    ok := true;
    defects := [];
    for i := 0 to |lines|
      invariant defects == ChainDefects(c, registry, Blocks(lines[..i]))
      invariant prevHash == Running(Blocks(lines[..i])).0
      invariant prevIndex == Running(Blocks(lines[..i])).1
      invariant ok <==> defects == []
    {
      if lines[i].Blank? {
        BlocksSnoc(lines, i);
        assert Blocks(lines[..i + 1]) == Blocks(lines[..i]);
        continue;
      }
      var b := lines[i].block;
      var found := CheckBlock(c, registry, b, prevHash, prevIndex);
      ReplayStep(c, registry, lines, i, found);
      if found != [] {
        ok := false;
      }
      defects := defects + found;
      prevHash, prevIndex := Some(b.blockHash), b.header.index;
    }
    assert lines[..|lines|] == lines;
    ChainDefectsEmpty(c, registry, Blocks(lines));
  }
}
