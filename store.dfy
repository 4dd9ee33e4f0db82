/**
 * The two commands that change files: the builder appends a new signed block
 * to the ledger; the co-signer rewrites the ledger with one block's
 * signatures replaced and records the signer's key in the registry.
 */
module LedgerStore {
  import opened Wrappers
  import opened Ledger
  import opened Merkle
  import opened Builder
  import opened CoSign

  datatype CoSignError = MissingKey | BlockNotFound

  /** The ledger file (an absent file reads as empty) and the pubkey registry. */
  class Store {
    var ledger: seq<Line>
    var registry: map<string, string>

    constructor (ledger: seq<Line>, registry: map<string, string>)
      ensures this.ledger == ledger && this.registry == registry
    {
      this.ledger := ledger;
      this.registry := registry;
    }

    /**
     * Build, sign and append a block for the files at `paths` (contents in
     * `fs`). Fails, writing nothing, when there is no signing key, when the
     * registry has no key for the signer, or when a path does not exist.
     */
    method NewBlock(c: Crypto, signer: string, note: string, paths: seq<string>, fs: map<string, Bytes>,
                    sk: Option<SecretKey>, timestamp: string)
      returns (r: Result<Block, BuildError>)
      modifies this
      ensures registry == old(registry)
      ensures r.Err? ==> ledger == old(ledger)
      ensures r.Err? ==> r.error == BuildError.MissingKey || r.error == NoPubkey(signer) || r.error.MissingFile?
      ensures r == Err(BuildError.MissingKey) <==> sk.None?
      ensures r == Err(NoPubkey(signer)) <==> sk.Some? && (signer !in registry || registry[signer] == "")
      ensures r.Ok? <==> sk.Some? && signer in registry && registry[signer] != "" && AllPresent(paths, fs)
      ensures r.Err? && r.error.MissingFile? ==>
        exists i :: 0 <= i < |paths| && r.error.path == paths[i] && paths[i] !in fs && AllPresent(paths[..i], fs)
      ensures r.Ok? ==>
        var prev := Tail(old(ledger));
        var files := Records(c, paths, fs);
        var h := Header(Schema, prev.1 + 1, timestamp, PrevHashOf(prev.0), files, MerkleRoot(c.hash, Leaves(files)), note);
        && r.value == Sealed(c, h, signer, registry[signer], sk.value)
        && ledger == old(ledger) + [Entry(r.value)]
    {
      if sk.None? {
        return Err(BuildError.MissingKey);
      }
      if signer !in registry || registry[signer] == "" {
        return Err(NoPubkey(signer));
      }
      var vk := registry[signer];
      var prev, idx := LoadPrev(ledger);
      var index := idx + 1;
      var prevHash := if prev.Some? then Some(prev.value.blockHash) else None;
      var collected := CollectFiles(c, paths, fs);
      if collected.Err? {
        return Err(collected.error);
      }
      var files, leaves := collected.value.0, collected.value.1;
      var root := ComputeMerkleRoot(c.hash, leaves);
      var header := Header(Schema, index, timestamp, prevHash, files, root, note);
      var blockHash := c.hash(c.canonical(header));
      var sig := c.sign(sk.value, blockHash);
      var block := Block(header, blockHash, [Signature(signer, vk, sig)]);
      ledger := ledger + [Entry(block)];
      return Ok(block);
    }

    /**
     * Co-sign the last block, or the first block with the given index:
     * replace the signer's signature, record the signer's key in the
     * registry, and rewrite the ledger sorted by index.
     */
    method CoSign(c: Crypto, signer: string, index: Option<int>, sk: Option<SecretKey>)
      returns (r: Result<Block, CoSignError>)
      modifies this
      ensures r == Err(CoSignError.MissingKey) <==> sk.None?
      ensures r == Err(BlockNotFound) <==> sk.Some? && FindTarget(Blocks(old(ledger)), index).None?
      ensures r.Ok? <==> sk.Some? && FindTarget(Blocks(old(ledger)), index).Some?
      ensures r.Err? ==> ledger == old(ledger) && registry == old(registry)
      ensures r.Ok? ==>
        var blocks := Blocks(old(ledger));
        var p := FindTarget(blocks, index).value;
        && r.value == CoSignBlock(c, blocks[p], signer, sk.value)
        && ledger == Lines(SortByIndex(blocks[p := r.value]))
        && registry == old(registry)[signer := c.publicKey(sk.value)]
    {
      if sk.None? {
        return Err(CoSignError.MissingKey);
      }
      var blocks := Blocks(ledger);
      var target := FindTarget(blocks, index);
      if target.None? {
        return Err(BlockNotFound);
      }
      var p := target.value;
      var b := blocks[p];
      var sig := c.sign(sk.value, b.blockHash);
      registry := registry[signer := c.publicKey(sk.value)];
      var sigs := Without(b.signatures, signer);
      sigs := sigs + [Signature(signer, registry[signer], sig)];
      b := b.(signatures := sigs);
      blocks := blocks[p := b];
      ledger := Lines(SortByIndex(blocks));
      return Ok(b);
    }
  }
}
