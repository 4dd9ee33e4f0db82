/**
 * The block builder: finds the ledger's tail, digests the input files in
 * argument order, builds the Merkle root, computes block_hash over the
 * canonical encoding of the seven unsigned fields and attaches one signature
 * over the raw block_hash bytes.
 */
module Builder {
  import opened Wrappers
  import opened Ledger
  import opened Merkle

  /**
   * What load_prev finds: the last non-blank line's block and that line's
   * 0-based position in the file, blank lines counted; (None, -1) when the
   * ledger is absent or has no block.
   */
  function Tail(lines: seq<Line>): (r: (Option<Block>, int))
    ensures r.0.None? ==> r.1 == -1 && forall i :: 0 <= i < |lines| ==> lines[i].Blank?
    ensures r.0.Some? ==> 0 <= r.1 < |lines| && lines[r.1] == Entry(r.0.value)
    ensures r.0.Some? ==> forall j :: r.1 < j < |lines| ==> lines[j].Blank?
  {
    if lines == [] then (None, -1)
    else
      match lines[|lines| - 1]
      case Entry(b) => (Some(b), |lines| - 1)
      case Blank => Tail(lines[..|lines| - 1])
  }

  /** load_prev's loop over the lines, remembering the last non-blank one. */
  method LoadPrev(lines: seq<Line>) returns (last: Option<Block>, idx: int)
    ensures (last, idx) == Tail(lines)
  {
    last, idx := None, -1;
    for i := 0 to |lines|
      invariant (last, idx) == Tail(lines[..i])
    {
      assert lines[..i + 1][..i] == lines[..i];
      if lines[i].Entry? {
        last, idx := Some(lines[i].block), i;
      }
    }
    assert lines[..|lines|] == lines;
  }

  /** The block load_prev returns is the ledger's last block. */
  lemma {:induction false} TailIsLastBlock(lines: seq<Line>)
    ensures Tail(lines).0 == if Blocks(lines) == [] then None else Some(Blocks(lines)[|Blocks(lines)| - 1])
  {
    if lines != [] {
      TailIsLastBlock(lines[..|lines| - 1]);
    }
  }

  /** `prev_hash` of the new block: the previous block's block_hash, or null. */
  function PrevHashOf(prev: Option<Block>): Option<Digest>
  {
    match prev
    case None => None
    case Some(b) => Some(b.blockHash)
  }

  /** The record file_sha256 produces for a path with the given content. */
  function Record(c: Crypto, path: string, content: Bytes): FileRecord
  {
    FileRecord(path, |content|, c.hash(content))
  }

  predicate AllPresent(paths: seq<string>, fs: map<string, Bytes>)
  {
    forall i :: 0 <= i < |paths| ==> paths[i] in fs
  }

  /** The records of the input files, in argument order. */
  function Records(c: Crypto, paths: seq<string>, fs: map<string, Bytes>): (r: seq<FileRecord>)
    requires AllPresent(paths, fs)
    ensures |r| == |paths|
    ensures forall i :: 0 <= i < |paths| ==> r[i] == Record(c, paths[i], fs[paths[i]])
  {
    seq(|paths|, i requires 0 <= i < |paths| => Record(c, paths[i], fs[paths[i]]))
  }

  datatype BuildError = MissingKey | NoPubkey(signer: string) | MissingFile(path: string)

  /**
   * The loop over the input paths: build `files` and `leaves` side by side;
   * the first path that does not exist aborts with nothing built.
   */
  method CollectFiles(c: Crypto, paths: seq<string>, fs: map<string, Bytes>)
    returns (r: Result<(seq<FileRecord>, seq<Digest>), BuildError>)
    ensures r.Ok? <==> AllPresent(paths, fs)
    ensures r.Ok? ==> r.value.0 == Records(c, paths, fs) && r.value.1 == Leaves(r.value.0)
    ensures r.Err? ==> exists i :: 0 <= i < |paths| && r.error == MissingFile(paths[i]) && paths[i] !in fs
                              && AllPresent(paths[..i], fs)
  {
    var files: seq<FileRecord> := [];
    var leaves: seq<Digest> := [];
    for i := 0 to |paths|
      invariant AllPresent(paths[..i], fs)
      invariant |files| == |leaves| == i
      invariant forall k :: 0 <= k < i ==> files[k] == Record(c, paths[k], fs[paths[k]])
      invariant forall k :: 0 <= k < i ==> leaves[k] == files[k].sha256
    {
      var p := paths[i];
      if p !in fs {
        return Err(MissingFile(p));
      }
      var content := fs[p];
      var size, digest := |content|, c.hash(content);
      files := files + [FileRecord(p, size, digest)];
      leaves := leaves + [digest];
    }
    assert paths[..|paths|] == paths;
    return Ok((files, leaves));
  }

  /**
   * The block the builder appends for the given unsigned fields: block_hash
   * over their canonical encoding and a single signature by `signer`, with
   * the registry's key text, over the raw block_hash bytes.
   */
  function Sealed(c: Crypto, h: Header, signer: string, pubkey: string, sk: SecretKey): Block
  {
    var blockHash := c.hash(c.canonical(h));
    Block(h, blockHash, [Signature(signer, pubkey, c.sign(sk, blockHash))])
  }

  /** A sealed block passes its own block-hash check, and its one signature verifies when the key text is the signing key's. */
  lemma SealedIsSigned(c: Crypto, h: Header, signer: string, sk: SecretKey)
    requires SoundSigning(c)
    ensures var b := Sealed(c, h, signer, c.publicKey(sk), sk);
      && HashOk(c, b) && b.header == h
      && |b.signatures| == 1 && b.signatures[0].signer == signer
      && c.verify(b.signatures[0].pubkey, b.blockHash, b.signatures[0].sig)
  {
  }

  /**
   * The index the new block should carry: one more than the last block's
   * claimed index, 0 for an empty ledger.
   */
  function NextIndex(blocks: seq<Block>): int
  {
    if blocks == [] then 0 else blocks[|blocks| - 1].header.index + 1
  }
}
