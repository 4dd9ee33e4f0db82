/**
 * The records of the fabric-chain ledger: file records, the seven unsigned
 * block fields, signatures, blocks and the lines of the ledger file, and the
 * cryptographic collaborators the tools rely on, kept abstract.
 */
module Ledger {
  import opened Wrappers

  type Byte = bv8
  type Bytes = seq<Byte>

  /** A SHA-256 digest, as raw bytes (the ledger stores it as lowercase hex). */
  type Digest = Bytes

  /** The base64 text of an Ed25519 signing key, as read from the key file. */
  type SecretKey = string

  /** The format tag every new block carries. */
  const Schema: string := "fabric-chain/1.0"

  /** One admitted file: its path as given, its length in bytes, its digest. */
  datatype FileRecord = FileRecord(path: string, size: nat, sha256: Digest)

  /** The unsigned fields of a block: everything except `signatures` and `block_hash`. */
  datatype Header = Header(
    schema: string,
    index: int,
    timestamp: string,
    prevHash: Option<Digest>,
    files: seq<FileRecord>,
    merkleRoot: Digest,
    notes: string)

  /** A signature entry: signer name, base64 public key, base64 signature. */
  datatype Signature = Signature(signer: string, pubkey: string, sig: string)

  datatype Block = Block(header: Header, blockHash: Digest, signatures: seq<Signature>)

  /** A line of the ledger file: blank (only whitespace) or one parsed block. */
  datatype Line = Blank | Entry(block: Block)

  /**
   * The primitives the tools call but do not define: SHA-256, the canonical
   * JSON encoding of the unsigned fields, Ed25519 verification of a base64
   * signature under a base64 key, Ed25519 signing, and the base64 public key
   * derived from a signing key.
   */
  datatype Crypto = Crypto(
    hash: Bytes -> Digest,
    canonical: Header -> Bytes,
    verify: (string, Bytes, string) -> bool,
    sign: (SecretKey, Bytes) -> string,
    publicKey: SecretKey -> string)

  /** Ed25519 correctness: a signature made with a key verifies under its public key. */
  ghost predicate SoundSigning(c: Crypto)
  {
    forall sk, m :: c.verify(c.publicKey(sk), m, c.sign(sk, m))
  }

  /** At most one signature entry per signer name, as the tools themselves write blocks. */
  predicate UniqueSigners(sigs: seq<Signature>)
  {
    forall i, j :: 0 <= i < j < |sigs| ==> sigs[i].signer != sigs[j].signer
  }

  /** The `sha256` of every file, in order: the leaves of the block's Merkle tree. */
  function Leaves(files: seq<FileRecord>): (r: seq<Digest>)
    ensures |r| == |files|
    ensures forall i :: 0 <= i < |files| ==> r[i] == files[i].sha256
  {
    seq(|files|, i requires 0 <= i < |files| => files[i].sha256)
  }

  /** The stored block hash is the hash of the canonical encoding of the unsigned fields. */
  predicate HashOk(c: Crypto, b: Block)
  {
    c.hash(c.canonical(b.header)) == b.blockHash
  }

  /** The blocks of a ledger file: its non-blank lines, parsed, in file order. */
  function Blocks(lines: seq<Line>): (r: seq<Block>)
    ensures |r| <= |lines|
  {
    if lines == [] then []
    else
      var init := Blocks(lines[..|lines| - 1]);
      match lines[|lines| - 1]
      case Blank => init
      case Entry(b) => init + [b]
  }

  /** The blocks read from a ledger file are exactly the blocks of its non-blank lines. */
  lemma {:induction false} BlocksMembers(lines: seq<Line>, b: Block)
    ensures b in Blocks(lines) <==> Entry(b) in lines
  {
    if lines != [] {
      var init := lines[..|lines| - 1];
      assert lines == init + [lines[|lines| - 1]];
      BlocksMembers(init, b);
    }
  }

  predicate NoBlank(lines: seq<Line>)
  {
    forall i :: 0 <= i < |lines| ==> lines[i].Entry?
  }

  /** The ledger file written for a list of blocks: one line per block. */
  function Lines(blocks: seq<Block>): (r: seq<Line>)
    ensures |r| == |blocks| && NoBlank(r)
    ensures forall i :: 0 <= i < |blocks| ==> r[i] == Entry(blocks[i])
  {
    seq(|blocks|, i requires 0 <= i < |blocks| => Entry(blocks[i]))
  }

  /** On a file without blank lines, the blocks are the lines one for one. */
  lemma {:induction false} BlocksOfNoBlank(lines: seq<Line>)
    requires NoBlank(lines)
    ensures |Blocks(lines)| == |lines|
    ensures forall i :: 0 <= i < |lines| ==> Blocks(lines)[i] == lines[i].block
  {
    if lines != [] {
      BlocksOfNoBlank(lines[..|lines| - 1]);
    }
  }

  /** Writing blocks one per line and reading them back gives the same blocks. */
  lemma BlocksOfLines(blocks: seq<Block>)
    ensures Blocks(Lines(blocks)) == blocks
  {
    BlocksOfNoBlank(Lines(blocks));
  }

  /** Reading one more line adds its block, if any, at the end. */
  lemma BlocksSnoc(lines: seq<Line>, i: nat)
    requires i < |lines|
    ensures Blocks(lines[..i + 1]) == Blocks(lines[..i]) + (if lines[i].Entry? then [lines[i].block] else [])
  {
    assert lines[..i + 1][..i] == lines[..i];
  }

  /**
   * The running state both verifiers carry from block to block: the previous
   * block's claimed block_hash and index, or (None, -1) before the first block.
   * It is taken from what each block claims, whether or not the block passed.
   */
  function Running(blocks: seq<Block>): (Option<Digest>, int)
  {
    if blocks == [] then (None, -1)
    else (Some(blocks[|blocks| - 1].blockHash), blocks[|blocks| - 1].header.index)
  }

  /** What the checks report about one block. */
  datatype DefectKind =
    | IndexJump(after: int)
    | PrevHashMismatch
    | MerkleMismatch
    | BlockHashMismatch
    | NoSignatures
    | PubkeyMismatch(signer: string)
    | BadSignature(signer: string)
    | SignerNotAllowed(signer: string)
    | ThresholdNotMet(valid: nat, threshold: int)

  /** A diagnostic line: the `index` the block claims and what is wrong with it. */
  datatype Defect = Defect(index: int, kind: DefectKind)

  /** The report of one check: its defect when the check fails, nothing otherwise. */
  function Flag(fails: bool, d: Defect): (r: seq<Defect>)
  {
    if fails then [d] else []
  }
}
