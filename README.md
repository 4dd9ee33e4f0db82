# fabric-chain ledger, modelled in Dafny

The fabric-chain ledger is an append-only JSON-lines file (`chain/CHAIN.jsonl`). Each line holds one
block. A block records a batch of files: for each, its path, its size and its SHA-256 digest. It also
carries the Merkle root of those digests, the `block_hash` of the previous block (`prev_hash`), its
own `block_hash` over the canonical JSON encoding of its unsigned fields, and a list of Ed25519
signatures over the raw `block_hash` bytes. Four command-line tools work on it:

- **the builder** (`chain_new_block.py`): finds the ledger's last block, digests the input files,
  computes the Merkle root and `block_hash`, signs, and appends the block;
- **the basic verifier** (`chain/chain_verify.py`): walks the ledger and reports
  - index jumps,
  - `prev_hash` breaks,
  - Merkle and `block_hash` mismatches,
  - blocks without signatures,
  - public keys that differ from the registry (`pubkeys.json`),
  - signatures that do not verify;
- **the threshold verifier** (`chain/chain_verify_threshold.py`): the same walk, but a block needs
  at least `threshold` verifying signatures from an optional allow-list of signers. A signature that
  is bad or not allowed is only reported;
- **the co-signer** (`cosign_block.py`): replaces one signer's signature on the last block (or on
  the block with a given index), records the signer's key in the registry, and rewrites the ledger
  sorted by index.

How the model is built:

- SHA-256, the canonical JSON encoding, Ed25519 signing and verification, and key derivation are
  the fields of `Ledger.Crypto`, which holds function values.
- Ed25519's correctness (a signature verifies under the signer's own public key) is the hypothesis
  `Ledger.SoundSigning`. Only the lemmas that need it take it as a precondition.
- Digests are raw bytes. The hex text the ledger stores is identified with them.
- The ledger file is a sequence of `Line`s, each `Blank` or `Entry(block)`. An absent ledger or
  registry reads as empty.
- Each verifier is a loop (`Verify`, `CheckBlock` and the signature loop). It is proved equal to a
  defect list defined by recursion (`ChainDefects`). That list is proved empty exactly when a
  declarative acceptance predicate holds (`Accepts`, block by block `BlockSound`).
- The builder and the co-signer change the ledger and the registry. They are the methods of the
  class `LedgerStore.Store`, whose fields are the ledger lines and the registry map. Each method
  states the whole new state in terms of the pure functions of `Builder` and `CoSign`.
- The three tools each carry a copy of the Merkle root computation
  (`chain_new_block.py:26-35`, `chain/chain_verify.py:17-27`, `chain/chain_verify_threshold.py:13-23`).
  The copies are identical, so all three are modelled once, in `Merkle`.

A registry mismatch is not advisory here: the basic verifier treats it as a failure and skips that
signature's cryptographic check (`chain/chain_verify.py:53-55`), and so does `BasicVerifier`. The
threshold verifier loads the registry but never consults it (`chain/chain_verify_threshold.py:27`),
so `ThresholdVerifier` takes no registry.

## Model

| member | source | states |
|---|---|---|
| Ledger.Blocks | cosign_block.py:10-11 | reading a ledger file keeps at most one block per line (blank lines give none) |
| Ledger.BlocksMembers | chain/chain_verify.py:36-37 | the blocks read are exactly the blocks on the non-blank lines |
| Ledger.BlocksOfLines | cosign_block.py:10-11 | reading back a ledger written one block per line gives the same blocks |
| Ledger.BlocksOfNoBlank | cosign_block.py:11 | on a ledger without blank lines, the k-th block is the k-th line |
| Ledger.BlocksSnoc | chain/chain_verify.py:35-37 | reading one more line adds its block, or nothing when the line is blank |
| Merkle.NextLevel | chain_new_block.py:29-34 | one round of the Merkle loop halves the level, rounding up |
| Merkle.NextLevelAt | chain_new_block.py:31-33 | node k of the next level hashes nodes 2k and 2k+1, or node 2k twice when it is the last |
| Merkle.PairUp | chain_new_block.py:30-33 | the inner loop hashes the level pair by pair into exactly the next level |
| Merkle.ComputeMerkleRoot | chain_new_block.py:26-35 | the loop computes the recursive Merkle root: SHA-256 of the empty string with no leaves, the leaf itself with one |
| Merkle.ThreeLeaves | chain_new_block.py:32 | for three leaves the root is H(H(d1‖d2) ‖ H(d3‖d3)) |
| Merkle.DuplicateLastLeaf | chain_new_block.py:32 | with an odd number (≥ 3) of leaves, repeating the last leaf does not change the root |
| BasicVerifier.SignatureDefectsEmpty | chain/chain_verify.py:51-59 | a block's signature list draws no report iff every signer is in the registry with the embedded key and every signature verifies |
| BasicVerifier.BlockDefectsEmpty | chain/chain_verify.py:38-59 | a block draws no report iff it has the next index and the running prev_hash, a correct Merkle root and block_hash, at least one signature, and every signature is accepted |
| BasicVerifier.ChainDefectsSnoc | chain/chain_verify.py:60 | each block is checked against the hash and index of the block before it |
| BasicVerifier.AcceptsSnoc | chain/chain_verify.py:34-60 | a ledger with one more block is accepted iff the shorter one is and the new block is sound in place |
| BasicVerifier.NextBlockDefectsEmpty | chain/chain_verify.py:38-59 | after an accepted prefix, a block draws no report iff it is sound as the next block |
| BasicVerifier.ChainDefectsEmpty | chain/chain_verify.py:33-64 | the whole report is empty iff every block is sound: index k at position k, prev_hash null then linked, both hashes correct, signed, every signature accepted |
| BasicVerifier.CheckSignatures | chain/chain_verify.py:51-59 | the signature loop reports a key mismatch (skipping the cryptographic check) or a bad signature, per entry in order |
| BasicVerifier.CheckBlock | chain/chain_verify.py:38-59 | the per-block checks report exactly the block's defects, in the source's order |
| BasicVerifier.Verify | chain/chain_verify.py:29-64 | the walk skips blank lines, reports every defect of the whole ledger, and succeeds iff there is none, iff the ledger is accepted |
| ThresholdVerifier.CountValid | chain/chain_verify_threshold.py:49-59 | the valid count never exceeds the number of signature entries |
| ThresholdVerifier.CountValidAppend | chain/chain_verify_threshold.py:49-57 | the count is additive over concatenated signature lists |
| ThresholdVerifier.CountValidAll | chain/chain_verify_threshold.py:49-57 | when every entry is eligible and verifies, the count is the number of entries |
| ThresholdVerifier.CountValidIgnores | chain/chain_verify_threshold.py:52-59 | a disallowed or non-verifying entry adds nothing to the count |
| ThresholdVerifier.ChainNotesSnoc | chain/chain_verify_threshold.py:52-59 | the non-fatal notes of one more block are its per-signature notes appended |
| ThresholdVerifier.BlockDefectsEmpty | chain/chain_verify_threshold.py:38-61 | a block draws no failure iff it has the next index, matches the running prev_hash when there is one, has correct hashes, is signed, and meets the threshold |
| ThresholdVerifier.ChainDefectsEmpty | chain/chain_verify_threshold.py:32-66 | no failure is reported iff every block is sound for the threshold policy (the first block's prev_hash is not checked) |
| ThresholdVerifier.CountSignatures | chain/chain_verify_threshold.py:49-59 | the signature loop counts eligible verifying entries and notes each disallowed or bad one |
| ThresholdVerifier.CheckBlock | chain/chain_verify_threshold.py:38-61 | the per-block checks report exactly the block's failures and notes |
| ThresholdVerifier.Verify | chain/chain_verify_threshold.py:25-66 | the walk reports every failure and note of the ledger and succeeds iff there is no failure, iff the ledger is accepted under the policy |
| Builder.Tail | chain_new_block.py:37-43 | the last non-blank line's block and its 0-based line position, blank lines counted; (None, -1) when every line is blank |
| Builder.LoadPrev | chain_new_block.py:37-43 | the loop over the lines finds that tail |
| Builder.TailIsLastBlock | chain_new_block.py:62 | the block load_prev returns is the ledger's last block |
| Builder.CollectFiles | chain_new_block.py:64-68 | the file loop succeeds iff every path exists, yielding the records and their digests; otherwise it fails on the first missing path |
| Builder.SealedIsSigned | chain_new_block.py:79-82 | a built block passes its block_hash check and carries one signature by the signer, which verifies under the signer's own key |
| CoSign.FirstWithIndex | cosign_block.py:24 | the first block from a position on with the requested index, or none |
| CoSign.FindTarget | cosign_block.py:24-25 | the target is the last block when no index is given (none for an empty ledger), else the first block with that index, or none when no block has it |
| CoSign.Without | cosign_block.py:34 | the kept entries are exactly those of other signers |
| CoSign.WithoutAppend | cosign_block.py:34 | the filter distributes over concatenation |
| CoSign.WithoutNone | cosign_block.py:34 | with no entry by the signer, the filter keeps the list as it is |
| CoSign.WithoutUnique | cosign_block.py:34 | the filter keeps signer names unique |
| CoSign.ReplaceSignatureSpec | cosign_block.py:33-35 | after replacement the new entry is last and the signer's only one, the other signers' entries are unchanged and in order, and unique names stay unique |
| CoSign.Insert | cosign_block.py:37 | inserting a block adds exactly that block |
| CoSign.InsertSorted | cosign_block.py:37 | inserting a block into a ledger sorted by index keeps it sorted |
| CoSign.SortByIndex | cosign_block.py:37 | the rewritten ledger is sorted by index and is a permutation of the blocks |
| CoSign.SortSorted | cosign_block.py:37 | sorting a ledger that is already in index order changes nothing |
| LedgerStore.Store.constructor | chain_new_block.py:9-10 | the store holds the given ledger lines and registry |
| LedgerStore.Store.NewBlock | chain_new_block.py:45-87 | fails only with one of its three errors and then writes nothing: on a missing key, then on a missing or empty registry entry, then on the first missing file; otherwise appends the block with index = tail position + 1, the tail's hash as prev_hash, the file records, their Merkle root and the note, hashed and signed with the registry's key text |
| LedgerStore.Store.CoSign | cosign_block.py:13-41 | fails, writing nothing, exactly when the key is missing or, failing that, the target is missing; otherwise it succeeds and replaces the signer's signature on the target, writes the signer's derived key to the registry and rewrites the ledger sorted by index |
| ChainProperties.AppendKeepsBasicAcceptance | chain_new_block.py:62-82 | a block built at the intended next index, linked to the last hash, signed with the registered key, keeps an accepted ledger accepted |
| ChainProperties.TailAgreesOnCleanLedger | chain_new_block.py:62 | on a ledger without blank lines whose indexes are positions, the builder's index and prev_hash are the intended ones |
| ChainProperties.NewBlockKeepsBasicAcceptance | chain_new_block.py:62-85 | the block the builder appends, as written, to an accepted ledger without blank lines keeps it accepted, when the registry's key for the signer is the public key of the signing key |
| ChainProperties.BlankLineSkewsIndex | chain_new_block.py:41-42 | after a blank line before the first block, the next block gets index 2 instead of 1, and both verifiers reject the result |
| ChainProperties.BasicImpliesDefaultThreshold | chain/chain_verify_threshold.py:28-30 | a ledger the basic verifier accepts passes the threshold verifier under a policy file with neither allowed_signers nor threshold (any signer, threshold 1) |
| ChainProperties.GenesisPrevHashDivergence | chain/chain_verify.py:40-41 | a ledger the threshold verifier accepts whose first block has a non-null prev_hash is rejected by the basic verifier |
| ChainProperties.BadSignatureDivergence | chain/chain_verify_threshold.py:58-59 | an extra non-verifying signature leaves threshold acceptance intact but breaks basic acceptance |
| ChainProperties.CountWithout | cosign_block.py:34 | with unique signer names, dropping a signer's entry lowers the count by one exactly when that entry counted |
| ChainProperties.CoSignCount | cosign_block.py:33-35 | with unique signer names on the block and sound signing, co-signing never lowers the valid count; a new eligible signer raises it by one |
| ChainProperties.CoSignCanLowerCount | cosign_block.py:33-35 | with two verifying entries by the co-signer, co-signing drops the valid count from 2 to 1 |
| ChainProperties.CoSignKeepsThresholdAcceptance | cosign_block.py:33-37 | with unique signer names on the block, co-signing a block of an accepted ledger keeps its order and its threshold acceptance |
| ChainProperties.CoSignKeepsBasicAcceptance | cosign_block.py:30-37 | co-signing with the registered (or a new) signer's key keeps basic acceptance under the updated registry |
| ChainProperties.DuplicateEntryMeetsThreshold | chain/chain_verify_threshold.py:50-57 | the same verifying entry twice counts 2 while one signer signed, more than the allow-list's size |
| ChainProperties.ValidSigners | chain/chain_verify_threshold.py:52-57 | the distinct signers that count are all eligible |
| ChainProperties.ValidSignersAgree | chain/chain_verify_threshold.py:49-61 | with unique signer names, counting entries equals counting distinct signers |
| ChainProperties.ValidSignersBounded | chain/chain_verify_threshold.py:52 | with an allow-list, no more distinct signers count than the list names |

## Left out

- Hex and base64 text: digests are raw bytes, keys and signatures are opaque strings, and decoding failures are not modelled.
- Line splitting: the co-signer splits the ledger with `splitlines()` (`cosign_block.py:11`), which also breaks at U+0085, U+2028 and U+2029, while the builder and the verifiers iterate the file and break only at line ends. The builder writes those characters raw (`ensure_ascii=False`), so a note or path holding one makes the co-signer fail in `json.loads` on a ledger the verifiers accept. The model has one notion of line for all tools.
- JSON: parsing, fields outside the seven unsigned ones, missing fields (the source raises `KeyError`), and malformed lines (the source crashes) are not modelled. A block read from the ledger is assumed well formed.
- SHA-256, canonical JSON and Ed25519 are parameters (`Ledger.Crypto`), not implementations. Their correctness is the hypothesis `SoundSigning`, assumed only where a lemma needs it.
- The absent ledger is modelled as the empty one. The verifiers' "No chain yet" exit and the threshold verifier's exit code 1 under `GITHUB_ACTIONS` are left out, as are exit codes and printed text.
- Line numbers in the index-jump message are not recorded. A `Defect` carries the block's claimed index and its kind.
- Registry entries that are lists of keys are left out: the registry maps a signer to one key text, as the code compares it.
- The basic verifier's ledger location: chain/chain_verify.py:7-8 takes the script's own directory as the root, so it looks for chain/chain/CHAIN.jsonl and reports that there is no chain yet, while the builder (chain_new_block.py:8-9) and the threshold verifier use chain/CHAIN.jsonl; the model gives every operation the same ledger.
- Co-signing can break threshold acceptance of a block whose count relied on several entries by the co-signer, since they collapse to one (ChainProperties.CoSignCanLowerCount); the acceptance lemma assumes unique signer names.
- Path normalisation (`pathlib.Path`), file reading in chunks and the file-system race between the existence check and the read: a file is a path mapped to its content.
- Timestamps: the builder's clock is a parameter of `Store.NewBlock`.
- Writes are modelled as atomic. The source appends (builder) or rewrites the ledger and then the registry (co-signer) without locking.
- The co-signer's checks are Python `assert`s, which `python -O` removes. They are modelled as errors. `blocks[-1]` on an empty ledger raises `IndexError` in the source; the model reports `BlockNotFound`.
- The co-signer drops blank lines when it rewrites the ledger; `Lines` writes one line per block. The trailing newline and the JSON key order of each line are not modelled.
- CoSign.SortByIndex: the source's `sorted` is stable. The insertion sort is stable too, but its contract states only sortedness and permutation.
- ThresholdVerifier.Threshold: the source converts the policy's threshold with `int(...)`, which truncates a float (`0.5` becomes 0 and switches the count check off), parses a numeric string (`"2"`) and maps `true` to 1; it raises only on other values. The model takes the threshold as an integer already converted.
- The key files (`chain/keys/<signer>.ed25519.sk`) are modelled as an optional secret key passed to each command. Key generation (`chain_init.py`), the uploaders and the setup script are not part of this model.

## Findings

| source | as written | input that shows it | evidently intended | confidence | as-written member | corrected member |
|---|---|---|---|---|---|---|
| chain_new_block.py:41-42 | the new index is the 0-based line position of the last non-blank line plus 1, with blank lines counted | a ledger whose lines are a blank line and then block 0: the builder writes index 2, and both verifiers report an index jump | the new index is the last block's index plus 1 (`Builder.NextIndex`), under which appending keeps the ledger accepted | not executed | ChainProperties.BlankLineSkewsIndex | ChainProperties.AppendKeepsBasicAcceptance |
| chain/chain_verify_threshold.py:50-57 | the threshold counts verifying signature entries, so repeated entries by one signer each count | a block whose signature list holds the same valid entry twice meets threshold 2 with one signer | the threshold counts distinct eligible signers (`ChainProperties.ValidSigners`), never more than the allow-list names and equal to the entry count when signer names are unique, as the builder and the co-signer write them | not executed | ChainProperties.DuplicateEntryMeetsThreshold | ChainProperties.ValidSignersBounded |
