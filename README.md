# Tamper-evident event ledger — Dafny model

This project models the ledger engine of a small Rust event ledger (per-patient medical
events). It has two parts:

- **Block** (`block.dfy`, module `Blocks`): a record of index, timestamp, payload,
  predecessor digest, digest, proof-of-work nonce, optional signature and two metadata
  strings. `Block::new` mines the nonce. The search tries 0, 1, 2, … and takes the
  first nonce whose digest starts with `"0000"`. `sign_block` signs the message
  `format!("{}{}{}{}{}", index, timestamp, data, previous_hash, nonce)`.
  `verify_signature` checks that signature and is false when there is none.
- **Blockchain** (`blockchain.dfy`, module `Blockchains`): a class that owns the block
  vector. Its constructor pushes a genesis block (index 0, payload `"Genesis Block"`,
  predecessor `"0"`). `AddBlock` pushes a block whose index is one past the tail's
  and whose predecessor digest is the tail's digest. `IsValid` walks indices `1..len`.
  At each block it recomputes the digest and compares the predecessor link, and it
  returns false at the first mismatch.

The cryptographic primitives are parameters, so the proofs know nothing about them
that a precondition does not state:

- The digest function `calculate_hash` is a value of type `HashFn`, held by the chain
  as a constant.
- ECDSA is a `SignatureScheme` value. Its one assumed property, `Sound`, is a
  precondition where needed. It says a signature verifies under the verifying key
  derived from the signing key.
- Collision-freedom of the digest in its payload argument (`DataInjective`) is a
  precondition only of the tamper-detection lemma.

The signed message is modelled exactly, with integers written in decimal.
`MessageAmbiguous` proves that the message does not determine the fields: index 12 at
timestamp 3 and index 1 at timestamp 23 produce the same message, and a signature
made for one of the two blocks verifies for the other.

`Blockchains.ValidityScenario` replays the source's end-to-end test
(`src/blockchain.rs:77-87`) against the contracts alone. It uses a stand-in digest
that meets the target at every nonce and separates payloads.

### Where the code disagrees with itself

- `src/blockchain.rs` calls `Block::new` with four arguments, but `Block::new` takes
  six. The model passes the two metadata strings through as parameters of the chain's
  constructor and of `AddBlock`. The clock reading (`now_as_millis`) is a `timestamp`
  parameter too.
- `is_valid` calls `calculate_hash` without the nonce. The model passes each block's
  stored nonce. This is the only reading under which a freshly built chain is valid,
  as the source's test expects.
- The chain never signs its blocks. `is_valid` checks no signatures and never checks
  the genesis block's own digest. `GenesisNotChecked` states that the verdict does not
  depend on the genesis block beyond its stored hash.

## Model

| member | source | states |
|---|---|---|
| `Blocks.MineBlock` | src/block.rs:45-54 | returns the least nonce whose digest of the four fields starts with `"0000"`, and that digest; every smaller nonce fails the test; the nonce fits in `u64` |
| `Blocks.NewBlock` | src/block.rs:20-33 | index, timestamp, data, previous hash, patient id and event type are stored as given; signature is `None`; the stored hash is the digest of the fields with the stored nonce, which is the least qualifying one; the hash is non-empty |
| `Blocks.MiningDeterministic` | src/block.rs:116-134 | two blocks built from the same index, timestamp, data and previous hash get the same nonce and the same hash, whatever their metadata |
| `Blocks.Decimal` | src/block.rs:57 | the `{}` rendering of an integer is a non-empty string of decimal digits with no leading zero; 0 is rendered as the single digit `"0"` |
| `Blocks.DecimalRoundTrip` | src/block.rs:57 | reading the decimal rendering back yields the integer |
| `Blocks.Message` | src/block.rs:57-64 | the signed message is the decimal index, the decimal timestamp, the payload, the previous hash and the decimal nonce, back to back in that order with no separator; each field sits at the offset the lengths of the earlier ones give |
| `Blocks.SignBlock` | src/block.rs:56-59 | the signature becomes `Some` of the signature over the five-field message; every other field is unchanged |
| `Blocks.VerifySignature` | src/block.rs:61-69 | false when there is no signature; otherwise true exactly when the scheme accepts the stored signature on the rebuilt message |
| `Blocks.SignThenVerify` | src/block.rs:56-68 | under the scheme's soundness, a block just signed with a key verifies under the matching verifying key |
| `Blocks.SignatureIgnoresUnsignedFields` | src/block.rs:57-65 | changing hash, patient id or event type changes neither the signature produced nor the verification verdict |
| `Blocks.MessageAmbiguous` | src/block.rs:57 | two different blocks (index 12 / timestamp 3 and index 1 / timestamp 23) have the same message, so they get the same verification verdict |
| `Blockchains.AppendValid` | src/blockchain.rs:31-50 | a chain with one more block is valid iff the old chain is valid, the new block's digest recomputes and its link equals the old tail's hash |
| `Blockchains.AppendPreservesWellFormed` | src/blockchain.rs:20-29 | pushing a block with the next index, the tail's hash as link and an intact digest keeps the chain non-empty, indexed by position and valid |
| `Blockchains.TamperedDataInvalidates` | src/blockchain.rs:77-87 | if the digest separates payloads, overwriting the payload of any block after the first makes a valid chain invalid |
| `Blockchains.GenesisNotChecked` | src/blockchain.rs:31-36 | validity does not depend on the genesis block beyond its stored hash |
| `Blockchains.Blockchain.constructor` | src/blockchain.rs:9-13 | exactly one block: index 0, data `"Genesis Block"`, previous hash `"0"`, built as `Block::new` builds it; the chain is well formed |
| `Blockchains.Blockchain.CreateGenesisBlock` | src/blockchain.rs:15-18 | pushes one genesis block and leaves earlier blocks unchanged |
| `Blockchains.Blockchain.AddBlock` | src/blockchain.rs:20-29 | length grows by one; earlier blocks are unchanged; the new block has index `last.index + 1`, previous hash `last.hash` and the given data, built as `Block::new` builds it; a well-formed chain stays well formed |
| `Blockchains.Blockchain.IsValid` | src/blockchain.rs:31-50 | true iff every block at index 1 or later has a stored hash equal to its recomputed digest and a previous hash equal to its predecessor's hash; chains of length 0 or 1 are valid; nothing is modified |

## Left out

- SHA-256, hex encoding and the native-endian byte encoding of the integers
  (`src/block.rs:35-43`) are not modelled. The digest is an arbitrary function
  parameter, and collision-freedom is assumed only where tamper detection needs it.
- ECDSA over P-256 is not modelled. The scheme is a parameter, and only the
  sign-then-verify property is assumed. No unforgeability is assumed. UTF-8
  encoding of the message (`as_bytes`) is left implicit, and the message is signed
  as a string.
- Blocks.MineBlock: termination rests on the precondition that some `u64` nonce
  qualifies. Without one, the source's `nonce += 1` overflows: it panics in a debug
  build and wraps and loops forever in a release build. Neither is modelled.
- Blockchains.Blockchain.AddBlock: `last_block.index + 1` is `u64` arithmetic in the
  source. The model uses unbounded integers. Overflow would need 2^64 blocks. The
  source's `unwrap` of the tail panics on an empty vector (`src/blockchain.rs:21`).
  The model makes a non-empty chain a precondition instead of modelling the panic.
- Block indices and timestamps are unbounded naturals rather than `u64` and `u128`.
  Neither is computed on except the `+ 1` above.
- `sign_block` updates the block through `&mut self`. The model returns the updated
  block value instead. A block is a plain value owned by the vector, so no aliasing
  is lost.
- The wall clock (`src/utils.rs`) is a `timestamp` parameter.
- `Display for Block`, the demo in `src/main.rs` and the zero-knowledge circuit in
  `src/zkp/circuit.rs` are not part of this model. They are formatting, orchestration
  and an unrelated proof-system demo.
- The test that two different blocks get different hashes (`src/block.rs:104-114`)
  depends on collision resistance of SHA-256. It is not stated.
