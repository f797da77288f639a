# BEEFY proof translator

A Dafny model of the translation layer of the forge test crate
(`forge/src/abi.rs`). The layer turns the source chain's BEEFY finality proof
and parachain header inclusion proof into the records the on-chain `BeefyV1`
verifier consumes. It also converts the light client's consensus state in both
directions, and narrows the verifier's intermediate state into the crate's
local 32/64-bit record.

Every Rust `From` impl is one pure function over immutable datatypes:

- `Primitives` holds the source-chain types, at the widths of their Rust declarations.
- `BeefyV1` holds the verifier's ABI records, with `uint256` integers and `bytes32` hashes.
- `Local` holds the crate's own narrow records.

Integers are `nat`s bounded by subset types (`U32`, `U64`, `Usize`, `U256`). Hashes are 32-byte `seq<bv8>`.

The Rust code panics in four cases:

- an empty `leaf_indices`;
- an empty k-index result;
- a missing `"mh"` payload entry;
- a failed `as_u32`/`as_u64`.

Each panic is a `Failure` of `Abi.TranslationError`. The contracts state exactly when each one happens.

The MMR position arithmetic (`leaf_index_to_pos`, `leaf_index_to_mmr_size`,
`mmr_position_to_k_index`) comes from another crate. It is a parameter
(`MmrPositions.MmrPositions`, a record of three functions), so the properties
hold for any implementation of it.

Files:

- `wrappers.dfy`: `Option` and `Result`.
- `numeric.dfy`: widths, hashes, and `as_u32`/`as_u64`.
- `primitives.dfy`: source types and `Payload::get_raw`.
- `beefy_v1.dfy`: ABI and local records.
- `mmr_positions.dfy`: the position arithmetic parameter.
- `abi.dfy`: the conversions.
- `abi_properties.dfy`: properties that relate several calls.

## Model

| member | source | states |
|---|---|---|
| Primitives.GetRaw | forge/src/abi.rs:53-58 | the lookup is absent exactly when no entry has the identifier; a result that is present is the data of a stored entry with that identifier |
| Primitives.GetRawFindsStoredEntry | forge/src/abi.rs:57-58 | when the payload's identifiers are strictly sorted, as `get_raw`'s binary search needs, looking up a stored identifier returns that entry's data |
| Abi.RelabelLayer | forge/src/abi.rs:28-31 | one layer keeps its length and order, and element j becomes the node (k_index, node) = (index, hash) of pair j |
| Abi.RelabelLayers | forge/src/abi.rs:23-33 | the proof keeps its number of layers, and each layer is relabelled element by element as above |
| Abi.ConvertParachains | forge/src/abi.rs:13-22 | the parachain list keeps its length and order, and entry i's index, id and header equal source entry i's index, para_id and header |
| Abi.ConvertVotes | forge/src/abi.rs:65-73 | the votes keep their count and order, and vote i carries signature i's bytes and authority index |
| Abi.NarrowAuthoritySet | forge/src/abi.rs:124-133 | narrowing a commitment succeeds exactly when id < 2^64 and len < 2^32, fails with an overflow otherwise, and on success copies id, len and root |
| Abi.ConvertAuthoritySet | forge/src/abi.rs:98-106 | the widened commitment narrows back to the input, so id, len and root are copied without truncation |
| Abi.ConvertRelayChainProof | forge/src/abi.rs:39-96 | the conversion fails with EmptyLeafIndices exactly when there is no leaf index. It fails with EmptyKIndexList exactly when the k-index list of leaf index 0 is empty, and with MissingPayload exactly when there is no "mh" entry, in that order. On success: the payload is the single entry ("mh", the source's "mh" data); block number and set id are copied; the votes are copied in order; the leaf has version 0, its copied parent number, parent hash, next authority set and extra, and the k-index of leaf index 0 at that leaf's own MMR size; the MMR proof items are unchanged; the authority proof is relabelled |
| Abi.ConvertConsensusProof | forge/src/abi.rs:8-37 | the conversion succeeds exactly when the relay conversion does and then carries its result; the parachain list is copied entry by entry and the parachain proof relabelled layer by layer |
| Abi.ConvertConsensusState | forge/src/abi.rs:108-117 | the activation block is 0, the latest height is copied, and both authority sets narrow back to the source's sets |
| Abi.RecoverConsensusState | forge/src/abi.rs:119-136 | the conversion succeeds exactly when the height and both lens are below 2^32 and both ids below 2^64, and fails with an overflow otherwise; on success the height and both sets are copied and the MMR root hash is zero |
| Abi.ConvertIntermediateState | forge/src/abi.rs:138-151 | the conversion succeeds exactly when the state-machine id and height are below 2^32 and the timestamp below 2^64, and fails with an overflow otherwise; on success those three and the state root are copied |
| AbiProperties.RelabelLayerCharacterised | forge/src/abi.rs:30 | a node sequence is an element-wise relabelling of a layer exactly when it equals RelabelLayer of that layer |
| AbiProperties.RelabelLayersCharacterised | forge/src/abi.rs:84-93 | a layer sequence is a relabelling of a proof exactly when it equals RelabelLayers of that proof |
| AbiProperties.RelabelLayersInjective | forge/src/abi.rs:23-33 | proofs with equal relabellings are equal, so nothing is dropped, merged or reordered |
| AbiProperties.RelabelLayersAppend | forge/src/abi.rs:84-93 | relabelling the concatenation of two proofs gives the concatenation of their relabellings |
| AbiProperties.ConvertParachainsCharacterised | forge/src/abi.rs:13-22 | a parachain list is an entry-wise copy of the headers exactly when it equals ConvertParachains of them |
| AbiProperties.ConvertVotesCharacterised | forge/src/abi.rs:65-73 | a vote list is an entry-wise copy of the signatures exactly when it equals ConvertVotes of them |
| AbiProperties.RelayReadsOnlyFirstLeafIndex | forge/src/abi.rs:41-46 | leaf indices after the first do not affect the relay proof |
| AbiProperties.RelayUsesOnlyFirstKIndex | forge/src/abi.rs:42-46 | two position arithmetics that give the same first k-index for the first leaf give the same relay proof |
| AbiProperties.RelayIgnoresOtherPayloadEntries | forge/src/abi.rs:51-61 | payloads with the same "mh" lookup give the same relay proof |
| AbiProperties.RelayPayloadIsStoredEntry | forge/src/abi.rs:51-61 | with strictly sorted payload identifiers and data d stored under "mh", the conversion succeeds (given a leaf index and a k-index) and its payload is exactly [("mh", d)] |
| AbiProperties.AuthoritySetNarrowingIsExact | forge/src/abi.rs:124-133 | widening a successfully narrowed commitment gives the original commitment back |
| AbiProperties.ConsensusStateRoundTrip | forge/src/abi.rs:108-136 | forward then back always succeeds and gives the input with the MMR root hash set to zero |
| AbiProperties.ConsensusStateReverseRoundTrip | forge/src/abi.rs:108-136 | a successful backward conversion followed by the forward one gives the input with the activation block set to zero |
| AbiProperties.ConsensusStateForgetsMmrRoot | forge/src/abi.rs:108-116 | states that differ only in the MMR root hash give the same verifier state |
| AbiProperties.IntermediateStateRoundTrip | forge/src/abi.rs:138-151 | every local intermediate state, widened with any overlay root, narrows back to itself |
| AbiProperties.IntermediateStateNarrowingIsExact | forge/src/abi.rs:138-151 | a successful narrowing loses only the overlay root: widening the result with the original overlay root gives the input |

## Left out

- Position arithmetic: the bodies of `leaf_index_to_pos`, `leaf_index_to_mmr_size` and `mmr_position_to_k_index` belong to the `merkle_mountain_range` crate, which is not part of this model. They are a parameter of the relay conversion. Their own properties (injectivity and monotonicity of positions, fixed k-index sequences for given trees) are not stated.
- Panics: the model returns a `Failure` where the Rust code aborts. The error names are the model's own.
- Primitives.GetRaw: the Rust `get_raw` binary-searches a payload that its constructors keep sorted; those constructors are not part of this model. The model scans linearly and returns the first match. The two agree on payloads whose identifiers strictly increase (`SortedIds`, the precondition of `GetRawFindsStoredEntry` and `RelayPayloadIsStoredEntry`). On unsorted or duplicate input they can differ in two ways: the binary search can miss an entry that is present, so the Rust code panics where `ConvertRelayChainProof` succeeds; or it can return a different entry with the same identifier.
- Source widths: the field widths of the source types (`u32` block numbers and lengths, `u64` set ids and leaf indices, 64-bit `usize`, 65-byte signatures) come from crates that are not part of this model.
- Unread fields: the source leaf's `version` and the proof's `leaf_count` are never read, so the model carries them unused.
- ABI bindings: the `abigen!` macro and the ABI byte encoding (`encode`) are generated or foreign code. The target records are plain datatypes whose field names are those used in `forge/src/abi.rs` and `forge/src/tests/post_request.rs`.
- Test harness: `forge/src/tests/post_request.rs` deploys and runs a contract through an EVM runner. It is external execution with no translation logic.
- Cryptography: no signature check, authority-set membership check or Merkle root recomputation is done by this code, so none is modelled.
- Idempotence: translating the same message twice gives the same output, because every conversion is a function. No lemma states it.
- Abi.ConvertRelayChainProof: does not reject proofs with several leaf indices; it reads only the first (`RelayReadsOnlyFirstLeafIndex`).
- Abi.RecoverConsensusState: does not fail on the fields it cannot recover; it sets the MMR root hash to zero and drops the activation block.
- Empty k-index result: the code indexes the k-index result with `[0]`, so an empty result is a failure of its own (`EmptyKIndexList`).
