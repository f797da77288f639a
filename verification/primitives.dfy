/** The source chain's types the translator reads: the BEEFY commitment and
    MMR leaf (`beefy_primitives`), the MMR proof (`sp_mmr_primitives`), and
    the consensus message and state of `beefy_verifier_primitives`. Field
    widths are those of the Rust declarations. */
module Primitives {
  import opened Wrappers
  import opened Numeric

  /** `BeefyNextAuthoritySet<H256>`: generation id, cardinality and Merkle
      root of the authority keys. */
  datatype BeefyNextAuthoritySet = BeefyNextAuthoritySet(id: U64, len: U32, root: Hash)

  /** A BEEFY payload: a list of (identifier, bytes) entries, which its
      constructors keep ordered by identifier. */
  datatype Payload = Payload(entries: seq<(PayloadId, Bytes)>)

  /** Byte-wise lexicographic order of two-byte identifiers (`Ord` of `[u8; 2]`). */
  predicate IdLess(a: PayloadId, b: PayloadId) {
    a[0] < b[0] || (a[0] == b[0] && a[1] < b[1])
  }

  /** Identifiers strictly increase along the payload: the list is sorted
      and no identifier occurs twice. */
  ghost predicate SortedIds(p: Payload) {
    forall i, j :: 0 <= i < j < |p.entries| ==> IdLess(p.entries[i].0, p.entries[j].0)
  }

  /** `Payload::get_raw`: the bytes stored under `id`, if any. The Rust
      method binary-searches the list. On a strictly sorted list (see
      `GetRawFindsStoredEntry`) that finds the one entry with that
      identifier, which the linear search below finds too. */
  function GetRaw(p: Payload, id: PayloadId): (r: Option<Bytes>)
    ensures r.None? <==> forall i :: 0 <= i < |p.entries| ==> p.entries[i].0 != id
    ensures r.Some? ==> exists i :: 0 <= i < |p.entries| && p.entries[i] == (id, r.value)
    decreases |p.entries|
  {
    if |p.entries| == 0 then None
    else if p.entries[0].0 == id then Some(p.entries[0].1)
    else GetRaw(Payload(p.entries[1..]), id)
  }

  /** On a payload with strictly sorted identifiers, `GetRaw` returns exactly
      the bytes stored with the identifier asked for. */
  lemma GetRawFindsStoredEntry(p: Payload, i: nat)
    requires SortedIds(p)
    requires i < |p.entries|
    ensures GetRaw(p, p.entries[i].0) == Some(p.entries[i].1)
  {
  }

  /** `Commitment<u32>`: what the validators sign. */
  datatype Commitment = Commitment(payload: Payload, blockNumber: U32, validatorSetId: U64)

  /** One validator's signature together with its index in the authority set. */
  datatype SignatureWithAuthorityIndex = SignatureWithAuthorityIndex(signature: Signature, index: U32)

  datatype SignedCommitment = SignedCommitment(
    commitment: Commitment,
    signatures: seq<SignatureWithAuthorityIndex>)

  /** `MmrLeaf<u32, H256, H256, H256>`. */
  datatype MmrLeaf = MmrLeaf(
    version: U8,
    parentNumberAndHash: (U32, Hash),
    beefyNextAuthoritySet: BeefyNextAuthoritySet,
    leafExtra: Hash)

  /** `sp_mmr_primitives::Proof<H256>`. */
  datatype Proof = Proof(leafIndices: seq<U64>, leafCount: U64, items: seq<Hash>)

  /** A multi-layer inclusion proof: per tree level, the (k-index, sibling
      hash) pairs in the order the source produced them. */
  type ProofLayers = seq<seq<(Usize, Hash)>>

  /** The relay-chain half of a consensus message. */
  datatype MmrProof = MmrProof(
    signedCommitment: SignedCommitment,
    latestMmrLeaf: MmrLeaf,
    mmrProof: Proof,
    authorityProof: ProofLayers)

  /** One parachain header with its position in the batch. */
  datatype ParachainHeader = ParachainHeader(header: Bytes, index: Usize, paraId: U32)

  datatype ParachainProof = ParachainProof(parachains: seq<ParachainHeader>, proof: ProofLayers)

  datatype ConsensusMessage = ConsensusMessage(mmr: MmrProof, parachain: ParachainProof)

  /** The light client's consensus state as the source chain keeps it. */
  datatype ConsensusState = ConsensusState(
    latestBeefyHeight: U32,
    mmrRootHash: Hash,
    currentAuthorities: BeefyNextAuthoritySet,
    nextAuthorities: BeefyNextAuthoritySet)
}
