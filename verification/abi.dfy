/** The translation layer: the `From` conversions between the source chain's
    BEEFY finality and parachain proof types and the verifier's ABI records.

    The Rust code panics where an index is out of range, an `unwrap` meets
    `None`, or a narrowing cast overflows; each panic is a `Failure` here,
    and the conditions under which it happens are part of the contracts. */
module Abi {
  import opened Wrappers
  import opened Numeric
  import P = Primitives
  import V = BeefyV1
  import L = Local
  import M = MmrPositions

  datatype TranslationError =
    | EmptyLeafIndices   // `leaf_indices[0]` on an empty list
    | EmptyKIndexList    // `mmr_position_to_k_index(..)[0]` on an empty result
    | MissingPayload     // `get_raw(b"mh").unwrap()` finding no entry
    | IntegerOverflow    // `as_u32` / `as_u64` on a value that does not fit

  /** Payload identifier of the MMR root: the ASCII bytes "mh". */
  const MmrRootId: PayloadId := [0x6d, 0x68]

  // Specification predicates: what a faithful copy of each part looks like.

  /** `dst` is `src` with every (index, hash) pair renamed to a node, in the
      same order and with nothing added or dropped. */
  ghost predicate IsRelabelledLayer(src: seq<(Usize, Hash)>, dst: seq<V.Node>) {
    && |dst| == |src|
    && forall j :: 0 <= j < |src| ==> dst[j].kIndex == src[j].0 && dst[j].node == src[j].1
  }

  /** Layer by layer relabelling of a whole inclusion proof. */
  ghost predicate IsRelabelling(src: P.ProofLayers, dst: seq<seq<V.Node>>) {
    && |dst| == |src|
    && forall i :: 0 <= i < |src| ==> IsRelabelledLayer(src[i], dst[i])
  }

  ghost predicate IsParachainCopy(src: P.ParachainHeader, dst: V.Parachain) {
    dst.index == src.index && dst.id == src.paraId && dst.header == src.header
  }

  ghost predicate IsVoteCopy(src: P.SignatureWithAuthorityIndex, dst: V.Vote) {
    dst.signature == src.signature && dst.authorityIndex == src.index
  }

  // Proof-layer relabelling, used for both the parachain and the
  // authority-set inclusion proofs.

  /** One layer: each `(index, node)` pair becomes `Node { k_index, node }`. */
  function RelabelLayer(layer: seq<(Usize, Hash)>): (r: seq<V.Node>)
    ensures IsRelabelledLayer(layer, r)
  {
    if |layer| == 0 then []
    else [V.Node(layer[0].0, layer[0].1)] + RelabelLayer(layer[1..])
  }

  /** All layers, in order. */
  function RelabelLayers(layers: P.ProofLayers): (r: seq<seq<V.Node>>)
    ensures IsRelabelling(layers, r)
  {
    if |layers| == 0 then []
    else [RelabelLayer(layers[0])] + RelabelLayers(layers[1..])
  }

  // Parachain list and votes.

  /** Each parachain header keeps its index, chain id and header bytes. */
  function ConvertParachains(ps: seq<P.ParachainHeader>): (r: seq<V.Parachain>)
    ensures |r| == |ps|
    ensures forall i :: 0 <= i < |ps| ==> IsParachainCopy(ps[i], r[i])
  {
    if |ps| == 0 then []
    else [V.Parachain(ps[0].index, ps[0].paraId, ps[0].header)] + ConvertParachains(ps[1..])
  }

  /** Each signature entry becomes a vote with the same signature bytes and
      authority index. */
  function ConvertVotes(sigs: seq<P.SignatureWithAuthorityIndex>): (r: seq<V.Vote>)
    ensures |r| == |sigs|
    ensures forall i :: 0 <= i < |sigs| ==> IsVoteCopy(sigs[i], r[i])
  {
    if |sigs| == 0 then []
    else [V.Vote(sigs[0].signature, sigs[0].index)] + ConvertVotes(sigs[1..])
  }

  // Authority-set commitments.

  /** Narrowing of a commitment back to the source widths, as done inline
      for both authority sets of the reverse consensus-state conversion:
      `id` through `as_u64`, `len` through `as_u32`. */
  function NarrowAuthoritySet(c: V.AuthoritySetCommitment): (r: Result<P.BeefyNextAuthoritySet, TranslationError>)
    ensures r.Success? <==> c.id < TwoTo64 && c.len < TwoTo32
    ensures r.Failure? ==> r.error == IntegerOverflow
    ensures r.Success? ==> r.value.id == c.id && r.value.len == c.len && r.value.root == c.root
  {
    var id := AsU64(c.id);
    var len := AsU32(c.len);
    if id.None? || len.None? then Failure(IntegerOverflow)
    else Success(P.BeefyNextAuthoritySet(id.value, len.value, c.root))
  }

  /** Field-for-field widening of an authority set; nothing is truncated,
      so narrowing the result gives the input back. */
  function ConvertAuthoritySet(s: P.BeefyNextAuthoritySet): (r: V.AuthoritySetCommitment)
    ensures NarrowAuthoritySet(r) == Success(s)
  {
    V.AuthoritySetCommitment(s.id, s.len, s.root)
  }

  // Relay-chain proof.

  /** The (position, k-index) list the translator asks for: the position of
      `leafIndex` in the MMR whose last leaf is `leafIndex`. Part of
      `ConvertRelayChainProof`, whose contract states how its result is used. */
  function LeafKIndices(mmr: M.MmrPositions, leafIndex: U64): seq<(U64, Usize)> {
    mmr.positionToKIndex([mmr.leafIndexToPos(leafIndex)], mmr.leafIndexToMmrSize(leafIndex))
  }

  /** `RelayChainProof::from(MmrProof)`. Fails, in this order, when the
      leaf-index list is empty, when the k-index computation returns
      nothing, and when the commitment has no "mh" payload entry. */
  function ConvertRelayChainProof(mmr: M.MmrPositions, value: P.MmrProof): (r: Result<V.RelayChainProof, TranslationError>)
    ensures r == Failure(EmptyLeafIndices) <==> |value.mmrProof.leafIndices| == 0
    ensures r == Failure(EmptyKIndexList) <==>
      |value.mmrProof.leafIndices| > 0 && |LeafKIndices(mmr, value.mmrProof.leafIndices[0])| == 0
    ensures r == Failure(MissingPayload) <==>
      && |value.mmrProof.leafIndices| > 0
      && |LeafKIndices(mmr, value.mmrProof.leafIndices[0])| > 0
      && P.GetRaw(value.signedCommitment.commitment.payload, MmrRootId).None?
    ensures r.Success? <==>
      && |value.mmrProof.leafIndices| > 0
      && |LeafKIndices(mmr, value.mmrProof.leafIndices[0])| > 0
      && P.GetRaw(value.signedCommitment.commitment.payload, MmrRootId).Some?
    // the commitment: a single "mh" entry, block number and set id copied
    ensures r.Success? ==>
      && r.value.signedCommitment.commitment.payload
           == [V.Payload(MmrRootId, P.GetRaw(value.signedCommitment.commitment.payload, MmrRootId).value)]
      && r.value.signedCommitment.commitment.blockNumber == value.signedCommitment.commitment.blockNumber
      && r.value.signedCommitment.commitment.validatorSetId == value.signedCommitment.commitment.validatorSetId
    // the votes: same count, same order, each copied
    ensures r.Success? ==>
      && |r.value.signedCommitment.votes| == |value.signedCommitment.signatures|
      && forall i :: 0 <= i < |value.signedCommitment.signatures| ==>
           IsVoteCopy(value.signedCommitment.signatures[i], r.value.signedCommitment.votes[i])
    // the latest leaf: version 0, fields copied, k-index of the first leaf index
    ensures r.Success? ==>
      && r.value.latestMmrLeaf.version == 0
      && r.value.latestMmrLeaf.parentNumber == value.latestMmrLeaf.parentNumberAndHash.0
      && r.value.latestMmrLeaf.parentHash == value.latestMmrLeaf.parentNumberAndHash.1
      && NarrowAuthoritySet(r.value.latestMmrLeaf.nextAuthoritySet) == Success(value.latestMmrLeaf.beefyNextAuthoritySet)
      && r.value.latestMmrLeaf.extra == value.latestMmrLeaf.leafExtra
      && r.value.latestMmrLeaf.kIndex == LeafKIndices(mmr, value.mmrProof.leafIndices[0])[0].1
    // the raw MMR proof items and the authority-set inclusion proof
    ensures r.Success? ==> r.value.mmrProof == value.mmrProof.items
    ensures r.Success? ==> IsRelabelling(value.authorityProof, r.value.proof)
  {
    if |value.mmrProof.leafIndices| == 0 then Failure(EmptyLeafIndices)
    else if |LeafKIndices(mmr, value.mmrProof.leafIndices[0])| == 0 then Failure(EmptyKIndexList)
    else
      match P.GetRaw(value.signedCommitment.commitment.payload, MmrRootId)
      case None => Failure(MissingPayload)
      case Some(root) =>
        Success(AssembleRelayChainProof(value, LeafKIndices(mmr, value.mmrProof.leafIndices[0])[0].1, root))
  }

  /** The record built once the k-index and the MMR root are known. Part of
      `ConvertRelayChainProof`, whose contract states every field. */
  function AssembleRelayChainProof(value: P.MmrProof, kIndex: Usize, root: Bytes): V.RelayChainProof {
    V.RelayChainProof(
      V.SignedCommitment(
        V.Commitment(
          [V.Payload(MmrRootId, root)],
          value.signedCommitment.commitment.blockNumber,
          value.signedCommitment.commitment.validatorSetId),
        ConvertVotes(value.signedCommitment.signatures)),
      V.BeefyMmrLeaf(
        0,
        value.latestMmrLeaf.parentNumberAndHash.0,
        value.latestMmrLeaf.parentNumberAndHash.1,
        ConvertAuthoritySet(value.latestMmrLeaf.beefyNextAuthoritySet),
        value.latestMmrLeaf.leafExtra,
        kIndex),
      value.mmrProof.items,
      RelabelLayers(value.authorityProof))
  }

  // Top-level consensus proof.

  /** `BeefyConsensusProof::from(ConsensusMessage)`: the relay part as above,
      the parachain part copied entry by entry and layer by layer. Only the
      relay part can fail. */
  function ConvertConsensusProof(mmr: M.MmrPositions, message: P.ConsensusMessage): (r: Result<V.BeefyConsensusProof, TranslationError>)
    ensures r.Success? <==> ConvertRelayChainProof(mmr, message.mmr).Success?
    ensures r.Failure? ==> r.error == ConvertRelayChainProof(mmr, message.mmr).error
    ensures r.Success? ==> r.value.relay == ConvertRelayChainProof(mmr, message.mmr).value
    ensures r.Success? ==>
      && |r.value.parachain.parachains| == |message.parachain.parachains|
      && forall i :: 0 <= i < |message.parachain.parachains| ==>
           IsParachainCopy(message.parachain.parachains[i], r.value.parachain.parachains[i])
    ensures r.Success? ==> IsRelabelling(message.parachain.proof, r.value.parachain.proof)
  {
    var relay :- ConvertRelayChainProof(mmr, message.mmr);
    Success(V.BeefyConsensusProof(
      relay,
      V.ParachainProof(ConvertParachains(message.parachain.parachains), RelabelLayers(message.parachain.proof))))
  }

  // Consensus state, both directions.

  /** `BeefyConsensusState::from(ConsensusState)`: total; the activation
      block is defaulted to 0 and the MMR root hash is not carried. */
  function ConvertConsensusState(s: P.ConsensusState): (r: V.BeefyConsensusState)
    ensures r.beefyActivationBlock == 0
    ensures r.latestHeight == s.latestBeefyHeight
    ensures NarrowAuthoritySet(r.currentAuthoritySet) == Success(s.currentAuthorities)
    ensures NarrowAuthoritySet(r.nextAuthoritySet) == Success(s.nextAuthorities)
  {
    V.BeefyConsensusState(s.latestBeefyHeight, 0, ConvertAuthoritySet(s.currentAuthorities), ConvertAuthoritySet(s.nextAuthorities))
  }

  /** `ConsensusState::from(BeefyConsensusState)`: fails when the height or
      either set's length is 2^32 or more, or either set's id 2^64 or more;
      otherwise copies them and sets the MMR root hash to zero. The
      activation block is dropped. */
  function RecoverConsensusState(b: V.BeefyConsensusState): (r: Result<P.ConsensusState, TranslationError>)
    ensures r.Success? <==>
      && b.latestHeight < TwoTo32
      && b.currentAuthoritySet.id < TwoTo64 && b.currentAuthoritySet.len < TwoTo32
      && b.nextAuthoritySet.id < TwoTo64 && b.nextAuthoritySet.len < TwoTo32
    ensures r.Failure? ==> r.error == IntegerOverflow
    ensures r.Success? ==>
      && r.value.latestBeefyHeight == b.latestHeight
      && r.value.mmrRootHash == ZeroHash
      && ConvertAuthoritySet(r.value.currentAuthorities) == b.currentAuthoritySet
      && ConvertAuthoritySet(r.value.nextAuthorities) == b.nextAuthoritySet
  {
    var height := AsU32(b.latestHeight);
    if height.None? then Failure(IntegerOverflow)
    else
      var current :- NarrowAuthoritySet(b.currentAuthoritySet);
      var next :- NarrowAuthoritySet(b.nextAuthoritySet);
      Success(P.ConsensusState(height.value, ZeroHash, current, next))
  }

  // Intermediate state.

  /** `local::IntermediateState::from(IntermediateState)`: narrows the state
      machine id and height to 32 bits and the timestamp to 64 bits, failing
      when any does not fit; keeps the state root and drops the overlay root. */
  function ConvertIntermediateState(v: V.IntermediateState): (r: Result<L.IntermediateState, TranslationError>)
    ensures r.Success? <==>
      v.stateMachineId < TwoTo32 && v.height < TwoTo32 && v.commitment.timestamp < TwoTo64
    ensures r.Failure? ==> r.error == IntegerOverflow
    ensures r.Success? ==>
      && r.value.height.stateMachineId == v.stateMachineId
      && r.value.height.height == v.height
      && r.value.commitment.timestamp == v.commitment.timestamp
      && r.value.commitment.commitment == v.commitment.stateRoot
  {
    var id := AsU32(v.stateMachineId);
    var height := AsU32(v.height);
    var timestamp := AsU64(v.commitment.timestamp);
    if id.None? || height.None? || timestamp.None? then Failure(IntegerOverflow)
    else
      Success(L.IntermediateState(
        L.StateMachineHeight(id.value, height.value),
        L.StateCommitment(timestamp.value, v.commitment.stateRoot)))
  }
}
