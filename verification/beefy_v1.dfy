/** The verifier's ABI records (the `BeefyV1` contract bindings). Every
    integer is a Solidity `uint256`, every hash a `bytes32`. */
module BeefyV1 {
  import opened Numeric

  /** One (k-index, sibling hash) pair of a proof layer. */
  datatype Node = Node(kIndex: U256, node: Hash)

  datatype Parachain = Parachain(index: U256, id: U256, header: Bytes)

  datatype ParachainProof = ParachainProof(parachains: seq<Parachain>, proof: seq<seq<Node>>)

  datatype Payload = Payload(id: PayloadId, data: Bytes)

  datatype Commitment = Commitment(payload: seq<Payload>, blockNumber: U256, validatorSetId: U256)

  datatype Vote = Vote(signature: Bytes, authorityIndex: U256)

  datatype SignedCommitment = SignedCommitment(commitment: Commitment, votes: seq<Vote>)

  datatype AuthoritySetCommitment = AuthoritySetCommitment(id: U256, len: U256, root: Hash)

  datatype BeefyMmrLeaf = BeefyMmrLeaf(
    version: U256,
    parentNumber: U256,
    parentHash: Hash,
    nextAuthoritySet: AuthoritySetCommitment,
    extra: Hash,
    kIndex: U256)

  datatype RelayChainProof = RelayChainProof(
    signedCommitment: SignedCommitment,
    latestMmrLeaf: BeefyMmrLeaf,
    mmrProof: seq<Hash>,
    proof: seq<seq<Node>>)

  datatype BeefyConsensusProof = BeefyConsensusProof(relay: RelayChainProof, parachain: ParachainProof)

  datatype BeefyConsensusState = BeefyConsensusState(
    latestHeight: U256,
    beefyActivationBlock: U256,
    currentAuthoritySet: AuthoritySetCommitment,
    nextAuthoritySet: AuthoritySetCommitment)

  datatype StateCommitment = StateCommitment(timestamp: U256, overlayRoot: Hash, stateRoot: Hash)

  datatype IntermediateState = IntermediateState(
    stateMachineId: U256,
    height: U256,
    commitment: StateCommitment)
}

/** The translator's own narrow-width records (`abi::local`). */
module Local {
  import opened Numeric

  datatype StateMachineHeight = StateMachineHeight(stateMachineId: U32, height: U32)

  datatype StateCommitment = StateCommitment(timestamp: U64, commitment: Hash)

  datatype IntermediateState = IntermediateState(height: StateMachineHeight, commitment: StateCommitment)
}
