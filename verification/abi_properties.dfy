/** Properties of the translation layer that relate several calls: the
    relabelling and copying maps are exactly determined by their
    specification predicates and lose nothing, the relay conversion reads
    only what it claims to read, and the state conversions round-trip up to
    the fields they are documented to default. */
module AbiProperties {
  import opened Wrappers
  import opened Numeric
  import opened Abi
  import P = Primitives
  import V = BeefyV1
  import L = Local
  import M = MmrPositions

  // Proof-layer relabelling.

  /** A layer relabelling is unique: `RelabelLayer` is the only sequence of
      nodes that relabels the layer. */
  lemma RelabelLayerCharacterised(src: seq<(Usize, Hash)>, dst: seq<V.Node>)
    ensures IsRelabelledLayer(src, dst) <==> dst == RelabelLayer(src)
  {
  }

  /** The whole-proof relabelling is unique too: a sequence of layers
      relabels `src` exactly when it is `RelabelLayers(src)`. */
  lemma RelabelLayersCharacterised(src: P.ProofLayers, dst: seq<seq<V.Node>>)
    ensures IsRelabelling(src, dst) <==> dst == RelabelLayers(src)
  {
    if IsRelabelling(src, dst) {
      var r := RelabelLayers(src);
      forall i | 0 <= i < |src|
        ensures dst[i] == r[i]
      {
        RelabelLayerCharacterised(src[i], dst[i]);
        RelabelLayerCharacterised(src[i], r[i]);
      }
    }
  }

  /** Relabelling loses nothing: distinct proofs give distinct node layers,
      so no pair is dropped, merged or reordered. */
  lemma RelabelLayersInjective(a: P.ProofLayers, b: P.ProofLayers)
    requires RelabelLayers(a) == RelabelLayers(b)
    ensures a == b
  {
    var r: seq<seq<V.Node>> := RelabelLayers(a);
    forall i | 0 <= i < |a|
      ensures a[i] == b[i]
    {
      forall j | 0 <= j < |a[i]|
        ensures a[i][j] == b[i][j]
      {
        assert a[i][j].0 == r[i][j].kIndex && b[i][j].0 == r[i][j].kIndex;
      }
    }
  }

  /** Relabelling works layer by layer: the relabelling of a concatenation is
      the concatenation of the relabellings. */
  lemma {:induction false} RelabelLayersAppend(a: P.ProofLayers, b: P.ProofLayers)
    ensures RelabelLayers(a + b) == RelabelLayers(a) + RelabelLayers(b)
    decreases |a|
  {
    if |a| == 0 {
      assert a + b == b;
    } else {
      var ab := a + b;
      assert ab[0] == a[0];
      assert ab[1..] == a[1..] + b;
      RelabelLayersAppend(a[1..], b);
      calc {
        RelabelLayers(ab);
        [RelabelLayer(a[0])] + RelabelLayers(a[1..] + b);
        [RelabelLayer(a[0])] + (RelabelLayers(a[1..]) + RelabelLayers(b));
        ([RelabelLayer(a[0])] + RelabelLayers(a[1..])) + RelabelLayers(b);
        RelabelLayers(a) + RelabelLayers(b);
      }
    }
  }

  // Parachains and votes.

  /** The parachain list conversion is exactly the entry-wise copy. */
  lemma ConvertParachainsCharacterised(src: seq<P.ParachainHeader>, dst: seq<V.Parachain>)
    ensures (|dst| == |src| && forall i :: 0 <= i < |src| ==> IsParachainCopy(src[i], dst[i]))
            <==> dst == ConvertParachains(src)
  {
  }

  /** The vote conversion is exactly the entry-wise copy. */
  lemma ConvertVotesCharacterised(src: seq<P.SignatureWithAuthorityIndex>, dst: seq<V.Vote>)
    ensures (|dst| == |src| && forall i :: 0 <= i < |src| ==> IsVoteCopy(src[i], dst[i]))
            <==> dst == ConvertVotes(src)
  {
  }

  // Relay-chain proof.

  /** Only the first leaf index is read: whatever follows it in the list
      does not change the result. */
  lemma RelayReadsOnlyFirstLeafIndex(mmr: M.MmrPositions, value: P.MmrProof, rest: seq<U64>)
    requires |value.mmrProof.leafIndices| > 0
    ensures
      var other := value.(mmrProof := value.mmrProof.(leafIndices := [value.mmrProof.leafIndices[0]] + rest));
      ConvertRelayChainProof(mmr, other) == ConvertRelayChainProof(mmr, value)
  {
  }

  /** Of the position arithmetic only one number is used: two arithmetics
      that agree on the first k-index of the first leaf give the same proof. */
  lemma RelayUsesOnlyFirstKIndex(m1: M.MmrPositions, m2: M.MmrPositions, value: P.MmrProof)
    requires |value.mmrProof.leafIndices| > 0
    requires |LeafKIndices(m1, value.mmrProof.leafIndices[0])| > 0
    requires |LeafKIndices(m2, value.mmrProof.leafIndices[0])| > 0
    requires LeafKIndices(m1, value.mmrProof.leafIndices[0])[0].1 == LeafKIndices(m2, value.mmrProof.leafIndices[0])[0].1
    ensures ConvertRelayChainProof(m1, value) == ConvertRelayChainProof(m2, value)
  {
  }

  /** Payload entries other than "mh" are ignored: replacing the payload by
      one with the same "mh" lookup does not change the result. */
  lemma RelayIgnoresOtherPayloadEntries(mmr: M.MmrPositions, value: P.MmrProof, payload: P.Payload)
    requires P.GetRaw(payload, MmrRootId) == P.GetRaw(value.signedCommitment.commitment.payload, MmrRootId)
    ensures
      var other := value.(signedCommitment := value.signedCommitment.(
        commitment := value.signedCommitment.commitment.(payload := payload)));
      ConvertRelayChainProof(mmr, other) == ConvertRelayChainProof(mmr, value)
  {
  }

  /** When the source payload has strictly sorted identifiers and stores `d` under
      "mh", the translated commitment carries exactly the one entry
      ("mh", d). */
  lemma RelayPayloadIsStoredEntry(mmr: M.MmrPositions, value: P.MmrProof, i: nat)
    requires |value.mmrProof.leafIndices| > 0
    requires |LeafKIndices(mmr, value.mmrProof.leafIndices[0])| > 0
    requires P.SortedIds(value.signedCommitment.commitment.payload)
    requires i < |value.signedCommitment.commitment.payload.entries|
    requires value.signedCommitment.commitment.payload.entries[i].0 == MmrRootId
    ensures ConvertRelayChainProof(mmr, value).Success?
    ensures ConvertRelayChainProof(mmr, value).value.signedCommitment.commitment.payload
            == [V.Payload(MmrRootId, value.signedCommitment.commitment.payload.entries[i].1)]
  {
    P.GetRawFindsStoredEntry(value.signedCommitment.commitment.payload, i);
  }

  // Authority sets and consensus state.

  /** Narrowing a commitment and widening the result back gives the
      commitment: narrowing never changes a value it accepts. */
  lemma AuthoritySetNarrowingIsExact(c: V.AuthoritySetCommitment)
    requires NarrowAuthoritySet(c).Success?
    ensures ConvertAuthoritySet(NarrowAuthoritySet(c).value) == c
  {
  }

  /** Forward then back keeps the latest height and both authority sets and
      resets the MMR root hash to zero. */
  lemma ConsensusStateRoundTrip(s: P.ConsensusState)
    ensures RecoverConsensusState(ConvertConsensusState(s)) == Success(s.(mmrRootHash := ZeroHash))
  {
  }

  /** Back then forward gives the verifier's state with the activation
      block reset to zero. */
  lemma ConsensusStateReverseRoundTrip(b: V.BeefyConsensusState)
    requires RecoverConsensusState(b).Success?
    ensures ConvertConsensusState(RecoverConsensusState(b).value) == b.(beefyActivationBlock := 0)
  {
  }

  /** The forward conversion is lossy: states that differ only in the MMR
      root hash are sent to the same verifier state. */
  lemma ConsensusStateForgetsMmrRoot(s: P.ConsensusState, root: Hash)
    ensures ConvertConsensusState(s.(mmrRootHash := root)) == ConvertConsensusState(s)
  {
  }

  // Intermediate state.

  /** Widening of a local intermediate state into the ABI record, with the
      overlay root that the local record does not keep supplied separately. */
  function WidenIntermediateState(l: L.IntermediateState, overlayRoot: Hash): V.IntermediateState {
    V.IntermediateState(
      l.height.stateMachineId,
      l.height.height,
      V.StateCommitment(l.commitment.timestamp, overlayRoot, l.commitment.commitment))
  }

  /** Every local intermediate state survives widening and narrowing. */
  lemma IntermediateStateRoundTrip(l: L.IntermediateState, overlayRoot: Hash)
    ensures ConvertIntermediateState(WidenIntermediateState(l, overlayRoot)) == Success(l)
  {
  }

  /** A successful narrowing loses only the overlay root: widening the result
      with the original overlay root restores the input. */
  lemma IntermediateStateNarrowingIsExact(v: V.IntermediateState)
    requires ConvertIntermediateState(v).Success?
    ensures WidenIntermediateState(ConvertIntermediateState(v).value, v.commitment.overlayRoot) == v
  {
  }
}
