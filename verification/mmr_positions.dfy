/** The MMR position arithmetic of the `merkle_mountain_range` crate. Its
    definitions are not part of this model: the translator is parameterised
    by whatever these three functions return, and its properties hold for
    every choice of them. */
module MmrPositions {
  import opened Numeric

  datatype MmrPositions = MmrPositions(
    /** `leaf_index_to_pos`: flattened node position of a leaf. */
    leafIndexToPos: U64 -> U64,
    /** `leaf_index_to_mmr_size`: size of the MMR whose last leaf is this one. */
    leafIndexToMmrSize: U64 -> U64,
    /** `mmr_position_to_k_index`: (position, k-index) pairs for the queried
        positions in an MMR of the given size. */
    positionToKIndex: (seq<U64>, U64) -> seq<(U64, Usize)>)
}
