/** Fixed-width integers and byte strings.

    Integers are unbounded `nat`s restricted by subset types to the range of
    the Rust type they stand for; the verifier's ABI integers are `uint256`.
    Narrowing back from `uint256` is partial, as `as_u32`/`as_u64` of
    `primitive_types::U256` panic when the value does not fit. */
module Numeric {
  import opened Wrappers

  const TwoTo8: nat := 0x100
  const TwoTo32: nat := 0x1_0000_0000
  const TwoTo64: nat := 0x1_0000_0000_0000_0000
  const TwoTo256: nat :=
    0x1_0000_0000_0000_0000_0000_0000_0000_0000_0000_0000_0000_0000_0000_0000_0000_0000

  type U8 = x: nat | x < TwoTo8
  type U32 = x: nat | x < TwoTo32
  type U64 = x: nat | x < TwoTo64
  /** `usize` on the 64-bit targets the translator is built for. */
  type Usize = U64
  type U256 = x: nat | x < TwoTo256

  type Byte = bv8
  type Bytes = seq<Byte>

  /** `H256` and Solidity `bytes32`. */
  type Hash = s: Bytes | |s| == 32 witness seq(32, _ => 0)

  /** A 65-byte ECDSA signature with recovery id. */
  type Signature = s: Bytes | |s| == 65 witness seq(65, _ => 0)

  /** A two-byte BEEFY payload identifier (Solidity `bytes2`). */
  type PayloadId = s: Bytes | |s| == 2 witness [0, 0]

  /** `H256::zero()`, the `Default` of a hash. */
  const ZeroHash: Hash :=
    [0, 0, 0, 0, 0, 0, 0, 0, 0, 0, 0, 0, 0, 0, 0, 0,
     0, 0, 0, 0, 0, 0, 0, 0, 0, 0, 0, 0, 0, 0, 0, 0]

  /** `U256::as_u32`: the value itself when it fits in 32 bits, nothing
      (the panic) otherwise. */
  function AsU32(x: U256): (r: Option<U32>)
    ensures r.Some? <==> x < TwoTo32
    ensures r.Some? ==> r.value == x
  {
    if x < TwoTo32 then Some(x) else None
  }

  /** `U256::as_u64`: the value itself when it fits in 64 bits, nothing
      (the panic) otherwise. */
  function AsU64(x: U256): (r: Option<U64>)
    ensures r.Some? <==> x < TwoTo64
    ensures r.Some? ==> r.value == x
  {
    if x < TwoTo64 then Some(x) else None
  }
}
