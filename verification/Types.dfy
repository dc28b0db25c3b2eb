/** Values shared by every component: machine integers, byte strings, hashes, addresses and
    the block record that the sequencer publishes. */
module Types {

  const TWO_64: int := 0x1_0000_0000_0000_0000

  type u8 = x: int | 0 <= x < 256
  type u64 = x: int | 0 <= x < TWO_64

  type Bytes = seq<u8>
  type Hash = b: Bytes | |b| == 32 witness seq(32, i => 0)
  type Address = b: Bytes | |b| == 20 witness seq(20, i => 0)

  datatype Option<+T> = None | Some(value: T)

  /** Unsigned 64-bit addition, which wraps around. */
  function Add64(x: u64, y: u64): u64 {
    if x + y < TWO_64 then x + y else x + y - TWO_64
  }

  /** A block as the sequencer publishes it (internal/sync/engine.go:20-30). */
  datatype L2Block = L2Block(
    number: u64,
    hash: string,
    parentHash: string,
    timestamp: u64,
    stateRoot: string,
    gasUsed: u64,
    gasLimit: u64,
    txCount: int,
    sequencer: string)
}
