/** The block pointer and its parts as values (src/phys/block_pointer.rs, dva.rs).
  * The enumerations are their stored numbers. */
module BlockPointers {
  import opened Base
  import opened Endian

  /** Bytes of an encoded pointer. */
  const POINTER_SIZE := 128

  type CompressionType = x: int | 0 <= x <= 16
  type ChecksumType = x: int | 0 <= x <= 14

  const CHECKSUM_OFF: ChecksumType := 2

  predicate IsDmuType(x: int) {
    || 0 <= x <= 53
    || 0x80 <= x <= 0x84
    || 0xa0 <= x <= 0xa4
    || 0xc0 <= x <= 0xc4
    || 0xe0 <= x <= 0xe4
  }

  type DmuType = x: int | IsDmuType(x)

  datatype Dva = Dva(vdev: u32, asize: u32, offset: u64, gang: bool)

  /** The fields that share the flags word of a regular or encrypted pointer. */
  datatype Props = Props(
    logicalSectors: u32, physicalSectors: u32, compression: CompressionType, checksum: ChecksumType,
    dmu: DmuType, level: byte, dedup: bool, order: Order)

  datatype BlockPointer =
    | Embedded(compression: CompressionType, logicalSize: nat, physicalSize: nat, payload: seq<byte>)
    | Encrypted(props: Props, dvas: seq<Option<Dva>>, salt: u64, iv1: u64, iv2: u32, fill32: u32,
                physicalTxg: u64, logicalTxg: u64, digest: seq<u64>, mac: seq<u64>)
    | Regular(props: Props, dvas: seq<Option<Dva>>, physicalTxg: u64, logicalTxg: u64, fill: u64, digest: seq<u64>)
}
