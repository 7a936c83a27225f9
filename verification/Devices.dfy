/** Member devices, and the checksum and decompression functions the readers
  * call, as parameters. */
module Devices {
  import opened Base
  import opened Endian
  import opened Errors
  import opened BlockPointers

  /** A device answers a read of `len` bytes at `offset` with bytes or not at all. */
  datatype Device = Device(read: (nat, nat) -> Option<seq<byte>>)

  /** Pool members; the digest an algorithm gives (none when it is not built in);
    * decompression into a given size. */
  datatype Pool = Pool(
    members: seq<Device>,
    sum: (ChecksumType, Order, seq<byte>) -> Option<seq<int>>,
    inflate: (CompressionType, seq<byte>, nat) -> Result<seq<byte>, Error>)

  const LABEL_RESERVE := 0x40_0000
  const MAX_BLOCK := 0x100_0000

  /** A read fills the whole buffer or fails. */
  function ReadExact(device: Device, offset: nat, len: nat): (r: Option<seq<byte>>)
    ensures r.Some? ==> |r.value| == len
  {
    var r := device.read(offset, len);
    if r.Some? && |r.value| == len then r else None
  }

  function Member(pool: Pool, mi: nat): (r: Option<Device>) {
    if mi < |pool.members| then Some(pool.members[mi]) else None
  }

  /** Why a block is refused, if it is. `Off` stores no digest and refuses nothing. */
  function Refusal(pool: Pool, bp: BlockPointer, dva: Dva, raw: seq<byte>): (r: Option<Error>)
    requires bp.Regular?
  {
    if bp.props.checksum == CHECKSUM_OFF then None else
      match pool.sum(bp.props.checksum, bp.props.order, raw)
      case None => Some(UnsupportedFeature("checksum"))
      case Some(digest) =>
        if digest == bp.digest then None else Some(ChecksumMismatch(dva.vdev, dva.offset, "checksum"))
  }

  predicate Accepts(pool: Pool, bp: BlockPointer, raw: seq<byte>)
    requires bp.Regular?
  {
    bp.props.checksum == CHECKSUM_OFF || pool.sum(bp.props.checksum, bp.props.order, raw) == Some(bp.digest)
  }

  /** Where the copies differ does not matter to acceptance. */
  lemma AcceptsIsNoRefusal(pool: Pool, bp: BlockPointer, dva: Dva, raw: seq<byte>)
    requires bp.Regular?
    ensures Accepts(pool, bp, raw) <==> Refusal(pool, bp, dva, raw) == None
  {
  }

  function LogicalSize(bp: BlockPointer): (n: nat)
    requires bp.Regular?
  {
    bp.props.logicalSectors * 512
  }

  function PhysicalSize(bp: BlockPointer): (n: nat)
    requires bp.Regular?
  {
    bp.props.physicalSectors * 512
  }

  function Inflate(pool: Pool, bp: BlockPointer, raw: seq<byte>): (r: Result<seq<byte>, Error>)
    requires bp.Regular?
  {
    pool.inflate(bp.props.compression, raw, LogicalSize(bp))
  }
}
