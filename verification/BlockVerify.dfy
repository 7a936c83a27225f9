/** Recomputing a block's checksum: `verify_block` of src/cksum.rs with the algorithms
  * of this project. */
module BlockVerify {
  import opened Base
  import opened Endian
  import opened Errors
  import opened BlockPointers
  import opened Devices
  import FletcherSpec
  import FletcherStream
  import Sha256Spec
  import Sha256Words
  import Sha256Digest

  const LABEL: ChecksumType := 3
  const FLETCHER2: ChecksumType := 6
  const FLETCHER4: ChecksumType := 7
  const SHA256: ChecksumType := 8

  type Inflater = (CompressionType, seq<byte>, nat) -> Result<seq<byte>, Error>

  type Algorithm = (ChecksumType, Order, seq<byte>) -> Option<seq<int>>

  function SumWords(s: FletcherSpec.Sums): (words: seq<int>) {
    [s.a, s.b, s.c, s.d]
  }

  function DigestWords(words: seq<bv64>): (r: seq<int>) {
    seq(|words|, i requires 0 <= i < |words| => words[i] as int)
  }

  function Sha256Of(data: seq<byte>): (digest: seq<bv64>) {
    Sha256Digest.Pack(Sha256Spec.Hash(Sha256Words.Fips(), Sha256Words.K(), Sha256Words.H0, data))
  }

  /** The digest each algorithm gives; those that are not in this project are `other`. */
  function DigestOf(other: Algorithm, kind: ChecksumType, order: Order, data: seq<byte>): (words: Option<seq<int>>) {
    if kind == FLETCHER2 then Some(SumWords(FletcherSpec.Checksum(FletcherSpec.Fletcher2, order, data)))
    else if kind == FLETCHER4 then Some(SumWords(FletcherSpec.Checksum(FletcherSpec.Fletcher4, order, data)))
    else if kind == SHA256 || kind == LABEL then Some(DigestWords(Sha256Of(data)))
    else other(kind, order, data)
  }

  function PoolOf(members: seq<Device>, other: Algorithm, inflate: Inflater): (pool: Pool) {
    Pool(members, (kind: ChecksumType, order: Order, data: seq<byte>) => DigestOf(other, kind, order, data), inflate)
  }

  method Compute(other: Algorithm, kind: ChecksumType, order: Order, data: seq<byte>) returns (words: Option<seq<int>>)
    requires 8 * |data| < U64_SIZE
    ensures words == DigestOf(other, kind, order, data)
  {
    hide FletcherSpec.Checksum, Sha256Spec.Hash, Sha256Digest.Pack, DigestWords;
    if kind == FLETCHER2 || kind == FLETCHER4 {
      var which := if kind == FLETCHER2 then FletcherSpec.Fletcher2 else FletcherSpec.Fletcher4;
      var stream := new FletcherStream.Stream(which, 1);
      var sums := stream.Hash(data, order);
      words := Some(SumWords(sums));
    } else if kind == SHA256 || kind == LABEL {
      var digest := Sha256Digest.Digest(data);
      words := Some(DigestWords(digest));
    } else {
      words := other(kind, order, data);
    }
  }

  /** Nothing stored is nothing to verify; otherwise the block's own words must match. */
  method VerifyBlock(members: seq<Device>, other: Algorithm, inflate: Inflater,
                     bp: BlockPointer, dva: Dva, data: seq<byte>)
    returns (r: Option<Error>)
    requires bp.Regular? && 8 * |data| < U64_SIZE
    ensures r == Refusal(PoolOf(members, other, inflate), bp, dva, data)
  {
    hide DigestOf;
    if bp.props.checksum == CHECKSUM_OFF {
      return None;
    }
    var words := Compute(other, bp.props.checksum, bp.props.order, data);
    if words.None? {
      return Some(UnsupportedFeature("checksum"));
    }
    if words.value == bp.digest {
      return None;
    }
    r := Some(ChecksumMismatch(dva.vdev, dva.offset, "checksum"));
  }

  /** Which algorithm is which: 2 is none, 3 and 8 are SHA-256, 6 and 7 are Fletcher. */
  lemma Algorithms(members: seq<Device>, other: Algorithm, inflate: Inflater, bp: BlockPointer, data: seq<byte>)
    requires bp.Regular?
    ensures var kind, order := bp.props.checksum, bp.props.order;
            var accepted := Accepts(PoolOf(members, other, inflate), bp, data);
            && (kind == 2 ==> accepted)
            && (kind == 3 || kind == 8 ==> (accepted <==> DigestWords(Sha256Of(data)) == bp.digest))
            && (kind == 6 || kind == 7 ==>
                  var which := if kind == 6 then FletcherSpec.Fletcher2 else FletcherSpec.Fletcher4;
                  (accepted <==> SumWords(FletcherSpec.Checksum(which, order, data)) == bp.digest))
            && (kind !in {2, 3, 6, 7, 8} ==> (accepted <==> other(kind, order, data) == Some(bp.digest)))
  {
    hide FletcherSpec.Checksum, Sha256Of, DigestWords;
  }

  /** So a block with a Fletcher-4 pointer is accepted exactly when its one-lane fold is
    * the pointer's digest. */
  lemma AcceptsFletcher4(members: seq<Device>, other: Algorithm, inflate: Inflater,
                         bp: BlockPointer, data: seq<byte>)
    requires bp.Regular? && bp.props.checksum == FLETCHER4
    ensures Accepts(PoolOf(members, other, inflate), bp, data)
            <==> SumWords(FletcherSpec.Checksum(FletcherSpec.Fletcher4, bp.props.order, data)) == bp.digest
  {
    hide FletcherSpec.Checksum;
  }
}
