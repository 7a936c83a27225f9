/** Which copy of a block a read returns, on the raw fields of its pointer
  * (src/vdev.rs). */
module BlockCopies {
  import opened Base
  import opened Errors
  import opened BlockPointers
  import opened Devices
  import opened BlockReader

  /** The leaf devices a block is on, in the order they are tried. */
  predicate On(topo: Topology, leaves: seq<nat>) {
    (topo.Single? && leaves == [topo.member]) || (topo.Mirror? && leaves == topo.copies)
  }

  /** Device `mi` gives `raw` for the address, 512-byte sectors past 4 MiB, and the checksum
    * accepts it; algorithm 2 accepts everything. */
  predicate HasCopy(pool: Pool, bp: BlockPointer, dva: Option<Dva>, mi: nat, raw: seq<byte>)
    requires bp.Regular?
  {
    && dva.Some? && mi < |pool.members| && 512 * dva.value.offset + 4194304 < U64_SIZE
    && pool.members[mi].read(512 * dva.value.offset + 4194304, 512 * bp.props.physicalSectors) == Some(raw)
    && |raw| == 512 * bp.props.physicalSectors
    && (bp.props.checksum == 2 || pool.sum(bp.props.checksum, bp.props.order, raw) == Some(bp.digest))
  }

  ghost predicate NoCopy(pool: Pool, bp: BlockPointer, dva: Option<Dva>, mi: nat)
    requires bp.Regular?
  {
    forall raw :: !HasCopy(pool, bp, dva, mi, raw)
  }

  /** Addresses that name data, and a size that is read. */
  predicate Readable(bp: BlockPointer)
    requires bp.Regular?
  {
    && 0 < bp.props.physicalSectors <= 32768
    && forall k :: 0 <= k < |bp.dvas| && bp.dvas[k].Some? ==> !bp.dvas[k].value.gang && bp.dvas[k].value.vdev == 0
  }

  // Addresses that are there, by their place among all

  function Rank(dvas: seq<Option<Dva>>, i: nat): (m: nat)
    requires i <= |dvas|
  {
    |Present(dvas[..i])|
  }

  lemma {:induction false} PresentConcat(a: seq<Option<Dva>>, b: seq<Option<Dva>>)
    ensures Present(a + b) == Present(a) + Present(b)
  {
    if a == [] {
      assert a + b == b;
    } else {
      assert (a + b)[1..] == a[1..] + b;
      PresentConcat(a[1..], b);
    }
  }

  lemma PresentAt(dvas: seq<Option<Dva>>, i: nat)
    requires i < |dvas|
    ensures Rank(dvas, i + 1) == Rank(dvas, i) + if dvas[i].Some? then 1 else 0
    ensures dvas[i].Some? ==> Rank(dvas, i) < |Present(dvas)| && Present(dvas)[Rank(dvas, i)] == dvas[i].value
  {
    assert dvas[..i + 1] == dvas[..i] + [dvas[i]] && dvas == dvas[..i + 1] + dvas[i + 1..];
    assert [dvas[i]][1..] == [];
    PresentConcat(dvas[..i], [dvas[i]]);
    PresentConcat(dvas[..i + 1], dvas[i + 1..]);
  }

  lemma {:induction false} RankMono(dvas: seq<Option<Dva>>, i: nat, j: nat)
    requires i <= j <= |dvas|
    ensures Rank(dvas, i) <= Rank(dvas, j)
    decreases j
  {
    hide Rank;
    if i == j {
    } else {
      RankMono(dvas, i, j - 1);
      PresentAt(dvas, j - 1);
    }
  }

  /** Each address that is there comes from one place. */
  lemma {:induction false} FromPlace(dvas: seq<Option<Dva>>, m: nat, n: nat) returns (i: nat)
    requires n <= |dvas| && m < Rank(dvas, n)
    ensures i < n && dvas[i].Some? && Rank(dvas, i) == m
    decreases n
  {
    if n == 0 {
      assert false;
    }
    PresentAt(dvas, n - 1);
    if m < Rank(dvas, n - 1) {
      i := FromPlace(dvas, m, n - 1);
    } else {
      i := n - 1;
    }
  }

  lemma VerifiedIs(pool: Pool, bp: BlockPointer, leaves: seq<nat>, i: nat, j: nat, raw: seq<byte>)
    requires bp.Regular? && i < |bp.dvas| && bp.dvas[i].Some? && j < |leaves|
    ensures Rank(bp.dvas, i) < |Present(bp.dvas)|
    ensures Verified(pool, bp, Present(bp.dvas), leaves, Rank(bp.dvas, i), j) == Some(raw)
            <==> HasCopy(pool, bp, bp.dvas[i], leaves[j], raw)
  {
    PresentAt(bp.dvas, i);
  }

  lemma PlacedIs(bp: BlockPointer)
    requires bp.Regular? && Readable(bp)
    ensures 0 < PhysicalSize(bp) <= MAX_BLOCK && Misplaced(Present(bp.dvas)).None?
  {
    var dvas := Present(bp.dvas);
    forall d | d in dvas
      ensures !d.gang && d.vdev == 0
    {
      var m :| 0 <= m < |dvas| && dvas[m] == d;
      assert bp.dvas[..|bp.dvas|] == bp.dvas;
      var i := FromPlace(bp.dvas, m, |bp.dvas|);
      PresentAt(bp.dvas, i);
    }
    WhatIsPlaced(dvas);
  }

  /** No copy before place (i, j), which may be past the end. */
  ghost predicate NoneBefore(pool: Pool, bp: BlockPointer, leaves: seq<nat>, i: nat, j: nat)
    requires bp.Regular?
  {
    forall m, n :: 0 <= m < |bp.dvas| && 0 <= n < |leaves| && Before(m, n, i, j) ==>
                     NoCopy(pool, bp, bp.dvas[m], leaves[n])
  }

  lemma NoneBeforeIs(pool: Pool, bp: BlockPointer, leaves: seq<nat>, i: nat, j: nat)
    requires bp.Regular? && i <= |bp.dvas| && NoneBefore(pool, bp, leaves, i, j)
    requires if i == |bp.dvas| then j == 0 else bp.dvas[i].Some?
    ensures NoneUpTo(pool, bp, Present(bp.dvas), leaves, 0, 0, Rank(bp.dvas, i), j)
  {
    var dvas := Present(bp.dvas);
    assert bp.dvas[..|bp.dvas|] == bp.dvas;
    forall m: nat, n: nat | m < |dvas| && n < |leaves| && Before(m, n, Rank(bp.dvas, i), j)
      ensures Verified(pool, bp, dvas, leaves, m, n) == None
    {
      var k := FromPlace(bp.dvas, m, |bp.dvas|);
      if i < k {
        RankMono(bp.dvas, i + 1, k);
        PresentAt(bp.dvas, i);
      }
      assert Before(k, n, i, j) && NoCopy(pool, bp, bp.dvas[k], leaves[n]);
      var raw := Verified(pool, bp, dvas, leaves, m, n);
      if raw.Some? {
        VerifiedIs(pool, bp, leaves, k, n, raw.value);
      }
    }
  }

  /** Main result, on the raw fields: on a leaf or a mirror the first copy in order, by
    * address and then by device, is what is returned, inflated to the logical size. */
  lemma FirstCopyWins(pool: Pool, topo: Topology, leaves: seq<nat>, bp: BlockPointer, i: nat, j: nat, raw: seq<byte>)
    requires bp.Regular? && Readable(bp) && On(topo, leaves) && i < |bp.dvas| && j < |leaves|
    requires HasCopy(pool, bp, bp.dvas[i], leaves[j], raw) && NoneBefore(pool, bp, leaves, i, j)
    ensures ReadPointer(pool, topo, bp) == pool.inflate(bp.props.compression, raw, 512 * bp.props.logicalSectors)
  {
    hide Verified, NoneUpTo, NoneBefore, Present, HasCopy, Rank;
    CopyPresent(pool, bp, bp.dvas[i], leaves[j], raw);
    PlacedIs(bp);
    VerifiedIs(pool, bp, leaves, i, j, raw);
    NoneBeforeIs(pool, bp, leaves, i, j);
    MirrorRead(pool, topo, bp);
    assert ReadOrder(topo) == leaves;
    assert Verified(pool, bp, Present(bp.dvas), ReadOrder(topo), Rank(bp.dvas, i), j).Some?;
  }

  lemma CopyPresent(pool: Pool, bp: BlockPointer, dva: Option<Dva>, mi: nat, raw: seq<byte>)
    requires bp.Regular? && HasCopy(pool, bp, dva, mi, raw)
    ensures dva.Some?
  {
  }

  /** And with no copy at all the read fails. */
  lemma NoCopyFails(pool: Pool, topo: Topology, leaves: seq<nat>, bp: BlockPointer)
    requires bp.Regular? && Readable(bp) && On(topo, leaves) && NoneBefore(pool, bp, leaves, |bp.dvas|, 0)
    ensures ReadPointer(pool, topo, bp).Err?
  {
    hide Verified, NoneUpTo, NoneBefore;
    PlacedIs(bp);
    NoneBeforeIs(pool, bp, leaves, |bp.dvas|, 0);
    assert bp.dvas[..|bp.dvas|] == bp.dvas;
    MirrorRead(pool, topo, bp);
    assert ReadOrder(topo) == leaves;
  }

  /** What is refused before any device is read, in the order of the checks. */
  lemma Refused(pool: Pool, topo: Topology, bp: BlockPointer)
    requires bp.Regular?
    ensures bp.props.physicalSectors == 0 || bp.props.physicalSectors > 32768 ==>
              ReadPointer(pool, topo, bp) == Err(Inconsistent("bp_bad_psize"))
    ensures 0 < bp.props.physicalSectors <= 32768 && !Readable(bp) ==>
              ReadPointer(pool, topo, bp) in [Err(Unsupported("gang_block")), Err(Inconsistent("dva_vdev"))]
  {
    if !Readable(bp) && 0 < bp.props.physicalSectors <= 32768 {
      var k :| 0 <= k < |bp.dvas| && bp.dvas[k].Some? && (bp.dvas[k].value.gang || bp.dvas[k].value.vdev != 0);
      PresentAt(bp.dvas, k);
      WhatIsPlaced(Present(bp.dvas));
      assert Present(bp.dvas)[Rank(bp.dvas, k)] in Present(bp.dvas);
      MisplacedIs(Present(bp.dvas));
    }
  }

  lemma {:induction false} MisplacedIs(dvas: seq<Dva>)
    ensures Misplaced(dvas).Some? ==>
              Misplaced(dvas).value in [Unsupported("gang_block"), Inconsistent("dva_vdev")]
  {
    if dvas == [] {
    } else {
      MisplacedIs(dvas[1..]);
    }
  }
}
