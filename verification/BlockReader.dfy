/** Reading one block pointer: `read_block_pointer` of src/vdev.rs. */
module BlockReader {
  import opened Base
  import opened Errors
  import opened BlockPointers
  import opened Devices
  import RaidzRead

  datatype Topology =
    | Single(member: nat)
    | Mirror(copies: seq<nat>)
    | RaidZ1(children: seq<Option<nat>>, ashift: byte)

  function ReadOrder(topo: Topology): (members: seq<nat>) {
    match topo
    case Single(member) => [member]
    case Mirror(copies) => copies
    case RaidZ1(_, _) => []
  }

  /** Byte on a leaf device, none when it does not fit 64 bits. */
  function ByteOffset(offset: u64): (r: Option<u64>)
    ensures r.Some? <==> offset * 512 + LABEL_RESERVE < U64_SIZE
    ensures r.Some? ==> r.value == offset * 512 + LABEL_RESERVE
  {
    var bytes := offset * 512;
    if bytes >= U64_SIZE || bytes + LABEL_RESERVE >= U64_SIZE then None else Some(bytes + LABEL_RESERVE)
  }

  function Present(dvas: seq<Option<Dva>>): (r: seq<Dva>) {
    if dvas == [] then []
    else if dvas[0].None? then Present(dvas[1..])
    else [dvas[0].value] + Present(dvas[1..])
  }

  /** The first address that names no data on this pool. */
  function Misplaced(dvas: seq<Dva>): (r: Option<Error>) {
    if dvas == [] then None
    else if dvas[0].gang then Some(Unsupported("gang_block"))
    else if dvas[0].vdev != 0 then Some(Inconsistent("dva_vdev"))
    else Misplaced(dvas[1..])
  }

  /** Nothing is misplaced exactly when every address is plain and on the one vdev. */
  lemma {:induction false} WhatIsPlaced(dvas: seq<Dva>)
    ensures Misplaced(dvas).None? <==> forall d :: d in dvas ==> !d.gang && d.vdev == 0
  {
    if dvas == [] {
    } else {
      WhatIsPlaced(dvas[1..]);
      assert dvas == [dvas[0]] + dvas[1..];
    }
  }

  datatype Outcome = Skipped | Failed(error: Error) | Good(raw: seq<byte>)

  /** One copy on one member. */
  function Try(pool: Pool, bp: BlockPointer, dva: Dva, byte: nat, mi: nat): (r: Outcome)
    requires bp.Regular?
    ensures r.Good? ==> Accepts(pool, bp, r.raw)
  {
    match Member(pool, mi)
    case None => Skipped
    case Some(member) =>
      match ReadExact(member, byte, PhysicalSize(bp))
      case None => Failed(Io("io_block", dva.vdev, byte))
      case Some(raw) =>
        AcceptsIsNoRefusal(pool, bp, dva, raw);
        match Refusal(pool, bp, dva, raw)
        case None => Good(raw)
        case Some(e) => Failed(e)
  }

  const OUT_OF_RANGE := Inconsistent("dva_out_of_range")
  const NO_READABLE := Inconsistent("bp_no_readable_copy")

  /** The search from address `i`, member `j`, `last` being the error so far. */
  function Copies(pool: Pool, bp: BlockPointer, dvas: seq<Dva>, members: seq<nat>, i: nat, j: nat,
                  last: Error): (r: Result<seq<byte>, Error>)
    requires bp.Regular? && i <= |dvas| && j <= |members|
    decreases |dvas| - i, |members| - j
  {
    if i == |dvas| then Err(last)
    else if ByteOffset(dvas[i].offset).None? then Copies(pool, bp, dvas, members, i + 1, 0, OUT_OF_RANGE)
    else if j == |members| then Copies(pool, bp, dvas, members, i + 1, 0, last)
    else
      match Try(pool, bp, dvas[i], ByteOffset(dvas[i].offset).value, members[j])
      case Good(raw) => Inflate(pool, bp, raw)
      case Failed(e) => Copies(pool, bp, dvas, members, i, j + 1, e)
      case Skipped => Copies(pool, bp, dvas, members, i, j + 1, last)
  }

  function ReadPointer(pool: Pool, topo: Topology, bp: BlockPointer): (r: Result<seq<byte>, Error>) {
    match bp
    case Embedded(compression, logicalSize, physicalSize, payload) =>
      if physicalSize <= |payload| then pool.inflate(compression, payload[..physicalSize], logicalSize)
      else Err(Inconsistent("embedded_short"))
    case Encrypted(_, _, _, _, _, _, _, _, _, _) => Err(UnsupportedFeature("encryption"))
    case Regular(_, _, _, _, _, _) =>
      var psize, dvas := PhysicalSize(bp), Present(bp.dvas);
      if psize == 0 || psize > MAX_BLOCK then Err(Inconsistent("bp_bad_psize"))
      else if Misplaced(dvas).Some? then Err(Misplaced(dvas).value)
      else if topo.RaidZ1? then RaidzRead.ReadBlock(pool, topo.children, topo.ashift, bp, dvas)
      else Copies(pool, bp, dvas, ReadOrder(topo), 0, 0, NO_READABLE)
  }

  /** The bytes of copy `i` on member `j`, when the address is in range, the member
    * there, the read good and the checksum right. */
  function Verified(pool: Pool, bp: BlockPointer, dvas: seq<Dva>, members: seq<nat>, i: nat,
                    j: nat): (r: Option<seq<byte>>)
    requires bp.Regular? && i < |dvas| && j < |members|
  {
    var byte, member := ByteOffset(dvas[i].offset), Member(pool, members[j]);
    if byte.None? || member.None? then None else
      var raw := ReadExact(member.value, byte.value, PhysicalSize(bp));
      if raw.Some? && Accepts(pool, bp, raw.value) then raw else None
  }

  predicate Before(i: nat, j: nat, i': nat, j': nat) {
    i < i' || (i == i' && j < j')
  }

  /** No copy from (i, j) up to (i', j'), which may be the end, verifies. */
  ghost predicate NoneUpTo(pool: Pool, bp: BlockPointer, dvas: seq<Dva>, members: seq<nat>, i: nat, j: nat, i': nat,
                           j': nat)
    requires bp.Regular?
  {
    forall m: nat, n: nat :: m < |dvas| && n < |members| && !Before(m, n, i, j) && Before(m, n, i', j')
      ==> Verified(pool, bp, dvas, members, m, n) == None
  }

  /** Main result: the first verifying copy in (address, member) order is the one
    * returned, whatever came before it. */
  lemma {:induction false} FirstVerifiedWins(pool: Pool, bp: BlockPointer, dvas: seq<Dva>, members: seq<nat>, i: nat,
                                             j: nat, last: Error,
                                             i': nat, j': nat)
    requires bp.Regular? && i <= |dvas| && j <= |members| && i' < |dvas| && j' < |members| && !Before(i', j', i, j)
    requires Verified(pool, bp, dvas, members, i', j').Some? && NoneUpTo(pool, bp, dvas, members, i, j, i', j')
    ensures Copies(pool, bp, dvas, members, i, j, last)
         == Inflate(pool, bp, Verified(pool, bp, dvas, members, i', j').value)
    decreases |dvas| - i, |members| - j
  {
    if ByteOffset(dvas[i].offset).None? {
      FirstVerifiedWins(pool, bp, dvas, members, i + 1, 0, OUT_OF_RANGE, i', j');
    } else if j == |members| {
      FirstVerifiedWins(pool, bp, dvas, members, i + 1, 0, last, i', j');
    } else {
      TryIsVerified(pool, bp, dvas, members, i, j);
      if i == i' && j == j' {
      } else {
        assert Verified(pool, bp, dvas, members, i, j) == None;
        var t := Try(pool, bp, dvas[i], ByteOffset(dvas[i].offset).value, members[j]);
        FirstVerifiedWins(pool, bp, dvas, members, i, j + 1, if t.Failed? then t.error else last, i', j');
      }
    }
  }

  lemma TryIsVerified(pool: Pool, bp: BlockPointer, dvas: seq<Dva>, members: seq<nat>, i: nat, j: nat)
    requires bp.Regular? && i < |dvas| && j < |members| && ByteOffset(dvas[i].offset).Some?
    ensures var t := Try(pool, bp, dvas[i], ByteOffset(dvas[i].offset).value, members[j]);
            Verified(pool, bp, dvas, members, i, j) == if t.Good? then Some(t.raw) else None
  {
    var member := Member(pool, members[j]);
    if member.Some? {
      var raw := ReadExact(member.value, ByteOffset(dvas[i].offset).value, PhysicalSize(bp));
      if raw.Some? {
        AcceptsIsNoRefusal(pool, bp, dvas[i], raw.value);
      }
    }
  }

  /** When no copy verifies the result is an error. */
  lemma {:induction false} NoneVerifiedFails(pool: Pool, bp: BlockPointer, dvas: seq<Dva>, members: seq<nat>, i: nat,
                                             j: nat, last: Error)
    requires bp.Regular? && i <= |dvas| && j <= |members| && NoneUpTo(pool, bp, dvas, members, i, j, |dvas|, 0)
    ensures Copies(pool, bp, dvas, members, i, j, last).Err?
    decreases |dvas| - i, |members| - j
  {
    if i == |dvas| {
    } else if ByteOffset(dvas[i].offset).None? {
      NoneVerifiedFails(pool, bp, dvas, members, i + 1, 0, OUT_OF_RANGE);
    } else if j == |members| {
      NoneVerifiedFails(pool, bp, dvas, members, i + 1, 0, last);
    } else {
      TryIsVerified(pool, bp, dvas, members, i, j);
      assert Verified(pool, bp, dvas, members, i, j) == None;
      var t := Try(pool, bp, dvas[i], ByteOffset(dvas[i].offset).value, members[j]);
      NoneVerifiedFails(pool, bp, dvas, members, i, j + 1, if t.Failed? then t.error else last);
    }
  }

  /** Both halves for a pointer on a single leaf or a mirror. */
  lemma MirrorRead(pool: Pool, topo: Topology, bp: BlockPointer)
    requires bp.Regular? && 0 < PhysicalSize(bp) <= MAX_BLOCK && !topo.RaidZ1? && Misplaced(Present(bp.dvas)).None?
    ensures var dvas, members := Present(bp.dvas), ReadOrder(topo);
            && (forall i, j :: 0 <= i < |dvas| && 0 <= j < |members| && Verified(pool, bp, dvas, members, i, j).Some?
                               && NoneUpTo(pool, bp, dvas, members, 0, 0, i, j)
                  ==> ReadPointer(pool, topo, bp) == Inflate(pool, bp, Verified(pool, bp, dvas, members, i, j).value))
            && (NoneUpTo(pool, bp, dvas, members, 0, 0, |dvas|, 0) ==> ReadPointer(pool, topo, bp).Err?)
  {
    var dvas, members := Present(bp.dvas), ReadOrder(topo);
    forall i, j | 0 <= i < |dvas| && 0 <= j < |members| && Verified(pool, bp, dvas, members, i, j).Some?
                  && NoneUpTo(pool, bp, dvas, members, 0, 0, i, j)
      ensures ReadPointer(pool, topo, bp) == Inflate(pool, bp, Verified(pool, bp, dvas, members, i, j).value)
    {
      FirstVerifiedWins(pool, bp, dvas, members, 0, 0, NO_READABLE, i, j);
    }
    if NoneUpTo(pool, bp, dvas, members, 0, 0, |dvas|, 0) {
      NoneVerifiedFails(pool, bp, dvas, members, 0, 0, NO_READABLE);
    }
  }

  lemma {:induction false} CopiesVerified(pool: Pool, bp: BlockPointer, dvas: seq<Dva>, members: seq<nat>, i: nat,
                                          j: nat, last: Error)
    returns (raw: seq<byte>)
    requires bp.Regular? && i <= |dvas| && j <= |members| && Copies(pool, bp, dvas, members, i, j, last).Ok?
    ensures Accepts(pool, bp, raw) && Copies(pool, bp, dvas, members, i, j, last) == Inflate(pool, bp, raw)
    decreases |dvas| - i, |members| - j
  {
    if ByteOffset(dvas[i].offset).None? {
      raw := CopiesVerified(pool, bp, dvas, members, i + 1, 0, OUT_OF_RANGE);
    } else if j == |members| {
      raw := CopiesVerified(pool, bp, dvas, members, i + 1, 0, last);
    } else {
      match Try(pool, bp, dvas[i], ByteOffset(dvas[i].offset).value, members[j])
      case Good(good) => raw := good;
      case Failed(e) => raw := CopiesVerified(pool, bp, dvas, members, i, j + 1, e);
      case Skipped => raw := CopiesVerified(pool, bp, dvas, members, i, j + 1, last);
    }
  }

  /** On every layout, with checksumming on, what is returned was inflated from
    * bytes that carry the pointer's digest. */
  lemma NothingUnverified(pool: Pool, topo: Topology, bp: BlockPointer) returns (raw: seq<byte>)
    requires bp.Regular? && bp.props.checksum != CHECKSUM_OFF && ReadPointer(pool, topo, bp).Ok?
    ensures pool.sum(bp.props.checksum, bp.props.order, raw) == Some(bp.digest)
    ensures ReadPointer(pool, topo, bp) == Inflate(pool, bp, raw)
  {
    if topo.RaidZ1? {
      raw := RaidzRead.NothingUnverified(pool, topo.children, topo.ashift, bp, Present(bp.dvas));
    } else {
      raw := CopiesVerified(pool, bp, Present(bp.dvas), ReadOrder(topo), 0, 0, NO_READABLE);
    }
  }

  method CheckPlaces(dvas: seq<Dva>) returns (r: Option<Error>)
    ensures r == Misplaced(dvas)
  {
    for i := 0 to |dvas|
      invariant Misplaced(dvas) == Misplaced(dvas[i..])
    {
      assert dvas[i..][1..] == dvas[i + 1..];
      if dvas[i].gang {
        return Some(Unsupported("gang_block"));
      }
      if dvas[i].vdev != 0 {
        return Some(Inconsistent("dva_vdev"));
      }
    }
    r := None;
  }

  method ReadCopies(pool: Pool, bp: BlockPointer, dvas: seq<Dva>, members: seq<nat>)
    returns (r: Result<seq<byte>, Error>)
    requires bp.Regular?
    ensures r == Copies(pool, bp, dvas, members, 0, 0, NO_READABLE)
  {
    var last := NO_READABLE;
    for i := 0 to |dvas|
      invariant Copies(pool, bp, dvas, members, 0, 0, NO_READABLE) == Copies(pool, bp, dvas, members, i, 0, last)
    {
      var byte := ByteOffset(dvas[i].offset);
      if byte.None? {
        last := OUT_OF_RANGE;
      } else {
        for j := 0 to |members|
          invariant Copies(pool, bp, dvas, members, 0, 0, NO_READABLE) == Copies(pool, bp, dvas, members, i, j, last)
        {
          match Try(pool, bp, dvas[i], byte.value, members[j])
          case Good(raw) => return Inflate(pool, bp, raw);
          case Failed(e) => last := e;
          case Skipped =>
        }
      }
    }
    r := Err(last);
  }

  method ReadBlockPointer(pool: Pool, topo: Topology, bp: BlockPointer) returns (r: Result<seq<byte>, Error>)
    requires topo.RaidZ1? ==> |topo.children| < 0x8000_0000_0000_0000
    ensures r == ReadPointer(pool, topo, bp)
  {
    match bp
    case Embedded(compression, logicalSize, physicalSize, payload) =>
      if physicalSize > |payload| {
        return Err(Inconsistent("embedded_short"));
      }
      return pool.inflate(compression, payload[..physicalSize], logicalSize);
    case Encrypted(_, _, _, _, _, _, _, _, _, _) =>
      return Err(UnsupportedFeature("encryption"));
    case Regular(_, _, _, _, _, _) =>
      var psize := PhysicalSize(bp);
      if psize == 0 || psize > MAX_BLOCK {
        return Err(Inconsistent("bp_bad_psize"));
      }
      var dvas := Present(bp.dvas);
      var bad := CheckPlaces(dvas);
      if bad.Some? {
        return Err(bad.value);
      }
      if topo.RaidZ1? {
        r := RaidzRead.Read(pool, topo.children, topo.ashift, bp, dvas);
        return;
      }
      r := ReadCopies(pool, bp, dvas, ReadOrder(topo));
  }
}
