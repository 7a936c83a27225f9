/** Whole files and windows of them: `read` and `read_at` of src/lib.rs. */
module FileReader {
  import opened Base
  import opened Errors
  import opened IndirectTree
  import opened FileRange

  const MAX_FILE := 0x1000_0000

  const TOO_LARGE := TooLarge("file")

  /** A regular file: how a byte range of its object reads, and its length. */
  datatype File = File(read: (nat, nat) -> Result<seq<byte>, Error>, size: u64)

  function OpenFile<P(!new)>(store: Store<P>, dnode: Dnode<P>, size: u64): (file: File) {
    File((off, len) => ReadRange(BlocksOf(store, dnode), BlockSize(dnode), off, len), size)
  }

  function ReadAll(file: File): (r: Result<seq<byte>, Error>) {
    if file.size > MAX_FILE then Err(TOO_LARGE) else file.read(0, file.size)
  }

  /** A window, clamped to the end of the file. */
  function ReadAt(file: File, offset: nat, len: nat): (r: Result<seq<byte>, Error>) {
    if offset >= file.size then Ok([]) else
      var want := Min(len, file.size - offset);
      if want > MAX_FILE then Err(TOO_LARGE) else file.read(offset, want)
  }

  /** Consecutive windows of the given lengths. */
  function ReadWindows(file: File, offset: nat, lens: seq<nat>): (r: Result<seq<byte>, Error>)
    decreases |lens|
  {
    if lens == [] then Ok([]) else
      match ReadAt(file, offset, lens[0])
      case Err(e) => Err(e)
      case Ok(data) => Prepend(data, ReadWindows(file, offset + lens[0], lens[1..]))
  }

  function Sum(lens: seq<nat>): (n: nat) {
    if lens == [] then 0 else lens[0] + Sum(lens[1..])
  }

  /** The bytes from `i` up to `j`. */
  function Stretch(file: File, i: nat, j: nat): (r: Result<seq<byte>, Error>)
    requires i <= j
  {
    file.read(i, j - i)
  }

  /** Adjacent stretches join. */
  ghost predicate Joins(file: File) {
    && (forall i: nat :: Stretch(file, i, i) == Ok([]))
    && (forall i: nat, j: nat, k: nat :: i <= j <= k <= file.size && Stretch(file, i, j).Ok? && Stretch(file, j, k).Ok?
          ==> Stretch(file, i, k) == Prepend(Stretch(file, i, j).value, Stretch(file, j, k)))
  }

  lemma EmptyRange(blocks: Blocks, size: nat, off: nat)
    requires 0 < size
    ensures ReadRange(blocks, size, off, 0) == Ok([])
  {
  }

  lemma OpenFileJoins<P(!new)>(store: Store<P>, dnode: Dnode<P>, size: u64)
    requires 0 < BlockSize(dnode)
    ensures Joins(OpenFile(store, dnode, size))
  {
    hide ReadRange, BlocksOf, Prepend;
    var blocks, unit, file := BlocksOf(store, dnode), BlockSize(dnode), OpenFile(store, dnode, size);
    forall i: nat
      ensures Stretch(file, i, i) == Ok([])
    {
      EmptyRange(blocks, unit, i);
    }
    forall i: nat, j: nat, k: nat | i <= j <= k <= size && Stretch(file, i, j).Ok? && Stretch(file, j, k).Ok?
      ensures Stretch(file, i, k) == Prepend(Stretch(file, i, j).value, Stretch(file, j, k))
    {
      RangesJoin(blocks, unit, i, j - i, k - j);
      assert j - i + (k - j) == k - i;
    }
  }

  /** A stretch that reads, reads in part. */
  lemma StretchParts<P(!new)>(store: Store<P>, dnode: Dnode<P>, size: u64, i: nat, j: nat, k: nat)
    requires i <= j <= k <= size && Stretch(OpenFile(store, dnode, size), i, k).Ok?
    ensures Stretch(OpenFile(store, dnode, size), i, j).Ok? && Stretch(OpenFile(store, dnode, size), j, k).Ok?
  {
    hide ReadRange, BlocksOf;
    assert j - i + (k - j) == k - i;
    RangesPart(BlocksOf(store, dnode), BlockSize(dnode), i, j - i, k - j);
  }

  lemma {:induction false} WindowsPastEnd(file: File, offset: nat, lens: seq<nat>)
    requires file.size <= offset
    ensures ReadWindows(file, offset, lens) == Ok([])
    decreases |lens|
  {
    if lens == [] {
    } else {
      WindowsPastEnd(file, offset + lens[0], lens[1..]);
      PrependEmpty([]);
    }
  }

  lemma WindowIsStretch(file: File, offset: nat, len: nat)
    requires offset < file.size && ReadAt(file, offset, len).Ok?
    ensures ReadAt(file, offset, len) == Stretch(file, offset, Min(offset + len, file.size))
  {
    assert Min(offset + len, file.size) - offset == Min(len, file.size - offset);
  }

  /** Windows that read give the stretch they cover, up to the end of the file. */
  lemma {:induction false} WindowsAreStretch(file: File, offset: nat, lens: seq<nat>)
    requires Joins(file) && offset <= file.size && ReadWindows(file, offset, lens).Ok?
    ensures Stretch(file, offset, Min(offset + Sum(lens), file.size)) == ReadWindows(file, offset, lens)
    decreases |lens|
  {
    if lens == [] {
    } else {
      var n, rest := lens[0], lens[1..];
      if offset + n < file.size {
        WindowIsStretch(file, offset, n);
        WindowsAreStretch(file, offset + n, rest);
      } else {
        WindowsPastEnd(file, offset + n, rest);
        PrependEmpty(ReadAt(file, offset, n).value);
        if offset < file.size {
          WindowIsStretch(file, offset, n);
        }
      }
    }
  }

  lemma {:induction false} FileReadsInWindows<P(!new)>(store: Store<P>, dnode: Dnode<P>, size: u64, offset: nat,
                                                lens: seq<nat>)
    requires size <= MAX_FILE && Stretch(OpenFile(store, dnode, size), 0, size).Ok?
    ensures ReadWindows(OpenFile(store, dnode, size), offset, lens).Ok?
    decreases |lens|
  {
    hide ReadRange, BlocksOf;
    if lens == [] {
    } else {
      FileReadsInWindows(store, dnode, size, offset + lens[0], lens[1..]);
      if offset < size {
        StretchParts(store, dnode, size, 0, offset, size);
        StretchParts(store, dnode, size, offset, Min(offset + lens[0], size), size);
        assert Min(offset + lens[0], size) - offset == Min(lens[0], size - offset);
      }
    }
  }

  /** An object without a block size has no window that reads, but past its end. */
  lemma NoBlockSize<P(!new)>(store: Store<P>, dnode: Dnode<P>, size: u64, lens: seq<nat>)
    requires BlockSize(dnode) == 0 && 0 < size && lens != []
    ensures ReadWindows(OpenFile(store, dnode, size), 0, lens).Err?
  {
  }

  /** Main result: consecutive windows that cover a file give what reading it whole
    * gives, whenever that succeeds; and windows that succeed are the whole file
    * exactly when it is at most 256 MiB and not an empty file without a block size. */
  lemma WindowsAreFile<P(!new)>(store: Store<P>, dnode: Dnode<P>, size: u64, lens: seq<nat>)
    requires size <= Sum(lens)
    ensures var file := OpenFile(store, dnode, size);
            && (ReadAll(file).Ok? ==> ReadWindows(file, 0, lens) == ReadAll(file))
            && (ReadWindows(file, 0, lens).Ok? ==>
                  (ReadAll(file) == ReadWindows(file, 0, lens)
                   <==> size <= 268435456 && (0 < dnode.sectors || 0 < size)))
  {
    hide BlocksOf;
    var file := OpenFile(store, dnode, size);
    if size <= MAX_FILE {
      assert ReadAll(file) == Stretch(file, 0, size);
      if BlockSize(dnode) == 0 {
        if 0 < size {
          NoBlockSize(store, dnode, size, lens);
        }
      } else {
        OpenFileJoins(store, dnode, size);
        if ReadAll(file).Ok? {
          FileReadsInWindows(store, dnode, size, 0, lens);
        }
        if ReadWindows(file, 0, lens).Ok? {
          WindowsAreStretch(file, 0, lens);
        }
      }
    }
  }

  /** The two kinds of file that read in windows and not whole: the empty file of an
    * object without a block size, whatever the windows, and a file over the limit, here a
    * byte over. */
  lemma EmptyFileOnlyInWindows<P(!new)>(store: Store<P>, dnode: Dnode<P>, offset: nat, lens: seq<nat>)
    requires BlockSize(dnode) == 0
    ensures var file := OpenFile(store, dnode, 0);
            ReadWindows(file, offset, lens) == Ok([]) && ReadAll(file) == Err(NO_BLOCK_SIZE)
  {
    WindowsPastEnd(OpenFile(store, dnode, 0), offset, lens);
  }

  lemma LargeFileOnlyInWindows<P(!new)>(store: Store<P>, dnode: Dnode<P>)
    requires dnode.levels == 0 && 0 < dnode.sectors
    ensures var file := OpenFile(store, dnode, MAX_FILE + 1);
            ReadWindows(file, 0, [MAX_FILE, 1]).Ok? && ReadAll(file) == Err(TOO_LARGE)
  {
    hide ReadRange, BlocksOf;
    TwoWindows(store, dnode, MAX_FILE, 1);
  }

  lemma TwoWindows<P(!new)>(store: Store<P>, dnode: Dnode<P>, a: nat, b: nat)
    requires dnode.levels == 0 && 0 < dnode.sectors && 0 < b && a <= MAX_FILE && b <= MAX_FILE
    ensures ReadWindows(OpenFile(store, dnode, a + b), 0, [a, b]).Ok?
  {
    hide ReadRange, BlocksOf;
    var file := OpenFile(store, dnode, a + b);
    HolesRead(store, dnode, 0, a);
    HolesRead(store, dnode, a, b);
    assert [a, b][1..] == [b] && [b][1..] == [];
    assert ReadAt(file, a, b) == Ok(Zeros(b));
    assert ReadWindows(file, a, [b]).Ok?;
  }

  /** An object with no levels is one hole. */
  lemma HolesRead<P(!new)>(store: Store<P>, dnode: Dnode<P>, off: nat, len: nat)
    requires dnode.levels == 0 && 0 < dnode.sectors && off + len <= U64_SIZE
    ensures ReadRange(BlocksOf(store, dnode), BlockSize(dnode), off, len) == Ok(Zeros(len))
  {
    HolesShow(BlocksOf(store, dnode), BlockSize(dnode), off, len);
    RangeIsSparse(BlocksOf(store, dnode), BlockSize(dnode), off, len, Zeros(len));
  }

  lemma WithinReach(size: nat, off: nat, len: nat)
    requires 0 < size && off + len <= U64_SIZE
    ensures len == 0 || InReach(size, off, len)
  {
    hide InReach, Limit;
    ReachIs(size, off, len);
  }

  /** Main result, on the raw fields: exactly what a file reads as, up to 256 MiB. */
  lemma FileIs<P(!new)>(store: Store<P>, dnode: Dnode<P>, size: u64, data: seq<byte>)
    ensures ReadAll(OpenFile(store, dnode, size)) == Ok(data)
            <==> && size <= 268435456 && 0 < dnode.sectors && |data| == size
                 && forall i :: 0 <= i < size ==> ObjectByte(store, dnode, i, data[i])
  {
    hide ReadRange, BlocksOf, ObjectByte, InReach;
    ObjectBytes(store, dnode, 0, size, data);
    if 0 < dnode.sectors {
      WithinReach(512 * dnode.sectors, 0, size);
      NothingToReach(512 * dnode.sectors, 0);
    }
  }

  /** And a window of it, cut to the end of the file. */
  lemma WindowIs<P(!new)>(store: Store<P>, dnode: Dnode<P>, size: u64, off: nat, len: nat, data: seq<byte>)
    ensures ReadAt(OpenFile(store, dnode, size), off, len) == Ok(data)
            <==> if off >= size then data == [] else
                   && |data| == Min(len, size - off) <= 268435456 && 0 < dnode.sectors
                   && forall i :: 0 <= i < |data| ==> ObjectByte(store, dnode, off + i, data[i])
  {
    hide ReadRange, BlocksOf, ObjectByte, InReach;
    if off < size {
      var want := Min(len, size - off);
      ObjectBytes(store, dnode, off, want, data);
      if 0 < dnode.sectors {
        WithinReach(512 * dnode.sectors, off, want);
        NothingToReach(512 * dnode.sectors, off);
      }
    }
  }

  lemma NothingToReach(size: nat, off: nat)
    requires 0 < size
    ensures InReach(size, off, 0)
  {
  }
}
