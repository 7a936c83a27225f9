/** Whole runs of an XDR decoder: gets and cursor movements in any order, failed ones
  * included (src/phys/binary.rs). */
module XdrRuns {
  import opened Base
  import opened Cursors
  import opened Xdr

  /** A decoder as a value. */
  datatype Window = Window(data: seq<byte>, min: nat, max: nat, offset: nat) {
    predicate Valid() { min <= offset <= max <= |data| }

    function Rest(): (s: seq<byte>)
      requires Valid()
    {
      data[offset..max]
    }
  }

  datatype Op =
    | Read(kind: Kind)
    | Restart
    | Back(count: nat)
    | To(target: nat)
    | Over(count: nat)
    | OverZeros(count: nat)
    | TryOverZeros(count: nat)

  /** Where an operation leaves the cursor; movements by other than multiples of four,
    * or to them, are refused. */
  function After(w: Window, op: Op, utf8: Utf8): (w': Window)
    requires w.Valid()
    ensures w'.Valid() && w'.data == w.data && w'.min == w.min && w'.max == w.max
  {
    var left := w.max - w.offset;
    var offset :=
      match op
      case Read(kind) => w.offset + Decode(kind, utf8, w.Rest()).used
      case Restart => w.min
      case Back(count) => if count % 4 == 0 && w.min + count <= w.offset then w.offset - count else w.offset
      case To(target) => if target % 4 == 0 && w.min <= target <= w.max then target else w.offset
      case Over(count) => if count % 4 == 0 && count <= left then w.offset + count else w.offset
      case OverZeros(count) => if count % 4 == 0 && count <= left then w.offset + count else w.offset
      case TryOverZeros(count) =>
        if count % 4 == 0 && count <= left && AllZero(w.Rest()[..count]) then w.offset + count else w.offset;
    w.(offset := offset)
  }

  function Run(w: Window, ops: seq<Op>, utf8: Utf8): (w': Window)
    requires w.Valid()
    ensures w'.Valid()
    decreases |ops|
  {
    if ops == [] then w else Run(After(w, ops[0], utf8), ops[1..], utf8)
  }

  predicate Aligned(w: Window)
    requires w.Valid()
  {
    (w.offset - w.min) % 4 == 0
  }

  /** The window is whole words, and starts on one unless it is empty. */
  predicate Whole(w: Window)
    requires w.Valid()
  {
    (w.max - w.min) % 4 == 0 && (w.min % 4 == 0 || w.min == w.max)
  }

  lemma StepAligned(w: Window, op: Op, utf8: Utf8)
    requires w.Valid() && Whole(w) && Aligned(w)
    ensures Aligned(After(w, op, utf8))
  {
    hide Decode, AllZero;
    match op
    case Read(kind) => StaysAligned(kind, utf8, w.Rest());
    case _ =>
  }

  lemma {:induction false} RunAligned(w: Window, ops: seq<Op>, utf8: Utf8)
    requires w.Valid() && Whole(w) && Aligned(w)
    ensures Aligned(Run(w, ops, utf8))
    decreases |ops|
  {
    hide After;
    if ops == [] {
    } else {
      StepAligned(w, ops[0], utf8);
      RunAligned(After(w, ops[0], utf8), ops[1..], utf8);
    }
  }

  /** Main result: over every run of a fresh decoder the cursor is a multiple of four
    * from its start if and only if the window is whole. */
  lemma AlwaysAligned(data: seq<byte>, min: nat, max: nat, utf8: Utf8)
    requires min <= max <= |data|
    ensures (forall ops: seq<Op> :: Aligned(Run(Window(data, min, max, min), ops, utf8)))
            <==> Whole(Window(data, min, max, min))
  {
    var w := Window(data, min, max, min);
    if Whole(w) {
      forall ops: seq<Op>
        ensures Aligned(Run(w, ops, utf8))
      {
        RunAligned(w, ops, utf8);
      }
    } else {
      var op := Breaks(w, utf8);
      OneStep(w, op, utf8);
      assert !Aligned(Run(w, [op], utf8));
    }
  }

  lemma OneStep(w: Window, op: Op, utf8: Utf8)
    requires w.Valid()
    ensures Run(w, [op], utf8) == After(w, op, utf8)
  {
    assert [op][1..] == [];
  }

  /** Otherwise one operation is enough: reading all that is left, whose padding is cut
    * off, or seeking to a multiple of four. */
  lemma Breaks(w: Window, utf8: Utf8) returns (op: Op)
    requires w.Valid() && w.offset == w.min && !Whole(w)
    ensures !Aligned(After(w, op, utf8))
  {
    if (w.max - w.min) % 4 != 0 {
      op := Read(FixedKind(w.max - w.min));
      AlignedUnlessCut(op.kind, utf8, w.max - w.min, w.Rest());
    } else {
      op := To(w.min + 4 - w.min % 4);
    }
  }

  function WindowOf(d: Decoder): (w: Window)
    reads d
  {
    Window(d.data, d.min, d.max, d.offset)
  }

  /** The decoder's own operations: a test of the multiple, then the cursor's. */
  method Perform(d: Decoder, op: Op, utf8: Utf8)
    requires d.Valid()
    modifies d
    ensures d.Valid() && WindowOf(d) == After(old(WindowOf(d)), op, utf8)
  {
    hide Decode;
    match op
    case Read(kind) =>
      var item := Get(d, kind, utf8);
    case Restart =>
      d.Reset();
    case Back(count) =>
      if count % 4 == 0 { var ok := d.Rewind(count); }
    case To(target) =>
      if target % 4 == 0 { var ok := d.Seek(target); }
    case Over(count) =>
      if count % 4 == 0 { var ok := d.Skip(count); }
    case OverZeros(count) =>
      if count % 4 == 0 { var ok := d.SkipZeros(count); }
    case TryOverZeros(count) =>
      if count % 4 == 0 { var zero := d.IsSkipZeros(count); }
  }
}
