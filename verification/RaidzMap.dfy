/** The column map in bytes: `raidz_map` of src/vdev.rs. */
module RaidzMap {
  import opened Base
  import opened BitOps
  import opened Errors
  import opened RaidzGeometry

  datatype Col = Col(devidx: nat, offset: nat, size: nat, parity: bool)

  const GEOM := Inconsistent("raidz_geom")

  /** 64-bit wrap-around. */
  function Wrap64(x: nat): (r: u64) {
    x % U64_SIZE
  }

  /** Bytes in whole sectors, rounded up. */
  function SectorsFor(psize: nat, sec: nat): (s: nat)
    requires 0 < sec
    ensures psize <= Scale(s, sec) < psize + sec && (s == 0 <==> psize == 0)
  {
    var s := (psize + sec - 1) / sec;
    RoundsUp(psize, sec, s);
    s
  }

  lemma RoundsUp(psize: nat, sec: nat, s: int)
    requires 0 < sec && s == (psize + sec - 1) / sec
    ensures 0 <= s && psize <= Scale(s, sec) < psize + sec && (s == 0 <==> psize == 0)
  {
    assert psize + sec - 1 == s * sec + (psize + sec - 1) % sec;
    ScaleIs(s, sec);
    if s > 0 {
      ScaleMono(1, s, sec);
    }
  }

  /** A DVA offset counts 512-byte sectors. */
  function FirstSector(offset: nat, ashift: nat): (b: nat)
    requires 9 <= ashift
    ensures Scale(b, Pow2(ashift)) <= offset * 512 < Scale(b + 1, Pow2(ashift))
  {
    var b := offset / Pow2(ashift - 9);
    SectorBytes(offset, ashift, b);
    b
  }

  lemma SectorBytes(offset: nat, ashift: nat, b: int)
    requires 9 <= ashift && b == offset / Pow2(ashift - 9)
    ensures 0 <= b && Scale(b, Pow2(ashift)) <= offset * 512 < Scale(b + 1, Pow2(ashift))
  {
    var unit := Pow2(ashift - 9);
    Pow2Add(9, ashift - 9);
    Pow2Bytes();
    FloorScale(offset, unit, b);
    ScaleIs(b, 512 * unit);
    ScaleIs(b + 1, 512 * unit);
  }

  lemma FloorScale(offset: nat, unit: nat, b: int)
    requires 0 < unit && b == offset / unit
    ensures 0 <= b && b * (512 * unit) <= offset * 512 < (b + 1) * (512 * unit)
  {
    assert b * unit <= offset < (b + 1) * unit;
    assert b * (512 * unit) == (b * unit) * 512 && (b + 1) * (512 * unit) == ((b + 1) * unit) * 512;
  }

  function GeomOf(offset: nat, ashift: nat, dcols: nat, nparity: nat, psize: nat): (g: Geom)
    requires 9 <= ashift
  {
    Geom(FirstSector(offset, ashift), SectorsFor(psize, Pow2(ashift)), dcols, nparity)
  }

  /** The offset is computed in 64 bits: a left shift drops high bits, an addition
    * wraps. */
  function Column(g: Geom, sec: nat, c: nat): (col: Col)
    requires g.Valid() && c < g.Columns()
  {
    var o := Wrap64(Scale(g.Start().row, sec));
    Col(g.Child(c), if g.Wraps(c) then Wrap64(o + sec) else o, Scale(g.Rows(c), sec), c < g.p)
  }

  function Layout(g: Geom, sec: nat): (cols: seq<Col>)
    requires g.Valid()
    ensures |cols| == g.Columns() && forall c :: 0 <= c < |cols| ==> cols[c] == Column(g, sec, c)
  {
    seq(g.Columns(), c requires 0 <= c < g.Columns() => Column(g, sec, c))
  }

  /** No byte offset of the layout needs more than 64 bits. */
  predicate Fits(g: Geom, sec: nat)
    requires g.Valid()
  {
    Scale(g.Start().row, sec) + (if g.Wraps(g.Columns() - 1) then sec else 0) < U64_SIZE
  }

  /** Every column starts at the byte of its first row. */
  ghost predicate Exact(g: Geom, sec: nat)
    requires g.Valid()
  {
    forall c :: 0 <= c < g.Columns() ==> Column(g, sec, c).offset == Scale(g.FirstRow(c), sec)
  }

  /** The 64-bit offsets are the true ones exactly when those fit. */
  lemma OffsetsExact(g: Geom, sec: nat)
    requires g.Valid() && 0 < sec
    ensures Exact(g, sec) <==> Fits(g, sec)
  {
    var last := g.Columns() - 1;
    if Fits(g, sec) {
      forall c | 0 <= c < g.Columns()
        ensures Column(g, sec, c).offset == Scale(g.FirstRow(c), sec)
      {
        assert g.Wraps(c) ==> g.Wraps(last);
      }
    }
    if Exact(g, sec) {
      assert Column(g, sec, last).offset == Scale(g.FirstRow(last), sec);
      assert Column(g, sec, 0).offset == Scale(g.FirstRow(0), sec);
    }
  }

  /** A column has at least one sector. */
  lemma ColumnNonEmpty(g: Geom, c: nat)
    requires g.Valid() && c < g.Columns()
    ensures 0 < g.Rows(c)
  {
  }

  lemma RowsApart(r: nat, n: nat, r': nat, sec: nat)
    requires r + n <= r'
    ensures Scale(r, sec) + Scale(n, sec) <= Scale(r', sec)
  {
    ScaleAdd(r, n, sec);
    ScaleMono(r + n, r', sec);
  }

  /** Blocks with disjoint runs of logical sectors share no byte of any child. */
  lemma BytesDisjoint(g: Geom, h: Geom, sec: nat, c: nat, c': nat)
    requires g.Valid() && h.Valid() && g.d == h.d && Exact(g, sec) && Exact(h, sec)
    requires g.b + g.Span() <= h.b || h.b + h.Span() <= g.b
    requires c < g.Columns() && c' < h.Columns()
    ensures var x, y := Column(g, sec, c), Column(h, sec, c');
            x.devidx == y.devidx ==> x.offset + x.size <= y.offset || y.offset + y.size <= x.offset
  {
    var r, n, r', n' := g.FirstRow(c), g.Rows(c), h.FirstRow(c'), h.Rows(c');
    ColumnNonEmpty(g, c);
    ColumnNonEmpty(h, c');
    if r + n <= r' {
      RowsApart(r, n, r', sec);
    } else if r' + n' <= r {
      RowsApart(r', n', r, sec);
    } else {
      BlocksDisjoint(g, h, c, c', Place(g.Child(c), if r < r' then r' else r));
    }
  }

  function DataBytes(cols: seq<Col>, n: nat): (sum: nat)
    requires n <= |cols|
  {
    if n == 0 then 0 else DataBytes(cols, n - 1) + if cols[n - 1].parity then 0 else cols[n - 1].size
  }

  lemma {:induction false} DataBytesAre(g: Geom, sec: nat, n: nat)
    requires g.Valid() && n <= g.Columns()
    ensures DataBytes(Layout(g, sec), n) == Scale(DataRows(g, n), sec)
  {
    if n == 0 {
    } else {
      DataBytesAre(g, sec, n - 1);
      if n > g.p {
        ScaleAdd(DataRows(g, n - 1), g.Rows(n - 1), sec);
      }
    }
  }

  /** The data columns hold the block, rounded up to whole sectors. */
  lemma DataBytesRoundUp(offset: nat, ashift: nat, dcols: nat, nparity: nat, psize: nat)
    requires 9 <= ashift && nparity < dcols && 0 < psize
    ensures var g := GeomOf(offset, ashift, dcols, nparity, psize);
            && g.Valid()
            && DataBytes(Layout(g, Pow2(ashift)), g.Columns()) == Scale(g.s, Pow2(ashift))
            && psize <= Scale(g.s, Pow2(ashift)) < psize + Pow2(ashift)
  {
    var g := GeomOf(offset, ashift, dcols, nparity, psize);
    DataBytesAre(g, Pow2(ashift), g.Columns());
    DataRowsAre(g);
  }

  lemma WrapsNeedsRoom(g: Geom)
    requires g.Valid()
    ensures g.Start().row <= g.b
    ensures g.Wraps(g.Columns() - 1) ==> g.Start().row + 1 <= g.b
  {
    ScaleAtLeast(g.Start().row, g.d);
  }

  /** A DVA whose byte offset fits 64 bits has exact column offsets. */
  lemma DvaFits(offset: nat, ashift: nat, dcols: nat, nparity: nat, psize: nat)
    requires 9 <= ashift && nparity < dcols && 0 < psize && offset * 512 < U64_SIZE
    ensures var g := GeomOf(offset, ashift, dcols, nparity, psize);
            g.Valid() && Fits(g, Pow2(ashift)) && Exact(g, Pow2(ashift))
  {
    var g, sec := GeomOf(offset, ashift, dcols, nparity, psize), Pow2(ashift);
    WrapsNeedsRoom(g);
    ScaleMono(g.Start().row, g.b, sec);
    if g.Wraps(g.Columns() - 1) {
      ScaleMono(g.Start().row + 1, g.b, sec);
    }
    OffsetsExact(g, sec);
  }

  /** Without that, the shift can lose bits and two far-apart blocks land on the same
    * bytes: on two 4 KiB-sector children, address 2^56 starts where address 0 does. */
  lemma WrappedOffsetsCollide()
    ensures var g, h := GeomOf(0x100_0000_0000_0000, 12, 2, 1, 512), GeomOf(0, 12, 2, 1, 512);
            && g.Valid() && h.Valid() && h.b + h.Span() <= g.b
            && Layout(g, Pow2(12))[0] == Layout(h, Pow2(12))[0]
  {
    SmallPowers();
    assert FirstSector(0x100_0000_0000_0000, 12) == 0x20_0000_0000_0000 && FirstSector(0, 12) == 0;
    assert SectorsFor(512, Pow2(12)) == 1;
    var g, h := Geom(0x20_0000_0000_0000, 1, 2, 1), Geom(0, 1, 2, 1);
    PlaceIs(g.b, g.d);
    PlaceIs(h.b, h.d);
    ScaleIs(g.Start().row, 0x1000);
  }

  lemma SmallPowers()
    ensures Pow2(3) == 8 && Pow2(12) == 0x1000
  {
    Pow2Bytes();
    Pow2Add(3, 9);
  }

  /** Sizes stay within 64 bits. */
  lemma SizeBound(g: Geom, sec: nat, psize: nat)
    requires g.Valid() && Scale(g.s, sec) < psize + sec
    ensures Scale(g.Quota(), sec) < psize + sec
  {
    ScaleAtLeast(g.Quota(), g.d - g.p);
    ScaleMono(g.Quota(), g.s, sec);
  }

  lemma SectorSizes(ashift: nat)
    requires ashift <= ASHIFT_MAX
    ensures Pow2(ashift) <= 0x1_0000
  {
    Pow2Mono(ashift, 16);
    Pow2Add(8, 8);
    Pow2Bytes();
  }

  /** The number of children is the length of a vector, and sizes are block sizes. */
  method RaidzColumns(offset: u64, ashift: byte, dcols: nat, nparity: nat, psize: nat)
    returns (r: Result<seq<Col>, Error>)
    requires dcols <= 0x8000_0000_0000_0000 && psize + 0x2_0000 <= U64_SIZE
    ensures r == if dcols <= nparity || !(9 <= ashift <= ASHIFT_MAX) || psize == 0 then Err(GEOM)
                 else Ok(Layout(GeomOf(offset, ashift, dcols, nparity, psize), Pow2(ashift)))
  {
    if dcols <= nparity || !(9 <= ashift <= ASHIFT_MAX) {
      return Err(GEOM);
    }
    SectorSizes(ashift);
    var secsize := Pow2(ashift);
    var b := FirstSector(offset, ashift);
    var s := SectorsFor(psize, secsize);
    if s == 0 {
      return Err(GEOM);
    }
    var cols := Deal(Geom(b, s, dcols, nparity), secsize, psize);
    r := Ok(cols);
  }

  /** The loop over the columns; every value computed fits 64 bits. */
  method Deal(g: Geom, secsize: nat, ghost psize: nat) returns (cols: seq<Col>)
    requires g.Valid() && g.d <= 0x8000_0000_0000_0000 && secsize <= 0x1_0000
    requires psize + 0x2_0000 <= U64_SIZE && Scale(g.s, secsize) < psize + secsize
    ensures cols == Layout(g, secsize)
  {
    SizeBound(g, secsize, psize);
    PlaceIs(g.b, g.d);
    PlaceIs(g.s, g.d - g.p);
    var f, row := g.b % g.d, g.b / g.d;
    var q := g.s / (g.d - g.p);
    var rest := g.s % (g.d - g.p);
    var o := Wrap64(Scale(row, secsize));
    var bc := if rest == 0 then 0 else rest + g.p;
    var acols := if q == 0 then bc else g.d;
    cols := [];
    for c := 0 to acols
      invariant |cols| == c && forall i :: 0 <= i < c ==> cols[i] == Column(g, secsize, i)
    {
      var col := MakeColumn(f, o, q, bc, g.d, secsize, c, g.p);
      assert col == Column(g, secsize, c);
      cols := cols + [col];
    }
  }

  method MakeColumn(f: nat, o: u64, q: nat, bc: nat, dcols: nat, secsize: nat, c: nat, nparity: nat) returns (r: Col)
    requires f < dcols <= 0x8000_0000_0000_0000 && c < dcols && Scale(q, secsize) + secsize < U64_SIZE
    ensures r == Col(if f + c >= dcols then f + c - dcols else f + c, if f + c >= dcols then Wrap64(o + secsize) else o,
                     Scale(if c < bc then q + 1 else q, secsize), c < nparity)
  {
    var col: u64 := f + c;
    var devidx, coff := col, o;
    if col >= dcols {
      devidx, coff := col - dcols, Wrap64(o + secsize);
    }
    ScaleIs(q + 1, secsize);
    ScaleIs(q, secsize);
    var size: u64 := if c < bc then (q + 1) * secsize else q * secsize;
    r := Col(devidx, coff, size, c < nparity);
  }
}
