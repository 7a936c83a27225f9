/** Where RAID-Z puts a block. Number the sectors of a vdev of `d` children row by
  * row: logical sector `l` is sector `l / d` of child `l % d`. A block of `s` data
  * sectors takes one run of logical sectors from `b`, and its columns are that run
  * dealt out child by child. */
module RaidzGeometry {
  import opened Base
  import opened BitOps

  const ASHIFT_MAX := 16

  datatype Place = Place(child: nat, row: nat)

  /** Sector `l` dealt over `d` children. */
  function PlaceOf(l: nat, d: nat): (p: Place)
    requires 0 < d
    ensures p.child < d && Scale(p.row, d) + p.child == l
  {
    var x := Divide(l, d);
    Place(x.rem, x.quot)
  }

  lemma PlaceIs(l: nat, d: nat)
    requires 0 < d
    ensures PlaceOf(l, d) == Place(l % d, l / d)
  {
    DivideIs(l, d);
  }

  /** Dealing is a bijection. */
  lemma PlaceUnique(place: Place, d: nat)
    requires place.child < d
    ensures PlaceOf(Scale(place.row, d) + place.child, d) == place
  {
    DivideUnique(QuotRem(place.row, place.child), d);
  }

  /** `s` data sectors from logical sector `b` on `d` children, `p` of the columns
    * parity. */
  datatype Geom = Geom(b: nat, s: nat, d: nat, p: nat) {
    predicate Valid() { p < d && 0 < s }

    /** Where the run starts. */
    function Start(): (place: Place)
      requires Valid()
    {
      PlaceOf(b, d)
    }

    /** Whole rows, and the sectors of the last, shorter row with its parity. */
    function Quota(): (q: nat)
      requires Valid()
    {
      PlaceOf(s, d - p).row
    }

    function Big(): (bc: nat)
      requires Valid()
      ensures bc < d && (bc == 0 || p < bc)
      ensures s == Scale(Quota(), d - p) + (if bc == 0 then 0 else bc - p)
    {
      var r := PlaceOf(s, d - p).child;
      if r == 0 then 0 else r + p
    }

    function Columns(): (acols: nat)
      requires Valid()
      ensures p < acols <= d
    {
      if Quota() == 0 then Big() else d
    }

    function Rows(c: nat): (n: nat)
      requires Valid()
    {
      if c < Big() then Quota() + 1 else Quota()
    }

    function Span(): (n: nat)
      requires Valid()
    {
      Scale(Quota(), d) + Big()
    }

    predicate Wraps(c: nat)
      requires Valid()
    {
      Start().child + c >= d
    }

    function Child(c: nat): (i: nat)
      requires Valid() && c < d
      ensures i < d
    {
      if Wraps(c) then Start().child + c - d else Start().child + c
    }

    function FirstRow(c: nat): (i: nat)
      requires Valid()
    {
      if Wraps(c) then Start().row + 1 else Start().row
    }

    /** Column `c` has this sector. */
    predicate Has(c: nat, place: Place)
      requires Valid()
    {
      && c < Columns()
      && place.child == Child(c)
      && FirstRow(c) <= place.row < FirstRow(c) + Rows(c)
    }

    ghost predicate Holds(place: Place)
      requires Valid()
    {
      exists c :: Has(c, place)
    }
  }

  /** Row `j` of column `c` is logical sector `b + c + j * d`. */
  lemma ColumnSector(g: Geom, c: nat, j: nat)
    requires g.Valid() && c < g.d
    ensures PlaceOf(g.b + c + Scale(j, g.d), g.d) == Place(g.Child(c), g.FirstRow(c) + j)
  {
    FirstRowSector(g, c);
    hide PlaceOf, Scale;
    RowsLater(g.b + c, Place(g.Child(c), g.FirstRow(c)), g.d, j);
  }

  lemma RowsLater(l: nat, place: Place, d: nat, j: nat)
    requires place.child < d && Scale(place.row, d) + place.child == l
    ensures PlaceOf(l + Scale(j, d), d) == Place(place.child, place.row + j)
  {
    ScaleAdd(place.row, j, d);
    PlaceUnique(Place(place.child, place.row + j), d);
  }

  lemma FirstRowSector(g: Geom, c: nat)
    requires g.Valid() && c < g.d
    ensures Scale(g.FirstRow(c), g.d) + g.Child(c) == g.b + c
  {
  }

  /** The rows of the columns, counted from the start of the run, are the run. */
  lemma SpanByRows(g: Geom, c: nat, j: nat)
    requires g.Valid() && c < g.d
    ensures c + Scale(j, g.d) < g.Span() <==> c < g.Columns() && j < g.Rows(c)
  {
    var q := g.Quota();
    if j < q {
      ScaleMono(j + 1, q, g.d);
    } else if j > q {
      ScaleMono(q + 1, j, g.d);
    }
  }

  lemma RunHasColumn(g: Geom, l: nat) returns (c: nat)
    requires g.Valid() && g.b <= l < g.b + g.Span()
    ensures g.Has(c, PlaceOf(l, g.d))
  {
    var x := PlaceOf(l - g.b, g.d);
    c := x.child;
    SpanByRows(g, c, x.row);
    ColumnSector(g, c, x.row);
  }

  lemma SectorOfColumn(g: Geom, c: nat, l: nat)
    requires g.Valid() && g.Has(c, PlaceOf(l, g.d))
    ensures g.b <= l < g.b + g.Span() && PlaceOf(l - g.b, g.d).child == c
  {
    var j := PlaceOf(l, g.d).row - g.FirstRow(c);
    ColumnSector(g, c, j);
    SpanByRows(g, c, j);
    PlaceUnique(Place(c, j), g.d);
  }

  /** Main result: the columns hold exactly the sectors of one contiguous run of
    * `q * d + bc` logical sectors. */
  lemma LayoutIsRun(g: Geom, l: nat)
    requires g.Valid()
    ensures g.b <= l < g.b + g.Span() <==> g.Holds(PlaceOf(l, g.d))
  {
    if g.b <= l < g.b + g.Span() {
      var c := RunHasColumn(g, l);
    } else if g.Holds(PlaceOf(l, g.d)) {
      var place := PlaceOf(l, g.d);
      var c :| g.Has(c, place);
      SectorOfColumn(g, c, l);
      assert false;
    }
  }

  /** No sector is in two columns. */
  lemma ColumnsDisjoint(g: Geom, c: nat, c': nat, place: Place)
    requires g.Valid() && g.Has(c, place) && g.Has(c', place)
    ensures c == c'
  {
    PlaceUnique(place, g.d);
    SectorOfColumn(g, c, Scale(place.row, g.d) + place.child);
    SectorOfColumn(g, c', Scale(place.row, g.d) + place.child);
  }

  /** Blocks with disjoint runs share no child sector. */
  lemma BlocksDisjoint(g: Geom, h: Geom, c: nat, c': nat, place: Place)
    requires g.Valid() && h.Valid() && g.d == h.d
    requires g.b + g.Span() <= h.b || h.b + h.Span() <= g.b
    ensures !(g.Has(c, place) && h.Has(c', place))
  {
    if g.Has(c, place) && h.Has(c', place) {
      var l := Scale(place.row, g.d) + place.child;
      PlaceUnique(place, g.d);
      SectorOfColumn(g, c, l);
      SectorOfColumn(h, c', l);
      assert false;
    }
  }

  /** Rows of the data columns below column `n`. */
  function DataRows(g: Geom, n: nat): (sum: nat)
    requires g.Valid()
    decreases n
  {
    if n <= g.p then 0 else DataRows(g, n - 1) + g.Rows(n - 1)
  }

  lemma {:induction false} DataRowsClosed(g: Geom, n: nat)
    requires g.Valid() && g.p <= n
    ensures DataRows(g, n) == Scale(n - g.p, g.Quota()) + (if g.Big() == 0 then 0 else Min(n, g.Big()) - g.p)
    decreases n
  {
    if n > g.p {
      DataRowsClosed(g, n - 1);
    }
  }

  /** The data columns hold the `s` data sectors and no more. */
  lemma DataRowsAre(g: Geom)
    requires g.Valid()
    ensures DataRows(g, g.Columns()) == g.s
  {
    DataRowsClosed(g, g.Columns());
    ScaleComm(g.Columns() - g.p, g.Quota());
  }
}
