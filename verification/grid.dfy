/** The generic row-major 2D container every world layer is stored in (map.rs). */
module Grids {
  import opened Wrappers
  import opened Types

  /** The only failure `Grid::set` reports: the coordinates and the grid size. */
  datatype GridError = OutOfBounds(x: nat, y: nat, width: nat, height: nat)

  /** Raw storage: `cells` holds the rows one after another (y outer, x inner). */
  datatype GridData<T> = GridData(width: nat, height: nat, cells: seq<T>)

  /** A grid whose storage holds exactly `width * height` cells. */
  type Grid<T> = g: GridData<T> | |g.cells| == g.width * g.height witness GridData(0, 0, [])

  /** The row-major offset of column `x` in row `y` of a grid `w` cells wide. */
  function Offset(w: nat, x: nat, y: nat): nat
  {
    y * w + x
  }

  lemma MulAtLeast(a: nat, b: nat)
    requires a >= 1
    ensures a * b >= b
  {
  }

  /** A valid cell's offset lies inside the storage. */
  lemma OffsetInRange(w: nat, h: nat, x: nat, y: nat)
    requires x < w && y < h
    ensures Offset(w, x, y) < w * h
  {
    assert (y + 1) * w == y * w + w;
    MulAtLeast(h - y, w);
    assert (h - y) * w == h * w - y * w;
  }

  /** The row-major offset determines the column and the row. */
  lemma OffsetDivMod(w: nat, x: nat, y: nat)
    requires x < w
    ensures Offset(w, x, y) / w == y && Offset(w, x, y) % w == x
  {
    var i := Offset(w, x, y);
    var q, r := i / w, i % w;
    assert i == q * w + r && 0 <= r < w;
    if q > y {
      MulAtLeast(q - y, w);
      assert false;
    } else if q < y {
      MulAtLeast(y - q, w);
      assert false;
    }
  }

  /** Two valid cells share an offset only if they are the same cell. */
  lemma OffsetInjective(w: nat, x1: nat, y1: nat, x2: nat, y2: nat)
    requires x1 < w && x2 < w
    requires Offset(w, x1, y1) == Offset(w, x2, y2)
    ensures x1 == x2 && y1 == y2
  {
    OffsetDivMod(w, x1, y1);
    OffsetDivMod(w, x2, y2);
  }

  /** An index inside storage of `w * h` cells lies in one of the `h` rows. */
  lemma DivBelow(i: nat, w: nat, h: nat)
    requires i < w * h
    ensures w > 0 && i / w < h && i == Offset(w, i % w, i / w)
  {
  }

  /** `Grid::is_valid`: the single bounds test used before any indexed access. */
  predicate IsValid<T>(g: Grid<T>, x: nat, y: nat)
  {
    x < g.width && y < g.height
  }

  /** The bounds test admits exactly the cells whose column fits the width
      and whose row-major offset addresses the storage. */
  lemma ValidIsStored<T>(g: Grid<T>, x: nat, y: nat)
    ensures IsValid(g, x, y) <==> x < g.width && Offset(g.width, x, y) < |g.cells|
  {
    if x < g.width && y >= g.height {
      MulAtLeast(g.width, y - g.height);
      assert Offset(g.width, x, y) == (y - g.height) * g.width + g.height * g.width + x;
    }
    if IsValid(g, x, y) {
      OffsetInRange(g.width, g.height, x, y);
    }
  }

  predicate IsValidPos<T>(g: Grid<T>, p: Position)
  {
    IsValid(g, p.x, p.y)
  }

  /** `Grid::coords_to_index`: the storage index of a cell, if it is in bounds.
      The index is row-major: divided by the width it gives the row, and the
      remainder is the column. */
  function CoordsToIndex<T>(g: Grid<T>, x: nat, y: nat): (r: Option<nat>)
    ensures r.Some? <==> IsValid(g, x, y)
    ensures r.Some? ==> r.value < |g.cells| && r.value / g.width == y && r.value % g.width == x
  {
    if x < g.width && y < g.height then
      OffsetInRange(g.width, g.height, x, y);
      OffsetDivMod(g.width, x, y);
      Some(Offset(g.width, x, y))
    else
      None
  }

  /** `Grid::index_to_coords`: the cell stored at a storage index, if any.
      Its result is a valid cell whose index is `i` again. */
  function IndexToCoords<T>(g: Grid<T>, i: nat): (r: Option<(nat, nat)>)
    ensures r.Some? <==> i < |g.cells|
    ensures r.Some? ==> IsValid(g, r.value.0, r.value.1) && CoordsToIndex(g, r.value.0, r.value.1) == Some(i)
  {
    if i < |g.cells| then
      DivBelow(i, g.width, g.height);
      var x, y := i % g.width, i / g.width;
      OffsetDivMod(g.width, x, y);
      Some((x, y))
    else
      None
  }

  /** Every valid cell survives the trip to its index and back. */
  lemma CoordsIndexRoundTrip<T>(g: Grid<T>, x: nat, y: nat)
    requires IsValid(g, x, y)
    ensures CoordsToIndex(g, x, y).Some?
    ensures IndexToCoords(g, CoordsToIndex(g, x, y).value) == Some((x, y))
  {
    OffsetDivMod(g.width, x, y);
  }

  /** The unchecked `Index` by `(x, y)`; out-of-bounds access panics in the
      source, so validity is a precondition. */
  function At<T>(g: Grid<T>, x: nat, y: nat): T
    requires IsValid(g, x, y)
  {
    g.cells[CoordsToIndex(g, x, y).value]
  }

  /** The unchecked `Index` by `Position`. */
  function AtPos<T>(g: Grid<T>, p: Position): T
    requires IsValidPos(g, p)
  {
    At(g, p.x, p.y)
  }

  /** Both unchecked reads of a valid cell yield the value in the storage
      slot that `index_to_coords` maps back to that cell. */
  lemma IndexReadsSlot<T>(g: Grid<T>, x: nat, y: nat)
    requires IsValid(g, x, y)
    ensures exists i | 0 <= i < |g.cells| :: IndexToCoords(g, i) == Some((x, y)) && At(g, x, y) == g.cells[i]
    ensures AtPos(g, Position(x, y)) == At(g, x, y)
  {
    var i := CoordsToIndex(g, x, y).value;
    CoordsIndexRoundTrip(g, x, y);
    assert IndexToCoords(g, i) == Some((x, y)) && At(g, x, y) == g.cells[i];
  }

  /** `Grid::get`: absent exactly out of bounds, else what `Index` yields. */
  function Get<T>(g: Grid<T>, x: nat, y: nat): (r: Option<T>)
    ensures r.None? <==> !IsValid(g, x, y)
    ensures r.Some? ==> r.value == At(g, x, y)
  {
    if IsValid(g, x, y) then
      var i := CoordsToIndex(g, x, y).value;
      Some(g.cells[i])
    else
      None
  }

  /** The unchecked `IndexMut` write at a valid position: that cell holds
      `v` afterwards, every other cell and the size stay as they were. */
  function Update<T>(g: Grid<T>, p: Position, v: T): (r: Grid<T>)
    requires IsValidPos(g, p)
    ensures r.width == g.width && r.height == g.height
    ensures AtPos(r, p) == v
    ensures forall q: Position | IsValidPos(g, q) && q != p :: AtPos(r, q) == AtPos(g, q)
  {
    var i := CoordsToIndex(g, p.x, p.y).value;
    var r := GridData(g.width, g.height, g.cells[i := v]);
    assert forall q: Position | IsValidPos(g, q) && q != p :: AtPos(r, q) == AtPos(g, q) by {
      forall q: Position | IsValidPos(g, q) && q != p
        ensures AtPos(r, q) == AtPos(g, q)
      {
        if Offset(g.width, q.x, q.y) == i {
          OffsetInjective(g.width, q.x, q.y, p.x, p.y);
        }
      }
    }
    r
  }

  /** `Grid::set`: out of bounds it reports the coordinates and the size and
      produces no new grid; in bounds it changes that one cell only. */
  function Set<T>(g: Grid<T>, x: nat, y: nat, v: T): (r: Result<Grid<T>, GridError>)
    ensures r.Err? <==> !IsValid(g, x, y)
    ensures r.Err? ==> r.error == OutOfBounds(x, y, g.width, g.height)
    ensures r.Ok? ==> r.value.width == g.width && r.value.height == g.height
    ensures r.Ok? ==> At(r.value, x, y) == v
    ensures r.Ok? ==> forall x': nat, y': nat | IsValid(g, x', y') && (x' != x || y' != y) ::
                        At(r.value, x', y') == At(g, x', y')
  {
    if IsValid(g, x, y) then
      var r := Update(g, Position(x, y), v);
      assert forall x': nat, y': nat | IsValid(g, x', y') && (x' != x || y' != y) ::
          At(r, x', y') == At(g, x', y') by {
        forall x': nat, y': nat | IsValid(g, x', y') && (x' != x || y' != y)
          ensures At(r, x', y') == At(g, x', y')
        {
          assert AtPos(r, Position(x', y')) == AtPos(g, Position(x', y'));
        }
      }
      Ok(r)
    else
      Err(OutOfBounds(x, y, g.width, g.height))
  }

  /** `Grid::new`: `w * h` cells, every one holding the default value `d`. */
  function New<T>(w: nat, h: nat, d: T): (r: Grid<T>)
    ensures r.width == w && r.height == h && |r.cells| == w * h
    ensures forall x: nat, y: nat | IsValid(r, x, y) :: At(r, x, y) == d
  {
    GridData(w, h, seq(w * h, _ => d))
  }

  /** `Grid::from_generator`: rows are produced top to bottom, each left to
      right, so cell (x, y) holds `f(x, y)`. */
  method FromGenerator<T>(w: nat, h: nat, f: (nat, nat) -> T) returns (g: Grid<T>)
    ensures g.width == w && g.height == h
    ensures forall x: nat, y: nat | x < w && y < h :: At(g, x, y) == f(x, y)
  {
    var cells: seq<T> := [];
    var y := 0;
    while y < h
      invariant y <= h
      invariant |cells| == y * w
      invariant forall x': nat, y': nat | x' < w && y' < y ::
                  Offset(w, x', y') < |cells| && cells[Offset(w, x', y')] == f(x', y')
    {
      var x := 0;
      while x < w
        invariant x <= w
        invariant |cells| == y * w + x
        invariant forall x': nat, y': nat | x' < w && y' < y ::
                    Offset(w, x', y') < |cells| && cells[Offset(w, x', y')] == f(x', y')
        invariant forall x': nat | x' < x :: Offset(w, x', y) < |cells| && cells[Offset(w, x', y)] == f(x', y)
      {
        forall x': nat, y': nat | x' < w && y' < y
          ensures Offset(w, x', y') < y * w
        {
          OffsetInRange(w, y, x', y');
        }
        cells := cells + [f(x, y)];
        x := x + 1;
      }
      assert |cells| == (y + 1) * w;
      y := y + 1;
    }
    g := GridData(w, h, cells);
  }

  /** `Grid::enumerate`: every cell once, in storage (row-major) order, each
      paired with its own coordinates. */
  function Enumerate<T>(g: Grid<T>): (r: seq<((nat, nat), T)>)
    ensures |r| == |g.cells|
    ensures forall i | 0 <= i < |r| ::
              && CoordsToIndex(g, r[i].0.0, r[i].0.1) == Some(i)
              && r[i].1 == At(g, r[i].0.0, r[i].0.1)
  {
    seq(|g.cells|, i requires 0 <= i < |g.cells| => (IndexToCoords(g, i).value, g.cells[i]))
  }

  /** The row-major rank of a position: the order `enumerate` visits it in. */
  function Rank<T>(g: Grid<T>, p: Position): nat
  {
    Offset(g.width, p.x, p.y)
  }

  /** The position stored at index `i`. */
  function PosAt<T>(g: Grid<T>, i: nat): (p: Position)
    requires i < |g.cells|
    ensures IsValidPos(g, p) && Rank(g, p) == i
  {
    var c := IndexToCoords(g, i).value;
    Position(c.0, c.1)
  }

  /** The positions from index `i` on whose cell satisfies `f`, in row-major
      order: the `enumerate().filter_map(..)` idiom of the world queries. */
  function PositionsFrom<T>(g: Grid<T>, f: T -> bool, i: nat): (r: seq<Position>)
    requires i <= |g.cells|
    ensures forall k | 0 <= k < |r| :: IsValidPos(g, r[k]) && f(AtPos(g, r[k])) && Rank(g, r[k]) >= i
    ensures forall j | i <= j < |g.cells| && f(g.cells[j]) :: PosAt(g, j) in r
    ensures forall k, l | 0 <= k < l < |r| :: Rank(g, r[k]) < Rank(g, r[l])
    decreases |g.cells| - i
  {
    if i == |g.cells| then
      []
    else
      var rest := PositionsFrom(g, f, i + 1);
      if f(g.cells[i]) then [PosAt(g, i)] + rest else rest
  }

  /** Every position whose cell satisfies `f`, each once, in row-major order. */
  function Positions<T>(g: Grid<T>, f: T -> bool): (r: seq<Position>)
    ensures forall p: Position :: p in r <==> IsValidPos(g, p) && f(AtPos(g, p))
    ensures forall k, l | 0 <= k < l < |r| :: Rank(g, r[k]) < Rank(g, r[l])
  {
    var r := PositionsFrom(g, f, 0);
    assert forall p: Position | IsValidPos(g, p) && f(AtPos(g, p)) :: p in r by {
      forall p: Position | IsValidPos(g, p) && f(AtPos(g, p))
        ensures p in r
      {
        CoordsIndexRoundTrip(g, p.x, p.y);
        assert PosAt(g, Rank(g, p)) == p;
      }
    }
    r
  }
}
