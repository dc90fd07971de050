/** The cell buffer of termbox_common.go: a width x height grid of cells
    stored row by row in one array, with init, clear and resize. */
module Grid {
  import opened Utf8
  import opened Termbox

  const CursorHidden: int := -1

  /** is_cursor_hidden */
  predicate IsCursorHidden(x: int, y: int) {
    x == CursorHidden || y == CursorHidden
  }

  /** The number of cells in the first y rows of a grid of the given width:
      the index at which row y starts, and for y the height, the length of
      the grid. */
  function RowStart(width: nat, y: nat): nat {
    if y == 0 then 0 else RowStart(width, y - 1) + width
  }

  lemma {:induction false} RowStartProduct(width: nat, y: nat)
    ensures RowStart(width, y) == y * width
  {
    if y > 0 {
      RowStartProduct(width, y - 1);
    }
  }

  /** The array index of column x of row y in a grid of the given width. */
  function Offset(width: nat, x: int, y: nat): int {
    RowStart(width, y) + x
  }

  /** The cell clear writes: a space in the current colours. */
  function Blank(fg: Attribute, bg: Attribute): Cell {
    Cell(' ' as rune, fg, bg)
  }

  /** Go's zero Cell. */
  const ZeroCell: Cell := Cell(0, 0, 0)

  /** Later rows start at least a whole row further on. */
  lemma {:induction false} RowStartMono(width: nat, y: nat, y': nat)
    ensures y < y' ==> RowStart(width, y) + width <= RowStart(width, y')
    decreases y'
  {
    if y + 1 < y' {
      RowStartMono(width, y, y' - 1);
    }
  }

  lemma OffsetInRange(width: nat, height: nat, x: int, y: nat)
    requires 0 <= x < width && y < height
    ensures 0 <= Offset(width, x, y) < RowStart(width, height)
  {
    RowStartMono(width, y, height);
  }

  /** Row y, up to column n, fits in the grid. */
  lemma RowFits(width: nat, height: nat, n: int, y: nat)
    requires 0 <= n <= width && y < height
    ensures 0 <= Offset(width, 0, y) <= Offset(width, n, y) <= RowStart(width, height)
  {
    RowStartMono(width, y, height);
  }

  lemma AllOffsetsInRange(width: nat, height: nat)
    ensures forall x: nat, y: nat :: 0 <= x < width && y < height ==> 0 <= Offset(width, x, y) < RowStart(width, height)
  {
    forall x: nat, y: nat | 0 <= x < width && y < height
      ensures 0 <= Offset(width, x, y) < RowStart(width, height)
    {
      OffsetInRange(width, height, x, y);
    }
  }

  lemma MulLe(a: nat, b: nat, c: nat)
    requires a <= b
    ensures a * c <= b * c
  {
  }

  /** The column and row of an index are its remainder and quotient by the width. */
  lemma OffsetOf(width: nat, i: int)
    requires width > 0 && 0 <= i
    ensures Offset(width, i % width, i / width) == i
    ensures 0 <= i % width < width
  {
    RowStartProduct(width, i / width);
  }

  /** Index i lies in row i / width of a grid of the given size. */
  lemma RowInRange(width: nat, height: nat, i: int)
    requires 0 <= i < RowStart(width, height)
    ensures width > 0 && 0 <= i / width < height
  {
    RowStartProduct(width, height);
    if i / width >= height {
      assert i / width * width >= height * width by {
        MulLe(height, i / width, width);
      }
      OffsetOf(width, i);
    }
  }

  /** The cell at index i of a grid of width w and height h after resize
      from oldw x oldh: the old cell at the same column and row where both
      grids have it, a blank cell elsewhere. */
  function Resized(prev: seq<Cell>, oldw: nat, oldh: nat, w: nat, h: nat, blank: Cell, i: int): Cell
    requires |prev| == RowStart(oldw, oldh) && 0 <= i < RowStart(w, h)
  {
    RowInRange(w, h, i);
    var x, y := i % w, i / w;
    if x < oldw && y < oldh then
      OffsetInRange(oldw, oldh, x, y);
      prev[Offset(oldw, x, y)]
    else blank
  }

  /** The cells after resize: the top-left overlap of the old grid, the rest blank. */
  function ResizeGrid(prev: seq<Cell>, oldw: nat, oldh: nat, w: nat, h: nat, blank: Cell): (r: seq<Cell>)
    requires |prev| == RowStart(oldw, oldh)
    ensures |r| == RowStart(w, h)
  {
    seq(RowStart(w, h), i requires 0 <= i < RowStart(w, h) => Resized(prev, oldw, oldh, w, h, blank, i))
  }

  /** resize keeps every cell of the overlap at its column and row, and
      blanks every other cell. */
  lemma ResizeKeepsOverlap(prev: seq<Cell>, oldw: nat, oldh: nat, w: nat, h: nat, blank: Cell, x: int, y: int)
    requires |prev| == RowStart(oldw, oldh) && 0 <= x < w && 0 <= y < h
    ensures 0 <= Offset(w, x, y) < RowStart(w, h)
    ensures x < oldw && y < oldh ==>
      0 <= Offset(oldw, x, y) < |prev| && ResizeGrid(prev, oldw, oldh, w, h, blank)[Offset(w, x, y)] == prev[Offset(oldw, x, y)]
    ensures !(x < oldw && y < oldh) ==> ResizeGrid(prev, oldw, oldh, w, h, blank)[Offset(w, x, y)] == blank
  {
    OffsetInRange(w, h, x, y);
    var i := Offset(w, x, y);
    assert i / w == y && i % w == x by {
      DivMod(w, x, y);
    }
    if x < oldw && y < oldh {
      OffsetInRange(oldw, oldh, x, y);
    }
  }

  lemma MulAtLeast(a: int, w: nat)
    ensures a >= 1 ==> a * w >= w
  {
    if a >= 1 {
      MulLe(1, a, w);
    }
  }

  lemma DivMod(w: nat, x: int, y: nat)
    requires 0 <= x < w
    ensures Offset(w, x, y) / w == y && Offset(w, x, y) % w == x
  {
    RowStartProduct(w, y);
    var i := Offset(w, x, y);
    var q, r := i / w, i % w;
    assert (q - y) * w == x - r;
    MulAtLeast(q - y, w);
    MulAtLeast(y - q, w);
  }

  /** Row y, columns 0 up to n, is a contiguous run of indexes. */
  lemma RowSpan(w: nat, n: int, x: int, y: nat, y': nat)
    requires 0 <= x < w && n <= w
    ensures Offset(w, 0, y) <= Offset(w, x, y') < Offset(w, n, y) <==> y' == y && x < n
  {
    RowStartMono(w, y, y');
    RowStartMono(w, y', y);
  }

  /** The first y rows of the overlap (n columns wide) hold the old cells;
      every other cell is blank. */
  ghost predicate RowsCopied(c: seq<Cell>, before: seq<Cell>, oldw: nat, oldh: nat, w: nat, h: nat,
                             blank: Cell, y: nat, n: nat)
    requires |c| == RowStart(w, h) && |before| == RowStart(oldw, oldh) && y <= oldh && n <= oldw
  {
    forall x: nat, y': nat :: x < w && y' < h ==>
      (OffsetInRange(w, h, x, y');
       c[Offset(w, x, y')] == if y' < y && x < n then (OffsetInRange(oldw, oldh, x, y'); before[Offset(oldw, x, y')]) else blank)
  }

  /** A blank grid has no rows of the overlap copied yet. */
  lemma NoRowsCopied(c: seq<Cell>, before: seq<Cell>, oldw: nat, oldh: nat, w: nat, h: nat, blank: Cell, n: nat)
    requires |c| == RowStart(w, h) && |before| == RowStart(oldw, oldh) && n <= oldw
    requires forall i :: 0 <= i < |c| ==> c[i] == blank
    ensures RowsCopied(c, before, oldw, oldh, w, h, blank, 0, n)
  {
    AllOffsetsInRange(w, h);
  }

  /** One more row of the overlap copied by CopyRow. */
  lemma RowCopied(c: seq<Cell>, prev: seq<Cell>, before: seq<Cell>, oldw: nat, oldh: nat, w: nat, h: nat,
                  blank: Cell, y: nat, n: nat)
    requires |c| == |prev| == RowStart(w, h) && |before| == RowStart(oldw, oldh)
    requires y < h && y < oldh && n <= w && n <= oldw
    requires Offset(w, n, y) <= |prev| && Offset(oldw, n, y) <= |before|
    requires c == prev[..Offset(w, 0, y)] + before[Offset(oldw, 0, y)..Offset(oldw, n, y)] + prev[Offset(w, n, y)..]
    requires RowsCopied(prev, before, oldw, oldh, w, h, blank, y, n)
    ensures RowsCopied(c, before, oldw, oldh, w, h, blank, y + 1, n)
  {
    AllOffsetsInRange(w, h);
    AllOffsetsInRange(oldw, oldh);
    forall x: nat, y': nat | x < w && y' < h
      ensures c[Offset(w, x, y')] == if y' < y + 1 && x < n then before[Offset(oldw, x, y')] else blank
    {
      OffsetInRange(w, h, x, y');
      RowSpan(w, n, x, y, y');
      if y' == y && x < n {
        OffsetInRange(oldw, oldh, x, y');
        assert Offset(w, x, y') - Offset(w, 0, y) + Offset(oldw, 0, y) == Offset(oldw, x, y');
      }
    }
  }

  /** A grid that holds the overlap of prev and blanks elsewhere, cell by
      cell, is the resized grid. */
  lemma GridByCells(c: seq<Cell>, prev: seq<Cell>, oldw: nat, oldh: nat, w: nat, h: nat, blank: Cell)
    requires |prev| == RowStart(oldw, oldh) && |c| == RowStart(w, h)
    requires RowsCopied(c, prev, oldw, oldh, w, h, blank, if h < oldh then h else oldh, if w < oldw then w else oldw)
    ensures c == ResizeGrid(prev, oldw, oldh, w, h, blank)
  {
    forall i | 0 <= i < RowStart(w, h)
      ensures c[i] == ResizeGrid(prev, oldw, oldh, w, h, blank)[i]
    {
      RowInRange(w, h, i);
      OffsetOf(w, i);
      ResizeKeepsOverlap(prev, oldw, oldh, w, h, blank, i % w, i / w);
    }
  }

  /** Resizing to the dimensions the grid already has gives back the same cells. */
  lemma ResizeSameSize(prev: seq<Cell>, w: nat, h: nat, blank: Cell)
    requires |prev| == RowStart(w, h)
    ensures ResizeGrid(prev, w, h, w, h, blank) == prev
  {
    var r := ResizeGrid(prev, w, h, w, h, blank);
    forall i | 0 <= i < RowStart(w, h)
      ensures r[i] == prev[i]
    {
      RowInRange(w, h, i);
      OffsetOf(w, i);
    }
  }

  /** Writing the cell at column x of row y changes no other cell. */
  lemma UpdateOneCell(c: seq<Cell>, w: nat, h: nat, x: nat, y: nat, v: Cell, x': nat, y': nat)
    requires |c| == RowStart(w, h) && x < w && y < h && x' < w && y' < h
    ensures 0 <= Offset(w, x, y) < |c| && 0 <= Offset(w, x', y') < |c|
    ensures c[Offset(w, x, y) := v][Offset(w, x', y')] == if x' == x && y' == y then v else c[Offset(w, x', y')]
  {
    OffsetInRange(w, h, x, y);
    OffsetInRange(w, h, x', y');
    DivMod(w, x, y);
    DivMod(w, x', y');
  }

  /** cellbuf: its dimensions and its cells, row by row. */
  class CellBuf {
    var width: int
    var height: int
    var cells: array<Cell>

    predicate Valid()
      reads this
    {
      0 <= width && 0 <= height && cells.Length == RowStart(width, height)
    }

    /** An empty buffer. */
    constructor ()
      ensures Valid() && width == 0 && height == 0 && fresh(cells)
    {
      width, height := 0, 0;
      cells := new Cell[0];
    }

    /** init: set the dimensions and allocate width*height zero cells. */
    method Init(w: int, h: int)
      requires 0 <= w && 0 <= h
      modifies this
      ensures Valid() && width == w && height == h && fresh(cells)
      ensures forall i :: 0 <= i < cells.Length ==> cells[i] == ZeroCell
    {
      width, height := w, h;
      cells := new Cell[RowStart(w, h)](_ => ZeroCell);
    }

    /** clear: every cell becomes a space in the given colours; the
        dimensions and the array stay. */
    method Clear(fg: Attribute, bg: Attribute)
      requires Valid()
      modifies cells
      ensures Valid()
      ensures forall i :: 0 <= i < cells.Length ==> cells[i] == Blank(fg, bg)
    {
      for i := 0 to cells.Length
        invariant forall j :: 0 <= j < i ==> cells[j] == Blank(fg, bg)
      {
        cells[i] := Blank(fg, bg);
      }
    }

    /** resize: nothing changes when the dimensions are already w x h;
        otherwise a fresh blank grid receives the overlap of the old one. */
    method Resize(fg: Attribute, bg: Attribute, w: int, h: int)
      requires Valid() && 0 <= w && 0 <= h
      modifies this
      ensures Valid() && width == w && height == h
      ensures old(width) == w && old(height) == h ==> cells == old(cells) && cells[..] == old(cells[..])
      ensures !(old(width) == w && old(height) == h) ==> fresh(cells)
      ensures cells[..] == ResizeGrid(old(cells[..]), old(width), old(height), w, h, Blank(fg, bg))
    {
      if width == w && height == h {
        ResizeSameSize(cells[..], w, h, Blank(fg, bg));
        return;
      }
      var oldw, oldh, oldcells := width, height, cells;
      ghost var before := oldcells[..];
      Init(w, h);
      Clear(fg, bg);
      var minw := if w < oldw then w else oldw;
      var minh := if h < oldh then h else oldh;
      assert forall i :: 0 <= i < |cells[..]| ==> cells[..][i] == Blank(fg, bg);
      NoRowsCopied(cells[..], before, oldw, oldh, w, h, Blank(fg, bg), minw);
      for y := 0 to minh
        invariant Valid() && width == w && height == h && fresh(cells)
        invariant oldcells[..] == before
        invariant RowsCopied(cells[..], before, oldw, oldh, w, h, Blank(fg, bg), y, minw)
      {
        ghost var prev := cells[..];
        RowFits(w, h, minw, y);
        RowFits(oldw, oldh, minw, y);
        CopyRow(oldcells, oldw, oldh, y, minw);
        RowCopied(cells[..], prev, before, oldw, oldh, w, h, Blank(fg, bg), y, minw);
      }
      GridByCells(cells[..], before, oldw, oldh, w, h, Blank(fg, bg));
    }

    /** copy(dst, src) of one row: the first n cells of row y of src (a
        srcw x srch grid) go to the first n cells of row y of this grid. */
    method CopyRow(src: array<Cell>, srcw: nat, srch: nat, y: nat, n: int)
      requires Valid() && src != cells && src.Length == RowStart(srcw, srch)
      requires 0 <= n <= width && n <= srcw && 0 <= y < height && y < srch
      requires Offset(width, n, y) <= cells.Length && Offset(srcw, n, y) <= src.Length
      modifies cells
      ensures Valid()
      ensures cells[..] == old(cells[..Offset(width, 0, y)]) + src[Offset(srcw, 0, y)..Offset(srcw, n, y)] + old(cells[Offset(width, n, y)..])
    {
      var srco, dsto := Offset(srcw, 0, y), Offset(width, 0, y);
      for i := 0 to n
        invariant forall k :: 0 <= k < cells.Length ==>
          cells[k] == if dsto <= k < dsto + i then src[k - dsto + srco] else old(cells[k])
      {
        cells[dsto + i] := src[srco + i];
      }
      assert cells[..] == old(cells[..dsto]) + src[srco..srco + n] + old(cells[dsto + n..]);
    }
  }
}
