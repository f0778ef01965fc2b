/** The top legend of utils/grid.py: `layout` measures, `draw` places, and the two must agree. */
module Legend {

  /** The size of a text, shared by the measuring and the drawing context. */
  datatype Extent = Extent(width: real, height: real)

  /** Where an item is drawn: its square, and its text starting at the text position. */
  datatype Cell = Cell(x: real, y: real, width: real, height: real)

  /** The layout's running variables. */
  datatype Cursor = Cursor(lineUsed: real, lineHeight: real, totalHeight: real)

  function ItemWidth(padding: real, e: Extent): real { padding + padding + e.width + padding }

  function ItemHeight(padding: real, e: Extent): real { e.height + padding }

  function Start(padding: real): Cursor { Cursor(padding, 0.0, padding) }

  /** One item: the line height is a running maximum that is never reset; an item that does not fit
      opens a new row below. */
  function Advance(padding: real, width: real, c: Cursor, e: Extent): Cursor {
    var w, h := ItemWidth(padding, e), ItemHeight(padding, e);
    var lineHeight := if h > c.lineHeight then h else c.lineHeight;
    if c.lineUsed + w > width then Cursor(padding + w, lineHeight, c.totalHeight + lineHeight)
    else Cursor(c.lineUsed + w, lineHeight, c.totalHeight)
  }

  function After(padding: real, width: real, items: seq<Extent>): Cursor {
    if items == [] then Start(padding)
    else Advance(padding, width, After(padding, width, items[..|items| - 1]), items[|items| - 1])
  }

  /** The space budgeted for item `i`. */
  function CellOf(padding: real, width: real, items: seq<Extent>, i: nat): Cell
    requires i < |items|
  {
    var c := After(padding, width, items[..i + 1]);
    var w := ItemWidth(padding, items[i]);
    Cell(c.lineUsed - w, c.totalHeight, w, ItemHeight(padding, items[i]))
  }

  function Cells(padding: real, width: real, items: seq<Extent>): (r: seq<Cell>)
    ensures |r| == |items| && forall i :: 0 <= i < |r| ==> r[i] == CellOf(padding, width, items, i)
  {
    seq(|items|, i requires 0 <= i < |items| => CellOf(padding, width, items, i))
  }

  function TotalHeight(padding: real, width: real, items: seq<Extent>): real {
    var c := After(padding, width, items);
    c.totalHeight + c.lineHeight
  }

  function Extents(textExtents: string -> Extent, legends: seq<string>): (r: seq<Extent>)
    ensures |r| == |legends| && forall i :: 0 <= i < |r| ==> r[i] == textExtents(legends[i])
  {
    seq(|legends|, i requires 0 <= i < |legends| => textExtents(legends[i]))
  }

  /** The corner of an item's square, whose side is the padding, and the baseline start of its text. */
  datatype Drawing = Drawing(squareX: real, squareY: real, textX: real, textY: real)

  function DrawingOf(padding: real, width: real, items: seq<Extent>, i: nat): Drawing
    requires i < |items|
  {
    var cell := CellOf(padding, width, items, i);
    Drawing(cell.x, cell.y, cell.x + padding * 2.0, cell.y + items[i].height)
  }

  class TopLegendRenderer {
    var padding: real
    var legends: seq<string>
    var width: real
    var height: real

    constructor ()
      ensures padding == 10.0 && legends == []
    {
      padding, legends, width, height := 10.0, [], 0.0, 0.0;
    }

    method SetPadding(padding: real)
      modifies `padding
      ensures this.padding == padding
    {
      this.padding := padding;
    }

    method SetLegends(legends: seq<string>)
      modifies `legends
      ensures this.legends == legends
    {
      this.legends := legends;
    }

    method Layout(width: real, textExtents: string -> Extent)
      modifies `width, `height
      ensures this.width == width && height == TotalHeight(padding, width, Extents(textExtents, legends))
    {
      this.width := width;
      var lineHeight, totalHeight, lineUsed := 0.0, padding, padding;
      ghost var items := Extents(textExtents, legends);
      for i := 0 to |legends|
        invariant this.width == width && items == Extents(textExtents, legends)
        invariant Cursor(lineUsed, lineHeight, totalHeight) == After(padding, width, items[..i])
      {
        Prefixes(items, i);
        var e := textExtents(legends[i]);
        var itemWidth := padding + padding + e.width + padding;
        var itemHeight := e.height + padding;
        if itemHeight > lineHeight {
          lineHeight := itemHeight;
        }
        if lineUsed + itemWidth > this.width {
          lineUsed := padding + itemWidth;
          totalHeight := totalHeight + lineHeight;
        } else {
          lineUsed := lineUsed + itemWidth;
        }
      }
      assert items[..|legends|] == items;
      totalHeight := totalHeight + lineHeight;
      height := totalHeight;
    }

    /** What is drawn, in order: each item is where `Layout` budgeted its cell. */
    method Draw(textExtents: string -> Extent) returns (drawn: seq<Drawing>)
      ensures |drawn| == |legends|
      ensures forall i :: 0 <= i < |drawn| ==> drawn[i] == DrawingOf(padding, width, Extents(textExtents, legends), i)
      ensures var items := Extents(textExtents, legends);
        forall i :: 0 <= i < |drawn| ==> var cell := Cells(padding, width, items)[i];
          && drawn[i].squareX == cell.x && drawn[i].squareY == cell.y
          && drawn[i].textX == cell.x + 2.0 * padding && drawn[i].textY == cell.y + items[i].height
    {
      drawn := [];
      var lineHeight, totalHeight, lineUsed := 0.0, padding, padding;
      ghost var items := Extents(textExtents, legends);
      for i := 0 to |legends|
        invariant Cursor(lineUsed, lineHeight, totalHeight) == After(padding, width, items[..i])
        invariant |drawn| == i && forall k :: 0 <= k < i ==> drawn[k] == DrawingOf(padding, width, items, k)
      {
        Prefixes(items, i);
        var e := textExtents(legends[i]);
        var itemWidth := padding + padding + e.width + padding;
        var itemHeight := e.height + padding;
        if itemHeight > lineHeight {
          lineHeight := itemHeight;
        }
        if lineUsed + itemWidth > width {
          lineUsed := padding + itemWidth;
          totalHeight := totalHeight + lineHeight;
        } else {
          lineUsed := lineUsed + itemWidth;
        }
        assert Cursor(lineUsed, lineHeight, totalHeight) == After(padding, width, items[..i + 1]);
        var x := lineUsed - itemWidth;
        drawn := drawn + [Drawing(x, totalHeight, x + padding * 2.0, totalHeight + e.height)];
      }
    }
  }

  // ----- the packing, over the cells alone

  /** The largest item height among the first `n` items. */
  ghost predicate Tallest(padding: real, items: seq<Extent>, n: nat, h: real) {
    && n <= |items|
    && (exists k :: 0 <= k < n && h == items[k].height + padding)
    && forall k :: 0 <= k < n ==> items[k].height + padding <= h
  }

  lemma {:induction false} LineHeightIsTallest(padding: real, width: real, items: seq<Extent>, n: nat)
    requires Measured(padding, items) && 0 < n <= |items|
    ensures Tallest(padding, items, n, After(padding, width, items[..n]).lineHeight)
  {
    Prefixes(items, n - 1);
    if n > 1 {
      LineHeightIsTallest(padding, width, items, n - 1);
    } else {
      FirstCursor(padding, width, items);
    }
  }

  lemma FirstCursor(padding: real, width: real, items: seq<Extent>)
    requires Measured(padding, items) && items != []
    ensures After(padding, width, items[..1]) == Advance(padding, width, Start(padding), items[0])
    ensures After(padding, width, items[..1]).lineHeight == items[0].height + padding
  {
    Prefixes(items, 0);
    assert items[..1][..0] == [];
  }

  /** A cell has room for the square, the text and three paddings in width, and for the text and one padding in
      height. The first item stands at the left padding, in the first row if it fits and below its own height
      otherwise. */
  lemma FirstCell(padding: real, width: real, items: seq<Extent>)
    requires Measured(padding, items) && items != []
    ensures var cells := Cells(padding, width, items);
      && (forall i :: 0 <= i < |items| ==>
            cells[i].width == items[i].width + 3.0 * padding && cells[i].height == items[i].height + padding)
      && cells[0].x == padding
      && cells[0].y == padding + if padding + cells[0].width > width then cells[0].height else 0.0
  {
    FirstCursor(padding, width, items);
  }

  /** The next item stands directly right of an item, in its row, if there is room for it up to the width;
      otherwise at the left padding, below by the largest height so far. */
  lemma NextCell(padding: real, width: real, items: seq<Extent>, i: nat)
    requires Measured(padding, items) && i + 1 < |items|
    ensures var cells := Cells(padding, width, items);
      if cells[i].x + cells[i].width + cells[i + 1].width <= width then
        cells[i + 1].x == cells[i].x + cells[i].width && cells[i + 1].y == cells[i].y
      else
        cells[i + 1].x == padding && Tallest(padding, items, i + 2, cells[i + 1].y - cells[i].y)
  {
    Prefixes(items, i);
    Prefixes(items, i + 1);
    LineHeightIsTallest(padding, width, items, i + 2);
  }

  /** The height is that of the last row and the largest item; a legend without items is as high as the padding. */
  lemma HeightIs(padding: real, width: real, items: seq<Extent>)
    requires Measured(padding, items)
    ensures items == [] ==> TotalHeight(padding, width, items) == padding
    ensures items != [] ==>
      var last := Cells(padding, width, items)[|items| - 1];
      Tallest(padding, items, |items|, TotalHeight(padding, width, items) - last.y)
  {
    assert items[..|items|] == items;
    if items != [] { LineHeightIsTallest(padding, width, items, |items|); }
  }

  /** Two small items side by side. */
  lemma TwoItemsShareARow()
    ensures var e := Extent(50.0, 10.0);
      && TotalHeight(10.0, 1000.0, [e, e]) == 30.0
      && DrawingOf(10.0, 1000.0, [e, e], 1) == Drawing(90.0, 10.0, 110.0, 20.0)
  {
    var e := Extent(50.0, 10.0);
    var items := [e, e];
    FirstCell(10.0, 1000.0, items);
    NextCell(10.0, 1000.0, items, 0);
    HeightIs(10.0, 1000.0, items);
  }

  // ----- geometry

  ghost predicate Measured(padding: real, items: seq<Extent>) {
    padding >= 0.0 && forall i :: 0 <= i < |items| ==> items[i].width >= 0.0 && items[i].height >= 0.0
  }

  ghost predicate Overlap(a: Cell, b: Cell) {
    && a.x < b.x + b.width && b.x < a.x + a.width
    && a.y < b.y + b.height && b.y < a.y + a.height
  }

  ghost predicate WithinWidth(c: Cell, width: real) { 0.0 <= c.x && c.x + c.width <= width }

  /** An item that fits on a row of its own. */
  predicate Fits(padding: real, width: real, e: Extent) { padding + ItemWidth(padding, e) <= width }

  /** What the cursor knows about cell `i` once it has passed it: the cell is above the current row's
      bottom, and either left of the cursor or in an earlier row. */
  ghost predicate Behind(c: Cursor, cell: Cell) {
    && cell.height <= c.lineHeight
    && ((cell.y == c.totalHeight && cell.x + cell.width <= c.lineUsed) || cell.y + cell.height <= c.totalHeight)
    && cell.y <= c.totalHeight
  }

  lemma Prefixes(items: seq<Extent>, n: nat)
    requires n < |items|
    ensures items[..n + 1][..n] == items[..n] && items[..n + 1][n] == items[n]
  {
  }

  lemma {:induction false} CursorBounds(padding: real, width: real, items: seq<Extent>, n: nat)
    requires Measured(padding, items) && n <= |items|
    ensures var c := After(padding, width, items[..n]);
      c.lineUsed >= padding && c.lineHeight >= 0.0 && c.totalHeight >= padding
  {
    if n > 0 {
      Prefixes(items, n - 1);
      CursorBounds(padding, width, items, n - 1);
    }
  }

  lemma {:induction false} PlacedBehind(padding: real, width: real, items: seq<Extent>, i: nat, n: nat)
    requires Measured(padding, items) && i < n <= |items|
    ensures Behind(After(padding, width, items[..n]), CellOf(padding, width, items, i))
    decreases n
  {
    Prefixes(items, n - 1);
    CursorBounds(padding, width, items, n - 1);
    if i < n - 1 { PlacedBehind(padding, width, items, i, n - 1); }
  }

  lemma StartsRight(padding: real, width: real, items: seq<Extent>, i: nat, j: nat)
    requires Measured(padding, items) && i < j < |items|
    ensures !Overlap(CellOf(padding, width, items, i), CellOf(padding, width, items, j))
  {
    PlacedBehind(padding, width, items, i, j);
    Prefixes(items, j);
  }

  /** No two items overlap, whether in one row or across rows. */
  lemma NoOverlap(padding: real, width: real, items: seq<Extent>)
    requires Measured(padding, items)
    ensures var cells := Cells(padding, width, items);
      forall i, j :: 0 <= i < j < |cells| ==> !Overlap(cells[i], cells[j])
  {
    var cells := Cells(padding, width, items);
    forall i, j | 0 <= i < j < |cells| ensures !Overlap(cells[i], cells[j]) {
      StartsRight(padding, width, items, i, j);
    }
  }

  /** Every item lies between the top padding and the computed height. */
  lemma InsideHeight(padding: real, width: real, items: seq<Extent>, i: nat)
    requires Measured(padding, items) && i < |items|
    ensures var cell := CellOf(padding, width, items, i);
      padding <= cell.y && cell.y + cell.height <= TotalHeight(padding, width, items)
  {
    PlacedBehind(padding, width, items, i, |items|);
    assert items[..|items|] == items;
    CursorBounds(padding, width, items, i + 1);
    CursorBounds(padding, width, items, |items|);
  }

  /** An item stays inside the width exactly when it would fit on a row of its own. */
  lemma InsideWidthIff(padding: real, width: real, items: seq<Extent>, i: nat)
    requires Measured(padding, items) && i < |items|
    ensures WithinWidth(CellOf(padding, width, items, i), width) <==> Fits(padding, width, items[i])
    ensures CellOf(padding, width, items, i).x >= padding
  {
    Prefixes(items, i);
    CursorBounds(padding, width, items, i);
  }

  /** The legend as a whole: all cells are inside `width` by the computed height exactly when each
      item fits the width. */
  lemma LegendFitsIff(padding: real, width: real, items: seq<Extent>)
    requires Measured(padding, items)
    ensures (forall i :: 0 <= i < |items| ==>
              var cell := CellOf(padding, width, items, i);
              WithinWidth(cell, width) && 0.0 <= cell.y && cell.y + cell.height <= TotalHeight(padding, width, items))
       <==> (forall i :: 0 <= i < |items| ==> Fits(padding, width, items[i]))
  {
    forall i | 0 <= i < |items|
      ensures var cell := CellOf(padding, width, items, i);
        && (WithinWidth(cell, width) <==> Fits(padding, width, items[i]))
        && 0.0 <= cell.y && cell.y + cell.height <= TotalHeight(padding, width, items)
    {
      InsideWidthIff(padding, width, items, i);
      InsideHeight(padding, width, items, i);
    }
    if forall i :: 0 <= i < |items| ==> WithinWidth(CellOf(padding, width, items, i), width) {
      forall i | 0 <= i < |items| ensures Fits(padding, width, items[i]) {
        InsideWidthIff(padding, width, items, i);
      }
    }
  }

  /** What `Draw` puts down for an item that fits lies inside the computed area: the square, and the
      text to the right of it, which ends a padding before the right edge. */
  lemma DrawingStaysInside(padding: real, width: real, items: seq<Extent>, i: nat)
    requires Measured(padding, items) && i < |items| && Fits(padding, width, items[i])
    ensures var d, height := DrawingOf(padding, width, items, i), TotalHeight(padding, width, items);
      && padding <= d.squareX && d.squareX + padding <= d.textX && d.textX + items[i].width <= width - padding
      && padding <= d.squareY && d.squareY + padding <= height
      && padding <= d.textY && d.textY + padding <= height
  {
    InsideWidthIff(padding, width, items, i);
    InsideHeight(padding, width, items, i);
  }
}
