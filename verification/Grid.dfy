/**
  * The pane grid of tools/te-rs/src/ui.rs: one rule above each row of panes, one rule between
  * columns, and the panes in what is left. The canvas is drawn in place, and what it holds at the
  * end is given cell by cell.
  */
module Grid {
  import opened Arithmetic
  import opened Pane

  /** A pane as the grid draws it. */
  datatype View = View(
    caption: string, lines: seq<string>, current: string, scrollOffset: nat, horizontalOffset: nat)

  // ----- Sharing a length among bands -----

  /** Where band `i` of `n` begins when `total` cells are shared and each band has one cell for a rule. */
  function Edge(i: nat, n: nat, total: nat): nat
    requires n > 0
  {
    i * total / n + i
  }

  lemma {:induction false} EdgeEnds(n: nat, total: nat)
    requires n > 0
    ensures Edge(0, n, total) == 0 && Edge(n, n, total) == total + n
  {
    Quotient(n * total, n, total);
  }

  /** The bands before band `i` take `i` cells for their rules and the `i`-th part of the total, rounded down. */
  lemma {:induction false} EdgeIsShare(i: nat, n: nat, total: nat)
    requires n > 0
    ensures var share := Edge(i, n, total) - i;
            n * share <= i * total < n * share + n
  {
    QuotientBounds(i * total, n);
  }

  lemma {:induction false} EdgeGrows(i: nat, j: nat, n: nat, total: nat)
    requires i <= j && n > 0
    ensures Edge(i, n, total) + (j - i) <= Edge(j, n, total)
  {
    MulOrder(total, i, j);
    assert i * total == total * i && j * total == total * j;
    QuotientMonotone(i * total, j * total, n);
  }

  predicate InBand(x: nat, i: nat, n: nat, total: nat)
    requires n > 0
  {
    Edge(i, n, total) <= x < Edge(i + 1, n, total)
  }

  /** The last band, from `i` down, that begins at or before `x`. */
  function BandFrom(x: nat, i: nat, n: nat, total: nat): (r: nat)
    requires n > 0
    ensures r <= i
    ensures r == i || x < Edge(r + 1, n, total)
    ensures r == 0 || Edge(r, n, total) <= x
  {
    if i == 0 || Edge(i, n, total) <= x then i else BandFrom(x, i - 1, n, total)
  }

  function BandOf(x: nat, n: nat, total: nat): (r: nat)
    requires n > 0
    ensures r < n
  {
    BandFrom(x, n - 1, n, total)
  }

  /** Each cell is in exactly one band. */
  lemma {:induction false} BandIs(x: nat, n: nat, total: nat)
    requires n > 0 && x < total + n
    ensures InBand(x, BandOf(x, n, total), n, total)
    ensures forall i | 0 <= i < n && InBand(x, i, n, total) :: i == BandOf(x, n, total)
  {
    EdgeEnds(n, total);
    var b := BandOf(x, n, total);
    forall i | 0 <= i < n && InBand(x, i, n, total)
      ensures i == b
    {
      if i < b {
        EdgeGrows(i + 1, b, n, total);
      } else if b < i {
        EdgeGrows(b + 1, i, n, total);
      }
    }
  }

  // ----- The layout -----

  datatype Layout = Layout(width: nat, height: nat, panes: nat) {
    function Columns(): (r: nat)
      ensures r == 1 || r == 2
    {
      if panes <= 1 then 1 else 2
    }

    function ColumnTotal(): nat {
      Minus(width, Columns() - 1)
    }

    function Rows(): nat {
      (panes + Columns() - 1) / Columns()
    }

    predicate Drawn() {
      0 < Rows() < height
    }

    function Top(row: nat): nat
      requires Drawn()
    {
      Edge(row, Rows(), height - Rows())
    }

    function Left(column: nat): nat {
      Edge(column, Columns(), ColumnTotal())
    }

    function RowOf(r: nat): (row: nat)
      requires Drawn()
      ensures row < Rows()
    {
      BandOf(r, Rows(), height - Rows())
    }

    function ColumnOf(c: nat): (column: nat)
      ensures column < Columns()
    {
      BandOf(c, Columns(), ColumnTotal())
    }
  }

  lemma {:induction false} RowFacts(g: Layout, row: nat)
    requires g.Drawn() && row < g.Rows()
    ensures g.Top(0) == 0 && g.Top(g.Rows()) == g.height
    ensures g.Top(row) + 1 <= g.Top(row + 1) <= g.height
    ensures forall r: nat | g.Top(row) <= r < g.Top(row + 1) :: g.RowOf(r) == row
  {
    hide Edge, BandOf;
    var n, total := g.Rows(), g.height - g.Rows();
    EdgeEnds(n, total);
    EdgeGrows(row, row + 1, n, total);
    EdgeGrows(row + 1, n, n, total);
    forall r: nat | g.Top(row) <= r < g.Top(row + 1) ensures g.RowOf(r) == row {
      BandIs(r, n, total);
      assert InBand(r, row, n, total);
    }
  }

  lemma {:induction false} ColumnFacts(g: Layout, column: nat)
    requires column < g.Columns()
    ensures g.Left(0) == 0 && g.width < g.Left(g.Columns())
    ensures g.width >= g.Columns() - 1 ==> g.Left(g.Columns()) == g.width + 1
    ensures g.Left(column) + 1 <= g.Left(column + 1) <= g.Left(g.Columns())
    ensures forall c: nat | g.Left(column) <= c < g.Left(column + 1) :: g.ColumnOf(c) == column
  {
    hide Edge, BandOf;
    var n, total := g.Columns(), g.ColumnTotal();
    EdgeEnds(n, total);
    EdgeGrows(column, column + 1, n, total);
    EdgeGrows(column + 1, n, n, total);
    forall c: nat | g.Left(column) <= c < g.Left(column + 1) ensures g.ColumnOf(c) == column {
      BandIs(c, n, total);
      assert InBand(c, column, n, total);
    }
  }

  // ----- The regions -----

  datatype Region = Rule(row: nat) | Separator(row: nat, column: nat) | Content(row: nat, column: nat)

  predicate Inside(g: Layout, region: Region, r: nat, c: nat)
    requires g.Drawn()
  {
    match region
    case Rule(row) => row < g.Rows() && r == g.Top(row)
    case Separator(row, column) =>
      && row < g.Rows() && column + 1 < g.Columns()
      && g.Top(row) < r < g.Top(row + 1) && c + 1 == g.Left(column + 1)
    case Content(row, column) =>
      && row < g.Rows() && column < g.Columns()
      && g.Top(row) < r < g.Top(row + 1) && g.Left(column) <= c && c + 1 < g.Left(column + 1)
  }

  function RegionOf(g: Layout, r: nat, c: nat): Region
    requires g.Drawn()
  {
    var row, column := g.RowOf(r), g.ColumnOf(c);
    if r == g.Top(row) then Rule(row)
    else if c + 1 == g.Left(column + 1) then Separator(row, column)
    else Content(row, column)
  }

  /** Rules, separators and content rectangles cover every cell and are pairwise disjoint. */
  lemma {:induction false} RegionsPartition(g: Layout, r: nat, c: nat, region: Region)
    requires g.Drawn() && r < g.height && c < g.width
    ensures Inside(g, region, r, c) <==> region == RegionOf(g, r, c)
  {
    hide Edge, BandOf;
    RowFacts(g, g.RowOf(r));
    ColumnFacts(g, g.ColumnOf(c));
    InItsBands(g, r, c);
    if Inside(g, region, r, c) {
      RowFacts(g, region.row);
      if !region.Rule? {
        ColumnFacts(g, region.column);
      }
    }
  }

  lemma {:induction false} InItsBands(g: Layout, r: nat, c: nat)
    requires g.Drawn() && r < g.height && c < g.width
    ensures g.Top(g.RowOf(r)) <= r < g.Top(g.RowOf(r) + 1)
    ensures g.Left(g.ColumnOf(c)) <= c < g.Left(g.ColumnOf(c) + 1)
    ensures g.ColumnOf(c) + 1 == g.Columns() ==> c + 1 < g.Left(g.ColumnOf(c) + 1)
  {
    ColumnFacts(g, 0);
    EdgeEnds(g.Columns(), g.ColumnTotal());
    BandIs(r, g.Rows(), g.height - g.Rows());
    BandIs(c, g.Columns(), g.ColumnTotal());
  }

  /** Every pane has exactly one place: the one its index gives. */
  lemma {:induction false} PlaceOfPane(g: Layout, index: nat, row: nat, column: nat)
    requires index < g.panes && column < g.Columns()
    ensures row < g.Rows() && row * g.Columns() + column == index
            <==> row == index / g.Columns() && column == index % g.Columns()
  {
  }

  /** One pane has the whole width; two or more stand side by side, two to a row, the left one no wider. */
  lemma {:induction false} SideBySide(g: Layout)
    ensures g.panes <= 1 ==> g.Columns() == 1 && g.Rows() == g.panes && g.Left(0) == 0 && g.Left(1) == g.width + 1
    ensures g.panes >= 2 ==> g.Columns() == 2 && g.Rows() == (g.panes + 1) / 2
    ensures g.panes >= 2 && g.width >= 1 ==>
              g.Left(0) == 0 && g.Left(1) == (g.width - 1) / 2 + 1 && g.Left(2) == g.width + 1
  {
    EdgeEnds(g.Columns(), g.ColumnTotal());
    if g.panes >= 2 {
      Half(g.ColumnTotal());
    }
  }

  lemma {:induction false} Half(total: nat)
    ensures Edge(1, 2, total) == total / 2 + 1
  {
  }

  // ----- What each cell shows -----

  /** A label starts two cells in when it fits with them. */
  function Lead(caption: string, paneWidth: int): nat {
    if |caption| + 2 <= paneWidth then 2 else 0
  }

  function RuleChar(caption: string, paneWidth: int, at: nat): char {
    var k := at - Lead(caption, paneWidth);
    if 0 <= k < |caption| then caption[k] else '-'
  }

  function PaneChar(view: View, height: nat, row: nat, at: nat, was: char): char {
    var shown := Visible(view.lines, view.current, view.scrollOffset, height);
    if row < |shown| && view.horizontalOffset + at < |shown[row]|
    then shown[row][view.horizontalOffset + at] else was
  }

  /** A cell of the band of row `row` and column `column`; `was` is what it held before. */
  function CellIn(views: seq<View>, g: Layout, row: nat, column: nat, r: nat, c: nat, was: char): char
    requires g.Drawn() && row < g.Rows() && column < g.Columns()
    requires g.Top(row) <= r && g.Left(column) <= c
  {
    var index := row * g.Columns() + column;
    if column + 1 < g.Columns() && c + 1 == g.Left(column + 1) then '|'
    else if r == g.Top(row) then
      if index < |views| then
        RuleChar(views[index].caption, g.Left(column + 1) - g.Left(column) - 1, c - g.Left(column))
      else '-'
    else if index < |views| then
      PaneChar(views[index], Minus(g.Top(row + 1), g.Top(row) + 1), r - g.Top(row) - 1, c - g.Left(column), was)
    else was
  }

  function Cell(views: seq<View>, g: Layout, r: nat, c: nat, was: char): char
    requires g.Drawn() && r < g.height && c < g.width
  {
    InItsBands(g, r, c);
    CellIn(views, g, g.RowOf(r), g.ColumnOf(c), r, c, was)
  }

  /**
    * What is drawn, cell by cell. Between two columns stands a bar. A rule is dashes, with the name of
    * the pane beneath each column: two cells in where there is room for them, else from the edge, and
    * cut at the end of the column. A pane shows its visible rows, from its horizontal offset on.
    */
  lemma {:induction false} CellShows(views: seq<View>, g: Layout, row: nat, column: nat, r: nat, c: nat, was: char)
    requires g.Drawn() && row < g.Rows() && column < g.Columns() && |views| == g.panes
    requires g.Top(row) <= r < g.Top(row + 1) && g.Left(column) <= c < g.Left(column + 1) && r < g.height && c < g.width
    ensures var index := row * g.Columns() + column;
            var at, width := c - g.Left(column), g.Left(column + 1) - g.Left(column) - 1;
            var k, height := r - g.Top(row) - 1, g.Top(row + 1) - g.Top(row) - 1;
            var cell := Cell(views, g, r, c, was);
            if at == width then cell == '|'
            else if index >= |views| then cell == if k < 0 then '-' else was
            else if k < 0 then
              var name := views[index].caption;
              if |name| + 2 <= width then cell == if 2 <= at < 2 + |name| then name[at - 2] else '-'
              else cell == if at < |name| then name[at] else '-'
            else
              var v := views[index];
              var shown := Visible(v.lines, v.current, v.scrollOffset, height);
              cell == if k < |shown| && v.horizontalOffset + at < |shown[k]| then shown[k][v.horizontalOffset + at]
                      else was
  {
    hide Edge, BandOf, Visible;
    RowFacts(g, row);
    ColumnFacts(g, column);
    InItsBands(g, r, c);
  }

  /** A pane shows itself only in its own rectangle and on the rule above it, in its own column. */
  lemma {:induction false} OtherCellsDoNotChange(
      views: seq<View>, changed: View, index: nat, g: Layout, r: nat, c: nat, was: char)
    requires index < |views| == g.panes && g.Drawn() && r < g.height && c < g.width
    requires var region := RegionOf(g, r, c);
             region != Content(index / g.Columns(), index % g.Columns())
    requires RegionOf(g, r, c) != Rule(index / g.Columns()) || g.ColumnOf(c) != index % g.Columns()
    ensures Cell(views[index := changed], g, r, c, was) == Cell(views, g, r, c, was)
  {
    hide Edge, BandOf, RuleChar, PaneChar;
    var row, column := g.RowOf(r), g.ColumnOf(c);
    InItsBands(g, r, c);
    if row * g.Columns() + column == index {
      PlaceOfPane(g, index, row, column);
    }
  }

  // ----- Drawing -----

  /** Writes a label on a rule, clipped to its column. */
  method WriteLabel(canvas: array2<char>, y: nat, x: nat, end: nat, caption: string) returns (column: nat)
    requires y < canvas.Length0 && x <= end
    modifies canvas
    ensures forall r, c | 0 <= r < canvas.Length0 && 0 <= c < canvas.Length1 ::
              canvas[r, c] == if r == y && x <= c < end && c - x < |caption| then caption[c - x] else old(canvas[r, c])
    ensures x <= column <= x + |caption|
  {
    column := x;
    for k := 0 to |caption|
      invariant column == x + k
      invariant forall r, c | 0 <= r < canvas.Length0 && 0 <= c < canvas.Length1 ::
                  canvas[r, c] == if r == y && x <= c < end && c - x < k then caption[c - x] else old(canvas[r, c])
    {
      if column >= end || column >= canvas.Length1 { break; }
      canvas[y, column] := caption[k];
      column := column + 1;
    }
  }

  /** Writes a pane's rows; no cell outside the rectangle changes. */
  method DrawPaneContent(canvas: array2<char>, view: View, x: nat, y: nat, width: nat, height: nat)
    modifies canvas
    ensures forall r, c | 0 <= r < canvas.Length0 && 0 <= c < canvas.Length1 ::
              canvas[r, c] == if y <= r < y + height && x <= c < x + width
                              then PaneChar(view, height, r - y, c - x, old(canvas[r, c]))
                              else old(canvas[r, c])
  {
    var lines := Visible(view.lines, view.current, view.scrollOffset, height);
    VisibleIsWindow(view.lines, view.current, view.scrollOffset, height);
    hide Visible;
    for row := 0 to |lines|
      invariant forall r, c | 0 <= r < canvas.Length0 && 0 <= c < canvas.Length1 ::
                  canvas[r, c] == if y <= r < y + row && x <= c < x + width
                                  then PaneChar(view, height, r - y, c - x, old(canvas[r, c]))
                                  else old(canvas[r, c])
    {
      var target := y + row;
      if target >= canvas.Length0 { break; }
      DrawText(canvas, target, x, lines[row], view.horizontalOffset, width);
    }
  }

  /** One row of a pane: the text from `skip` on, at most `width` characters of it. */
  method DrawText(canvas: array2<char>, target: nat, x: nat, line: string, skip: nat, width: nat)
    requires target < canvas.Length0
    modifies canvas
    ensures forall r, c | 0 <= r < canvas.Length0 && 0 <= c < canvas.Length1 ::
              canvas[r, c] == if r == target && x <= c < x + width && skip + (c - x) < |line|
                              then line[skip + (c - x)] else old(canvas[r, c])
  {
    var column: nat := 0;
    while column < width && skip + column < |line|
      invariant column <= width
      invariant forall r, c | 0 <= r < canvas.Length0 && 0 <= c < canvas.Length1 ::
                  canvas[r, c] == if r == target && x <= c < x + column && skip + (c - x) < |line|
                                  then line[skip + (c - x)] else old(canvas[r, c])
      decreases width - column
    {
      var cell := x + column;
      if cell < canvas.Length1 {
        canvas[target, cell] := line[skip + column];
      }
      column := column + 1;
    }
  }

  /** The rule above row `row`, naming the pane beneath it in each column. */
  method DrawRule(canvas: array2<char>, views: seq<View>, g: Layout, y: nat, row: nat)
    requires g.Drawn() && row < g.Rows() && y == g.Top(row) && |views| == g.panes
    requires canvas.Length0 == g.height && canvas.Length1 == g.width
    modifies canvas
    ensures forall r, c | 0 <= r < canvas.Length0 && 0 <= c < canvas.Length1 ::
              canvas[r, c] == if r == y then Cell(views, g, r, c, old(canvas[r, c])) else old(canvas[r, c])
  {
    hide Edge, BandOf;
    RowFacts(g, row);
    for c := 0 to g.width
      invariant forall r, k | 0 <= r < canvas.Length0 && 0 <= k < canvas.Length1 ::
                  canvas[r, k] == if r == y && k < c then '-' else old(canvas[r, k])
    {
      canvas[y, c] := '-';
    }
    var x: nat := 0;
    ColumnFacts(g, 0);
    for column := 0 to g.Columns()
      invariant column < g.Columns() ==> x == g.Left(column)
      invariant forall r, c | 0 <= r < canvas.Length0 && 0 <= c < canvas.Length1 ::
                  canvas[r, c] == if r == y
                                  then if c < g.Left(column) then Cell(views, g, r, c, old(canvas[r, c])) else '-'
                                  else old(canvas[r, c])
    {
      ColumnFacts(g, column);
      var paneWidth := g.Left(column + 1) - g.Left(column) - 1;
      var index := row * g.Columns() + column;
      if index < |views| {
        var lead := Lead(views[index].caption, paneWidth);
        var _ := WriteLabel(canvas, y, x + lead, x + paneWidth, views[index].caption);
      }
      x := x + paneWidth;
      if column + 1 < g.Columns() {
        if x < canvas.Length1 {
          canvas[y, x] := '|';
        }
        x := x + 1;
      }
    }
    ColumnFacts(g, 0);
  }

  /** The panes of one row and the separators between them. */
  method DrawRow(canvas: array2<char>, views: seq<View>, g: Layout, y: nat, row: nat)
    requires g.Drawn() && row < g.Rows() && y == g.Top(row) + 1 && |views| == g.panes
    requires canvas.Length0 == g.height && canvas.Length1 == g.width
    modifies canvas
    ensures forall r, c | 0 <= r < canvas.Length0 && 0 <= c < canvas.Length1 ::
              canvas[r, c] == if g.Top(row) < r < g.Top(row + 1)
                              then Cell(views, g, r, c, old(canvas[r, c])) else old(canvas[r, c])
  {
    hide Edge, BandOf, PaneChar;
    RowFacts(g, row);
    var contentHeight := g.Top(row + 1) - y;
    var x: nat := 0;
    ColumnFacts(g, 0);
    for column := 0 to g.Columns()
      invariant column < g.Columns() ==> x == g.Left(column)
      invariant forall r, c | 0 <= r < canvas.Length0 && 0 <= c < canvas.Length1 ::
                  canvas[r, c] == if g.Top(row) < r < g.Top(row + 1) && c < g.Left(column)
                                  then Cell(views, g, r, c, old(canvas[r, c])) else old(canvas[r, c])
    {
      ColumnFacts(g, column);
      var paneWidth := g.Left(column + 1) - g.Left(column) - 1;
      var index := row * g.Columns() + column;
      if index < |views| {
        DrawPaneContent(canvas, views[index], x, y, paneWidth, contentHeight);
      }
      x := x + paneWidth;
      if column + 1 < g.Columns() {
        DrawSeparator(canvas, x, y, contentHeight);
        x := x + 1;
      }
    }
    ColumnFacts(g, 0);
  }

  method DrawSeparator(canvas: array2<char>, x: nat, y: nat, height: nat)
    modifies canvas
    ensures forall r, c | 0 <= r < canvas.Length0 && 0 <= c < canvas.Length1 ::
              canvas[r, c] == if y <= r < y + height && c == x then '|' else old(canvas[r, c])
  {
    var line := y;
    while line < y + height && line < canvas.Length0
      invariant y <= line <= y + height
      invariant forall r, c | 0 <= r < canvas.Length0 && 0 <= c < canvas.Length1 ::
                  canvas[r, c] == if y <= r < line && c == x then '|' else old(canvas[r, c])
      decreases y + height - line
    {
      if x < canvas.Length1 {
        canvas[line, x] := '|';
      }
      line := line + 1;
    }
  }

  /** The whole grid: every cell shows what its place says. */
  method DrawGrid(canvas: array2<char>, views: seq<View>)
    modifies canvas
    ensures var g := Layout(canvas.Length1, canvas.Length0, |views|);
            forall r, c | 0 <= r < canvas.Length0 && 0 <= c < canvas.Length1 ::
              canvas[r, c] == if g.Drawn() then Cell(views, g, r, c, old(canvas[r, c])) else old(canvas[r, c])
  {
    hide Edge, BandOf, CellIn;
    var g := Layout(canvas.Length1, canvas.Length0, |views|);
    if g.Rows() == 0 || g.height <= g.Rows() { return; }
    RowFacts(g, 0);
    var y: nat := 0;
    for row := 0 to g.Rows()
      invariant y == g.Top(row)
      invariant forall r, c | 0 <= r < canvas.Length0 && 0 <= c < canvas.Length1 ::
                  canvas[r, c] == if r < y then Cell(views, g, r, c, old(canvas[r, c])) else old(canvas[r, c])
    {
      RowFacts(g, row);
      var contentHeight := g.Top(row + 1) - g.Top(row) - 1;
      DrawRule(canvas, views, g, y, row);
      y := y + 1;
      DrawRow(canvas, views, g, y, row);
      y := y + contentHeight;
    }
  }
}
