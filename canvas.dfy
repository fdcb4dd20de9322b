/**
 * The canvas the renderers paint: an RGBA image, modelled as a 2-D array
 * indexed `[y, x]`, created transparent and painted one block per resolved
 * cell in row-major order.
 *
 * A block is what `draw.rectangle((x1, y1, x2, y2), fill=...)` fills with
 * `x1 = col*ps`, `x2 = x1 + ps` (and likewise for y): Pillow includes the end
 * corner, so a block is `ps + 1` pixels wide and adjacent blocks share a line
 * of pixels.  Drawing an opaque or a translucent fill on an RGBA image
 * replaces the pixels (there is no blending), and whatever falls outside the
 * image is clipped.
 */
module Canvas {
  import opened Results
  import opened Text
  import opened Color

  /** The background of a new image: `(255, 255, 255, 0)`. */
  const Transparent: Rgba := Rgba(255, 255, 255, 0)

  /** The block painted for the cell at (`row`, `col`). */
  datatype Block = Block(row: nat, col: nat, color: Rgba)

  /** Whether the block of pixel size `ps` covers pixel (x, y): both end corners included. */
  predicate Covers(b: Block, ps: int, x: int, y: int) {
    b.col * ps <= x <= b.col * ps + ps && b.row * ps <= y <= b.row * ps + ps
  }

  /** The blocks of one row's resolved cells, left to right. */
  function RowOps(row: nat, cells: seq<Option<Rgba>>): seq<Block> {
    if cells == [] then []
    else
      RowOps(row, cells[..|cells| - 1])
      + match cells[|cells| - 1]
        case Some(c) => [Block(row, |cells| - 1, c)]
        case None => []
  }

  /** The blocks of a grid of cell colours, in row-major order; cells without a colour give none. */
  function Ops(colors: seq<seq<Option<Rgba>>>): seq<Block> {
    if colors == [] then []
    else Ops(colors[..|colors| - 1]) + RowOps(|colors| - 1, colors[|colors| - 1])
  }

  /** The colour of pixel (x, y) once the blocks are painted in order on a transparent canvas. */
  function PixelAfter(ops: seq<Block>, ps: int, x: int, y: int): Rgba {
    if ops == [] then Transparent
    else if Covers(ops[|ops| - 1], ps, x, y) then ops[|ops| - 1].color
    else PixelAfter(ops[..|ops| - 1], ps, x, y)
  }

  // ---------------------------------------------------------------------
  // The image
  // ---------------------------------------------------------------------

  /** `Image.new("RGBA", (width, height), (255, 255, 255, 0))` */
  method NewImage(width: nat, height: nat) returns (img: array2<Rgba>)
    ensures fresh(img) && img.Length0 == height && img.Length1 == width
    ensures forall y, x :: 0 <= y < height && 0 <= x < width ==> img[y, x] == Transparent
  {
    img := new Rgba[height, width]((y, x) => Transparent);
  }

  /**
   * `draw.rectangle((x1, y1, x2, y2), fill=color)`: every pixel with
   * `x1 <= x <= x2` and `y1 <= y <= y2` that lies on the image takes the
   * colour; no other pixel changes.  Pillow refuses an end corner before the
   * start corner.
   */
  method PaintBlock(img: array2<Rgba>, x1: int, y1: int, x2: int, y2: int, color: Rgba)
    requires x1 <= x2 && y1 <= y2
    modifies img
    ensures forall y, x :: 0 <= y < img.Length0 && 0 <= x < img.Length1 ==>
      img[y, x] == if x1 <= x <= x2 && y1 <= y <= y2 then color else old(img[y, x])
  {
    var ys := if y1 < 0 then 0 else y1;
    var ye := if y2 + 1 > img.Length0 then img.Length0 else y2 + 1;
    ye := if ye < ys then ys else ye;
    var xs := if x1 < 0 then 0 else x1;
    var xe := if x2 + 1 > img.Length1 then img.Length1 else x2 + 1;
    xe := if xe < xs then xs else xe;
    var y := ys;
    while y < ye
      invariant ys <= y <= ye
      invariant forall v, u :: 0 <= v < img.Length0 && 0 <= u < img.Length1 ==>
        img[v, u] == if xs <= u < xe && ys <= v < y then color else old(img[v, u])
    {
      var x := xs;
      while x < xe
        invariant xs <= x <= xe
        invariant forall v, u :: 0 <= v < img.Length0 && 0 <= u < img.Length1 ==>
          img[v, u] == if (xs <= u < xe && ys <= v < y) || (v == y && xs <= u < x) then color else old(img[v, u])
      {
        img[y, x] := color;
        x := x + 1;
      }
      y := y + 1;
    }
  }

  /** The renderers' nested loop: the block of every resolved cell, row by row, column by column. */
  method Paint(img: array2<Rgba>, colors: seq<seq<Option<Rgba>>>, ps: nat)
    requires forall y, x :: 0 <= y < img.Length0 && 0 <= x < img.Length1 ==> img[y, x] == Transparent
    modifies img
    ensures forall y, x :: 0 <= y < img.Length0 && 0 <= x < img.Length1 ==>
      img[y, x] == PixelAfter(Ops(colors), ps, x, y)
  {
    var i := 0;
    while i < |colors|
      invariant 0 <= i <= |colors|
      invariant forall y, x :: 0 <= y < img.Length0 && 0 <= x < img.Length1 ==>
        img[y, x] == PixelAfter(Ops(colors[..i]), ps, x, y)
    {
      var row := colors[i];
      var j := 0;
      assert RowOps(i, row[..0]) == [];
      assert Ops(colors[..i]) + RowOps(i, row[..0]) == Ops(colors[..i]);
      while j < |row|
        invariant 0 <= j <= |row|
        invariant forall y, x :: 0 <= y < img.Length0 && 0 <= x < img.Length1 ==>
          img[y, x] == PixelAfter(Ops(colors[..i]) + RowOps(i, row[..j]), ps, x, y)
      {
        var before := Ops(colors[..i]) + RowOps(i, row[..j]);
        RowStep(Ops(colors[..i]), i, row, j);
        if row[j].Some? {
          var b := Block(i, j, row[j].value);
          PaintBlock(img, j * ps, i * ps, j * ps + ps, i * ps + ps, b.color);
          forall y, x | 0 <= y < img.Length0 && 0 <= x < img.Length1
            ensures img[y, x] == PixelAfter(before + [b], ps, x, y)
          {
            PixelAfterLast(before, b, ps, x, y);
          }
        }
        j := j + 1;
      }
      assert row[..|row|] == row;
      OpsStep(colors, i);
      i := i + 1;
    }
    assert colors[..|colors|] == colors;
  }

  /** One more row: its blocks come after those of the rows above. */
  lemma OpsStep(colors: seq<seq<Option<Rgba>>>, i: nat)
    requires i < |colors|
    ensures Ops(colors[..i + 1]) == Ops(colors[..i]) + RowOps(i, colors[i])
  {
    assert colors[..i + 1][..i] == colors[..i];
  }

  /** One more cell of row `i`: its block, if it has a colour, comes last. */
  lemma RowStep(pre: seq<Block>, i: nat, row: seq<Option<Rgba>>, j: nat)
    requires j < |row|
    ensures row[j].None? ==> pre + RowOps(i, row[..j + 1]) == pre + RowOps(i, row[..j])
    ensures row[j].Some? ==> pre + RowOps(i, row[..j + 1]) == pre + RowOps(i, row[..j]) + [Block(i, j, row[j].value)]
  {
    assert row[..j + 1][..j] == row[..j];
  }

  /** Painting one more block changes exactly the pixels it covers. */
  lemma PixelAfterLast(before: seq<Block>, b: Block, ps: int, x: int, y: int)
    ensures PixelAfter(before + [b], ps, x, y) == if Covers(b, ps, x, y) then b.color else PixelAfter(before, ps, x, y)
  {
    assert (before + [b])[..|before|] == before;
  }

  // ---------------------------------------------------------------------
  // What the painted canvas shows
  // ---------------------------------------------------------------------

  /** A pixel no block covers keeps the background. */
  lemma {:induction false} UncoveredIsClear(ops: seq<Block>, ps: int, x: int, y: int)
    requires forall k :: 0 <= k < |ops| ==> !Covers(ops[k], ps, x, y)
    ensures PixelAfter(ops, ps, x, y) == Transparent
  {
    if ops != [] {
      UncoveredIsClear(ops[..|ops| - 1], ps, x, y);
    }
  }

  /** A pixel shows the last block covering it. */
  lemma {:induction false} LastCoverWins(ops: seq<Block>, ps: int, x: int, y: int, k: nat)
    requires k < |ops| && Covers(ops[k], ps, x, y)
    requires forall l :: k < l < |ops| ==> !Covers(ops[l], ps, x, y)
    ensures PixelAfter(ops, ps, x, y) == ops[k].color
  {
    if k < |ops| - 1 {
      var init := ops[..|ops| - 1];
      assert init[k] == ops[k];
      LastCoverWins(init, ps, x, y, k);
    }
  }

  /** (r, c) comes strictly before (r', c') in row-major order. */
  predicate Before(a: Block, b: Block) {
    a.row < b.row || (a.row == b.row && a.col < b.col)
  }

  /** A row's blocks are exactly its resolved cells, left to right. */
  lemma RowOpsContents(row: nat, cells: seq<Option<Rgba>>)
    ensures forall b :: b in RowOps(row, cells) <==>
      b.row == row && b.col < |cells| && cells[b.col] == Some(b.color)
    ensures forall k, l :: 0 <= k < l < |RowOps(row, cells)| ==>
      RowOps(row, cells)[k].row == row && RowOps(row, cells)[k].col < RowOps(row, cells)[l].col
    ensures forall k :: 0 <= k < |RowOps(row, cells)| ==>
      RowOps(row, cells)[k].row == row && RowOps(row, cells)[k].col < |cells|
  {
    RowOpsMembers(row, cells);
    RowOpsOrdered(row, cells);
  }

  lemma {:induction false} RowOpsMembers(row: nat, cells: seq<Option<Rgba>>)
    ensures forall b :: b in RowOps(row, cells) <==>
      b.row == row && b.col < |cells| && cells[b.col] == Some(b.color)
  {
    if cells != [] {
      var n := |cells| - 1;
      var init := cells[..n];
      RowOpsMembers(row, init);
      assert forall k :: 0 <= k < |init| ==> init[k] == cells[k];
      var a := RowOps(row, init);
      var t := match cells[n] case Some(c) => [Block(row, n, c)] case None => [];
      assert RowOps(row, cells) == a + t;
      forall b
        ensures b in a + t <==> b.row == row && b.col < |cells| && cells[b.col] == Some(b.color)
      {
        assert b in a + t <==> b in a || b in t;
      }
    }
  }

  lemma {:induction false} RowOpsOrdered(row: nat, cells: seq<Option<Rgba>>)
    ensures forall k, l :: 0 <= k < l < |RowOps(row, cells)| ==>
      RowOps(row, cells)[k].row == row && RowOps(row, cells)[k].col < RowOps(row, cells)[l].col
    ensures forall k :: 0 <= k < |RowOps(row, cells)| ==>
      RowOps(row, cells)[k].row == row && RowOps(row, cells)[k].col < |cells|
  {
    if cells != [] {
      var n := |cells| - 1;
      var init := cells[..n];
      RowOpsOrdered(row, init);
      var a := RowOps(row, init);
      var t := match cells[n] case Some(c) => [Block(row, n, c)] case None => [];
      var ops := RowOps(row, cells);
      assert ops == a + t;
      forall k | 0 <= k < |ops|
        ensures ops[k].row == row && ops[k].col < |cells|
        ensures k < |a| ==> ops[k] == a[k] && ops[k].col < n
        ensures k >= |a| ==> k == |a| && ops[k].col == n
      {
        if k >= |a| {
          assert ops[k] == t[k - |a|];
        } else {
          assert ops[k] == a[k];
        }
      }
      forall k, l | 0 <= k < l < |ops|
        ensures ops[k].row == row && ops[k].col < ops[l].col
      {
        if l < |a| {
          assert ops[k] == a[k] && ops[l] == a[l];
        }
      }
      assert forall k, l :: 0 <= k < l < |ops| ==> ops[k].row == row && ops[k].col < ops[l].col;
    } else {
      assert RowOps(row, cells) == [];
    }
  }

  /** The blocks are exactly the resolved cells, each once, in row-major order. */
  lemma {:induction false} OpsContents(colors: seq<seq<Option<Rgba>>>)
    ensures forall b :: b in Ops(colors) <==>
      b.row < |colors| && b.col < |colors[b.row]| && colors[b.row][b.col] == Some(b.color)
    ensures forall k, l :: 0 <= k < l < |Ops(colors)| ==> Before(Ops(colors)[k], Ops(colors)[l])
    ensures forall k :: 0 <= k < |Ops(colors)| ==> Ops(colors)[k].row < |colors|
  {
    if colors != [] {
      var n := |colors| - 1;
      var init := colors[..n];
      OpsContents(init);
      RowOpsContents(n, colors[n]);
      assert forall k :: 0 <= k < |init| ==> init[k] == colors[k];
      var a, b := Ops(init), RowOps(n, colors[n]);
      assert Ops(colors) == a + b;
      forall k, l | 0 <= k < l < |a + b|
        ensures Before((a + b)[k], (a + b)[l])
      {
        if l >= |a| && k < |a| {
          assert (a + b)[k] == a[k] && (a + b)[l] == b[l - |a|];
        }
      }
    }
  }

  /** Blocks of consecutive cells start `ps` apart, so an earlier block ends where a later one can start. */
  lemma MulStep(a: int, b: int, ps: int)
    requires a < b && ps >= 0
    ensures a * ps + ps <= b * ps
  {
    assert (a + 1) * ps == a * ps + ps;
    assert (a + 1) * ps <= b * ps;
  }

  /** Blocks of other cells reach into a cell's square only along its top and left edges. */
  lemma OtherBlockMisses(b: Block, ps: int, r: nat, c: nat, dx: int, dy: int)
    requires ps > 0 && 0 < dx < ps && 0 < dy < ps && (b.row, b.col) != (r, c)
    ensures !Covers(b, ps, c * ps + dx, r * ps + dy)
  {
    if b.col < c {
      MulStep(b.col, c, ps);
    } else if b.col > c {
      MulStep(c, b.col, ps);
    } else if b.row < r {
      MulStep(b.row, r, ps);
    } else {
      MulStep(r, b.row, ps);
    }
  }

  /** A later block never covers a pixel of an earlier block's own square, edges included. */
  lemma LaterBlockMisses(b: Block, ps: int, r: nat, c: nat, dx: int, dy: int)
    requires ps > 0 && 0 <= dx < ps && 0 <= dy < ps && Before(Block(r, c, b.color), b)
    ensures !Covers(b, ps, c * ps + dx, r * ps + dy)
  {
    if b.row > r {
      MulStep(r, b.row, ps);
    } else {
      MulStep(c, b.col, ps);
    }
  }

  /**
   * A resolved cell's square, `ps` by `ps` pixels from its top-left corner,
   * shows that cell's colour: later cells overwrite only the lines beyond it.
   */
  lemma ResolvedCellShows(colors: seq<seq<Option<Rgba>>>, ps: int, r: nat, c: nat, dx: int, dy: int)
    requires ps > 0 && 0 <= dx < ps && 0 <= dy < ps
    requires r < |colors| && c < |colors[r]| && colors[r][c].Some?
    ensures PixelAfter(Ops(colors), ps, c * ps + dx, r * ps + dy) == colors[r][c].value
  {
    var ops := Ops(colors);
    OpsContents(colors);
    var me := Block(r, c, colors[r][c].value);
    assert me in ops;
    var k :| 0 <= k < |ops| && ops[k] == me;
    forall l | k < l < |ops|
      ensures !Covers(ops[l], ps, c * ps + dx, r * ps + dy)
    {
      assert Before(ops[k], ops[l]);
      LaterBlockMisses(ops[l], ps, r, c, dx, dy);
    }
    assert Covers(me, ps, c * ps + dx, r * ps + dy);
    LastCoverWins(ops, ps, c * ps + dx, r * ps + dy, k);
  }

  /** The inside of a cell without a colour stays transparent: skipping a cell paints nothing there. */
  lemma SkippedCellStaysClear(colors: seq<seq<Option<Rgba>>>, ps: int, r: nat, c: nat, dx: int, dy: int)
    requires ps > 0 && 0 < dx < ps && 0 < dy < ps
    requires r >= |colors| || c >= |colors[r]| || colors[r][c].None?
    ensures PixelAfter(Ops(colors), ps, c * ps + dx, r * ps + dy) == Transparent
  {
    var ops := Ops(colors);
    OpsContents(colors);
    forall k | 0 <= k < |ops|
      ensures !Covers(ops[k], ps, c * ps + dx, r * ps + dy)
    {
      assert ops[k] in ops;
      OtherBlockMisses(ops[k], ps, r, c, dx, dy);
    }
    UncoveredIsClear(ops, ps, c * ps + dx, r * ps + dy);
  }

  /**
   * Two resolved neighbours in a row share the pixel column between them
   * (both blocks cover it), and the right-hand one, painted later, shows there.
   */
  lemma NeighboursOverlap(colors: seq<seq<Option<Rgba>>>, ps: int, r: nat, c: nat, dy: int)
    requires ps > 0 && 0 <= dy < ps
    requires r < |colors| && c + 1 < |colors[r]| && colors[r][c].Some? && colors[r][c + 1].Some?
    ensures Covers(Block(r, c, colors[r][c].value), ps, (c + 1) * ps, r * ps + dy)
    ensures Covers(Block(r, c + 1, colors[r][c + 1].value), ps, (c + 1) * ps, r * ps + dy)
    ensures PixelAfter(Ops(colors), ps, (c + 1) * ps, r * ps + dy) == colors[r][c + 1].value
  {
    ResolvedCellShows(colors, ps, r, c + 1, 0, dy);
  }

  // ---------------------------------------------------------------------
  // A grid of legend cells, painted
  // ---------------------------------------------------------------------

  /**
   * A cell whose trimmed token is a legend key with a decodable value fills
   * its block, `ps` by `ps` from `(col * ps, row * ps)`, with the decoded colour.
   */
  lemma ResolvedCellPainted(legend: map<string, string>, grid: seq<seq<string>>, ps: int,
                            r: nat, c: nat, dx: int, dy: int)
    requires ps > 0 && 0 <= dx < ps && 0 <= dy < ps
    requires r < |grid| && c < |grid[r]|
    requires Strip(grid[r][c]) in legend && HexToRgba(legend[Strip(grid[r][c])]).Ok?
    ensures PixelAfter(Ops(GridColors(legend, grid)), ps, c * ps + dx, r * ps + dy)
            == HexToRgba(legend[Strip(grid[r][c])]).value
  {
    ResolvedCellShows(GridColors(legend, grid), ps, r, c, dx, dy);
  }

  /**
   * A cell that paints nothing leaves the inside of its block transparent
   * (its border lines are shared with the neighbouring blocks): its token is
   * not a legend key, or its value does not decode, or its row is too short
   * to hold it.
   */
  lemma UnpaintedCellClear(legend: map<string, string>, grid: seq<seq<string>>, ps: int,
                           r: nat, c: nat, dx: int, dy: int)
    requires ps > 0 && 0 < dx < ps && 0 < dy < ps
    requires r < |grid|
    requires c >= |grid[r]| || Strip(grid[r][c]) !in legend || HexToRgba(legend[Strip(grid[r][c])]).Err?
    ensures PixelAfter(Ops(GridColors(legend, grid)), ps, c * ps + dx, r * ps + dy) == Transparent
  {
    SkippedCellStaysClear(GridColors(legend, grid), ps, r, c, dx, dy);
  }

  /** Every painted pixel is a decoded legend colour, so its components are bytes. */
  lemma PaintedPixelsInRange(legend: map<string, string>, grid: seq<seq<string>>, ps: int, x: int, y: int)
    ensures InRange(PixelAfter(Ops(GridColors(legend, grid)), ps, x, y))
  {
    var colors := GridColors(legend, grid);
    OpsContents(colors);
    OpsColorsInRange(Ops(colors), ps, x, y);
  }

  lemma {:induction false} OpsColorsInRange(ops: seq<Block>, ps: int, x: int, y: int)
    requires forall k :: 0 <= k < |ops| ==> InRange(ops[k].color)
    ensures InRange(PixelAfter(ops, ps, x, y))
  {
    if ops != [] {
      OpsColorsInRange(ops[..|ops| - 1], ps, x, y);
    }
  }
}
