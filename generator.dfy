/**
 * `ImageGenerator` of pixelate/generator.py: a transparent canvas sized from
 * the first row, then one block per resolved cell, painted row by row.
 * `hex_to_rgba` is `Color.HexToRgba`.
 */
module Generator {
  import opened Results
  import opened Text
  import opened Color
  import opened Canvas

  datatype Error =
    | EmptyGrid       // no rows, or an empty first row
    | NegativeSize    // `Image.new` refuses a negative width or height

  /** `generate`: the canvas is `len(grid[0]) * ps` by `len(grid) * ps` and shows the painted blocks. */
  method Generate(legend: map<string, string>, grid: seq<seq<string>>, ps: int)
    returns (res: Result<array2<Rgba>, Error>)
    ensures grid == [] || grid[0] == [] ==> res == Err(EmptyGrid)
    ensures grid != [] && grid[0] != [] && ps < 0 ==> res == Err(NegativeSize)
    ensures grid != [] && grid[0] != [] && ps >= 0 ==>
      && res.Ok? && fresh(res.value)
      && res.value.Length0 == |grid| * ps && res.value.Length1 == |grid[0]| * ps
      && forall y, x :: 0 <= y < res.value.Length0 && 0 <= x < res.value.Length1 ==>
           res.value[y, x] == PixelAfter(Ops(GridColors(legend, grid)), ps, x, y)
  {
    if grid == [] || grid[0] == [] {
      return Err(EmptyGrid);
    }
    if ps < 0 {
      return Err(NegativeSize);
    }
    var image := NewImage(|grid[0]| * ps, |grid| * ps);
    Paint(image, GridColors(legend, grid), ps);
    return Ok(image);
  }
}
