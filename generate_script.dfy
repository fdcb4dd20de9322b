/**
 * The stand-alone script generate.py, the oldest copy: like pixelate/core.py
 * it rejoins the body with `+++`, accepts ragged rows and sizes the canvas
 * from the longest row, but its legend also keeps values starting with
 * `rgba`, and its painter skips empty and `0` cells before any lookup.
 * `hex_to_rgba` is `Color.HexToRgba`.
 */
module GenerateScript {
  import opened Results
  import opened Text
  import opened Document
  import opened Color
  import opened Canvas
  import Core

  /** The legend filter: a string value is kept when it starts with `#` or with `rgba`. */
  predicate KeepColor(v: string) {
    StartsWith(v, "#") || StartsWith(v, "rgba")
  }

  /** What `parse_markdown_file` returns for the file text `content`. */
  function ParseResult(content: string, decode: string -> Decoded): Result<Core.Parsed, Core.Error> {
    var parts := Parts(content);
    if |parts| < 3 then Err(Core.MissingFrontmatter)
    else
      match decode(Strip(parts[1]))
      case DecodeError(message) => Err(Core.InvalidToml(message))
      case Decoded(entries) => Ok(Core.Parsed(Collect(entries, KeepColor), Rows(Core.Body(parts))))
  }

  /** `parse_markdown_file`, on the file's text; `decode` stands for `toml.loads`. */
  method ParseMarkdownFile(content: string, decode: string -> Decoded) returns (res: Result<Core.Parsed, Core.Error>)
    ensures res == ParseResult(content, decode)
  {
    var parts := Parts(content);
    if |parts| < 3 {
      return Err(Core.MissingFrontmatter);
    }
    var tomlData := decode(Strip(parts[1]));
    if tomlData.DecodeError? {
      return Err(Core.InvalidToml(tomlData.message));
    }
    var colorDict := CollectLegend(tomlData.entries, KeepColor);
    var pixelGrid := ReadRows(Strip(Join(Delimiter, parts[2..])));
    return Ok(Core.Parsed(colorDict, pixelGrid));
  }

  /** A cell's colour in the script: empty and `0` cells are skipped before the legend is consulted. */
  function ScriptCellColor(legend: map<string, string>, cell: string): (c: Option<Rgba>)
    ensures c.Some? <==>
      Strip(cell) != "" && Strip(cell) != "0" && Strip(cell) in legend && HexToRgba(legend[Strip(cell)]).Ok?
    ensures c.Some? ==> c.value == HexToRgba(legend[Strip(cell)]).value && InRange(c.value)
  {
    var t := Strip(cell);
    if t == "" || t == "0" then None else CellColor(legend, cell)
  }

  /** The script's colour of every cell of a grid, row by row. */
  function ScriptColors(legend: map<string, string>, grid: seq<seq<string>>): (colors: seq<seq<Option<Rgba>>>)
    ensures |colors| == |grid|
    ensures forall r :: 0 <= r < |grid| ==> |colors[r]| == |grid[r]|
    ensures forall r, c :: 0 <= r < |grid| && 0 <= c < |grid[r]| ==> colors[r][c] == ScriptCellColor(legend, grid[r][c])
    ensures forall r, c :: 0 <= r < |grid| && 0 <= c < |grid[r]| ==>
      (colors[r][c].Some? <==> var t := Strip(grid[r][c]);
         t != "" && t != "0" && t in legend && HexToRgba(legend[t]).Ok?)
    ensures forall r, c :: 0 <= r < |grid| && 0 <= c < |grid[r]| && colors[r][c].Some? ==>
      colors[r][c].value == HexToRgba(legend[Strip(grid[r][c])]).value && InRange(colors[r][c].value)
  {
    seq(|grid|, r requires 0 <= r < |grid| =>
      seq(|grid[r]|, c requires 0 <= c < |grid[r]| => ScriptCellColor(legend, grid[r][c])))
  }

  /**
   * `generate_pixel_image` without the save: a transparent canvas of
   * `max(len(row)) * ps` by `len(grid) * ps`, then one block per painted
   * cell in row-major order.
   */
  method GeneratePixelImage(legend: map<string, string>, grid: seq<seq<string>>, ps: int)
    returns (res: Result<array2<Rgba>, Core.Error>)
    ensures grid == [] ==> res == Err(Core.EmptyGrid)
    ensures grid != [] && ps < 0 ==> res == Err(Core.NegativeSize)
    ensures grid != [] && ps >= 0 ==>
      && res.Ok? && fresh(res.value)
      && res.value.Length0 == |grid| * ps && res.value.Length1 == Core.MaxLen(grid) * ps
      && forall y, x :: 0 <= y < res.value.Length0 && 0 <= x < res.value.Length1 ==>
           res.value[y, x] == PixelAfter(Ops(ScriptColors(legend, grid)), ps, x, y)
  {
    if grid == [] {
      return Err(Core.EmptyGrid);
    }
    var cols := Core.MaxLen(grid);
    if ps < 0 {
      return Err(Core.NegativeSize);
    }
    var image := NewImage(cols * ps, |grid| * ps);
    Paint(image, ScriptColors(legend, grid), ps);
    return Ok(image);
  }

  // ---------------------------------------------------------------------
  // Properties
  // ---------------------------------------------------------------------

  /** Parsing fails only for a missing frontmatter or undecodable TOML. */
  lemma ParseSucceedsIff(content: string, decode: string -> Decoded)
    ensures ParseResult(content, decode).Ok? <==>
      |Parts(content)| >= 3 && decode(Strip(Parts(content)[1])).Decoded?
    ensures ParseResult(content, decode) == Err(Core.MissingFrontmatter) <==> |Parts(content)| < 3
  {
  }

  /** The legend holds exactly the keys with a string value starting with `#` or `rgba`, each with such a value. */
  lemma LegendContents(entries: seq<(string, TomlValue)>)
    ensures forall key :: key in Collect(entries, KeepColor) <==>
      exists i :: 0 <= i < |entries| && entries[i].0 == key && entries[i].1.TomlString? && KeepColor(entries[i].1.s)
    ensures forall key :: key in Collect(entries, KeepColor) ==> KeepColor(Collect(entries, KeepColor)[key])
  {
    CollectContents(entries, KeepColor);
    CollectKept(entries, KeepColor);
  }

  /** Every key the packaged parser keeps, the script keeps too. */
  lemma KeepsMoreThanCore(entries: seq<(string, TomlValue)>)
    ensures Collect(entries, Core.KeepHex).Keys <= Collect(entries, KeepColor).Keys
  {
    CollectMonotone(entries, Core.KeepHex, KeepColor);
  }

  /** The two parsers read the same grid from the same text: only their legends differ. */
  lemma SameGridAsCore(content: string, decode: string -> Decoded)
    ensures ParseResult(content, decode).Ok? <==> Core.ParseResult(content, decode).Ok?
    ensures ParseResult(content, decode).Ok? ==>
      ParseResult(content, decode).value.grid == Core.ParseResult(content, decode).value.grid
  {
  }

  /** A value starting with `rgba` is kept in the legend but never decodes (`r` is not a hex digit). */
  lemma RgbaNeverDecodes(v: string)
    requires StartsWith(v, "rgba")
    ensures KeepColor(v) && HexToRgba(v).Err?
  {
    assert v[0] == 'r' && !IsHexDigit(v[0]);
    assert LStripChar(v, '#') == v;
    DecodeSucceedsIff(v);
  }

  /** Empty and `0` cells are never painted, even when `0` is a legend key with a valid colour. */
  lemma ZeroCellsNotPainted(legend: map<string, string>, grid: seq<seq<string>>, ps: int,
                            r: nat, c: nat, dx: int, dy: int)
    requires ps > 0 && 0 < dx < ps && 0 < dy < ps
    requires r < |grid| && c < |grid[r]| && (Strip(grid[r][c]) == "" || Strip(grid[r][c]) == "0")
    ensures PixelAfter(Ops(ScriptColors(legend, grid)), ps, c * ps + dx, r * ps + dy) == Transparent
  {
    SkippedCellStaysClear(ScriptColors(legend, grid), ps, r, c, dx, dy);
  }

  /** A cell whose legend value starts with `rgba` is skipped too. */
  lemma RgbaCellsNotPainted(legend: map<string, string>, grid: seq<seq<string>>, ps: int,
                            r: nat, c: nat, dx: int, dy: int)
    requires ps > 0 && 0 < dx < ps && 0 < dy < ps
    requires r < |grid| && c < |grid[r]|
    requires Strip(grid[r][c]) in legend && StartsWith(legend[Strip(grid[r][c])], "rgba")
    ensures PixelAfter(Ops(ScriptColors(legend, grid)), ps, c * ps + dx, r * ps + dy) == Transparent
  {
    RgbaNeverDecodes(legend[Strip(grid[r][c])]);
    SkippedCellStaysClear(ScriptColors(legend, grid), ps, r, c, dx, dy);
  }

  /** On every other cell the script's colour is the packaged painter's. */
  lemma AgreesWithCellColor(legend: map<string, string>, cell: string)
    requires Strip(cell) != "" && Strip(cell) != "0"
    ensures ScriptCellColor(legend, cell) == CellColor(legend, cell)
  {
  }

  /** A resolved cell that is neither empty nor `0` fills its block with the decoded colour. */
  lemma ResolvedCellPainted(legend: map<string, string>, grid: seq<seq<string>>, ps: int,
                            r: nat, c: nat, dx: int, dy: int)
    requires ps > 0 && 0 <= dx < ps && 0 <= dy < ps
    requires r < |grid| && c < |grid[r]| && Strip(grid[r][c]) != "" && Strip(grid[r][c]) != "0"
    requires Strip(grid[r][c]) in legend && HexToRgba(legend[Strip(grid[r][c])]).Ok?
    ensures PixelAfter(Ops(ScriptColors(legend, grid)), ps, c * ps + dx, r * ps + dy)
            == HexToRgba(legend[Strip(grid[r][c])]).value
  {
    ResolvedCellShows(ScriptColors(legend, grid), ps, r, c, dx, dy);
  }
}
