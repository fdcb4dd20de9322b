/**
 * The packaged copy of the tool, pixelate/core.py: `PixelArtParser` keeps the
 * legend values that start with `#` as written, rejoins the body with `+++`
 * and accepts ragged rows; `ImageGenerator` sizes the canvas from the longest
 * row.  `hex_to_rgba` is `Color.HexToRgba`.
 */
module Core {
  import opened Results
  import opened Text
  import opened Document
  import opened Color
  import opened Canvas

  datatype Error =
    | MissingFrontmatter        // fewer than two `+++` delimiters
    | InvalidToml(message: string)
    | EmptyGrid                 // no rows to draw
    | NegativeSize              // `Image.new` refuses a negative width or height

  /** The legend (key to hex string, unresolved) and the grid of cell tokens. */
  datatype Parsed = Parsed(legend: map<string, string>, grid: seq<seq<string>>)

  /** The legend filter: a string value is kept when it starts with `#`. */
  predicate KeepHex(v: string) {
    StartsWith(v, "#")
  }

  /** The grid body: the parts after the second delimiter, rejoined with `+++`, then trimmed. */
  function Body(parts: seq<string>): string
    requires |parts| >= 3
  {
    Strip(Join(Delimiter, parts[2..]))
  }

  /** What `parse_markdown_file` returns for the file text `content`. */
  function ParseResult(content: string, decode: string -> Decoded): Result<Parsed, Error> {
    var parts := Parts(content);
    if |parts| < 3 then Err(MissingFrontmatter)
    else
      match decode(Strip(parts[1]))
      case DecodeError(message) => Err(InvalidToml(message))
      case Decoded(entries) => Ok(Parsed(Collect(entries, KeepHex), Rows(Body(parts))))
  }

  /** `parse_markdown_file`, on the file's text; `decode` stands for `toml.loads`. */
  method ParseMarkdownFile(content: string, decode: string -> Decoded) returns (res: Result<Parsed, Error>)
    ensures res == ParseResult(content, decode)
  {
    var parts := Parts(content);
    if |parts| < 3 {
      return Err(MissingFrontmatter);
    }
    var tomlData := decode(Strip(parts[1]));
    if tomlData.DecodeError? {
      return Err(InvalidToml(tomlData.message));
    }
    var colorDict := CollectLegend(tomlData.entries, KeepHex);
    var pixelGrid := ReadRows(Strip(Join(Delimiter, parts[2..])));
    return Ok(Parsed(colorDict, pixelGrid));
  }

  /** `max(len(row) for row in grid)`, and 0 for no rows. */
  function MaxLen(grid: seq<seq<string>>): (m: nat)
    ensures forall r :: 0 <= r < |grid| ==> |grid[r]| <= m
    ensures grid != [] ==> exists r :: 0 <= r < |grid| && |grid[r]| == m
    ensures grid == [] ==> m == 0
  {
    if grid == [] then 0
    else
      var m := MaxLen(grid[..|grid| - 1]);
      var last := |grid[|grid| - 1]|;
      assert forall r :: 0 <= r < |grid| - 1 ==> grid[r] == grid[..|grid| - 1][r];
      if last > m then last else m
  }

  /**
   * `generate_pixel_image` without the save: a transparent canvas of
   * `max(len(row)) * ps` by `len(grid) * ps`, then one block per resolved
   * cell in row-major order.
   */
  method GeneratePixelImage(legend: map<string, string>, grid: seq<seq<string>>, ps: int)
    returns (res: Result<array2<Rgba>, Error>)
    ensures grid == [] ==> res == Err(EmptyGrid)
    ensures grid != [] && ps < 0 ==> res == Err(NegativeSize)
    ensures grid != [] && ps >= 0 ==>
      && res.Ok? && fresh(res.value)
      && res.value.Length0 == |grid| * ps && res.value.Length1 == MaxLen(grid) * ps
      && forall y, x :: 0 <= y < res.value.Length0 && 0 <= x < res.value.Length1 ==>
           res.value[y, x] == PixelAfter(Ops(GridColors(legend, grid)), ps, x, y)
  {
    if grid == [] {
      return Err(EmptyGrid);
    }
    var cols := MaxLen(grid);
    if ps < 0 {
      return Err(NegativeSize);
    }
    var image := NewImage(cols * ps, |grid| * ps);
    Paint(image, GridColors(legend, grid), ps);
    return Ok(image);
  }

  // ---------------------------------------------------------------------
  // Properties
  // ---------------------------------------------------------------------

  /** Parsing fails only for a missing frontmatter or undecodable TOML: there is no check on the grid. */
  lemma ParseSucceedsIff(content: string, decode: string -> Decoded)
    ensures ParseResult(content, decode).Ok? <==>
      |Parts(content)| >= 3 && decode(Strip(Parts(content)[1])).Decoded?
    ensures ParseResult(content, decode) == Err(MissingFrontmatter) <==> |Parts(content)| < 3
  {
  }

  /**
   * The legend holds exactly the keys with a string value starting with `#`;
   * each maps to the last such value, as written.
   */
  lemma LegendContents(entries: seq<(string, TomlValue)>)
    ensures forall key :: key in Collect(entries, KeepHex) <==>
      exists i :: 0 <= i < |entries| && entries[i].0 == key && entries[i].1.TomlString? && StartsWith(entries[i].1.s, "#")
    ensures forall key :: key in Collect(entries, KeepHex) ==> StartsWith(Collect(entries, KeepHex)[key], "#")
    ensures forall i :: 0 <= i < |entries| && entries[i].1.TomlString? && StartsWith(entries[i].1.s, "#")
                        && (forall j :: i < j < |entries| && entries[j].0 == entries[i].0 ==>
                              !(entries[j].1.TomlString? && StartsWith(entries[j].1.s, "#")))
                        ==> Collect(entries, KeepHex)[entries[i].0] == entries[i].1.s
  {
    CollectContents(entries, KeepHex);
    CollectKept(entries, KeepHex);
  }

  /**
   * The grid is read from everything after the second delimiter, later
   * delimiters kept: `content` is the first two parts, two delimiters and
   * `rest`, and the rows are those of `rest` trimmed; each has at least one
   * cell, and every cell is trimmed and holds no comma.
   */
  lemma GridKeepsLaterDelimiters(content: string, decode: string -> Decoded)
    requires ParseResult(content, decode).Ok?
    ensures var p := Parts(content);
      var rest := Join(Delimiter, p[2..]);
      var grid := ParseResult(content, decode).value.grid;
      && content == p[0] + Delimiter + p[1] + Delimiter + rest
      && grid == Rows(Strip(rest))
      && (forall r :: r in grid ==> |r| >= 1)
      && (forall r, c :: r in grid && c in r ==> ',' !in c && Strip(c) == c)
  {
    BodyAfterSecondDelimiter(content);
    BodyRowsShape(Body(Parts(content)));
  }

  /**
   * Rows of different lengths are drawn as they are: the inside of a block
   * past the end of a short row stays transparent.
   */
  lemma ShortRowTailClear(legend: map<string, string>, grid: seq<seq<string>>, ps: int,
                          r: nat, c: nat, dx: int, dy: int)
    requires ps > 0 && 0 < dx < ps && 0 < dy < ps
    requires r < |grid| && |grid[r]| <= c < MaxLen(grid)
    ensures PixelAfter(Ops(GridColors(legend, grid)), ps, c * ps + dx, r * ps + dy) == Transparent
  {
    UnpaintedCellClear(legend, grid, ps, r, c, dx, dy);
  }
}
