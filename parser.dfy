/**
 * The newest document parser, `PixelArtParser` of src/pixelate/parser.py,
 * on the document's text.  Legend values are resolved through the palette
 * registry; the grid must be rectangular, non-empty and use legend keys only.
 */
module Parser {
  import opened Results
  import opened Text
  import opened Document
  import Palette
  import Core

  datatype Error =
    | MissingFrontmatter                                     // fewer than two `+++`
    | InvalidToml(message: string)
    | InvalidColorDefinition(key: string, value: string, cause: Palette.Error)
    | InconsistentColumns(expected: nat, found: nat)
    | UndefinedKeys(keys: set<string>)
    | EmptyGrid                                              // `pixel_grid[0]` of an empty grid

  datatype Parsed = Parsed(legend: map<string, string>, grid: seq<seq<string>>)

  /**
   * The `_parse_color` loop over the decoded entries: each string value is
   * resolved and stored under its key, other values are dropped, and the first
   * value that does not resolve stops the parse.
   */
  function Legend(reg: Palette.Registry, entries: seq<(string, TomlValue)>): Result<map<string, string>, Error> {
    if entries == [] then Ok(map[])
    else
      match Legend(reg, entries[..|entries| - 1])
      case Err(e) => Err(e)
      case Ok(d) =>
        var (key, value) := entries[|entries| - 1];
        if !value.TomlString? then Ok(d)
        else
          match Palette.ResolveColor(reg, value.s)
          case Ok(hex) => Ok(d[key := hex])
          case Err(cause) => Err(InvalidColorDefinition(key, value.s, cause))
  }

  /** `_parse_color`: decode the frontmatter, then the legend. */
  function Colors(reg: Palette.Registry, decode: string -> Decoded, toml: string): Result<map<string, string>, Error> {
    match decode(toml)
    case DecodeError(message) => Err(InvalidToml(message))
    case Decoded(entries) => Legend(reg, entries)
  }

  /** Index of the first row whose length differs from the first row's. */
  function FirstMismatch(rows: seq<seq<string>>): (r: Option<nat>)
    ensures r.Some? ==> 0 < r.value < |rows| && |rows[r.value]| != |rows[0]|
                        && forall k :: 0 <= k < r.value ==> |rows[k]| == |rows[0]|
    ensures r.None? ==> forall k :: 0 <= k < |rows| ==> |rows[k]| == |rows[0]|
  {
    if rows == [] then None else MismatchFrom(rows, 1)
  }

  function MismatchFrom(rows: seq<seq<string>>, i: nat): (r: Option<nat>)
    requires 1 <= i <= |rows| && forall k :: 0 <= k < i ==> |rows[k]| == |rows[0]|
    ensures r.Some? ==> i <= r.value < |rows| && |rows[r.value]| != |rows[0]|
                        && forall k :: 0 <= k < r.value ==> |rows[k]| == |rows[0]|
    ensures r.None? ==> forall k :: 0 <= k < |rows| ==> |rows[k]| == |rows[0]|
    decreases |rows| - i
  {
    if i == |rows| then None
    else if |rows[i]| != |rows[0]| then Some(i)
    else MismatchFrom(rows, i + 1)
  }

  /** Every token that occurs in the rows. */
  function Tokens(rows: seq<seq<string>>): set<string> {
    set r, c | r in rows && c in r :: c
  }

  predicate Rectangular(rows: seq<seq<string>>) {
    forall k :: 0 <= k < |rows| ==> |rows[k]| == |rows[0]|
  }

  /** `_parse_grid`: the body's rows, checked for a column mismatch, then for undefined keys, then for emptiness. */
  function Grid(body: string, keys: set<string>): Result<seq<seq<string>>, Error> {
    var rows := Rows(body);
    match FirstMismatch(rows)
    case Some(k) => Err(InconsistentColumns(|rows[0]|, |rows[k]|))
    case None =>
      var undefinedKeys := Tokens(rows) - keys;
      if undefinedKeys != {} then Err(UndefinedKeys(undefinedKeys))
      else if rows == [] then Err(EmptyGrid)
      else Ok(rows)
  }

  /** The grid body: the parts after the second `+++` concatenated with nothing between them, then trimmed. */
  function Body(parts: seq<string>): string
    requires |parts| >= 3
  {
    Strip(Join("", parts[2..]))
  }

  /** `parse` on the document's text. */
  function ParseResult(content: string, decode: string -> Decoded, reg: Palette.Registry): Result<Parsed, Error> {
    var parts := Parts(content);
    if |parts| < 3 then Err(MissingFrontmatter)
    else
      match Colors(reg, decode, Strip(parts[1]))
      case Err(e) => Err(e)
      case Ok(legend) =>
        match Grid(Body(parts), legend.Keys)
        case Err(e) => Err(e)
        case Ok(grid) => Ok(Parsed(legend, grid))
  }

  // ---------------------------------------------------------------------
  // The parser's loops
  // ---------------------------------------------------------------------

  /** `_parse_color` */
  method ParseColor(reg: Palette.Registry, decode: string -> Decoded, toml: string)
    returns (res: Result<map<string, string>, Error>)
    ensures res == Colors(reg, decode, toml)
  {
    var decoded := decode(toml);
    if decoded.DecodeError? {
      return Err(InvalidToml(decoded.message));
    }
    var entries := decoded.entries;
    var colorDict: map<string, string> := map[];
    var i := 0;
    while i < |entries|
      invariant 0 <= i <= |entries|
      invariant Legend(reg, entries[..i]) == Ok(colorDict)
    {
      assert entries[..i + 1][..i] == entries[..i];
      var (key, colorName) := entries[i];
      if colorName.TomlString? {
        var resolved := Palette.ResolveColor(reg, colorName.s);
        if resolved.Err? {
          LegendStops(reg, entries, i + 1);
          assert entries[..|entries|] == entries;
          return Err(InvalidColorDefinition(key, colorName.s, resolved.error));
        }
        colorDict := colorDict[key := resolved.value];
      }
      i := i + 1;
    }
    assert entries[..|entries|] == entries;
    res := Ok(colorDict);
  }

  /** Once a prefix of the entries fails, so does the whole legend, with the same error. */
  lemma {:induction false} LegendStops(reg: Palette.Registry, entries: seq<(string, TomlValue)>, n: nat)
    requires n <= |entries| && Legend(reg, entries[..n]).Err?
    ensures Legend(reg, entries) == Legend(reg, entries[..n])
    decreases |entries| - n
  {
    if n < |entries| {
      assert entries[..n + 1][..n] == entries[..n];
      LegendStops(reg, entries, n + 1);
    } else {
      assert entries[..n] == entries;
    }
  }

  /** The rows of a prefix of the lines are a prefix of the rows. */
  lemma {:induction false} RowsOfPrefix(lines: seq<string>, n: nat)
    requires n <= |lines|
    ensures |RowsOf(lines[..n])| <= |RowsOf(lines)|
    ensures RowsOf(lines)[..|RowsOf(lines[..n])|] == RowsOf(lines[..n])
    decreases |lines| - n
  {
    if n == |lines| {
      assert lines[..n] == lines;
    } else {
      var init := lines[..|lines| - 1];
      assert init[..n] == lines[..n];
      RowsOfPrefix(init, n);
    }
  }

  lemma TokensAppend(rows: seq<seq<string>>, row: seq<string>)
    ensures Tokens(rows + [row]) == Tokens(rows) + (set c | c in row)
  {
    assert forall r :: r in rows + [row] <==> r in rows || r == row;
  }

  /** The first row whose length differs from the first row's is the mismatch `FirstMismatch` finds. */
  lemma FirstMismatchAt(rows: seq<seq<string>>, k: nat)
    requires 0 < k < |rows| && |rows[k]| != |rows[0]|
    requires forall j :: 0 <= j < k ==> |rows[j]| == |rows[0]|
    ensures FirstMismatch(rows) == Some(k)
  {
  }

  /** A row of the wrong length among the first `n` lines is the body's first mismatch. */
  lemma MismatchStops(lines: seq<string>, n: nat)
    requires 0 < n <= |lines|
    requires Rectangular(RowsOf(lines[..n - 1]))
    requires RowsOf(lines[..n - 1]) != [] && Strip(lines[n - 1]) != ""
    requires |Cells(Strip(lines[n - 1]))| != |RowsOf(lines[..n - 1])[0]|
    ensures var k := |RowsOf(lines[..n - 1])|;
      FirstMismatch(RowsOf(lines)) == Some(k)
      && |RowsOf(lines)[0]| == |RowsOf(lines[..n - 1])[0]|
      && RowsOf(lines)[k] == Cells(Strip(lines[n - 1]))
  {
    var before := RowsOf(lines[..n - 1]);
    var row := Cells(Strip(lines[n - 1]));
    RowsOfStep(lines, n - 1);
    var pre := before + [row];
    assert forall j :: 0 <= j < |before| ==> pre[j] == before[j];
    FirstMismatchAt(pre, |before|);
    RowsOfPrefix(lines, n);
    MismatchExtends(pre, RowsOf(lines));
  }

  /** A mismatch in a prefix of the rows is the first mismatch of all of them. */
  lemma MismatchExtends(pre: seq<seq<string>>, all: seq<seq<string>>)
    requires |pre| <= |all| && all[..|pre|] == pre && FirstMismatch(pre).Some?
    ensures FirstMismatch(all) == FirstMismatch(pre)
    ensures |all[0]| == |pre[0]| && all[FirstMismatch(pre).value] == pre[FirstMismatch(pre).value]
  {
    var k := FirstMismatch(pre).value;
    assert forall j :: 0 <= j < |pre| ==> all[j] == all[..|pre|][j];
    FirstMismatchAt(all, k);
  }

  lemma RowsOfStep(lines: seq<string>, i: nat)
    requires i < |lines|
    ensures RowsOf(lines[..i + 1]) ==
      if Strip(lines[i]) == "" then RowsOf(lines[..i]) else RowsOf(lines[..i]) + [Cells(Strip(lines[i]))]
  {
    assert lines[..i + 1][..i] == lines[..i];
  }

  /** The column structure `total_cols` tracks: no row yet, every row `n` cells wide, or ragged. */
  datatype Shape = NoRows | Width(n: nat) | Ragged

  function ShapeOf(rows: seq<seq<string>>): Shape {
    if rows == [] then NoRows
    else
      var last := |rows[|rows| - 1]|;
      match ShapeOf(rows[..|rows| - 1])
      case NoRows => Width(last)
      case Width(n) => if last == n then Width(n) else Ragged
      case Ragged => Ragged
  }

  /** Appending one row. */
  lemma ShapeAppend(rows: seq<seq<string>>, row: seq<string>)
    ensures ShapeOf(rows + [row]) ==
      match ShapeOf(rows)
      case NoRows => Width(|row|)
      case Width(n) => if |row| == n then Width(n) else Ragged
      case Ragged => Ragged
  {
    assert (rows + [row])[..|rows|] == rows;
  }

  /** The shape is `NoRows` exactly for no rows, and a width exactly for a non-empty rectangular grid. */
  lemma {:induction false} ShapeMeaning(rows: seq<seq<string>>)
    ensures ShapeOf(rows) == NoRows <==> rows == []
    ensures ShapeOf(rows).Width? <==> rows != [] && Rectangular(rows)
    ensures ShapeOf(rows).Width? ==> ShapeOf(rows).n == |rows[0]|
  {
    if rows != [] {
      var init := rows[..|rows| - 1];
      ShapeMeaning(init);
      assert forall k :: 0 <= k < |init| ==> init[k] == rows[k];
      if init != [] && !Rectangular(init) {
        var k :| 0 <= k < |init| && |init[k]| != |init[0]|;
        assert |rows[k]| != |rows[0]|;
      }
    }
  }

  lemma GridMismatch(body: string, keys: set<string>, k: nat)
    requires FirstMismatch(Rows(body)) == Some(k)
    ensures Grid(body, keys) == Err(InconsistentColumns(|Rows(body)[0]|, |Rows(body)[k]|))
  {
  }

  lemma GridRectangular(body: string, keys: set<string>)
    requires Rectangular(Rows(body))
    ensures var rows := Rows(body);
      Grid(body, keys) == if Tokens(rows) - keys != {} then Err(UndefinedKeys(Tokens(rows) - keys))
                          else if rows == [] then Err(EmptyGrid) else Ok(rows)
  {
  }

  /** A row of the wrong width after a rectangular prefix is what the grid check reports. */
  lemma ScanMismatch(body: string, keys: set<string>, i: nat, n: nat)
    requires var lines := Split(body, "\n");
      && i < |lines| && ShapeOf(RowsOf(lines[..i])) == Width(n)
      && Strip(lines[i]) != "" && |Cells(Strip(lines[i]))| != n
    ensures Grid(body, keys) == Err(InconsistentColumns(n, |Cells(Strip(Split(body, "\n")[i]))|))
  {
    var lines := Split(body, "\n");
    ShapeMeaning(RowsOf(lines[..i]));
    assert lines[..i + 1][..i] == lines[..i];
    MismatchStops(lines, i + 1);
    GridMismatch(body, keys, |RowsOf(lines[..i])|);
  }

  /** A scan that ends without a ragged row leaves the undefined-key and emptiness checks. */
  lemma ScanComplete(body: string, keys: set<string>, rows: seq<seq<string>>)
    requires rows == Rows(body) && ShapeOf(rows) != Ragged
    ensures Grid(body, keys) == if Tokens(rows) - keys != {} then Err(UndefinedKeys(Tokens(rows) - keys))
                                else if rows == [] then Err(EmptyGrid) else Ok(rows)
  {
    ShapeMeaning(rows);
    GridRectangular(body, keys);
  }

  /** `_parse_grid` */
  method ParseGrid(body: string, colorKeys: set<string>) returns (res: Result<seq<seq<string>>, Error>)
    ensures res == Grid(body, colorKeys)
  {
    var lines := Split(body, "\n");
    var pixelGrid: seq<seq<string>> := [];
    var keys: set<string> := {};
    var totalCols: Option<nat> := None;
    var i := 0;
    while i < |lines|
      invariant 0 <= i <= |lines|
      invariant pixelGrid == RowsOf(lines[..i])
      invariant keys == Tokens(pixelGrid)
      invariant ShapeOf(pixelGrid) == if totalCols.None? then NoRows else Width(totalCols.value)
    {
      RowsOfStep(lines, i);
      var line := Strip(lines[i]);
      if line != "" {
        var row := Cells(line);
        keys := keys + (set c | c in row);
        TokensAppend(pixelGrid, row);
        ShapeAppend(pixelGrid, row);
        if totalCols.None? {
          totalCols := Some(|row|);
        } else if |row| != totalCols.value {
          ScanMismatch(body, colorKeys, i, totalCols.value);
          return Err(InconsistentColumns(totalCols.value, |row|));
        }
        pixelGrid := pixelGrid + [row];
      }
      i := i + 1;
    }
    assert lines[..|lines|] == lines;
    ScanComplete(body, colorKeys, pixelGrid);
    var undefinedKeys := keys - colorKeys;
    if undefinedKeys != {} {
      return Err(UndefinedKeys(undefinedKeys));
    }
    if pixelGrid == [] {
      return Err(EmptyGrid);
    }
    res := Ok(pixelGrid);
  }

  /** `parse` */
  method Parse(content: string, decode: string -> Decoded, reg: Palette.Registry)
    returns (res: Result<Parsed, Error>)
    ensures res == ParseResult(content, decode, reg)
  {
    var parts := Parts(content);
    if |parts| < 3 {
      return Err(MissingFrontmatter);
    }
    var colorDict := ParseColor(reg, decode, Strip(parts[1]));
    if colorDict.Err? {
      return Err(colorDict.error);
    }
    var pixelGrid := ParseGrid(Strip(Join("", parts[2..])), colorDict.value.Keys);
    if pixelGrid.Err? {
      return Err(pixelGrid.error);
    }
    res := Ok(Parsed(colorDict.value, pixelGrid.value));
  }

  // ---------------------------------------------------------------------
  // Properties
  // ---------------------------------------------------------------------

  /** A document parses only with at least two `+++` delimiters; with fewer it fails as missing frontmatter. */
  lemma NeedsTwoDelimiters(content: string, decode: string -> Decoded, reg: Palette.Registry)
    ensures ParseResult(content, decode, reg) == Err(MissingFrontmatter) <==> |Parts(content)| < 3
  {
    var parts := Parts(content);
    if |parts| >= 3 {
      match decode(Strip(parts[1]))
      case DecodeError(_) =>
      case Decoded(entries) => LegendErrorKind(reg, entries);
    }
  }

  /** A legend fails only with an invalid colour definition. */
  lemma {:induction false} LegendErrorKind(reg: Palette.Registry, entries: seq<(string, TomlValue)>)
    ensures Legend(reg, entries).Err? ==> Legend(reg, entries).error.InvalidColorDefinition?
  {
    if entries != [] {
      LegendErrorKind(reg, entries[..|entries| - 1]);
    }
  }

  /** A legend holds exactly the string-valued keys; non-string values are dropped. */
  lemma {:induction false} LegendKeys(reg: Palette.Registry, entries: seq<(string, TomlValue)>)
    requires Legend(reg, entries).Ok?
    ensures forall key :: key in Legend(reg, entries).value <==>
      exists i :: 0 <= i < |entries| && entries[i].0 == key && entries[i].1.TomlString?
  {
    if entries != [] {
      var init := entries[..|entries| - 1];
      LegendKeys(reg, init);
      var d0 := Legend(reg, init).value;
      var d := Legend(reg, entries).value;
      var n := |entries| - 1;
      forall key
        ensures key in d <==> exists i :: 0 <= i < |entries| && entries[i].0 == key && entries[i].1.TomlString?
      {
        if key == entries[n].0 && entries[n].1.TomlString? {
          assert key in d;
        } else {
          assert key in d <==> key in d0;
          if key in d0 {
            var i :| 0 <= i < |init| && init[i].0 == key && init[i].1.TomlString?;
            assert entries[i] == init[i];
          }
          if i :| 0 <= i < |entries| && entries[i].0 == key && entries[i].1.TomlString? {
            assert i < n && init[i] == entries[i];
          }
        }
      }
    }
  }

  /** Every string value of a successful legend resolves. */
  lemma {:induction false} LegendResolves(reg: Palette.Registry, entries: seq<(string, TomlValue)>)
    requires Legend(reg, entries).Ok?
    ensures forall i :: 0 <= i < |entries| && entries[i].1.TomlString? ==> Palette.ResolveColor(reg, entries[i].1.s).Ok?
  {
    if entries != [] {
      var init := entries[..|entries| - 1];
      LegendResolves(reg, init);
      assert forall i :: 0 <= i < |init| ==> init[i] == entries[i];
    }
  }

  /** Each key of a legend maps to the resolution of the last string assigned to it. */
  lemma LegendValues(reg: Palette.Registry, entries: seq<(string, TomlValue)>)
    requires Legend(reg, entries).Ok?
    ensures forall i :: 0 <= i < |entries| && entries[i].1.TomlString?
                        && (forall j :: i < j < |entries| && entries[j].0 == entries[i].0 ==> !entries[j].1.TomlString?)
                        ==> var d := Legend(reg, entries).value;
                            entries[i].0 in d && Palette.ResolveColor(reg, entries[i].1.s) == Ok(d[entries[i].0])
  {
    forall i | 0 <= i < |entries| && entries[i].1.TomlString?
               && (forall j :: i < j < |entries| && entries[j].0 == entries[i].0 ==> !entries[j].1.TomlString?)
    {
      LegendValueAt(reg, entries, i);
    }
  }

  lemma {:induction false} LegendValueAt(reg: Palette.Registry, entries: seq<(string, TomlValue)>, i: nat)
    requires Legend(reg, entries).Ok? && i < |entries| && entries[i].1.TomlString?
    requires forall j :: i < j < |entries| && entries[j].0 == entries[i].0 ==> !entries[j].1.TomlString?
    ensures var d := Legend(reg, entries).value;
      entries[i].0 in d && Palette.ResolveColor(reg, entries[i].1.s) == Ok(d[entries[i].0])
  {
    var n := |entries| - 1;
    if i < n {
      var init := entries[..n];
      assert init[i] == entries[i];
      forall j | i < j < |init| && init[j].0 == init[i].0
        ensures !init[j].1.TomlString?
      {
        assert init[j] == entries[j];
      }
      LegendValueAt(reg, init, i);
      var key := entries[i].0;
      var d0 := Legend(reg, init).value;
      assert Legend(reg, entries) == if entries[n].1.TomlString? then Ok(d0[entries[n].0 := Palette.ResolveColor(reg, entries[n].1.s).value]) else Ok(d0);
    }
  }

  /** An entry whose value is a string the resolver rejects. */
  predicate Unresolvable(reg: Palette.Registry, entry: (string, TomlValue)) {
    entry.1.TomlString? && Palette.ResolveColor(reg, entry.1.s).Err?
  }

  /**
   * A legend fails exactly when some string value does not resolve; the
   * error names the first such key and value and carries the resolver's error.
   */
  lemma LegendFailure(reg: Palette.Registry, entries: seq<(string, TomlValue)>)
    ensures Legend(reg, entries).Err? <==>
      exists i :: 0 <= i < |entries| && entries[i].1.TomlString? && Palette.ResolveColor(reg, entries[i].1.s).Err?
    ensures forall i :: 0 <= i < |entries| && entries[i].1.TomlString? && Palette.ResolveColor(reg, entries[i].1.s).Err?
                        && (forall j :: 0 <= j < i && entries[j].1.TomlString? ==> Palette.ResolveColor(reg, entries[j].1.s).Ok?)
                        ==> Legend(reg, entries) ==
                              Err(InvalidColorDefinition(entries[i].0, entries[i].1.s, Palette.ResolveColor(reg, entries[i].1.s).error))
  {
    LegendFailsIff(reg, entries);
    forall i | 0 <= i < |entries| && entries[i].1.TomlString? && Palette.ResolveColor(reg, entries[i].1.s).Err?
               && (forall j :: 0 <= j < i && entries[j].1.TomlString? ==> Palette.ResolveColor(reg, entries[j].1.s).Ok?)
      ensures Legend(reg, entries) ==
                Err(InvalidColorDefinition(entries[i].0, entries[i].1.s, Palette.ResolveColor(reg, entries[i].1.s).error))
    {
      LegendFirstError(reg, entries, i);
    }
  }

  lemma {:induction false} LegendFailsIff(reg: Palette.Registry, entries: seq<(string, TomlValue)>)
    ensures Legend(reg, entries).Err? <==> exists i :: 0 <= i < |entries| && Unresolvable(reg, entries[i])
  {
    if entries != [] {
      var n := |entries| - 1;
      var init := entries[..n];
      LegendFailsIff(reg, init);
      if Legend(reg, init).Err? {
        var i :| 0 <= i < |init| && Unresolvable(reg, init[i]);
        assert entries[i] == init[i];
      } else {
        assert forall i :: 0 <= i < n ==> entries[i] == init[i];
        if Unresolvable(reg, entries[n]) {
          assert Legend(reg, entries).Err?;
        } else {
          assert Legend(reg, entries).Ok?;
        }
      }
    }
  }

  lemma {:induction false} LegendFirstError(reg: Palette.Registry, entries: seq<(string, TomlValue)>, i: nat)
    requires i < |entries| && Unresolvable(reg, entries[i])
    requires forall j :: 0 <= j < i ==> !Unresolvable(reg, entries[j])
    ensures Legend(reg, entries) ==
              Err(InvalidColorDefinition(entries[i].0, entries[i].1.s, Palette.ResolveColor(reg, entries[i].1.s).error))
  {
    var n := |entries| - 1;
    var init := entries[..n];
    if i < n {
      assert init[i] == entries[i];
      assert forall j :: 0 <= j < i ==> init[j] == entries[j];
      LegendFirstError(reg, init, i);
    } else {
      LegendFailsIff(reg, init);
      assert forall j :: 0 <= j < n ==> init[j] == entries[j];
    }
  }

  lemma SubsetIffNoneLeft(a: set<string>, b: set<string>)
    ensures a <= b <==> a - b == {}
  {
    if a - b == {} {
      forall x | x in a
        ensures x in b
      {
        assert x !in a - b;
      }
    }
  }

  /** The grid check succeeds exactly on a non-empty rectangular grid of legend keys, and returns the body's rows. */
  lemma GridSucceedsIff(body: string, keys: set<string>)
    ensures Grid(body, keys).Ok? <==> Rows(body) != [] && Rectangular(Rows(body)) && Tokens(Rows(body)) <= keys
    ensures Grid(body, keys).Ok? ==> Grid(body, keys).value == Rows(body)
  {
    SubsetIffNoneLeft(Tokens(Rows(body)), keys);
  }

  /** The grid errors carry the first mismatching row's length, or every undefined token, and emptiness comes last. */
  lemma GridErrors(body: string, keys: set<string>)
    ensures var rows, g := Rows(body), Grid(body, keys);
      && (g.Err? && g.error.InconsistentColumns? ==>
            exists k :: 0 < k < |rows| && g.error.expected == |rows[0]| && g.error.found == |rows[k]| != |rows[0]|)
      && (!Rectangular(rows) ==> g.Err? && g.error.InconsistentColumns?)
      && (Rectangular(rows) && !(Tokens(rows) <= keys) ==> g == Err(UndefinedKeys(Tokens(rows) - keys)))
      && (rows == [] ==> g == Err(EmptyGrid))
  {
    var rows := Rows(body);
    SubsetIffNoneLeft(Tokens(rows), keys);
    assert rows == [] ==> Tokens(rows) == {};
  }

  /** Every row of a parsed grid has as many cells as the first, at least one, and each is a legend key. */
  lemma ParsedGridShape(content: string, decode: string -> Decoded, reg: Palette.Registry)
    requires ParseResult(content, decode, reg).Ok?
    ensures var p := ParseResult(content, decode, reg).value;
      && p.grid != [] && |p.grid[0]| >= 1 && Rectangular(p.grid)
      && (forall r, c :: r in p.grid && c in r ==> c in p.legend)
      && p.grid == Rows(Body(Parts(content)))
  {
    var p := ParseResult(content, decode, reg).value;
    var body := Body(Parts(content));
    GridSucceedsIff(body, p.legend.Keys);
    BodyRowsShape(body);
    assert p.grid[0] in p.grid;
  }

  /**
   * The delimiters after the second vanish from the body.  `rest`, what
   * follows the second `+++`, is the later parts with `+++` between them, and
   * none of those parts holds a `+++`; this parser concatenates the same parts
   * with nothing between them, three characters shorter for each later
   * delimiter, while the packaged parser reads `rest` itself.  With a third
   * `+++` the two bodies differ before trimming.
   */
  lemma BodyDropsLaterDelimiters(content: string)
    requires |Parts(content)| >= 3
    ensures var p := Parts(content);
      var rest := Join(Delimiter, p[2..]);
      && content == p[0] + Delimiter + p[1] + Delimiter + rest
      && (forall q :: q in p[2..] ==> NoOccurrence(q, Delimiter))
      && Body(p) == Strip(Join("", p[2..])) && Core.Body(p) == Strip(rest)
      && |Join("", p[2..])| == |rest| - 3 * (|p| - 3)
      && (|p| == 3 <==> Join("", p[2..]) == rest)
  {
    var p := Parts(content);
    BodyAfterSecondDelimiter(content);
    JoinLength(Delimiter, p[2..]);
    SplitJoin(content, Delimiter);
    forall q | q in p[2..]
      ensures NoOccurrence(q, Delimiter)
    {
      assert q in p;
    }
  }
}
