/**
 * The document format the three parsers share: text split on `+++` into a
 * leading part, TOML frontmatter and a body; the frontmatter decoded into a
 * table; the body read as rows of comma-separated cells.
 *
 * TOML decoding is not modelled: a parser receives the decoder as a
 * function from the frontmatter text to its decoded table, whose entries
 * keep the document's order and whose values are strings or something else.
 */
module Document {
  import opened Results
  import opened Text

  datatype TomlValue = TomlString(s: string) | TomlOther

  /** What `toml.loads` / `tomllib.loads` gives: the key/value pairs in order, or a decode error. */
  datatype Decoded = Decoded(entries: seq<(string, TomlValue)>) | DecodeError(message: string)

  const Delimiter: string := "+++"

  /** `content.split("+++")` */
  function Parts(content: string): (parts: seq<string>)
    ensures |parts| >= 1
  {
    Split(content, Delimiter)
  }

  /** The cells of one trimmed line: `[cell.strip() for cell in line.split(",")]`. */
  function Cells(line: string): (row: seq<string>)
    ensures |row| == |Split(line, ",")|
    ensures forall k :: 0 <= k < |row| ==> row[k] == Strip(Split(line, ",")[k])
  {
    var pieces := Split(line, ",");
    seq(|pieces|, k requires 0 <= k < |pieces| => Strip(pieces[k]))
  }

  /** The rows of the lines given: every line trimmed, blank ones skipped, the rest split into cells. */
  function RowsOf(lines: seq<string>): seq<seq<string>> {
    if lines == [] then []
    else
      var rest := RowsOf(lines[..|lines| - 1]);
      var line := Strip(lines[|lines| - 1]);
      if line == "" then rest else rest + [Cells(line)]
  }

  /** The rows of a grid body. */
  function Rows(body: string): seq<seq<string>> {
    RowsOf(Split(body, "\n"))
  }

  /** Indices of the non-blank lines, in order. */
  function NonBlank(lines: seq<string>): seq<nat> {
    if lines == [] then []
    else
      var rest := NonBlank(lines[..|lines| - 1]);
      if Strip(lines[|lines| - 1]) == "" then rest else rest + [|lines| - 1]
  }

  /**
   * The dict filled by `for key, value in entries: if <string and keep(value)>:
   * d[key] = value`: later assignments to a key replace earlier ones.
   */
  function Collect(entries: seq<(string, TomlValue)>, keep: string -> bool): map<string, string> {
    if entries == [] then map[]
    else
      var d := Collect(entries[..|entries| - 1], keep);
      var (key, value) := entries[|entries| - 1];
      if value.TomlString? && keep(value.s) then d[key := value.s] else d
  }

  // ---------------------------------------------------------------------
  // Properties
  // ---------------------------------------------------------------------

  /** The body after the second delimiter, kept whole: `content` is the first two parts, two delimiters and it. */
  lemma BodyAfterSecondDelimiter(content: string)
    requires |Parts(content)| >= 3
    ensures var p := Parts(content);
      content == p[0] + Delimiter + p[1] + Delimiter + Join(Delimiter, p[2..])
  {
    var p := Parts(content);
    SplitJoin(content, Delimiter);
    assert Join(Delimiter, p) == p[0] + Delimiter + Join(Delimiter, p[1..]);
    assert p[1..][1..] == p[2..];
    assert Join(Delimiter, p[1..]) == p[1] + Delimiter + Join(Delimiter, p[2..]);
  }

  /** Joining with a separator adds the separator's length once between each two parts. */
  lemma {:induction false} JoinLength(sep: string, parts: seq<string>)
    requires |parts| >= 1
    ensures |Join(sep, parts)| == |Join("", parts)| + |sep| * (|parts| - 1)
  {
    if |parts| > 1 {
      JoinLength(sep, parts[1..]);
    }
  }

  /** The rows are the non-blank lines, in order, each one's cells. */
  lemma {:induction false} RowsAreNonBlankLines(lines: seq<string>)
    ensures var rows, idx := RowsOf(lines), NonBlank(lines);
      && |rows| == |idx|
      && (forall k :: 0 <= k < |idx| ==> idx[k] < |lines| && rows[k] == Cells(Strip(lines[idx[k]])))
  {
    if lines != [] {
      var init := lines[..|lines| - 1];
      RowsAreNonBlankLines(init);
      var rest, idx0 := RowsOf(init), NonBlank(init);
      if Strip(lines[|lines| - 1]) != "" {
        assert RowsOf(lines) == rest + [Cells(Strip(lines[|lines| - 1]))];
        assert NonBlank(lines) == idx0 + [|lines| - 1];
      }
      forall k | 0 <= k < |idx0|
        ensures lines[idx0[k]] == init[idx0[k]]
      {
      }
    }
  }

  /** The indices of the rows' lines increase, and they are exactly the non-blank lines. */
  lemma {:induction false} NonBlankIndices(lines: seq<string>)
    ensures var idx := NonBlank(lines);
      && (forall k :: 0 <= k < |idx| ==> idx[k] < |lines|)
      && (forall k, l :: 0 <= k < l < |idx| ==> idx[k] < idx[l])
      && (forall i :: 0 <= i < |lines| ==> (i in idx <==> Strip(lines[i]) != ""))
  {
    if lines != [] {
      var n := |lines| - 1;
      var init := lines[..n];
      NonBlankIndices(init);
      var idx0 := NonBlank(init);
      var idx := NonBlank(lines);
      assert n !in idx0;
      if Strip(lines[n]) == "" {
        assert idx == idx0;
      } else {
        assert idx == idx0 + [n];
        assert forall i :: i in idx <==> i in idx0 || i == n;
      }
      forall i | 0 <= i < |init|
        ensures init[i] == lines[i]
      {
      }
    }
  }

  /** Every row has at least one cell; no cell holds a comma or a line break, or starts or ends with white space. */
  lemma {:induction false} RowsShape(lines: seq<string>)
    requires forall i :: 0 <= i < |lines| ==> '\n' !in lines[i]
    ensures forall r :: r in RowsOf(lines) ==> |r| >= 1
    ensures forall r, c :: r in RowsOf(lines) && c in r ==>
      ',' !in c && '\n' !in c && Strip(c) == c
  {
    if lines != [] {
      var init := lines[..|lines| - 1];
      assert forall i :: 0 <= i < |init| ==> init[i] == lines[i];
      RowsShape(init);
      var line := Strip(lines[|lines| - 1]);
      if line != "" {
        CellsShape(lines[|lines| - 1]);
      }
    }
  }

  lemma CellsShape(line: string)
    requires '\n' !in line
    ensures forall c :: c in Cells(Strip(line)) ==> ',' !in c && '\n' !in c && Strip(c) == c
  {
    var t := Strip(line);
    StripChars(line);
    var pieces := Split(t, ",");
    SplitJoin(t, ",");
    forall k | 0 <= k < |pieces|
      ensures ',' !in Strip(pieces[k]) && '\n' !in Strip(pieces[k]) && Strip(Strip(pieces[k])) == Strip(pieces[k])
    {
      StripIdempotent(pieces[k]);
      PieceInText(t, ",", k);
      StripChars(pieces[k]);
      assert pieces[k] in pieces;
      NoCharInPiece(pieces[k], ',');
    }
  }

  /**
   * The cells of a line: one more than its commas, each stripped and free of
   * commas, and joined with commas they account for every character of the line.
   */
  lemma CellsMeaning(line: string)
    ensures |Cells(line)| == multiset(line)[','] + 1
    ensures forall c :: c in Cells(line) ==> ',' !in c && Strip(c) == c
    ensures forall ch :: ch in line && ch != ',' ==> exists c :: c in Split(line, ",") && ch in c
  {
    SplitCharCount(line, ',');
    var pieces := Split(line, ",");
    SplitJoin(line, ",");
    forall k | 0 <= k < |pieces|
      ensures ',' !in Strip(pieces[k]) && Strip(Strip(pieces[k])) == Strip(pieces[k])
    {
      StripIdempotent(pieces[k]);
      StripChars(pieces[k]);
      assert pieces[k] in pieces;
      NoCharInPiece(pieces[k], ',');
    }
    forall ch | ch in line && ch != ','
      ensures exists c :: c in pieces && ch in c
    {
      JoinCovers(",", pieces, ch);
    }
  }

  /** A character of a join that is not in the separator is in one of the parts. */
  lemma {:induction false} JoinCovers(sep: string, parts: seq<string>, ch: char)
    requires ch in Join(sep, parts) && ch !in sep
    ensures exists c :: c in parts && ch in c
  {
    if |parts| == 1 {
      assert parts[0] in parts;
    } else if |parts| > 1 {
      assert Join(sep, parts) == parts[0] + sep + Join(sep, parts[1..]);
      if ch in parts[0] {
        assert parts[0] in parts;
      } else {
        assert ch in Join(sep, parts[1..]);
        JoinCovers(sep, parts[1..], ch);
        var c :| c in parts[1..] && ch in c;
        assert c in parts;
      }
    }
  }

  /** The rows of a body: each has at least one cell, and no cell holds a comma or a line break or has white-space margins. */
  lemma BodyRowsShape(body: string)
    ensures forall r :: r in Rows(body) ==> |r| >= 1
    ensures forall r, c :: r in Rows(body) && c in r ==> ',' !in c && '\n' !in c && Strip(c) == c
  {
    var lines := Split(body, "\n");
    SplitJoin(body, "\n");
    forall i | 0 <= i < |lines|
      ensures '\n' !in lines[i]
    {
      NoCharInPiece(lines[i], '\n');
    }
    RowsShape(lines);
  }

  /** A piece of a split on a one-character separator does not hold that character. */
  lemma NoCharInPiece(p: string, c: char)
    requires NoOccurrence(p, [c])
    ensures c !in p
  {
    if c in p {
      var i :| 0 <= i < |p| && p[i] == c;
      assert p[i..i + 1] == [c];
      assert OccursAt(p, [c], i);
    }
  }

  /** A piece of a split is a part of the text. */
  lemma PieceInText(s: string, sep: string, k: nat)
    requires |sep| > 0 && k < |Split(s, sep)|
    ensures forall ch :: ch in Split(s, sep)[k] ==> ch in s
  {
    SplitJoin(s, sep);
    JoinMember(sep, Split(s, sep), k);
  }

  lemma {:induction false} JoinMember(sep: string, parts: seq<string>, k: nat)
    requires k < |parts|
    ensures forall ch :: ch in parts[k] ==> ch in Join(sep, parts)
  {
    if |parts| > 1 {
      if k > 0 {
        JoinMember(sep, parts[1..], k - 1);
      }
      assert Join(sep, parts) == parts[0] + (sep + Join(sep, parts[1..]));
    }
  }

  /**
   * The collected dict holds exactly the keys with a kept string value, and
   * each key's value is the last kept string assigned to it.
   */
  lemma CollectContents(entries: seq<(string, TomlValue)>, keep: string -> bool)
    ensures forall key :: key in Collect(entries, keep) <==>
      exists i :: 0 <= i < |entries| && entries[i].0 == key && entries[i].1.TomlString? && keep(entries[i].1.s)
    ensures forall i :: 0 <= i < |entries| && entries[i].1.TomlString? && keep(entries[i].1.s)
                        && (forall j :: i < j < |entries| && entries[j].0 == entries[i].0 ==>
                              !(entries[j].1.TomlString? && keep(entries[j].1.s)))
                        ==> Collect(entries, keep)[entries[i].0] == entries[i].1.s
  {
    CollectKeys(entries, keep);
    forall i | 0 <= i < |entries| && entries[i].1.TomlString? && keep(entries[i].1.s)
               && (forall j :: i < j < |entries| && entries[j].0 == entries[i].0 ==>
                     !(entries[j].1.TomlString? && keep(entries[j].1.s)))
      ensures Collect(entries, keep)[entries[i].0] == entries[i].1.s
    {
      CollectLast(entries, keep, i);
    }
  }

  lemma {:induction false} CollectKeys(entries: seq<(string, TomlValue)>, keep: string -> bool)
    ensures forall key :: key in Collect(entries, keep) <==>
      exists i :: 0 <= i < |entries| && entries[i].0 == key && entries[i].1.TomlString? && keep(entries[i].1.s)
  {
    if entries != [] {
      var init := entries[..|entries| - 1];
      CollectKeys(init, keep);
      assert forall i :: 0 <= i < |init| ==> init[i] == entries[i];
      var n := |entries| - 1;
      forall key | key in Collect(entries, keep)
        ensures exists i :: 0 <= i < |entries| && entries[i].0 == key && entries[i].1.TomlString? && keep(entries[i].1.s)
      {
        if key != entries[n].0 || !(entries[n].1.TomlString? && keep(entries[n].1.s)) {
          assert key in Collect(init, keep);
          var i :| 0 <= i < |init| && init[i].0 == key && init[i].1.TomlString? && keep(init[i].1.s);
          assert entries[i] == init[i];
        }
      }
    }
  }

  lemma {:induction false} CollectLast(entries: seq<(string, TomlValue)>, keep: string -> bool, i: nat)
    requires i < |entries| && entries[i].1.TomlString? && keep(entries[i].1.s)
    requires forall j :: i < j < |entries| && entries[j].0 == entries[i].0 ==>
               !(entries[j].1.TomlString? && keep(entries[j].1.s))
    ensures entries[i].0 in Collect(entries, keep) && Collect(entries, keep)[entries[i].0] == entries[i].1.s
  {
    var n := |entries| - 1;
    if i < n {
      var init := entries[..n];
      assert init[i] == entries[i];
      forall j | i < j < |init| && init[j].0 == init[i].0
        ensures !(init[j].1.TomlString? && keep(init[j].1.s))
      {
        assert init[j] == entries[j];
      }
      CollectLast(init, keep, i);
    }
  }

  /** Every collected value passed the filter. */
  lemma {:induction false} CollectKept(entries: seq<(string, TomlValue)>, keep: string -> bool)
    ensures forall key :: key in Collect(entries, keep) ==> keep(Collect(entries, keep)[key])
  {
    if entries != [] {
      CollectKept(entries[..|entries| - 1], keep);
    }
  }

  /** Keeping more values never loses a key. */
  lemma {:induction false} CollectMonotone(entries: seq<(string, TomlValue)>, keep1: string -> bool, keep2: string -> bool)
    requires forall s :: keep1(s) ==> keep2(s)
    ensures Collect(entries, keep1).Keys <= Collect(entries, keep2).Keys
  {
    if entries != [] {
      CollectMonotone(entries[..|entries| - 1], keep1, keep2);
    }
  }

  // ---------------------------------------------------------------------
  // The row-reading loop the two older parsers share
  // ---------------------------------------------------------------------

  /** `for line in body.split("\n"): line = line.strip(); if line: rows.append(cells)` */
  method ReadRows(body: string) returns (rows: seq<seq<string>>)
    ensures rows == Rows(body)
  {
    var lines := Split(body, "\n");
    rows := [];
    var i := 0;
    while i < |lines|
      invariant 0 <= i <= |lines|
      invariant rows == RowsOf(lines[..i])
    {
      assert lines[..i + 1][..i] == lines[..i];
      var line := Strip(lines[i]);
      if line != "" {
        var row := Cells(line);
        if row != [] {
          rows := rows + [row];
        }
      }
      i := i + 1;
    }
    assert lines[..|lines|] == lines;
  }

  /** `for key, value in entries: if isinstance(value, str) and keep(value): d[key] = value` */
  method CollectLegend(entries: seq<(string, TomlValue)>, keep: string -> bool) returns (d: map<string, string>)
    ensures d == Collect(entries, keep)
  {
    d := map[];
    var i := 0;
    while i < |entries|
      invariant 0 <= i <= |entries|
      invariant d == Collect(entries[..i], keep)
    {
      assert entries[..i + 1][..i] == entries[..i];
      var (key, value) := entries[i];
      if value.TomlString? && keep(value.s) {
        d := d[key := value.s];
      }
      i := i + 1;
    }
    assert entries[..|entries|] == entries;
  }
}
