/**
 * `hex_to_rgba`, the colour decoder of the three renderers.  The copies in
 * pixelate/generator.py, pixelate/core.py and generate.py are the same code
 * and are modelled once here, together with the lookup step all three
 * renderers perform for a cell (trimmed token, legend entry, decode).
 */
module Color {
  import opened Results
  import opened Text

  /** A colour as the 4-tuple `(r, g, b, a)`. */
  datatype Rgba = Rgba(r: int, g: int, b: int, a: int)

  datatype Error =
    | InvalidHexFormat(digits: string)    // neither 6 nor 8 characters after the `#`s
    | InvalidComponent(pair: string)      // `int(pair, 16)` rejects the two characters

  predicate IsByte(n: int) {
    0 <= n < 256
  }

  predicate InRange(c: Rgba) {
    IsByte(c.r) && IsByte(c.g) && IsByte(c.b) && IsByte(c.a)
  }

  /** `int(h[i:i+2], 16)` for two hex digits. */
  function Component(h: string, i: nat): Result<nat, Error>
    requires i + 2 <= |h|
  {
    if IsHexDigit(h[i]) && IsHexDigit(h[i + 1]) then Ok(16 * HexValue(h[i]) + HexValue(h[i + 1]))
    else Err(InvalidComponent(h[i..i + 2]))
  }

  /**
   * `hex_to_rgba`: every leading `#` is dropped; six digits give an opaque
   * colour, eight take the alpha from the last pair, any other length fails.
   */
  function HexToRgba(hex: string): Result<Rgba, Error> {
    DecodeDigits(LStripChar(hex, '#'))
  }

  /** The digits after the `#`s, converted pair by pair left to right: the first bad pair is the one reported. */
  function DecodeDigits(h: string): Result<Rgba, Error> {
    if |h| == 6 || |h| == 8 then
      match Component(h, 0)
      case Err(e) => Err(e)
      case Ok(r) =>
        match Component(h, 2)
        case Err(e) => Err(e)
        case Ok(g) =>
          match Component(h, 4)
          case Err(e) => Err(e)
          case Ok(b) =>
            if |h| == 6 then Ok(Rgba(r, g, b, 255))
            else
              match Component(h, 6)
              case Err(e) => Err(e)
              case Ok(a) => Ok(Rgba(r, g, b, a))
    else Err(InvalidHexFormat(h))
  }

  /** The upper-case hex digit of a byte's high half. */
  function HighDigit(n: int): (d: char)
    requires IsByte(n)
    ensures IsUpperHexDigit(d) && IsHexDigit(d) && HexValue(d) == n / 16
  {
    HexDigitOf(n / 16)
  }

  /** The upper-case hex digit of a byte's low half. */
  function LowDigit(n: int): (d: char)
    requires IsByte(n)
    ensures IsUpperHexDigit(d) && IsHexDigit(d) && HexValue(d) == n % 16
  {
    HexDigitOf(n % 16)
  }

  /** The `#RRGGBB` spelling of a colour (its alpha is not written). */
  function Encode6(c: Rgba): (s: string)
    requires InRange(c)
    ensures |s| == 7 && s[0] == '#' && AllUpperHex(s[1..])
  {
    ['#', HighDigit(c.r), LowDigit(c.r), HighDigit(c.g), LowDigit(c.g), HighDigit(c.b), LowDigit(c.b)]
  }

  /** The `#RRGGBBAA` spelling of a colour. */
  function Encode8(c: Rgba): (s: string)
    requires InRange(c)
    ensures |s| == 9 && s[0] == '#' && AllUpperHex(s[1..])
  {
    Encode6(c) + [HighDigit(c.a), LowDigit(c.a)]
  }

  // ---------------------------------------------------------------------
  // Properties
  // ---------------------------------------------------------------------

  /** Decoding fails exactly when the digits after the `#`s are not 6 or 8 hex digits; the length is checked first. */
  lemma DecodeSucceedsIff(hex: string)
    ensures HexToRgba(hex).Ok? <==> IsHexBody(LStripChar(hex, '#'))
    ensures var h := LStripChar(hex, '#');
      |h| != 6 && |h| != 8 ==> HexToRgba(hex) == Err(InvalidHexFormat(h))
  {
    var h := LStripChar(hex, '#');
    if IsHexBody(h) {
      DecodeHexBody(h);
    } else if |h| == 6 || |h| == 8 {
      DecodeBadDigit(h);
    }
  }

  lemma DecodeHexBody(h: string)
    requires IsHexBody(h)
    ensures Component(h, 0) == Ok(PairValue(h, 0))
    ensures Component(h, 2) == Ok(PairValue(h, 2))
    ensures Component(h, 4) == Ok(PairValue(h, 4))
    ensures |h| == 8 ==> Component(h, 6) == Ok(PairValue(h, 6))
  {
    assert IsHexDigit(h[0]) && IsHexDigit(h[1]) && IsHexDigit(h[2]) && IsHexDigit(h[3]);
    assert IsHexDigit(h[4]) && IsHexDigit(h[5]);
    if |h| == 8 {
      assert IsHexDigit(h[6]) && IsHexDigit(h[7]);
    }
  }

  lemma DecodeBadDigit(h: string)
    requires (|h| == 6 || |h| == 8) && !AllHex(h)
    ensures !(Component(h, 0).Ok? && Component(h, 2).Ok? && Component(h, 4).Ok?
              && (|h| == 8 ==> Component(h, 6).Ok?))
  {
    var k :| 0 <= k < |h| && !IsHexDigit(h[k]);
    var i := k - k % 2;
    assert Component(h, i).Err?;
  }

  /** Every decoded component is a byte; six digits are opaque. */
  lemma DecodeInRange(hex: string)
    requires HexToRgba(hex).Ok?
    ensures InRange(HexToRgba(hex).value)
    ensures |LStripChar(hex, '#')| == 6 ==> HexToRgba(hex).value.a == 255
  {
    DecodeSucceedsIff(hex);
    DecodeValue(hex);
  }

  /** An encoded colour decodes back to itself; six digits come back opaque. */
  lemma EncodeDecode(c: Rgba)
    requires InRange(c)
    ensures HexToRgba(Encode8(c)) == Ok(c)
    ensures HexToRgba(Encode6(c)) == Ok(c.(a := 255))
  {
    var s8, s6 := Encode8(c), Encode6(c);
    assert s8 == "#" + s8[1..] && s6 == "#" + s6[1..];
    StripOneHash(s8[1..]);
    StripOneHash(s6[1..]);
    ByteSplits(c.r);
    ByteSplits(c.g);
    ByteSplits(c.b);
    ByteSplits(c.a);
  }

  lemma ByteSplits(n: int)
    requires IsByte(n)
    ensures 16 * (n / 16) + n % 16 == n
  {
  }

  /** A single `#` in front of hex digits is stripped and nothing more. */
  lemma StripOneHash(d: string)
    requires |d| > 0 && IsUpperHexDigit(d[0])
    ensures LStripChar("#" + d, '#') == d
  {
    assert ("#" + d)[1..] == d;
  }

  /** The value of the hex pair at `i`. */
  function PairValue(h: string, i: nat): (v: nat)
    requires i + 2 <= |h| && IsHexDigit(h[i]) && IsHexDigit(h[i + 1])
    ensures IsByte(v)
  {
    16 * HexValue(h[i]) + HexValue(h[i + 1])
  }

  /** The colour six or eight hex digits spell, pair by pair. */
  function DigitsColor(h: string): (c: Rgba)
    requires IsHexBody(h)
    ensures InRange(c)
  {
    Rgba(PairValue(h, 0), PairValue(h, 2), PairValue(h, 4), if |h| == 6 then 255 else PairValue(h, 6))
  }

  /** What a well-formed colour decodes to. */
  lemma DecodeValue(hex: string)
    requires IsHexBody(LStripChar(hex, '#'))
    ensures HexToRgba(hex) == Ok(DigitsColor(LStripChar(hex, '#')))
  {
    DecodeHexBody(LStripChar(hex, '#'));
  }

  /** A decoded colour re-encodes to its digits upper-cased: decoding loses nothing but case. */
  lemma DecodeEncode(hex: string)
    requires HexToRgba(hex).Ok?
    ensures var h := LStripChar(hex, '#');
      var c := HexToRgba(hex).value;
      InRange(c) && (if |h| == 6 then Encode6(c) else Encode8(c)) == "#" + Upper(h)
  {
    var h := LStripChar(hex, '#');
    DecodeSucceedsIff(hex);
    DecodeValue(hex);
    EncodeFirstThree(h);
    if |h| == 6 {
      assert h[..6] == h;
    } else {
      EncodeAlpha(h);
    }
  }

  lemma EncodeFirstThree(h: string)
    requires IsHexBody(h)
    ensures InRange(DigitsColor(h)) && Encode6(DigitsColor(h)) == "#" + Upper(h[..6])
  {
    var c := DigitsColor(h);
    ByteDigits(h, 0);
    ByteDigits(h, 2);
    ByteDigits(h, 4);
    var u := Upper(h[..6]);
    assert u[0] == UpperChar(h[0]) && u[1] == UpperChar(h[1]) && u[2] == UpperChar(h[2]);
    assert u[3] == UpperChar(h[3]) && u[4] == UpperChar(h[4]) && u[5] == UpperChar(h[5]);
    var e := Encode6(c);
    assert e[1] == u[0] && e[2] == u[1] && e[3] == u[2] && e[4] == u[3] && e[5] == u[4] && e[6] == u[5];
    assert e == "#" + u;
  }

  lemma EncodeAlpha(h: string)
    requires IsHexBody(h) && |h| == 8
    ensures InRange(DigitsColor(h)) && Encode8(DigitsColor(h)) == "#" + Upper(h)
  {
    var c := DigitsColor(h);
    EncodeFirstThree(h);
    ByteDigits(h, 6);
    assert h == h[..6] + h[6..];
    UpperConcat(h[..6], h[6..]);
    assert Upper(h[6..]) == [UpperChar(h[6]), UpperChar(h[7])];
  }

  /** The two digits of a decoded pair, re-encoded, are the pair upper-cased. */
  lemma ByteDigits(h: string, i: nat)
    requires i + 2 <= |h| && IsHexDigit(h[i]) && IsHexDigit(h[i + 1])
    ensures HighDigit(PairValue(h, i)) == UpperChar(h[i]) && LowDigit(PairValue(h, i)) == UpperChar(h[i + 1])
  {
    var hi, lo := HexValue(h[i]), HexValue(h[i + 1]);
    PairDivMod(hi, lo);
    HexValueUpper(h[i]);
    HexValueUpper(h[i + 1]);
  }

  lemma PairDivMod(hi: nat, lo: nat)
    requires hi < 16 && lo < 16
    ensures (16 * hi + lo) / 16 == hi && (16 * hi + lo) % 16 == lo
  {
  }

  /** `n` copies of `#`. */
  function Hashes(n: nat): (s: string)
    ensures |s| == n
  {
    if n == 0 then "" else "#" + Hashes(n - 1)
  }

  /** Any number of leading `#` is ignored. */
  lemma HashesIgnored(hex: string, n: nat)
    ensures HexToRgba(Hashes(n) + hex) == HexToRgba(hex)
  {
    LStripHashes(hex, n);
  }

  lemma {:induction false} LStripHashes(s: string, n: nat)
    ensures LStripChar(Hashes(n) + s, '#') == LStripChar(s, '#')
  {
    if n > 0 {
      var rest := Hashes(n - 1) + s;
      assert Hashes(n) + s == "#" + rest;
      LStripHashes(s, n - 1);
      StripLeadingHash(rest);
    } else {
      assert Hashes(n) + s == s;
    }
  }

  lemma StripLeadingHash(s: string)
    ensures LStripChar("#" + s, '#') == LStripChar(s, '#')
  {
    assert ("#" + s)[1..] == s;
  }

  // ---------------------------------------------------------------------
  // A cell's colour
  // ---------------------------------------------------------------------

  /**
   * The colour the renderers paint for a cell: its trimmed token looked up
   * in the legend and decoded; `None` (the cell is skipped) when the token
   * is not a legend key or its value does not decode.
   */
  function CellColor(legend: map<string, string>, cell: string): (c: Option<Rgba>)
    ensures c.Some? <==> Strip(cell) in legend && HexToRgba(legend[Strip(cell)]).Ok?
    ensures c.Some? ==> c.value == HexToRgba(legend[Strip(cell)]).value && InRange(c.value)
  {
    var t := Strip(cell);
    if t in legend then
      match HexToRgba(legend[t])
      case Ok(c) => DecodeInRange(legend[t]); Some(c)
      case Err(_) => None
    else None
  }

  /** The colour of every cell of a grid, row by row. */
  function GridColors(legend: map<string, string>, grid: seq<seq<string>>): (colors: seq<seq<Option<Rgba>>>)
    ensures |colors| == |grid|
    ensures forall r :: 0 <= r < |grid| ==> |colors[r]| == |grid[r]|
    ensures forall r, c :: 0 <= r < |grid| && 0 <= c < |grid[r]| ==> colors[r][c] == CellColor(legend, grid[r][c])
    ensures forall r, c :: 0 <= r < |grid| && 0 <= c < |grid[r]| ==>
      (colors[r][c].Some? <==> Strip(grid[r][c]) in legend && HexToRgba(legend[Strip(grid[r][c])]).Ok?)
    ensures forall r, c :: 0 <= r < |grid| && 0 <= c < |grid[r]| && colors[r][c].Some? ==>
      colors[r][c].value == HexToRgba(legend[Strip(grid[r][c])]).value && InRange(colors[r][c].value)
  {
    seq(|grid|, r requires 0 <= r < |grid| =>
      seq(|grid[r]|, c requires 0 <= c < |grid[r]| => CellColor(legend, grid[r][c])))
  }
}
