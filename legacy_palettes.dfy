/**
 * The older, self-contained palette module pixelate/palettes.py: two constant
 * tables and a `resolve_color` that accepts `#` hex, bare 6- or 8-digit hex,
 * and `tableau:` / `xkcd:` references.  Unlike the registry resolver it
 * returns hex literals as written (no upper-casing).
 */
module LegacyPalettes {
  import opened Results
  import opened Text
  import Bidict
  import Palette

  /** `TABLEAU_COLORS` */
  const TableauColors: map<string, string> := map[
    "blue" := "#1F77B4", "orange" := "#FF7F0E", "green" := "#2CA02C", "red" := "#D62728",
    "purple" := "#9467BD", "brown" := "#8C564B", "pink" := "#E377C2", "gray" := "#7F7F7F",
    "olive" := "#BCBD22", "cyan" := "#17BECF"
  ]

  /** `XKCD_COLORS` */
  const XkcdColors: map<string, string> := map[
    "red" := "#E50000", "green" := "#15B01A", "blue" := "#0343DF", "yellow" := "#FFFF14",
    "orange" := "#F97306", "purple" := "#7E1E9C", "pink" := "#FF81C0", "brown" := "#653700",
    "black" := "#000000", "white" := "#FFFFFF", "gray" := "#929591", "grey" := "#929591",
    "cyan" := "#00FFFF", "magenta" := "#C20078", "lime" := "#AAFF32", "navy" := "#01153E",
    "maroon" := "#650021", "teal" := "#029386", "olive" := "#6E750E", "drab" := "#828344",
    "tan" := "#D1B26F", "beige" := "#E6DAA6", "coral" := "#FC5A50", "salmon" := "#FF796C",
    "gold" := "#FFD700", "silver" := "#C5C9C7", "indigo" := "#380282", "violet" := "#9A0EEA",
    "turquoise" := "#06C2AC", "crimson" := "#8C000F", "scarlet" := "#BE0119", "azure" := "#069AF3"
  ]

  datatype Error =
    | InvalidHexFormat(token: string)
    | UnknownTableauColor(color: string, available: seq<string>)   // names listed in sorted order
    | UnknownXkcdColor(color: string, available: seq<string>)
    | UnknownPalette(palette: string)
    | UnrecognizedFormat(token: string)

  /** `resolve_color` of pixelate/palettes.py */
  function ResolveColor(token: string): Result<string, Error> {
    var t := Strip(token);
    if StartsWith(t, "#") || IsHexBody(t) then
      var v := if StartsWith(t, "#") then t else "#" + t;
      if IsHexBody(v[1..]) then Ok(v) else Err(InvalidHexFormat(v))
    else if ':' in t then
      LookupReference(t)
    else Err(UnrecognizedFormat(t))
  }

  /** The `palette:colour` branch: both halves lower-cased, then one of the two tables. */
  function LookupReference(t: string): Result<string, Error>
    requires ':' in t
  {
    var (p, c) := SplitOnce(t, ':');
    LookupName(Lower(p), Lower(c))
  }

  /** The lookup proper, on the lower-cased palette and colour names. */
  function LookupName(palette: string, name: string): Result<string, Error> {
    if palette == "tableau" then
      if name !in TableauColors then Err(UnknownTableauColor(name, SortedSet(TableauColors.Keys)))
      else Ok(TableauColors[name])
    else if palette == "xkcd" then
      if name !in XkcdColors then Err(UnknownXkcdColor(name, SortedSet(XkcdColors.Keys)))
      else Ok(XkcdColors[name])
    else Err(UnknownPalette(palette))
  }

  /** `#` followed by six upper-case hex digits. */
  predicate IsCanonicalHex6(v: string) {
    && |v| == 7 && v[0] == '#'
    && IsUpperHexDigit(v[1]) && IsUpperHexDigit(v[2]) && IsUpperHexDigit(v[3])
    && IsUpperHexDigit(v[4]) && IsUpperHexDigit(v[5]) && IsUpperHexDigit(v[6])
  }

  // ---------------------------------------------------------------------
  // The tables
  // ---------------------------------------------------------------------

  /** Every value of the Tableau table is `#` and six upper-case hex digits. */
  lemma TableauIsCanonical()
    ensures forall n :: n in TableauColors ==> IsCanonicalHex6(TableauColors[n])
  {
  }

  /** Every value of the XKCD table is `#` and six upper-case hex digits. */
  lemma XkcdIsCanonical()
    ensures forall n :: n in XkcdColors ==> IsCanonicalHex6(XkcdColors[n])
  {
    forall n | n in XkcdColors
      ensures IsCanonicalHex6(XkcdColors[n])
    {
      if n in ["red", "green", "blue", "yellow"] {
        XkcdGroup0(n);
      }
      if n in ["orange", "purple", "pink", "brown"] {
        XkcdGroup1(n);
      }
      if n in ["black", "white", "gray", "grey"] {
        XkcdGroup2(n);
      }
      if n in ["cyan", "magenta", "lime", "navy"] {
        XkcdGroup3(n);
      }
      if n in ["maroon", "teal", "olive", "drab", "tan", "beige", "coral", "salmon"] {
        XkcdGroup4(n);
      }
      if n in ["gold", "silver", "indigo", "violet", "turquoise", "crimson", "scarlet", "azure"] {
        XkcdGroup5(n);
      }
    }
  }

  // The XKCD table is checked a few names at a time: each group's values are looked up and inspected.

  lemma XkcdGroup0(n: string)
    requires n in ["red", "green", "blue", "yellow"]
    ensures n in XkcdColors && IsCanonicalHex6(XkcdColors[n])
  {
  }

  lemma XkcdGroup1(n: string)
    requires n in ["orange", "purple", "pink", "brown"]
    ensures n in XkcdColors && IsCanonicalHex6(XkcdColors[n])
  {
  }

  lemma XkcdGroup2(n: string)
    requires n in ["black", "white", "gray", "grey"]
    ensures n in XkcdColors && IsCanonicalHex6(XkcdColors[n])
  {
  }

  lemma XkcdGroup3(n: string)
    requires n in ["cyan", "magenta", "lime", "navy"]
    ensures n in XkcdColors && IsCanonicalHex6(XkcdColors[n])
  {
  }

  lemma XkcdGroup4(n: string)
    requires n in ["maroon", "teal", "olive", "drab", "tan", "beige", "coral", "salmon"]
    ensures n in XkcdColors && IsCanonicalHex6(XkcdColors[n])
  {
  }

  lemma XkcdGroup5(n: string)
    requires n in ["gold", "silver", "indigo", "violet", "turquoise", "crimson", "scarlet", "azure"]
    ensures n in XkcdColors && IsCanonicalHex6(XkcdColors[n])
  {
  }

  /** The XKCD table is not injective: `gray` and `grey` share a value. */
  lemma XkcdNotInjective()
    ensures "gray" in XkcdColors && "grey" in XkcdColors
    ensures "gray" != "grey" && XkcdColors["gray"] == XkcdColors["grey"]
  {
  }

  /** So the XKCD pairs could not be loaded into a `BiDict`: its constructor fails on `grey`. */
  lemma XkcdNotABidict(pairs: seq<(string, string)>, i: nat, j: nat)
    requires i < j < |pairs|
    requires pairs[i] == ("gray", XkcdColors["gray"]) && pairs[j] == ("grey", XkcdColors["grey"])
    ensures Bidict.Build(pairs).Err?
  {
    Bidict.BuildSharedValueFails(pairs, i, j);
  }

  // ---------------------------------------------------------------------
  // The resolver
  // ---------------------------------------------------------------------

  /** The token is trimmed before anything else. */
  lemma ResolveTrims(token: string)
    ensures ResolveColor(token) == ResolveColor(Strip(token))
  {
    StripIdempotent(token);
  }

  lemma HexBodyIsStripped(h: string)
    requires IsHexBody(h)
    ensures Strip(h) == h && !StartsWith(h, "#")
  {
    StripNoMargin(h);
  }

  /** A valid hex literal is returned as written, with or without its `#`; no case changes. */
  lemma ResolveHexAsWritten(h: string)
    requires IsHexBody(h)
    ensures ResolveColor("#" + h) == Ok("#" + h)
    ensures ResolveColor(h) == Ok("#" + h)
  {
    var t := "#" + h;
    StripNoMargin(t);
    assert t[..1] == "#" && t[1..] == h;
    HexBodyIsStripped(h);
    assert ("#" + h)[1..] == h;
  }

  /** A `#` token resolves exactly when the rest is 6 or 8 hex digits, to itself; otherwise it is an invalid hex format. */
  lemma ResolveHexIff(token: string)
    requires StartsWith(Strip(token), "#")
    ensures ResolveColor(token).Ok? <==> IsHexBody(Strip(token)[1..])
    ensures ResolveColor(token).Ok? ==> ResolveColor(token).value == Strip(token)
    ensures !IsHexBody(Strip(token)[1..]) ==> ResolveColor(token) == Err(InvalidHexFormat(Strip(token)))
  {
  }

  /** A reference holding `:` is never taken for bare hex (`:` is not a hex digit). */
  lemma ColonIsNotHex(t: string)
    requires ':' in t
    ensures !IsHexBody(t)
  {
    var i :| 0 <= i < |t| && t[i] == ':';
    assert !IsHexDigit(t[i]);
  }

  /** `tableau:` and `xkcd:` references: a listed name gives its table value, another one lists the table's names sorted. */
  lemma ResolveReference(token: string)
    requires ':' in Strip(token) && !StartsWith(Strip(token), "#")
    ensures var (p, c) := SplitOnce(Strip(token), ':');
      var r := ResolveColor(token);
      && (Lower(p) == "tableau" ==>
            && (r.Ok? <==> Lower(c) in TableauColors)
            && (r.Ok? ==> r.value == TableauColors[Lower(c)])
            && (r.Err? ==> r.error == UnknownTableauColor(Lower(c), SortedSet(TableauColors.Keys))))
      && (Lower(p) == "xkcd" ==>
            && (r.Ok? <==> Lower(c) in XkcdColors)
            && (r.Ok? ==> r.value == XkcdColors[Lower(c)])
            && (r.Err? ==> r.error == UnknownXkcdColor(Lower(c), SortedSet(XkcdColors.Keys))))
      && (Lower(p) != "tableau" && Lower(p) != "xkcd" ==> r == Err(UnknownPalette(Lower(p))))
  {
    ColonIsNotHex(Strip(token));
  }

  /** The names an unknown-colour error lists are the table's names, each once, in ascending order. */
  lemma UnknownColorListsSortedNames(token: string)
    requires ResolveColor(token).Err?
    ensures var e := ResolveColor(token).error;
      && (e.UnknownTableauColor? ==>
            Sorted(e.available) && |e.available| == |TableauColors|
            && (forall n :: n in e.available <==> n in TableauColors) && e.color !in TableauColors)
      && (e.UnknownXkcdColor? ==>
            Sorted(e.available) && |e.available| == |XkcdColors|
            && (forall n :: n in e.available <==> n in XkcdColors) && e.color !in XkcdColors)
  {
    var t := Strip(token);
    if !(StartsWith(t, "#") || IsHexBody(t)) && ':' in t {
      var (p, c) := SplitOnce(t, ':');
      LookupNameErrors(Lower(p), Lower(c));
    }
  }

  lemma LookupNameErrors(palette: string, name: string)
    ensures var r := LookupName(palette, name);
      && (r.Err? && r.error.UnknownTableauColor? ==>
            r.error.available == SortedSet(TableauColors.Keys) && r.error.color == name && name !in TableauColors)
      && (r.Err? && r.error.UnknownXkcdColor? ==>
            r.error.available == SortedSet(XkcdColors.Keys) && r.error.color == name && name !in XkcdColors)
  {
    if palette == "tableau" {
      if name !in TableauColors {
        assert LookupName(palette, name) == Err(UnknownTableauColor(name, SortedSet(TableauColors.Keys)));
      }
    } else if palette == "xkcd" {
      if name !in XkcdColors {
        assert LookupName(palette, name) == Err(UnknownXkcdColor(name, SortedSet(XkcdColors.Keys)));
      }
    }
  }

  /** References are case-insensitive: tokens equal up to case resolve alike. */
  lemma ResolveCaseInsensitive(a: string, b: string)
    requires Lower(Strip(a)) == Lower(Strip(b))
    requires ':' in Strip(a) && !StartsWith(Strip(a), "#")
    ensures ResolveColor(a) == ResolveColor(b)
  {
    LowerKeepsReference(Strip(a), Strip(b));
    ReferenceBranch(a);
    ReferenceBranch(b);
  }

  lemma ReferenceBranch(token: string)
    requires ':' in Strip(token) && !StartsWith(Strip(token), "#")
    ensures ResolveColor(token) == LookupReference(Strip(token))
  {
    ColonIsNotHex(Strip(token));
  }

  /** Anything that is neither hex-like nor a reference is unrecognised. */
  lemma ResolveUnrecognized(token: string)
    requires !StartsWith(Strip(token), "#") && !IsHexBody(Strip(token)) && ':' !in Strip(token)
    ensures ResolveColor(token) == Err(UnrecognizedFormat(Strip(token)))
  {
  }

  // ---------------------------------------------------------------------
  // The two resolvers side by side
  // ---------------------------------------------------------------------

  /**
   * On `#` literals the two resolvers accept the same tokens, fail on the
   * same tokens, and differ only in case: the registry resolver upper-cases
   * what this one returns as written.
   */
  lemma HashHexAgrees(r: Palette.Registry, token: string)
    requires StartsWith(Strip(token), "#")
    ensures ResolveColor(token).Ok? <==> Palette.ResolveColor(r, token).Ok?
    ensures ResolveColor(token).Ok? ==> Palette.ResolveColor(r, token).value == Upper(ResolveColor(token).value)
  {
  }

  /** A bare hex string is a colour here but unrecognised by the registry resolver. */
  lemma BareHexDiffers(r: Palette.Registry, h: string)
    requires IsHexBody(h)
    ensures ResolveColor(h) == Ok("#" + h)
    ensures Palette.ResolveColor(r, h).Err? && Palette.ResolveColor(r, h).error.UnrecognizedFormat?
  {
    ResolveHexAsWritten(h);
    HexBodyIsStripped(h);
    assert ':' !in h by {
      if ':' in h {
        ColonIsNotHex(h);
      }
    }
  }
}
