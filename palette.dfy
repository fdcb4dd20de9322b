/**
 * The palette registry and the colour-token resolver of
 * pixelate/palette/_palette.py.
 *
 * The registry maps palette names to their `BiDict` tables; it is built once
 * from given tables (the loading from package files is not modelled) and only
 * read afterwards.  `ResolveColor` classifies a trimmed token as a `#` hex
 * literal, a `palette:colour` reference, or unrecognised.
 */
module Palette {
  import opened Results
  import opened Text
  import Bidict

  /** `Palettes._palettes`: the tables, and the order in which their names were first inserted. */
  datatype Registry = Registry(palettes: map<string, Bidict.Table>, order: seq<string>)

  datatype Error =
    | PaletteNotFound(name: string, available: seq<string>)   // from `Palettes.__getitem__`
    | InvalidHexFormat(token: string)
    | UnknownColor(color: string, palette: string)
    | UnrecognizedFormat(token: string, examples: seq<string>)

  predicate NoDuplicates(s: seq<string>) {
    forall i, j :: 0 <= i < j < |s| ==> s[i] != s[j]
  }

  /** The registry's invariant: the names list each palette once and every table keeps the BiDict invariant. */
  ghost predicate WellFormed(r: Registry) {
    && (forall n :: n in r.order <==> n in r.palettes)
    && NoDuplicates(r.order)
    && (forall n :: n in r.palettes ==> Bidict.Consistent(r.palettes[n]))
  }

  /**
   * A registry filled by assigning `_palettes[name] = table` for each entry in
   * turn: a later entry with the same name replaces the table but keeps the
   * name's first position, as a Python dict does.
   */
  function FromEntries(entries: seq<(string, Bidict.Table)>): Registry {
    if entries == [] then Registry(map[], [])
    else
      var r := FromEntries(entries[..|entries| - 1]);
      var (name, table) := entries[|entries| - 1];
      Registry(r.palettes[name := table], if name in r.palettes then r.order else r.order + [name])
  }

  /** `Palettes.__getitem__` */
  function Lookup(r: Registry, name: string): Result<Bidict.Table, Error> {
    if name !in r.palettes then Err(PaletteNotFound(name, r.order)) else Ok(r.palettes[name])
  }

  /** `Palettes.__contains__` */
  predicate Has(r: Registry, name: string) {
    name in r.palettes
  }

  /** `Palettes.names` */
  function Names(r: Registry): seq<string> {
    r.order
  }

  /** One example reference per palette, as listed by the "Unrecognized color format" message. */
  function Examples(names: seq<string>): (ex: seq<string>)
    ensures |ex| == |names|
    ensures forall i :: 0 <= i < |names| ==> ex[i] == names[i] + ":colorname"
  {
    seq(|names|, i requires 0 <= i < |names| => names[i] + ":colorname")
  }

  /** `resolve_color` */
  function ResolveColor(r: Registry, token: string): Result<string, Error> {
    var t := Strip(token);
    if StartsWith(t, "#") then
      if IsHexBody(t[1..]) then Ok(Upper(t)) else Err(InvalidHexFormat(t))
    else if ':' in t then
      LookupReference(r, t)
    else Err(UnrecognizedFormat(t, Examples(Names(r))))
  }

  /** The `palette:colour` branch of `resolve_color`: both halves lower-cased, then `PALETTES[name][color]`. */
  function LookupReference(r: Registry, t: string): Result<string, Error>
    requires ':' in t
  {
    var (p, c) := SplitOnce(t, ':');
    var name := Lower(p);
    var color := Lower(c);
    match Lookup(r, name)
    case Err(e) => Err(e)
    case Ok(table) =>
      match Bidict.Get(table, color)
      case Ok(v) => Ok(v)
      case Err(_) => Err(UnknownColor(color, name))
  }

  // ---------------------------------------------------------------------
  // The registry
  // ---------------------------------------------------------------------

  /** Built from consistent tables, the registry is well formed, and each name holds its last table. */
  lemma {:induction false} FromEntriesWellFormed(entries: seq<(string, Bidict.Table)>)
    requires forall i :: 0 <= i < |entries| ==> Bidict.Consistent(entries[i].1)
    ensures WellFormed(FromEntries(entries))
    ensures forall i :: 0 <= i < |entries| ==> Has(FromEntries(entries), entries[i].0)
    ensures forall n :: Has(FromEntries(entries), n) ==> exists i :: 0 <= i < |entries| && entries[i].0 == n
    ensures |entries| > 0 ==> Lookup(FromEntries(entries), entries[|entries| - 1].0) == Ok(entries[|entries| - 1].1)
  {
    FromEntriesNames(entries);
    if entries != [] {
      var prefix := entries[..|entries| - 1];
      assert forall i :: 0 <= i < |prefix| ==> prefix[i] == entries[i];
      FromEntriesWellFormed(prefix);
      var (name, table) := entries[|entries| - 1];
      AssignKeepsWellFormed(FromEntries(prefix), name, table);
    }
  }

  /** The registry's names are exactly the entries' names. */
  lemma {:induction false} FromEntriesNames(entries: seq<(string, Bidict.Table)>)
    ensures forall i :: 0 <= i < |entries| ==> Has(FromEntries(entries), entries[i].0)
    ensures forall n :: Has(FromEntries(entries), n) ==> exists i :: 0 <= i < |entries| && entries[i].0 == n
  {
    if entries != [] {
      var prefix := entries[..|entries| - 1];
      FromEntriesNames(prefix);
      var r := FromEntries(prefix);
      var name := entries[|entries| - 1].0;
      var r' := FromEntries(entries);
      forall i | 0 <= i < |entries|
        ensures Has(r', entries[i].0)
      {
        if i < |entries| - 1 {
          assert prefix[i] == entries[i];
        }
      }
      forall n | Has(r', n)
        ensures exists i :: 0 <= i < |entries| && entries[i].0 == n
      {
        if n != name {
          assert Has(r, n);
          var i :| 0 <= i < |prefix| && prefix[i].0 == n;
          assert entries[i].0 == n;
        } else {
          assert entries[|entries| - 1].0 == n;
        }
      }
    }
  }

  /** One assignment `_palettes[name] = table` keeps the registry well formed. */
  lemma AssignKeepsWellFormed(r: Registry, name: string, table: Bidict.Table)
    requires WellFormed(r) && Bidict.Consistent(table)
    ensures WellFormed(Registry(r.palettes[name := table], if name in r.palettes then r.order else r.order + [name]))
  {
    if name !in r.palettes {
      var o := r.order + [name];
      forall i, j | 0 <= i < j < |o|
        ensures o[i] != o[j]
      {
        if j == |r.order| {
          assert o[i] == r.order[i];
        }
      }
    }
  }

  /** `__contains__` holds exactly when `__getitem__` succeeds; a failure lists the available names. */
  lemma HasIffLookup(r: Registry, name: string)
    ensures Has(r, name) <==> Lookup(r, name).Ok?
    ensures !Has(r, name) ==> Lookup(r, name) == Err(PaletteNotFound(name, Names(r)))
  {
  }

  /** `names` enumerates every palette exactly once. */
  lemma NamesEnumerate(r: Registry)
    requires WellFormed(r)
    ensures forall n :: n in Names(r) <==> Has(r, n)
    ensures NoDuplicates(Names(r)) && |Names(r)| == |r.palettes|
  {
    NoDuplicatesCard(r.order);
    assert (set n | n in r.order) == r.palettes.Keys;
  }

  lemma {:induction false} NoDuplicatesCard(s: seq<string>)
    requires NoDuplicates(s)
    ensures |set n | n in s| == |s|
  {
    if s != [] {
      var last := s[|s| - 1];
      var init := s[..|s| - 1];
      NoDuplicatesCard(init);
      assert (set n | n in s) == (set n | n in init) + {last};
      assert last !in init;
    }
  }

  // ---------------------------------------------------------------------
  // The resolver
  // ---------------------------------------------------------------------

  /** The token is trimmed before anything else: surrounding white space never matters. */
  lemma ResolveTrims(r: Registry, token: string)
    ensures ResolveColor(r, token) == ResolveColor(r, Strip(token))
  {
    StripIdempotent(token);
  }

  /** `#` and exactly 6 or 8 hex digits resolve to the token upper-cased. */
  lemma ResolveHex(r: Registry, h: string)
    requires IsHexBody(h)
    ensures ResolveColor(r, "#" + h) == Ok("#" + Upper(h))
  {
    var t := "#" + h;
    assert t[0] == '#' && t[|t| - 1] == h[|h| - 1] && IsHexDigit(h[|h| - 1]);
    StripNoMargin(t);
    assert t[..1] == "#" && t[1..] == h;
    UpperConcat("#", h);
    assert Upper("#") == "#";
    assert ResolveColor(r, t) == Ok(Upper(t));
  }

  /** A `#` token resolves exactly when the rest is 6 or 8 hex digits; otherwise it is an invalid hex format. */
  lemma ResolveHexIff(r: Registry, token: string)
    requires StartsWith(Strip(token), "#")
    ensures ResolveColor(r, token).Ok? <==> IsHexBody(Strip(token)[1..])
    ensures !IsHexBody(Strip(token)[1..]) ==> ResolveColor(r, token) == Err(InvalidHexFormat(Strip(token)))
  {
  }

  /** A resolved hex literal is `#` followed by 6 or 8 upper-case hex digits. */
  lemma ResolvedHexIsCanonical(r: Registry, token: string)
    requires StartsWith(Strip(token), "#") && ResolveColor(r, token).Ok?
    ensures var v := ResolveColor(r, token).value;
      |v| >= 1 && v[0] == '#' && IsHexBody(v[1..]) && AllUpperHex(v[1..])
  {
    var t := Strip(token);
    var v := Upper(t);
    forall k | 0 <= k < |v| - 1
      ensures IsHexDigit(v[1..][k]) && IsUpperHexDigit(v[1..][k])
    {
      HexValueUpper(t[k + 1]);
    }
  }

  /** Palette references are case-insensitive: tokens equal up to case resolve alike. */
  lemma ResolveCaseInsensitive(r: Registry, a: string, b: string)
    requires Lower(Strip(a)) == Lower(Strip(b))
    requires ':' in Strip(a) && !StartsWith(Strip(a), "#")
    ensures ResolveColor(r, a) == ResolveColor(r, b)
  {
    LowerKeepsReference(Strip(a), Strip(b));
  }

  /** A reference to a name listed in a palette resolves to its partner in that palette's table. */
  lemma ResolveReference(r: Registry, palette: string, color: string, name: string, hex: string)
    requires WellFormed(r) && Has(r, name) && name == Lower(palette) && ':' !in palette
    requires !StartsWith(Strip(palette + ":" + color), "#")
    requires Strip(palette + ":" + color) == palette + ":" + color
    requires Lower(color) in Bidict.Items(r.palettes[name]) && Bidict.Items(r.palettes[name])[Lower(color)] == hex
    ensures ResolveColor(r, palette + ":" + color) == Ok(hex)
  {
    var t := palette + ":" + color;
    SplitOnceAt(palette, ':', color);
    var table := r.palettes[name];
    assert Lower(color) in table.dictionary && table.dictionary[Lower(color)] == hex;
    assert Bidict.Get(table, Lower(color)) == Ok(hex);
    assert LookupReference(r, t) == Ok(hex);
  }

  /** A known palette without the colour fails as an unknown colour; an unknown palette lists the names. */
  lemma ResolveReferenceErrors(r: Registry, token: string)
    requires WellFormed(r)
    requires ':' in Strip(token) && !StartsWith(Strip(token), "#")
    ensures var (p, c) := SplitOnce(Strip(token), ':');
      && (!Has(r, Lower(p)) ==> ResolveColor(r, token) == Err(PaletteNotFound(Lower(p), Names(r))))
      && (Has(r, Lower(p)) ==>
            (ResolveColor(r, token).Err? <==>
               Lower(c) !in r.palettes[Lower(p)].keys && Lower(c) !in r.palettes[Lower(p)].values))
      && (ResolveColor(r, token).Err? && Has(r, Lower(p)) ==>
            ResolveColor(r, token) == Err(UnknownColor(Lower(c), Lower(p))))
  {
  }

  /** A token neither starting with `#` nor holding `:` is unrecognised, with one example per palette. */
  lemma ResolveUnrecognized(r: Registry, token: string)
    requires !StartsWith(Strip(token), "#") && ':' !in Strip(token)
    ensures ResolveColor(r, token).Err? && ResolveColor(r, token).error.UnrecognizedFormat?
    ensures |ResolveColor(r, token).error.examples| == |Names(r)|
    ensures forall i :: 0 <= i < |Names(r)| ==> ResolveColor(r, token).error.examples[i] == Names(r)[i] + ":colorname"
  {
  }
}
