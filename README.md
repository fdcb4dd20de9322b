# pixelate, modelled in Dafny

pixelate turns a pixel-art document into an RGBA image. A document has three
parts:

- a TOML frontmatter between two `+++` delimiters, which maps grid tokens to
  colours;
- a grid of comma-separated tokens after the second delimiter;
- an optional name or path, which this model leaves to the caller.

Each grid cell is painted as one square block of `pixel_size` pixels. A colour
is written in one of two ways:

- a hex string, `#RRGGBB` or `#RRGGBBAA`;
- a palette reference such as `tableau:blue`, looked up in a named palette.

Each named palette is a bidirectional dictionary from colour name to hex code.

The repository keeps several generations of this pipeline side by side, and
the model keeps them apart:

| module | source | what it is |
|---|---|---|
| `Results` | shared | `Option`, `Result` and `Outcome` |
| `Text` | shared | the Python string operations the code relies on: `strip` with Python's whitespace set, `split` on a separator, `join`, `split(":", 1)`, `lstrip(c)`, ASCII `lower`/`upper`, hex digits, and `sorted` on a set of strings |
| `Bidict` | pixelate/utility/bidict.py | `BiDict`, a class whose fields `dictionary`, `keys` and `values` its methods update, specified by the value `Table` and pure operations on it |
| `Palette` | pixelate/palette/_palette.py | the palette registry (name to `BiDict`, in load order) and `resolve_color` |
| `LegacyPalettes` | pixelate/palettes.py | the older fixed `TABLEAU_COLORS` and `XKCD_COLORS` tables and their `resolve_color` |
| `Document` | shared | the document format: `split("+++")`, the legend loop over decoded TOML entries and the row reader |
| `Color` | shared | `hex_to_rgba`, which is identical in pixelate/generator.py:13-40, pixelate/core.py:66-85 and generate.py:74-93, so it is modelled once; also its inverse encodings and the cell-to-colour step shared by the painters |
| `Canvas` | shared | the Pillow canvas as an `array2<Rgba>`: `Image.new` and `ImageDraw.rectangle`, plus the painting loop, specified by a list of block operations |
| `Parser` | src/pixelate/parser.py | the newest `PixelArtParser`: legend values are resolved through the palette registry, and the grid must be rectangular, non-empty and use legend keys only |
| `Generator` | pixelate/generator.py | `ImageGenerator.generate`: the canvas is sized from the first row |
| `Core` | pixelate/core.py | `PixelArtParser.parse_markdown_file` and `ImageGenerator.generate_pixel_image` of the packaged tool |
| `GenerateScript` | generate.py | the stand-alone script: a looser legend, and `0`/empty cells skipped |

The model follows the code in these points:

- **Painting.** A cell is skipped only when its token is not a legend key or
  its value does not decode. A colour with alpha 0 is still drawn, and it
  replaces what is under it. Only generate.py skips `0` and empty cells.
- **Errors.** No error is raised for an unresolved cell.
- **Canvas width.** It is `len(grid[0])` in generator.py and `max(len(row))`
  in core.py and generate.py. Ragged rows are drawn as they are.
- **Blocks.** Pillow's rectangle includes its end corner, so a block covers
  `ps + 1` pixels in each direction. Neighbouring blocks share one line of
  pixels, and the later block wins that line. The canvas clips the last row
  and the last column of blocks.
- **Legend parsing.** Two legend parsers exist, the stricter one in
  src/pixelate/parser.py and the looser ones in core.py and generate.py. Each
  is modelled as written, and lemmas relate them.
- **Empty grid.** In src/pixelate/parser.py an empty grid passes both checks
  and then fails when it indexes `pixel_grid[0]` (`EmptyGrid`). The model
  keeps that order.
- **Deletion.** `BiDict.__delitem__` exists in the code, so the model
  includes deletion and proves what it does.

## Model

Rows whose third column begins with "definition" name the functions that are the model of an operation; the lemmas and methods named there state its properties.

| member | source | states |
|---|---|---|
| Text.LeadingSpace | src/pixelate/parser.py:94 | the count of leading whitespace stops at a non-space character |
| Text.TrailingSpace | src/pixelate/parser.py:94 | the count of trailing whitespace stops at a non-space character |
| Text.LeadingSpaceIsSpace | src/pixelate/parser.py:94 | everything `strip` removes at the front is whitespace |
| Text.TrailingSpaceIsSpace | src/pixelate/parser.py:94 | everything `strip` removes at the back is whitespace |
| Text.Strip | src/pixelate/parser.py:94 | `strip()` is no longer than its input, and its result neither starts nor ends with whitespace |
| Text.StripMargins | src/pixelate/parser.py:94 | the stripped text is a contiguous slice of the input, with only whitespace on either side |
| Text.StripChars | src/pixelate/parser.py:101 | stripping adds no character |
| Text.StripNoMargin | src/pixelate/parser.py:101 | a text without surrounding whitespace is its own `strip` |
| Text.StripIdempotent | src/pixelate/parser.py:36 | stripping twice is stripping once |
| Text.Split | src/pixelate/parser.py:29 | `split(sep)` always yields at least one part |
| Text.SplitJoin | src/pixelate/parser.py:29 | joining the parts of `split(sep)` with `sep` gives the text back, and no part contains `sep` |
| Text.SplitCutsLeftmost | src/pixelate/parser.py:29 | `split(sep)` cuts at the leftmost occurrence of `sep` and splits the remainder the same way; a text it does not cut holds no `sep` |
| Text.SplitCharCount | src/pixelate/parser.py:101 | splitting on one character gives one piece more than the character's occurrences |
| Text.IndexOf | pixelate/palette/_palette.py:95 | the first position of a character in a text |
| Text.SplitOnce | pixelate/palette/_palette.py:95 | `split(":", 1)`: the text is the head, the colon and the tail, and the head has no colon |
| Text.SplitOnceAt | pixelate/palette/_palette.py:95 | splitting `p + ":" + rest` with no colon in `p` gives `(p, rest)` |
| Text.LowerSplitOnce | pixelate/palette/_palette.py:95-97 | splitting a lower-cased text gives the lower-cased halves of splitting the text |
| Text.LowerKeepsReference | pixelate/palette/_palette.py:94-97 | two tokens equal up to case both select the reference branch and give the same lower-cased palette and colour names |
| Text.LStripChar | pixelate/generator.py:23 | `lstrip("#")` leaves no leading `#` |
| Text.LStripCharSuffix | pixelate/generator.py:23 | `lstrip("#")` removes a prefix made only of `#` and keeps the rest |
| Text.Lower | pixelate/palette/_palette.py:96-97 | after `lower()` no upper-case ASCII letter is left, every other character is kept, and each character is the same letter up to case |
| Text.Upper | pixelate/palette/_palette.py:91 | after `upper()` no lower-case ASCII letter is left, every other character is kept, and each character is the same letter up to case |
| Text.CaseRoundTrip | pixelate/palette/_palette.py:91-97 | `lower()` after `upper()` is `lower()`, and `upper()` after `lower()` is `upper()` |
| Text.LowerConcat | pixelate/palette/_palette.py:96-97 | lower-casing distributes over concatenation |
| Text.UpperConcat | pixelate/palette/_palette.py:91 | upper-casing distributes over concatenation |
| Text.HexValue | pixelate/generator.py:27 | a hex digit's value is below 16 |
| Text.HexDigitOf | pixelate/palette/_palette.py:88 | the upper-case digit of a value below 16 is a hex digit with that value |
| Text.HexValueUpper | pixelate/palette/_palette.py:88-91 | upper-casing a hex digit keeps its value and gives the canonical digit |
| Text.SortedSet | pixelate/palettes.py:96 | `sorted(d.keys())` lists every key exactly once, in ascending order |
| Bidict.Insert | pixelate/utility/bidict.py:14-24 | definition of `__setitem__` on the value `Table`; properties in `InsertRejects`, `InsertConsistent`, `InsertEffect`, `InsertItems` |
| Bidict.Get | pixelate/utility/bidict.py:26-27 | definition of `__getitem__`; properties in `ContainsKeysAndValues`, `InsertEffect` |
| Bidict.Delete | pixelate/utility/bidict.py:29-33 | definition of `__delitem__`; properties in `DeleteEffect`, `DeleteRejects`, `InsertThenDelete` |
| Bidict.Len | pixelate/utility/bidict.py:35-36 | definition of `__len__`; properties in `LenCountsPairs`, `InsertSize` |
| Bidict.Contains | pixelate/utility/bidict.py:38-39 | definition of `__contains__`; properties in `ContainsKeysAndValues` |
| Bidict.Items | pixelate/utility/bidict.py:59-66 | definition of `items()`; properties in `ItemsArePrimaryPairs`, `InsertItems` |
| Bidict.Build | pixelate/utility/bidict.py:7-12 | definition of `BiDict(**kwargs)`; properties in `BuildContents`, `BuildSharedValueFails` |
| Bidict.InsertAll | pixelate/utility/bidict.py:11-12 | definition of the constructor's loop; properties in `InsertAllContents`, `InsertAllGrows` |
| Bidict.EmptyConsistent | pixelate/utility/bidict.py:7-10 | the empty dictionary satisfies the invariant, has length 0 and no items |
| Bidict.ValuesAreDomain | pixelate/utility/bidict.py:15 | `_dictionary.values()` is exactly the keys and the values, which is what the duplicate check scans |
| Bidict.InsertRejects | pixelate/utility/bidict.py:14-20 | `__setitem__` fails exactly when the key or the value is already present in either direction, or the key equals the value, and each case gives its own error |
| Bidict.InsertConsistent | pixelate/utility/bidict.py:14-24 | a successful `__setitem__` keeps the invariant: keys and values are disjoint, they cover the domain, and the dictionary is an involution without fixed points |
| Bidict.InsertEffect | pixelate/utility/bidict.py:21-27 | after `__setitem__`, the key gives the value and the value gives the key, every earlier entry stays, and exactly the two new names are added |
| Bidict.InsertSize | pixelate/utility/bidict.py:35-36 | an insert adds two dictionary entries and one to `len` |
| Bidict.InsertItems | pixelate/utility/bidict.py:59-66 | an insert adds exactly the pair `key: value` to `items()` |
| Bidict.ContainsKeysAndValues | pixelate/utility/bidict.py:26-39 | `in` holds for keys and for values, exactly when `[]` succeeds |
| Bidict.ItemsArePrimaryPairs | pixelate/utility/bidict.py:41-66 | `items()` has exactly `keys()` as keys and `values()` as values, and each item's value maps back to its key |
| Bidict.DeleteEffect | pixelate/utility/bidict.py:29-33 | deleting a key removes it and its value from all three fields, leaves every other entry alone, and keeps the invariant |
| Bidict.DeleteRejects | pixelate/utility/bidict.py:29-30 | only a primary key can be deleted; a value or an absent name raises `KeyError` |
| Bidict.InsertThenDelete | pixelate/utility/bidict.py:14-33 | an insert followed by a delete of the same key gives back the original dictionary |
| Bidict.LenCountsPairs | pixelate/utility/bidict.py:35-36 | `len(self._dictionary) // 2` is the number of pairs, which is also the number of keys, of values and of items |
| Bidict.InsertAllGrows | pixelate/utility/bidict.py:11-12 | the constructor's loop never changes an entry that is already present |
| Bidict.InsertAllSharedValueFails | pixelate/utility/bidict.py:11-18 | two arguments with the same value make the constructor's loop fail |
| Bidict.InsertAllValueFails | pixelate/utility/bidict.py:11-18 | an argument whose value is already present makes the loop fail |
| Bidict.BuildSharedValueFails | pixelate/utility/bidict.py:7-18 | `BiDict(**kwargs)` fails when two names share a value |
| Bidict.InsertAllContents | pixelate/utility/bidict.py:11-24 | a successful loop keeps the invariant, adds the arguments to `items()` (a later one overriding), and adds one to `len` per argument |
| Bidict.BuildContents | pixelate/utility/bidict.py:7-24 | a successful `BiDict(**kwargs)` is consistent, its `items()` are the arguments, and its `len` is their number |
| Bidict.BiDict.constructor | pixelate/utility/bidict.py:7-10 | a new object holds the empty, consistent state |
| Bidict.BiDict.New | pixelate/utility/bidict.py:7-12 | a fresh valid object holding the `Build` of the arguments, or `Build`'s error |
| Bidict.BiDict.Set | pixelate/utility/bidict.py:14-24 | on success the new state is `Insert` of the old one; an error leaves the state unchanged; the invariant holds either way |
| Bidict.BiDict.Lookup | pixelate/utility/bidict.py:26-27 | `[]` gives `Get` of the state and succeeds exactly for a present name |
| Bidict.BiDict.Remove | pixelate/utility/bidict.py:29-33 | on success the new state is `Delete` of the old one; a `KeyError` leaves the state unchanged |
| Bidict.BiDict.Length | pixelate/utility/bidict.py:35-36 | `len` is the number of keys and of items |
| Bidict.BiDict.Has | pixelate/utility/bidict.py:38-39 | `in` holds exactly for keys and values |
| Bidict.BiDict.PrimaryKeys | pixelate/utility/bidict.py:41-48 | `keys()` is the key set of `items()` |
| Bidict.BiDict.PairedValues | pixelate/utility/bidict.py:50-57 | `values()` is the value set of `items()` |
| Bidict.BiDict.PrimaryItems | pixelate/utility/bidict.py:59-66 | `items()` maps each key to its value, with keys `keys()` and values `values()` |
| Palette.FromEntries | pixelate/palette/_palette.py:17-22 | definition of the registry filled by `__init__`; properties in `FromEntriesWellFormed` |
| Palette.Lookup | pixelate/palette/_palette.py:47-52 | definition of `__getitem__`; properties in `HasIffLookup` |
| Palette.Has | pixelate/palette/_palette.py:54-55 | definition of `__contains__`; properties in `HasIffLookup`, `NamesEnumerate` |
| Palette.Names | pixelate/palette/_palette.py:57-60 | definition of `names`; properties in `NamesEnumerate` |
| Palette.ResolveColor | pixelate/palette/_palette.py:66-107 | definition of `resolve_color`; properties in `ResolveTrims`, `ResolveHexIff`, `ResolveReference`, `ResolveReferenceErrors`, `ResolveUnrecognized`, `ResolveCaseInsensitive` |
| Palette.LookupReference | pixelate/palette/_palette.py:94-101 | definition of the `palette:color` branch; properties in `ResolveReference`, `ResolveReferenceErrors` |
| Palette.FromEntriesWellFormed | pixelate/palette/_palette.py:17-22 | loading palettes one by one gives a well-formed registry: names in load order and without repeats, each a consistent `BiDict`, every loaded name present and only those, the last load of a name winning |
| Palette.FromEntriesNames | pixelate/palette/_palette.py:20-22 | every loaded name is in the registry, and only loaded names |
| Palette.AssignKeepsWellFormed | pixelate/palette/_palette.py:22 | assigning one palette keeps the registry well formed |
| Palette.HasIffLookup | pixelate/palette/_palette.py:47-55 | `__getitem__` succeeds exactly when `__contains__` holds, and otherwise lists the available names |
| Palette.NamesEnumerate | pixelate/palette/_palette.py:57-60 | `names` lists each palette exactly once |
| Palette.NoDuplicatesCard | pixelate/palette/_palette.py:57-60 | a list without repeats has as many elements as its set |
| Palette.ResolveTrims | pixelate/palette/_palette.py:81 | surrounding whitespace never changes the result |
| Palette.ResolveHex | pixelate/palette/_palette.py:84-91 | `#` followed by six or eight hex digits resolves to the token upper-cased |
| Palette.ResolveHexIff | pixelate/palette/_palette.py:84-91 | a `#` token resolves exactly when six or eight hex digits follow, and otherwise fails with an invalid-hex error |
| Palette.ResolvedHexIsCanonical | pixelate/palette/_palette.py:84-91 | a resolved hex colour is `#` followed by six or eight upper-case hex digits |
| Palette.ResolveCaseInsensitive | pixelate/palette/_palette.py:94-99 | palette references that differ only in case resolve alike |
| Palette.ResolveReference | pixelate/palette/_palette.py:94-99 | `palette:color` with a loaded palette and a colour name, in any case, gives that name's hex value |
| Palette.ResolveReferenceErrors | pixelate/palette/_palette.py:94-101 | an unknown palette gives the not-found error listing the names; in a known palette the lookup fails exactly when the lower-cased name is neither a key nor a value, with an unknown-colour error |
| Palette.ResolveUnrecognized | pixelate/palette/_palette.py:103-107 | a token with no `#` and no colon is unrecognized, and the error lists one example per palette |
| LegacyPalettes.ResolveColor | pixelate/palettes.py:58-110 | definition of the older `resolve_color`; properties in `ResolveHexIff`, `ResolveHexAsWritten`, `ResolveReference`, `ResolveUnrecognized`, `ResolveCaseInsensitive` |
| LegacyPalettes.LookupReference | pixelate/palettes.py:89-107 | definition of the `palette:color` branch; properties in `ResolveReference`, `ReferenceBranch` |
| LegacyPalettes.LookupName | pixelate/palettes.py:94-107 | definition of the table lookup per palette; properties in `LookupNameErrors` |
| LegacyPalettes.TableauIsCanonical | pixelate/palettes.py:8-19 | every Tableau value is `#` and six upper-case hex digits |
| LegacyPalettes.XkcdIsCanonical | pixelate/palettes.py:22-55 | every xkcd value is `#` and six upper-case hex digits |
| LegacyPalettes.XkcdNotInjective | pixelate/palettes.py:33-34 | `gray` and `grey` share a value |
| LegacyPalettes.XkcdNotABidict | pixelate/palettes.py:22-55 | the xkcd table cannot be loaded into a `BiDict`, because it has two names with one value |
| LegacyPalettes.ResolveTrims | pixelate/palettes.py:76 | surrounding whitespace never changes the result |
| LegacyPalettes.HexBodyIsStripped | pixelate/palettes.py:79 | six or eight hex digits have no whitespace and no `#` |
| LegacyPalettes.ResolveHexAsWritten | pixelate/palettes.py:79-86 | a hex body with or without `#` resolves to `#` and the digits as written, without upper-casing |
| LegacyPalettes.ResolveHexIff | pixelate/palettes.py:79-86 | a `#` token resolves exactly when six or eight hex digits follow, to the token itself, and otherwise fails with an invalid-hex error |
| LegacyPalettes.ColonIsNotHex | pixelate/palettes.py:79 | a token with a colon is never a bare hex body |
| LegacyPalettes.ResolveReference | pixelate/palettes.py:89-107 | `tableau:` and `xkcd:` references resolve exactly for listed names, to the listed value; an unlisted name gets the sorted name list; any other palette is unknown |
| LegacyPalettes.UnknownColorListsSortedNames | pixelate/palettes.py:95-103 | an unknown-colour error lists the table's names, each once, in ascending order, and the name is not among them |
| LegacyPalettes.LookupNameErrors | pixelate/palettes.py:94-107 | the lookup's unknown-colour errors carry the name and the sorted key list |
| LegacyPalettes.ResolveCaseInsensitive | pixelate/palettes.py:89-92 | references that differ only in case resolve alike |
| LegacyPalettes.ReferenceBranch | pixelate/palettes.py:79-89 | a colon token without `#` always takes the palette branch |
| LegacyPalettes.ResolveUnrecognized | pixelate/palettes.py:109-110 | any other token is unrecognized |
| LegacyPalettes.HashHexAgrees | pixelate/palettes.py:79-86 | on `#` tokens the old and new resolvers accept the same inputs, and the new one returns the old result upper-cased |
| LegacyPalettes.BareHexDiffers | pixelate/palettes.py:79-81 | a hex body without `#` is accepted by the old resolver and rejected by the new one as unrecognized |
| Document.RowsOf | pixelate/core.py:52-58 | definition of the row loop over lines; properties in `RowsAreNonBlankLines`, `RowsShape` |
| Document.Rows | pixelate/core.py:52-58 | definition of the rows of a body; properties in `BodyRowsShape` |
| Document.NonBlank | pixelate/core.py:52-54 | definition of the indices of the kept lines; properties in `NonBlankIndices` |
| Document.Collect | pixelate/core.py:43-46 | definition of the legend loop with a filter; properties in `CollectContents`, `CollectKept`, `CollectMonotone` |
| Document.Parts | src/pixelate/parser.py:29 | `split("+++")` gives at least one part |
| Document.Cells | src/pixelate/parser.py:101 | definition of `[cell.strip() for cell in line.split(",")]`; properties in `CellsMeaning`, `CellsShape` |
| Document.CellsMeaning | src/pixelate/parser.py:101 | a line has one cell more than it has commas; every cell is stripped and comma-free, and every other character of the line is in some piece |
| Document.BodyAfterSecondDelimiter | pixelate/core.py:31-49 | the text is the first two parts, two delimiters, and the later parts joined with `+++` |
| Document.JoinLength | src/pixelate/parser.py:40 | joining with a separator adds its length once between each two parts |
| Document.RowsAreNonBlankLines | src/pixelate/parser.py:93-101 | the rows are the non-blank lines, in order, each split into cells |
| Document.NonBlankIndices | src/pixelate/parser.py:93-98 | the kept lines are exactly the lines that are not blank after stripping, in ascending order |
| Document.RowsShape | pixelate/core.py:52-58 | every row has at least one cell, and every cell is stripped, with no comma or line break |
| Document.CellsShape | pixelate/core.py:56 | the cells of a stripped line hold no comma or line break and are stripped |
| Document.BodyRowsShape | pixelate/core.py:49-58 | the rows read from any body all have those shapes |
| Document.CollectContents | pixelate/core.py:43-46 | the legend loop keeps exactly the keys with a kept string value, each mapped to its last such value |
| Document.CollectKeys | pixelate/core.py:44-46 | the legend's keys are exactly the keys with a kept string value |
| Document.CollectLast | pixelate/core.py:44-46 | a key's last kept value is the one stored |
| Document.CollectKept | pixelate/core.py:45 | every stored value passes the filter |
| Document.CollectMonotone | generate.py:56 | a looser filter keeps at least the same keys |
| Document.ReadRows | pixelate/core.py:49-58 | the row loop returns `Rows(body)` |
| Document.CollectLegend | pixelate/core.py:43-46 | the legend loop returns `Collect(entries, keep)` |
| Color.HexToRgba | pixelate/generator.py:13-40 | definition of `hex_to_rgba`; properties in `DecodeSucceedsIff`, `DecodeInRange`, `EncodeDecode`, `DecodeEncode`, `HashesIgnored` |
| Color.DecodeDigits | pixelate/generator.py:25-40 | definition of the length dispatch after `lstrip("#")`; properties in `DecodeValue` |
| Color.Component | pixelate/generator.py:27-36 | definition of one `int(h[i:i+2], 16)`; properties in `DecodeHexBody`, `DecodeBadDigit` |
| Color.HighDigit | pixelate/generator.py:27 | the upper-case digit for a byte's high nibble |
| Color.LowDigit | pixelate/generator.py:27 | the upper-case digit for a byte's low nibble |
| Color.Encode6 | pixelate/generator.py:25-30 | `#RRGGBB` is seven characters, all upper-case hex after the `#` |
| Color.Encode8 | pixelate/generator.py:31-36 | `#RRGGBBAA` is nine characters, all upper-case hex after the `#` |
| Color.DecodeSucceedsIff | pixelate/generator.py:23-40 | `hex_to_rgba` succeeds exactly when the text left after `lstrip("#")` is six or eight hex digits; any other length is an invalid-format error |
| Color.DecodeHexBody | pixelate/generator.py:27-36 | each two-digit component of a hex body is parsed |
| Color.DecodeBadDigit | pixelate/generator.py:27-36 | a non-hex digit makes one component's `int(..., 16)` fail |
| Color.DecodeInRange | pixelate/generator.py:25-40 | decoded components are bytes, and six digits give alpha 255 |
| Color.EncodeDecode | pixelate/generator.py:23-40 | decoding `#RRGGBBAA` gives the colour back; `#RRGGBB` gives it back with alpha 255 |
| Color.PairValue | pixelate/generator.py:27 | two hex digits make a byte |
| Color.DigitsColor | pixelate/generator.py:25-36 | the colour written by a hex body has byte components |
| Color.DecodeValue | pixelate/generator.py:23-40 | a valid body decodes to the colour its digits write |
| Color.DecodeEncode | pixelate/generator.py:23-40 | re-encoding a decoded colour gives `#` and the digits upper-cased, so decoding loses only case |
| Color.EncodeFirstThree | pixelate/generator.py:25-30 | encoding the first three components gives the first six digits upper-cased |
| Color.EncodeAlpha | pixelate/generator.py:31-36 | encoding all four components of an eight-digit body gives the body upper-cased |
| Color.ByteDigits | pixelate/generator.py:27 | a parsed byte's digits are the original digits upper-cased |
| Color.Hashes | pixelate/generator.py:23 | a run of `n` `#` characters |
| Color.HashesIgnored | pixelate/generator.py:23 | any number of leading `#` is ignored |
| Color.LStripHashes | pixelate/generator.py:23 | `lstrip("#")` removes every leading `#` |
| Color.StripLeadingHash | pixelate/generator.py:23 | one more leading `#` changes nothing |
| Color.CellColor | pixelate/generator.py:74-90 | a cell has a colour exactly when its stripped token is a legend key whose value decodes, and the colour is that decoded value |
| Color.GridColors | pixelate/generator.py:72-90 | the colours keep the grid's shape; a cell has a colour exactly when its stripped token is a legend key whose value decodes, and that colour is the decoded value, with byte components |
| Canvas.RowOps | pixelate/generator.py:73-98 | definition of the blocks one row draws; properties in `RowOpsContents` |
| Canvas.Ops | pixelate/generator.py:72-98 | definition of the blocks the grid draws, in order; properties in `OpsContents` |
| Canvas.PixelAfter | pixelate/generator.py:67-98 | definition of a pixel's colour after those draws; properties in `LastCoverWins`, `UncoveredIsClear`, `ResolvedCellShows` |
| Canvas.NewImage | pixelate/generator.py:67-69 | `Image.new` gives a fresh canvas of the given size, fully `(255, 255, 255, 0)` |
| Canvas.PaintBlock | pixelate/generator.py:93-98 | `rectangle((x1, y1, x2, y2))` sets exactly the pixels with `x1 <= x <= x2` and `y1 <= y <= y2` that lie on the canvas, and leaves the rest |
| Canvas.Paint | pixelate/generator.py:72-98 | after the painting loop, every pixel is the colour of the last block covering it, or the background |
| Canvas.UncoveredIsClear | pixelate/generator.py:67-69 | a pixel that no block covers stays transparent |
| Canvas.LastCoverWins | pixelate/generator.py:98 | a pixel shows the colour of the last block that covers it |
| Canvas.RowOpsContents | pixelate/generator.py:73-98 | one row's blocks are its coloured cells, in column order |
| Canvas.RowOpsMembers | pixelate/generator.py:73-90 | a row's blocks are exactly its coloured cells |
| Canvas.RowOpsOrdered | pixelate/generator.py:73 | a row's blocks come in increasing column order |
| Canvas.OpsContents | pixelate/generator.py:72-98 | the grid's blocks are exactly its coloured cells, in row-major order |
| Canvas.OtherBlockMisses | pixelate/generator.py:93-98 | no other cell's block touches the inside of a cell's block |
| Canvas.LaterBlockMisses | pixelate/generator.py:93-98 | a block painted later never covers the earlier cell's own pixels |
| Canvas.ResolvedCellShows | pixelate/generator.py:93-98 | every pixel of a coloured cell's own `ps` by `ps` square shows its colour |
| Canvas.SkippedCellStaysClear | pixelate/generator.py:82-90 | the inside of a skipped cell's square stays transparent |
| Canvas.NeighboursOverlap | pixelate/generator.py:93-98 | two coloured neighbours in a row share one column of pixels, and the right one wins it |
| Canvas.ResolvedCellPainted | pixelate/generator.py:74-98 | a cell whose token decodes through the legend fills its square with that colour |
| Canvas.UnpaintedCellClear | pixelate/generator.py:76-90 | a missing key, an undecodable value, or a position past the end of its row stays transparent inside |
| Canvas.PaintedPixelsInRange | pixelate/generator.py:72-98 | every pixel's components are bytes |
| Canvas.OpsColorsInRange | pixelate/generator.py:98 | blocks with byte components paint only byte components |
| Parser.Legend | src/pixelate/parser.py:62-71 | definition of the `_parse_color` loop; properties in `LegendKeys`, `LegendValues`, `LegendFailure` |
| Parser.Colors | src/pixelate/parser.py:56-75 | definition of `_parse_color`; properties in `ParseColor` |
| Parser.Grid | src/pixelate/parser.py:89-127 | definition of `_parse_grid`; properties in `GridSucceedsIff`, `GridErrors` |
| Parser.Body | src/pixelate/parser.py:38-41 | definition of the grid body; properties in `BodyDropsLaterDelimiters` |
| Parser.ParseResult | src/pixelate/parser.py:16-43 | definition of `parse`; properties in `NeedsTwoDelimiters`, `ParsedGridShape` |
| Parser.FirstMismatch | src/pixelate/parser.py:106-112 | the first row whose length differs from the first row's, or none when all agree |
| Parser.MismatchFrom | src/pixelate/parser.py:106-112 | the same scan from a given row on |
| Parser.ParseColor | src/pixelate/parser.py:56-75 | `_parse_color` returns `Colors`, the decoded legend with every string value resolved |
| Parser.LegendStops | src/pixelate/parser.py:63-71 | once a value fails to resolve, later entries do not change the result |
| Parser.FirstMismatchAt | src/pixelate/parser.py:106-112 | a row of a different length after only matching rows is the first mismatch |
| Parser.MismatchStops | src/pixelate/parser.py:106-112 | the loop's raise at a row of a different length is the first mismatch of the whole grid |
| Parser.MismatchExtends | src/pixelate/parser.py:106-112 | a mismatch in a prefix stays the first mismatch of the whole grid |
| Parser.ShapeMeaning | src/pixelate/parser.py:92-108 | `total_cols` is unset exactly when there are no rows, and is the width exactly when the rows so far are rectangular |
| Parser.GridMismatch | src/pixelate/parser.py:108-112 | at the first mismatch the check fails, naming the first row's length and the mismatching row's length |
| Parser.GridRectangular | src/pixelate/parser.py:116-125 | for a rectangular grid, only undefined keys or emptiness can fail |
| Parser.ScanMismatch | src/pixelate/parser.py:93-112 | the row loop stops at the first line of a different length, with that error |
| Parser.ScanComplete | src/pixelate/parser.py:116-127 | after the loop, undefined keys are checked, then emptiness |
| Parser.ParseGrid | src/pixelate/parser.py:89-127 | `_parse_grid` returns `Grid` |
| Parser.Parse | src/pixelate/parser.py:29-43 | `parse` returns `ParseResult` |
| Parser.NeedsTwoDelimiters | src/pixelate/parser.py:29-33 | parsing fails with the missing-frontmatter error exactly when the text has fewer than two `+++` |
| Parser.LegendErrorKind | src/pixelate/parser.py:65-71 | every legend failure is an invalid-colour-definition error |
| Parser.LegendKeys | src/pixelate/parser.py:63-66 | the legend's keys are exactly the keys with a string value |
| Parser.LegendResolves | src/pixelate/parser.py:63-66 | in a successful legend, every string value resolves |
| Parser.LegendValues | src/pixelate/parser.py:63-66 | each stored value is the resolution of a string value given for that key |
| Parser.LegendValueAt | src/pixelate/parser.py:63-66 | a key's last string value, resolved, is the one stored |
| Parser.LegendFailure | src/pixelate/parser.py:63-71 | the legend fails exactly when some string value does not resolve, and the error names the first such key, its value and the resolver's error |
| Parser.LegendFailsIff | src/pixelate/parser.py:63-71 | the legend fails exactly when some entry is an unresolvable string |
| Parser.LegendFirstError | src/pixelate/parser.py:65-71 | the error is that of the first unresolvable entry |
| Parser.GridSucceedsIff | src/pixelate/parser.py:89-127 | the grid check succeeds exactly on a non-empty rectangular grid of legend keys, and returns the rows read from the body |
| Parser.GridErrors | src/pixelate/parser.py:106-125 | a column error carries the first row's length and a different row length; a ragged grid always gets that error; a rectangular grid with unknown tokens gets every unknown token; an empty grid fails last |
| Parser.ParsedGridShape | src/pixelate/parser.py:16-43 | a parsed grid is non-empty and rectangular, its cells are all legend keys, and it is the rows of the body |
| Parser.BodyDropsLaterDelimiters | src/pixelate/parser.py:38-41 | what follows the second `+++` is the later parts, none holding `+++`, with `+++` between them; this parser's body concatenates those parts with nothing between, while the packaged parser's body is that text itself; the first is three characters shorter per later delimiter, and the two agree before trimming exactly when there is no third `+++` |
| Generator.Generate | pixelate/generator.py:42-100 | an empty grid or empty first row is rejected; a negative size is rejected; otherwise the canvas is `len(grid[0]) * ps` by `len(grid) * ps` and every pixel is as the painting loop leaves it |
| Core.Body | pixelate/core.py:49 | definition of the grid body; properties in `GridKeepsLaterDelimiters` |
| Core.ParseResult | pixelate/core.py:27-60 | definition of `parse_markdown_file`; properties in `ParseSucceedsIff`, `LegendContents` |
| Core.ParseMarkdownFile | pixelate/core.py:27-60 | `parse_markdown_file` returns `ParseResult` |
| Core.MaxLen | pixelate/core.py:109 | `max(len(row) ...)` bounds every row and is reached by one, and is 0 for no rows |
| Core.GeneratePixelImage | pixelate/core.py:105-145 | an empty grid and a negative size are rejected; otherwise the canvas is `max(len(row)) * ps` by `len(grid) * ps`, painted row by row |
| Core.ParseSucceedsIff | pixelate/core.py:31-40 | parsing fails only for a missing frontmatter or undecodable TOML, with no grid check |
| Core.LegendContents | pixelate/core.py:43-46 | the legend holds exactly the keys with a string value starting with `#`, each with its last such value as written |
| Core.GridKeepsLaterDelimiters | pixelate/core.py:49-58 | the grid is read from everything after the second delimiter, later delimiters kept, and every cell is stripped and comma-free |
| Core.ShortRowTailClear | pixelate/core.py:109-145 | the inside of a block position past the end of a short row stays transparent |
| GenerateScript.ParseResult | generate.py:29-71 | definition of `parse_markdown_file`; properties in `ParseSucceedsIff`, `LegendContents`, `SameGridAsCore` |
| GenerateScript.ParseMarkdownFile | generate.py:29-71 | `parse_markdown_file` returns `ParseResult` |
| GenerateScript.ScriptCellColor | generate.py:121-134 | a cell has a colour exactly when it is neither empty nor `0`, its token is a legend key, and its value decodes |
| GenerateScript.ScriptColors | generate.py:119-134 | the colours keep the grid's shape; a cell has a colour exactly when its stripped token is neither empty nor `0`, is a legend key, and its value decodes, and that colour is the decoded value, with byte components |
| GenerateScript.GeneratePixelImage | generate.py:96-145 | an empty grid and a negative size are rejected; otherwise the canvas is `max(len(row)) * ps` by `len(grid) * ps`, painted row by row |
| GenerateScript.ParseSucceedsIff | generate.py:42-51 | parsing fails only for a missing frontmatter or undecodable TOML |
| GenerateScript.LegendContents | generate.py:54-57 | the legend holds exactly the keys with a string value starting with `#` or `rgba` |
| GenerateScript.KeepsMoreThanCore | generate.py:56 | every key the packaged parser keeps, the script keeps too |
| GenerateScript.SameGridAsCore | generate.py:59-69 | the script and the packaged parser read the same grid from the same text |
| GenerateScript.RgbaNeverDecodes | generate.py:74-91 | a value starting with `rgba` is kept in the legend but never decodes |
| GenerateScript.ZeroCellsNotPainted | generate.py:123-125 | empty and `0` cells are never painted, even when `0` has a valid colour |
| GenerateScript.RgbaCellsNotPainted | generate.py:128-134 | a cell whose legend value starts with `rgba` stays transparent |
| GenerateScript.AgreesWithCellColor | generate.py:127-134 | on every other cell the script picks the same colour as the packaged painter |
| GenerateScript.ResolvedCellPainted | generate.py:119-145 | a decodable cell that is neither empty nor `0` fills its square with its colour |

## Left out

- File reading, image saving, output paths and formats (pixelate/core.py:27-28, 148 and 184-187; generate.py:38-39 and 148), and all `print` output are not modelled. They are I/O. The file text and the output pixels are what the model works on.
- `FileProcessor`, `PixelateApp`, the command-line entry points and the script's `main` and `process_markdown_file` are not modelled. They only enumerate files and pass arguments to the modelled operations.
- TOML decoding (`tomllib.loads` and `toml.loads`) is a parameter `decode`. It returns the decoded entries in file order, or an error message. TOML's own grammar is not modelled.
- `Palettes.__init__` and `_load_palette` (pixelate/palette/_palette.py:17-45) read TOML files from the package. The registry is built by `Palette.FromEntries` from already loaded tables. File-not-found and TOML errors at load time are not modelled.
- `SingletonMeta` (src/pixelate/utility/singleton.py) is not modelled. The registry is passed as a value instead.
- The palette generation scripts (pixelate/palette/get_color_palette.py and pixelate/palette/assets/create.py) are not modelled. They run offline and are not part of the pipeline.
- `BiDict.__str__` is not modelled. It only formats.
- Color.DecodeSucceedsIff: each component must be exactly two hex digits. Python's `int(s, 16)` also accepts `+f`, ` f` (sign and whitespace), which this model treats as invalid.
- Text.Lower: `lower()` and `upper()` change only ASCII letters. Python's Unicode case mapping of other characters is not modelled.
- Error message text is kept only as structured error values (the key, the value, the list of names). The exact f-string wording is not modelled.
- Pillow's internals, the PNG encoding and the `format` argument are not modelled. The image is its pixel array.
- `ImageGenerator.generate` and the other painters are modelled for `pixel_size >= 0` as given. A negative size becomes the `NegativeSize` error that `Image.new` raises. The model does not follow Pillow into what a zero-size image does when saved.
