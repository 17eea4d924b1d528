# Image_Canvas font and geometry tools, modelled in Dafny

This project models `Image/Canvas/Tool.php` of the PEAR package Image_Canvas. The file has two classes:

- `Image_Canvas_Font_Tools` keeps a font alias table. The table maps a font name to a map from file-type suffix to filename. It is read from `Fonts/fontmap.txt` when the object is built and written back when the object is destroyed, but only after an install has changed it. `fontMap` resolves a font name and type to an existing file: it tries `.`, then the system font directories, then the library font directory. `installFont` adds an alias and asks for the font file to be copied.
- `Image_Canvas_Geometric_Tools` holds the one-axis point arithmetic for smoothed curves: `mid`, `mirror`, `controlPoint` and `bezier`.

Modules:

- `Strings` (`strings.dfy`): the PHP string built-ins the class uses. `strtolower` is ASCII lower-casing. `strrpos` followed by `substr` gives the file-type suffix. `basename` is the text after the last `/`. It also has `str_replace('\\', '/', ...)`.
- `FontTable` (`font_table.dfy`): pure functions that state what each method does, and the method `FormatRecord` that builds one written record with a loop. They cover how rows fill the table, what one written record is, the candidate filename and directory search of `fontMap`, what `installFont` records, and the discovery of system directories.
- `FontTools` (`font_tools.dfy`): the class itself. It has the four fields of the PHP object, and its methods update them in place with the same loops as the PHP code.
- `Geometry` (`geometry.dfy`): the curve functions over `real`, with their algebraic properties.
- `Wrappers` (`wrappers.dfy`): `Option`. `None` stands for PHP's `false`, or for "not given".

The environment is passed in as parameters:

- `files` is the set of paths for which `file_exists` holds.
- `isDir` is the set for which `is_dir` holds.
- `fontDB` holds the rows of `fontmap.txt`, already decoded.
- `systemRoot` is `$_SERVER['SystemRoot']`.
- `libDir` is `dirname(__FILE__)`.

`Destruct` returns the rows that would be written. `InstallFont` returns the `(source, destination)` pair that would be passed to `copy`.

Behaviour of the code that the model keeps, and that the proofs make visible:

- The first directory `fontMap` tries is `'.'`, joined to the candidate with no separator. So with `cour.ttf` it first probes `.cour.ttf`. The model does the same.
- A filename with no `.` is keyed on read by the whole filename. This is because `strrpos` returns `false`, which `substr` reads as offset 0.
- `installFont` lower-cases the type but keeps the filename as it is, and the suffix test in `fontMap` is case-sensitive. Installing from `Foo.TTF` therefore makes `fontMap("Foo")` look for `Foo.TTF.ttf`. After a write and a read, the entry is keyed `.TTF`, which `fontMap` never asks for (see `InstallUpperCaseExtension`, `ReloadUpperCaseExtension`).
- So writing and then reading gives back the same table only when every filename is stored under its own suffix. This holds for every table read from a file (see `ReadRowsShape`, `WriteReadRoundTrip`). Rows are written only after an install, and an install keeps this property when the filename's own suffix is the recorded type, that is, when the extension is already lower case or the given type matches it (see `InstallWellKeyed`); an upper-case extension, or a given type that differs from the file's own suffix, breaks it (see `InstallUpperCaseExtension`, `ExplicitTypeBreaks`).
- `installFont` returns nothing, although its doc comment promises a `bool`. It also ignores the result of `copy`, so the alias is recorded even when the copy fails.

## Model

| member | source | states |
|---|---|---|
| `Strings.LastIndexOf` | Image/Canvas/Tool.php:120 | `strrpos($s, $c)`: the position of the last `c`, or -1 for `false`; always within `-1 <= r < |s|` |
| `Strings.Suffix` | Image/Canvas/Tool.php:120-121 | `substr($f, strrpos($f, '.'))`: the filename from its last `.`, or the whole filename when there is none |
| `Strings.Basename` | Image/Canvas/Tool.php:221 | `basename($p)`: the text after the last `/` |
| `Strings.EndsWith` | Image/Canvas/Tool.php:189 | `substr($s, -strlen($t)) === $t`: `t` ends `s` (differs from PHP only for an empty `t`, with the same candidate either way) |
| `Strings.Lower` | Image/Canvas/Tool.php:180 | `strtolower` keeps the length, lowers each character by ASCII rules, and leaves no upper-case letter |
| `Strings.LowerIdempotent` | Image/Canvas/Tool.php:227 | lowering an already lowered type changes nothing |
| `Strings.LastIndexOfSpec` | Image/Canvas/Tool.php:120 | `strrpos` finds the last occurrence: that position holds the character and no later one does; -1 (PHP `false`) when there is none |
| `Strings.SuffixShape` | Image/Canvas/Tool.php:120-121 | the type suffix is a tail of the filename that starts at its last `.` and holds no other `.`; with no `.` it is the whole filename |
| `Strings.BasenameShape` | Image/Canvas/Tool.php:221 | `basename` is a tail of the path with no `/`, and is either the whole path or directly follows a `/` |
| `Strings.EndsWithAppend` | Image/Canvas/Tool.php:189-191 | appending the type makes the filename end with the type |
| `Strings.ForwardSlashes` | Image/Canvas/Tool.php:203 | every backslash becomes `/`, every other character is kept, and no backslash is left |
| `FontTable.AddFiles` | Image/Canvas/Tool.php:119-122 | the inner loop of `_readFontDB`: each filename of a row in turn is stored under its suffix in the font's entry |
| `FontTable.AddRow` | Image/Canvas/Tool.php:118-122 | one row: a name with at least one filename extends that font's entry (created if absent); a bare name adds nothing |
| `FontTable.ReadRows` | Image/Canvas/Tool.php:114-124 | the table `_readFontDB` builds from all rows in order, starting from an empty table |
| `FontTable.AddFilesKeeps` | Image/Canvas/Tool.php:119-122 | a type of the entry that no filename of the row has keeps its earlier filename |
| `FontTable.AddFilesKeys` | Image/Canvas/Tool.php:119-123 | after a row's filenames are read, a type is a key exactly when it was one before or is the suffix of one of the filenames, and a type that none of them has keeps its earlier filename |
| `FontTable.AddFilesLastWins` | Image/Canvas/Tool.php:119-123 | under each suffix the table holds the last filename of the row with that suffix: later entries overwrite earlier ones |
| `FontTable.AddFilesKeyed` | Image/Canvas/Tool.php:120-122 | reading filenames keeps each one under its own suffix, and a row with a filename leaves a non-empty entry |
| `FontTable.ReadRowsShape` | Image/Canvas/Tool.php:112-127 | any rows give a table with no empty entry, each filename keyed by its own suffix |
| `FontTable.ReadRowsNames` | Image/Canvas/Tool.php:117-123 | a font is in the table exactly when some row names it with at least one filename; a bare name adds nothing |
| `FontTable.FormatRecord` | Image/Canvas/Tool.php:139 | the record is the font name followed by exactly one filename per type of the font |
| `FontTable.ReadRecord` | Image/Canvas/Tool.php:117-123 | reading back the record of a non-empty entry keyed by suffix gives that entry |
| `FontTable.ReadRecords` | Image/Canvas/Tool.php:112-127 | reading rows of distinct fonts, each of whose filenames reads back as that font's entry, gives exactly those fonts with those entries |
| `FontTable.WriteReadRoundTrip` | Image/Canvas/Tool.php:112-143 | writing a table that reading could have produced, then reading the rows back, gives the same table |
| `FontTable.Candidate` | Image/Canvas/Tool.php:180-191 | the candidate filename always ends with the lowered type |
| `FontTable.CandidateShape` | Image/Canvas/Tool.php:180-191 | the candidate starts with the alias for the lowered type (or the name when there is none), is at most the type longer, and equals that alias exactly when the alias already ends with the type |
| `FontTable.SearchDirs` | Image/Canvas/Tool.php:194-198 | the search order: `.`, then the system font paths, then the library font path |
| `FontTable.Probe` | Image/Canvas/Tool.php:199-207 | the search loop: the first `dir + candidate` that exists, with backslashes turned into slashes, or `false` |
| `FontTable.ProbeFirstHit` | Image/Canvas/Tool.php:193-205 | when a directory has `dir + candidate` and no earlier one does, the result is that path with slashes normalised |
| `FontTable.ProbeNone` | Image/Canvas/Tool.php:199-207 | the result is `false` exactly when no search directory has the candidate |
| `FontTable.ProbeWithin` | Image/Canvas/Tool.php:199-204 | a found path is always one of the search directories joined with the candidate, and that file exists |
| `FontTable.IsFalsy` | Image/Canvas/Tool.php:223 | PHP's `!$type` for a string argument: not given, `""` or `"0"` |
| `FontTable.InstallType` | Image/Canvas/Tool.php:223-227 | the type `installFont` uses: the given one, or the filename's suffix when `!$type`, lowered |
| `FontTable.Install` | Image/Canvas/Tool.php:221-237 | the table after `installFont`: unchanged when (name, type) is present, else `basename(path)` recorded under it |
| `FontTable.InstallWellKeyed` | Image/Canvas/Tool.php:221-237 | an install from a filename whose own suffix is the recorded type keeps every filename of the table under its own suffix, so the written table reads back as it was |
| `FontTable.InstallPresent` | Image/Canvas/Tool.php:229-232 | when the font already has the type, the table is unchanged |
| `FontTable.InstallNew` | Image/Canvas/Tool.php:234-238 | otherwise `basename(path)` is recorded under (name, type): the font gains exactly that type, the table gains at most that font, every other pair keeps its filename, and every other font's entry is unchanged |
| `FontTable.InstallIdempotent` | Image/Canvas/Tool.php:221-238 | a repeated identical install leaves the table as the first one left it |
| `FontTable.InstallNonEmpty` | Image/Canvas/Tool.php:237 | installing keeps every entry non-empty |
| `FontTable.InstallThenCandidate` | Image/Canvas/Tool.php:221-238 | after an install, resolving with the installed type uses the alias that is present, which is the new filename when there was none |
| `FontTable.InstallThenResolve` | Image/Canvas/Tool.php:193-237 | a font installed from a file whose name ends with its type, with that file in the library directory, resolves to where that filename is first found |
| `FontTable.InstallUpperCaseExtension` | Image/Canvas/Tool.php:221-237 | installing "Foo" from `/tmp/Foo.TTF` records `.ttf` to `Foo.TTF`, which is not keyed by its own suffix, and `fontMap("Foo")` then looks for `Foo.TTF.ttf` |
| `FontTable.ExplicitTypeBreaks` | Image/Canvas/Tool.php:221-237 | installing "Foo" from `foo.otf` with the type `.ttf` records `.ttf` to `foo.otf`, an entry not keyed by its own suffix `.otf` |
| `FontTable.ReloadUpperCaseExtension` | Image/Canvas/Tool.php:117-123 | that entry's record `Foo,Foo.TTF` reads back under `.TTF`, so `fontMap("Foo")` looks for `Foo.ttf` |
| `FontTable.KeepDirs` | Image/Canvas/Tool.php:81-85 | the candidate paths for which `is_dir` holds, in their order |
| `FontTable.SystemFontPath` | Image/Canvas/Tool.php:65-86 | `SystemRoot/Fonts/` when `SystemRoot` is set, else the Unix and Mac candidates that are directories |
| `FontTable.KeepDirsMembers` | Image/Canvas/Tool.php:81-85 | a system directory is kept exactly when it is a candidate for which `is_dir` holds |
| `FontTable.KeepDirsAppend` | Image/Canvas/Tool.php:81-85 | filtering keeps list order: the filter of a concatenation is the concatenation of the filters |
| `FontTable.UnionRecord` | Image/Canvas/Tool.php:139 | PHP's `array($font) + $formats`: the font name at key 0, then every filename whose type is not the key "0" |
| `FontTable.UnionRecordAgrees` | Image/Canvas/Tool.php:139 | without a type keyed "0", PHP's `array($font) + $formats` is the intended record |
| `FontTable.UnionRecordDropsZeroKey` | Image/Canvas/Tool.php:139-140 | the row `Foo,0` reads as type "0" to file "0"; PHP's union then writes only `Foo`, which reads back as an empty table, while the intended record `Foo,0` is valid |
| `FontTools.FontTools.constructor` | Image/Canvas/Tool.php:62-94 | the system paths are `SystemRoot/Fonts/`, or else the Unix and Mac candidates that are directories, in order; the library path is `libDir/Fonts/`; the table is read from `fontmap.txt` when it exists and is empty otherwise; the dirty flag is false |
| `FontTools.FontTools.FontDBPath` | Image/Canvas/Tool.php:115 | the font map file: `fontmap.txt` in the library font directory |
| `FontTools.FontTools.Dirs` | Image/Canvas/Tool.php:194-198 | the object's search order: `.`, its system font paths, then its library font path |
| `FontTools.FontTools.Destruct` | Image/Canvas/Tool.php:99-105 | rows are written exactly when the dirty flag is set; they are one record per font of the table, and when every filename is keyed by its own suffix they read back as that same table |
| `FontTools.FontTools.ReadFontDB` | Image/Canvas/Tool.php:112-127 | the table becomes the table read from the rows when the file exists, and empty otherwise; only the table changes |
| `FontTools.FontTools.ReadRow` | Image/Canvas/Tool.php:117-124 | one row's filenames are added to the table under their suffixes |
| `FontTools.FontTools.WriteFontDB` | Image/Canvas/Tool.php:134-143 | the rows are exactly one record `[font] ++ filenames` per font of the table |
| `FontTools.FontTools.FontMap` | Image/Canvas/Tool.php:178-208 | the result is the first existing `dir + candidate` over `.`, the system paths and the library path, with slashes normalised, or `false`; the table and the flag are not changed |
| `FontTools.FontTools.InstallFont` | Image/Canvas/Tool.php:219-239 | when the (name, type) is present, nothing is copied and the table and flag are unchanged; otherwise the copy to the library directory is requested, the basename is recorded and the flag is set |
| `Geometry.Mid` | Image/Canvas/Tool.php:274-277 | `mid`: the average `(p1 + p2) / 2` |
| `Geometry.Mirror` | Image/Canvas/Tool.php:290-293 | `mirror`: `p2 + factor * (p2 - p1)`, with the default factor 1 |
| `Geometry.ControlPoint` | Image/Canvas/Tool.php:307-317 | `controlPoint`: the mirror of `p1` in `p2` by the smooth factor, its midpoint with `p2`, and the midpoint of that with `mid(p2, factor)` |
| `Geometry.Square` | Image/Canvas/Tool.php:337-338 | `pow($x, 2)`: `x * x` |
| `Geometry.Cube` | Image/Canvas/Tool.php:336-339 | `pow($x, 3)`: `x * x * x` |
| `Geometry.Bezier` | Image/Canvas/Tool.php:333-340 | `bezier`: the cubic Bernstein combination of the four points at `t` |
| `Geometry.MidSymmetric` | Image/Canvas/Tool.php:274-277 | `mid(a, b) == mid(b, a)` |
| `Geometry.MidBetween` | Image/Canvas/Tool.php:274-277 | `min(a, b) <= mid(a, b) <= max(a, b)` |
| `Geometry.MirrorZero` | Image/Canvas/Tool.php:284-293 | mirroring by factor 0 gives `p2` |
| `Geometry.MirrorReflects` | Image/Canvas/Tool.php:284-293 | with the default factor 1, `p2` is the midpoint of `p1` and its mirror image |
| `Geometry.MirrorInvolution` | Image/Canvas/Tool.php:290-293 | mirroring the image back in `p2` gives `p1` |
| `Geometry.ControlPointClosedForm` | Image/Canvas/Tool.php:307-317 | `controlPoint(p1, p2, f, s) == (3*p2 + s*(p2 - p1) + f) / 4` |
| `Geometry.ControlPointFixed` | Image/Canvas/Tool.php:307-317 | `controlPoint(p, p, p, s) == p` |
| `Geometry.ControlPointShift` | Image/Canvas/Tool.php:307-317 | shifting the three point arguments by `c` shifts the control point by `c` |
| `Geometry.BezierEnds` | Image/Canvas/Tool.php:333-340 | `bezier(0, ...) == p1` and `bezier(1, ...) == p4` |
| `Geometry.BernsteinSum` | Image/Canvas/Tool.php:335-339 | the four cubic weights add up to 1 for every `t` |
| `Geometry.BezierConstant` | Image/Canvas/Tool.php:333-340 | four equal points give that point for every `t` |
| `Geometry.BernsteinNonNegative` | Image/Canvas/Tool.php:335-339 | for `0 <= t <= 1` every weight is non-negative |
| `Geometry.BezierBounded` | Image/Canvas/Tool.php:333-340 | for `0 <= t <= 1` the result lies between the least and the greatest of the four points |

## Left out

- `getAngle` (Image/Canvas/Tool.php:353-365): it needs `sqrt`, `asin` and `rad2deg`, which have no exact counterpart over `real`, and it divides by a length that can be zero.
- Floating point: PHP doubles are modelled as exact reals, so rounding is not modelled.
- CSV text, `fopen`, `fgetcsv`, `fputcsv` and `fclose`: the font map file is modelled as its decoded rows. Quoting and I/O errors are not modelled.
- `copy`, `file_exists` and `is_dir` are not modelled as effects. They become the sets `files` and `isDir` and a returned copy request, and the copy's success is never looked at, as in the source.
- `getInstance` and the static `$_instance`: the object is simply constructed.
- `$_SERVER['SystemRoot']` and `dirname(__FILE__)` are constructor parameters.
- The `echo('Already there')` output and the empty `installWebFonts` stub.
- `basename` is modelled as the text after the last `/`. PHP's trailing-slash stripping and Windows `\` separators are not modelled. `strtolower` is ASCII only.
- PHP array key coercion and insertion order: the table is a Dafny `map`. Keys that are integer strings are not told apart, except for the clash in the written record (see Findings).
- `FontTools.FontTools.WriteFontDB`: states one record per font with one filename per type, but in an unspecified order. PHP writes in insertion order, which a `map` does not keep.
- `FontTools.FontTools.Destruct`: same as `WriteFontDB`, the order of the written records is unspecified, and for a type keyed "0" it writes the intended record `[font] ++ filenames` rather than what PHP's `array($font) + $formats` gives (see Findings).
- `FontTools.FontTools.WriteFontDB`: writes the intended record `[font] ++ filenames`. It does not write what PHP's `array($font) + $formats` gives for a type keyed "0" (see Findings).
- The doc comment of `fontMap` (tab-separated file, falling back to the library) describes behaviour the code does not have. The model follows the code.
- The doc comment of `bezier` calls `t` a position between `p2` and `p3`, with `p1` and `p4` used only for control points. The code is the cubic Bernstein combination from `p1` (at `t = 0`) to `p4` (at `t = 1`), and the model follows the code (see `BezierEnds`).

## Findings

| source | as written | input that shows it | evidently intended | confidence | as-written member | corrected member |
|---|---|---|---|---|---|---|
| Image/Canvas/Tool.php:139 | `array($font) + $formats` is a key union. PHP turns the string key "0" into the integer key 0, which is already taken by the font name, so that filename is dropped | the row `Foo,0` (a filename `0` with no `.`) is read as type "0" to file "0", then written as just `Foo`, and the font is gone after the next load | the font name followed by all of its filenames | medium, not executed | `FontTable.UnionRecordDropsZeroKey` | `FontTable.FormatRecord` |
