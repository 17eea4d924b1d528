/**
 * The font alias table of `Image_Canvas_Font_Tools` and the pure rules that
 * the class's methods follow: how rows of the persisted font map fill the
 * table, what one written record holds, how `fontMap` picks its candidate
 * filename and searches the directories, and what `installFont` records.
 */
module FontTable {
  import opened Wrappers
  import opened Strings

  /** File-type suffix (".ttf", ".pfb", ...) to filename, for one font. */
  type Formats = map<string, string>
  /** Font name to its formats: the `_font_map` field. */
  type Table = map<string, Formats>
  /** One record of the persisted font map: the font name, then filenames. */
  type Row = seq<string>

  function Lookup(t: Table, name: string): Formats {
    if name in t then t[name] else map[]
  }

  //
  // Reading the persisted font map
  //

  /** The inner loop of `_readFontDB`: each filename is stored under its suffix, later ones overwrite earlier ones. */
  function AddFiles(m: Formats, files: seq<string>): Formats
  {
    if files == [] then m
    else AddFiles(m, files[..|files| - 1])[Suffix(files[|files| - 1]) := files[|files| - 1]]
  }

  /** One row of `_readFontDB`: a name with at least one filename creates or extends its entry; a bare name adds nothing. */
  function AddRow(t: Table, row: Row): Table {
    if |row| <= 1 then t
    else t[row[0] := AddFiles(Lookup(t, row[0]), row[1..])]
  }

  /** The table that `_readFontDB` builds from the rows of the file, starting from an empty table. */
  function ReadRows(rows: seq<Row>): Table
  {
    if rows == [] then map[] else AddRow(ReadRows(rows[..|rows| - 1]), rows[|rows| - 1])
  }

  /** Every font in the table has at least one file. */
  ghost predicate NonEmptyEntries(t: Table) {
    forall name :: name in t ==> t[name] != map[]
  }

  /** Every filename is stored under its own suffix, as `_readFontDB` stores it. */
  ghost predicate KeyedBySuffix(m: Formats) {
    forall k :: k in m ==> Suffix(m[k]) == k
  }

  ghost predicate WellKeyed(t: Table) {
    forall name :: name in t ==> KeyedBySuffix(t[name])
  }

  /** A suffix that no filename of the row has keeps the filename it had before the row. */
  lemma {:induction false} AddFilesKeeps(m: Formats, files: seq<string>, k: string)
    requires k in m
    requires forall i :: 0 <= i < |files| ==> Suffix(files[i]) != k
    ensures k in AddFiles(m, files) && AddFiles(m, files)[k] == m[k]
  {
    if files != [] {
      var n := |files| - 1;
      assert forall i :: 0 <= i < n ==> files[..n][i] == files[i];
      AddFilesKeeps(m, files[..n], k);
    }
  }

  /**
   * A suffix is a key after `AddFiles` exactly when it was one before or some
   * filename has it, and a key that no filename has keeps its filename.
   */
  lemma {:induction false} AddFilesKeys(m: Formats, files: seq<string>)
    ensures forall k :: k in AddFiles(m, files) <==> k in m || exists i :: 0 <= i < |files| && Suffix(files[i]) == k
    ensures forall k :: k in m && (forall i :: 0 <= i < |files| ==> Suffix(files[i]) != k) ==>
                        k in AddFiles(m, files) && AddFiles(m, files)[k] == m[k]
  {
    forall k | k in m && (forall i :: 0 <= i < |files| ==> Suffix(files[i]) != k)
      ensures k in AddFiles(m, files) && AddFiles(m, files)[k] == m[k]
    {
      AddFilesKeeps(m, files, k);
    }
    if files != [] {
      var n := |files| - 1;
      var init := files[..n];
      AddFilesKeys(m, init);
      assert AddFiles(m, files) == AddFiles(m, init)[Suffix(files[n]) := files[n]];
      assert forall i :: 0 <= i < n ==> init[i] == files[i];
    }
  }

  /** Under each suffix `AddFiles` holds the last filename that has it: later entries overwrite earlier ones. */
  lemma {:induction false} AddFilesLastWins(m: Formats, files: seq<string>, i: nat)
    requires i < |files|
    requires forall j :: i < j < |files| ==> Suffix(files[j]) != Suffix(files[i])
    ensures Suffix(files[i]) in AddFiles(m, files) && AddFiles(m, files)[Suffix(files[i])] == files[i]
  {
    var n := |files| - 1;
    var prev := AddFiles(m, files[..n]);
    assert AddFiles(m, files) == prev[Suffix(files[n]) := files[n]];
    if i < n {
      AddFilesLastWins(m, files[..n], i);
      assert files[..n][i] == files[i];
      assert Suffix(files[n]) != Suffix(files[i]);
    }
  }

  /** `AddFiles` keeps every filename under its own suffix and adds at least one key when given a file. */
  lemma {:induction false} AddFilesKeyed(m: Formats, files: seq<string>)
    requires KeyedBySuffix(m)
    ensures KeyedBySuffix(AddFiles(m, files))
    ensures files != [] ==> AddFiles(m, files) != map[]
  {
    if files != [] {
      var n := |files| - 1;
      AddFilesKeyed(m, files[..n]);
      assert AddFiles(m, files) == AddFiles(m, files[..n])[Suffix(files[n]) := files[n]];
      assert Suffix(files[n]) in AddFiles(m, files);
    }
  }

  /** Reading any rows yields a table with no empty entry, every file keyed by its own suffix. */
  lemma {:induction false} ReadRowsShape(rows: seq<Row>)
    ensures NonEmptyEntries(ReadRows(rows))
    ensures WellKeyed(ReadRows(rows))
  {
    if rows != [] {
      var t := ReadRows(rows[..|rows| - 1]);
      ReadRowsShape(rows[..|rows| - 1]);
      var row := rows[|rows| - 1];
      if |row| > 1 {
        AddFilesKeyed(Lookup(t, row[0]), row[1..]);
      }
    }
  }

  /** A font name is in the table exactly when some row names it with at least one filename. */
  lemma {:induction false} ReadRowsNames(rows: seq<Row>)
    ensures forall name :: name in ReadRows(rows) <==> exists i :: 0 <= i < |rows| && |rows[i]| > 1 && rows[i][0] == name
  {
    if rows != [] {
      var init := rows[..|rows| - 1];
      ReadRowsNames(init);
      forall i | 0 <= i < |init| ensures init[i] == rows[i] { }
    }
  }

  //
  // Writing the persisted font map
  //

  /** `ks` lists the members of `s`, each exactly once. */
  ghost predicate Enumerates(ks: seq<string>, s: set<string>) {
    (forall i, j :: 0 <= i < j < |ks| ==> ks[i] != ks[j]) &&
    (forall k :: k in s <==> k in ks)
  }

  /** The record `[font] ++ filenames` for one font: its name, then one filename per suffix in some order. */
  ghost predicate IsRecord(row: Row, font: string, formats: Formats) {
    exists ks :: RecordInOrder(row, font, formats, ks)
  }

  /** The record for one font with its suffixes taken in the order `ks`. */
  ghost predicate RecordInOrder(row: Row, font: string, formats: Formats, ks: seq<string>) {
    Enumerates(ks, formats.Keys) && |row| == |ks| + 1 && row[0] == font &&
    forall i :: 0 <= i < |ks| ==> ks[i] in formats && row[i + 1] == formats[ks[i]]
  }

  /** What `_writeFontDB` writes for a table: exactly one record per font, in some order. */
  ghost predicate IsDump(rows: seq<Row>, t: Table) {
    exists names :: DumpInOrder(rows, t, names)
  }

  /** The records of a table with its fonts taken in the order `names`. */
  ghost predicate DumpInOrder(rows: seq<Row>, t: Table, names: seq<string>) {
    Enumerates(names, t.Keys) && |rows| == |names| &&
    forall i :: 0 <= i < |rows| ==> names[i] in t && IsRecord(rows[i], names[i], t[names[i]])
  }

  /** `array($font) + $formats`, written as it is meant: the font name followed by every filename. */
  method FormatRecord(font: string, formats: Formats) returns (row: Row)
    ensures IsRecord(row, font, formats)
  {
    row := [font];
    var remaining := formats.Keys;
    ghost var ks: seq<string> := [];
    while remaining != {}
      invariant remaining <= formats.Keys
      invariant Enumerates(ks, formats.Keys - remaining)
      invariant |row| == |ks| + 1 && row[0] == font
      invariant forall i :: 0 <= i < |ks| ==> ks[i] in formats && row[i + 1] == formats[ks[i]]
      decreases remaining
    {
      var k :| k in remaining;
      row := row + [formats[k]];
      ks := ks + [k];
      remaining := remaining - {k};
    }
    assert RecordInOrder(row, font, formats, ks);
  }

  /** Reading the filenames of a record, listed in key order `ks`, puts back each filename under its key on top of what was there. */
  lemma {:induction false} AddRecordFiles(m: Formats, files: seq<string>, ks: seq<string>, formats: Formats)
    requires KeyedBySuffix(formats)
    requires |files| == |ks|
    requires forall i :: 0 <= i < |ks| ==> ks[i] in formats && files[i] == formats[ks[i]]
    ensures forall k :: k in AddFiles(m, files) <==> k in m || k in ks
    ensures forall k :: k in ks ==> AddFiles(m, files)[k] == formats[k]
    ensures forall k :: k in m && k !in ks ==> AddFiles(m, files)[k] == m[k]
  {
    if files != [] {
      var n := |files| - 1;
      var init, keys := files[..n], ks[..n];
      assert forall i :: 0 <= i < n ==> init[i] == files[i] && keys[i] == ks[i];
      AddRecordFiles(m, init, keys, formats);
      var prev := AddFiles(m, init);
      assert Suffix(files[n]) == ks[n];
      assert AddFiles(m, files) == prev[ks[n] := files[n]];
      assert ks == keys + [ks[n]];
    }
  }

  /** Reading back the record of a non-empty, suffix-keyed entry gives that entry. */
  lemma ReadRecord(row: Row, font: string, formats: Formats)
    requires formats != map[] && KeyedBySuffix(formats)
    requires IsRecord(row, font, formats)
    ensures |row| > 1 && row[0] == font && AddFiles(map[], row[1..]) == formats
  {
    var ks :| RecordInOrder(row, font, formats, ks);
    var k0 :| k0 in formats;
    assert k0 in ks;
    var files := row[1..];
    assert forall i :: 0 <= i < |ks| ==> files[i] == row[i + 1];
    AddRecordFiles(map[], files, ks, formats);
    FormatsEquality(AddFiles(map[], files), formats);
  }

  /** Reading rows of distinct fonts, each of whose filenames reads back as that font's entry, adds exactly those entries. */
  lemma {:induction false} ReadRecords(rows: seq<Row>, names: seq<string>, t: Table)
    requires |rows| == |names|
    requires forall i, j :: 0 <= i < j < |names| ==> names[i] != names[j]
    requires forall i :: 0 <= i < |rows| ==>
               names[i] in t && |rows[i]| > 1 && rows[i][0] == names[i] && AddFiles(map[], rows[i][1..]) == t[names[i]]
    ensures forall n :: n in ReadRows(rows) <==> n in names
    ensures forall n :: n in names ==> n in t && ReadRows(rows)[n] == t[n]
  {
    if rows != [] {
      var n := |rows| - 1;
      var name := names[n];
      ReadRecords(rows[..n], names[..n], t);
      var before := ReadRows(rows[..n]);
      assert name !in names[..n];
      assert name !in before;
      assert Lookup(before, name) == map[];
      assert ReadRows(rows) == AddRow(before, rows[n]);
      assert forall x :: x in names <==> x in names[..n] || x == name;
    }
  }

  /** Writing a table that `_readFontDB` could have produced and reading it back gives the same table. */
  lemma WriteReadRoundTrip(rows: seq<Row>, t: Table)
    requires NonEmptyEntries(t) && WellKeyed(t)
    requires IsDump(rows, t)
    ensures ReadRows(rows) == t
  {
    var names :| DumpInOrder(rows, t, names);
    assert Enumerates(names, t.Keys);
    forall i | 0 <= i < |rows|
      ensures names[i] in t && |rows[i]| > 1 && rows[i][0] == names[i] && AddFiles(map[], rows[i][1..]) == t[names[i]]
    {
      ReadRecord(rows[i], names[i], t[names[i]]);
    }
    ReadRecords(rows, names, t);
    TableEquality(ReadRows(rows), t);
  }

  /** Two entries with the same suffixes and the same filenames are equal. */
  lemma FormatsEquality(a: Formats, b: Formats)
    requires forall k :: k in a <==> k in b
    requires forall k :: k in a ==> a[k] == b[k]
    ensures a == b
  {
  }

  /** Two tables with the same fonts and the same entries are equal. */
  lemma TableEquality(a: Table, b: Table)
    requires forall n :: n in a <==> n in b
    requires forall n :: n in a ==> a[n] == b[n]
    ensures a == b
  {
  }

  //
  // Resolving a font: `fontMap`
  //

  /** The filename `fontMap` looks for: the alias for the lowered type if the font has one, else the name, with the type appended unless already there. */
  function Candidate(t: Table, name: string, fontType: string): (c: string)
    ensures EndsWith(c, Lower(fontType))
  {
    var ty := Lower(fontType);
    var base := if name in t && ty in t[name] then t[name][ty] else name;
    if EndsWith(base, ty) then base else EndsWithAppend(base, ty); base + ty
  }

  /** The directories `fontMap` searches, in order: '.', the system font directories, the library's font directory. */
  function SearchDirs(systemFontPath: seq<string>, libFontPath: string): seq<string> {
    ["."] + systemFontPath + [libFontPath]
  }

  /** The search loop of `fontMap`: the first `dir + candidate` that exists, with backslashes turned to slashes. */
  function Probe(dirs: seq<string>, files: set<string>, candidate: string): Option<string>
  {
    if dirs == [] then None
    else if dirs[0] + candidate in files then Some(ForwardSlashes(dirs[0] + candidate))
    else Probe(dirs[1..], files, candidate)
  }

  /** The two cases of the candidate: the alias (or the name) as it is, or with the type appended. */
  lemma CandidateCases(t: Table, name: string, fontType: string)
    ensures var ty := Lower(fontType);
            var base := if name in t && ty in t[name] then t[name][ty] else name;
            (EndsWith(base, ty) ==> Candidate(t, name, fontType) == base) &&
            (!EndsWith(base, ty) ==> Candidate(t, name, fontType) == base + ty)
  {
  }

  /**
   * The candidate starts with the alias for the lowered type (or with the
   * name when there is none), is at most the type longer, and is that alias
   * itself exactly when the alias already ends with the type.
   */
  lemma CandidateShape(t: Table, name: string, fontType: string)
    ensures var ty := Lower(fontType);
            var base := if name in t && ty in t[name] then t[name][ty] else name;
            var c := Candidate(t, name, fontType);
            |base| <= |c| <= |base| + |ty| && c[..|base|] == base &&
            (c == base <==> EndsWith(base, ty))
  {
    CandidateCases(t, name, fontType);
    var ty := Lower(fontType);
    var base := if name in t && ty in t[name] then t[name][ty] else name;
    if !EndsWith(base, ty) {
      assert |ty| > 0;
      assert (base + ty)[..|base|] == base;
    }
  }

  /** When some directory has the candidate, the search returns the first such one. */
  lemma {:induction false} ProbeFirstHit(dirs: seq<string>, files: set<string>, candidate: string, i: nat)
    requires i < |dirs| && dirs[i] + candidate in files
    requires forall k :: 0 <= k < i ==> dirs[k] + candidate !in files
    ensures Probe(dirs, files, candidate) == Some(ForwardSlashes(dirs[i] + candidate))
  {
    if i > 0 {
      ProbeFirstHit(dirs[1..], files, candidate, i - 1);
    }
  }

  /** The search finds nothing exactly when no directory has the candidate. */
  lemma {:induction false} ProbeNone(dirs: seq<string>, files: set<string>, candidate: string)
    ensures Probe(dirs, files, candidate) == None <==> forall k :: 0 <= k < |dirs| ==> dirs[k] + candidate !in files
  {
    if dirs != [] {
      ProbeNone(dirs[1..], files, candidate);
      assert forall k :: 1 <= k < |dirs| ==> dirs[k] == dirs[1..][k - 1];
    }
  }

  /** A found path always is one of the search directories joined with the candidate. */
  lemma {:induction false} ProbeWithin(dirs: seq<string>, files: set<string>, candidate: string)
    ensures Probe(dirs, files, candidate).Some? ==>
      exists k :: 0 <= k < |dirs| && dirs[k] + candidate in files &&
        Probe(dirs, files, candidate).value == ForwardSlashes(dirs[k] + candidate)
  {
    if dirs != [] && dirs[0] + candidate !in files {
      ProbeWithin(dirs[1..], files, candidate);
      if Probe(dirs[1..], files, candidate).Some? {
        var k :| 0 <= k < |dirs[1..]| && dirs[1..][k] + candidate in files &&
          Probe(dirs[1..], files, candidate).value == ForwardSlashes(dirs[1..][k] + candidate);
        assert dirs[k + 1] == dirs[1..][k];
      }
    }
  }

  //
  // Installing a font: `installFont`
  //

  /** PHP's `!$type`: no type, the empty string or "0". */
  predicate IsFalsy(fontType: Option<string>) {
    fontType.None? || fontType.value == "" || fontType.value == "0"
  }

  /** The type `installFont` records: the given one, or the filename's suffix when none is given, lowered. */
  function InstallType(filename: string, fontType: Option<string>): string {
    Lower(if IsFalsy(fontType) then Suffix(filename) else fontType.value)
  }

  /** The table after `installFont(name, path, type)`: unchanged if the font already has that type, else with `basename(path)` recorded under it. */
  function Install(t: Table, name: string, path: string, fontType: Option<string>): Table {
    var filename := Basename(path);
    var ty := InstallType(filename, fontType);
    if name in t && ty in t[name] then t else t[name := Lookup(t, name)[ty := filename]]
  }

  /** An install from a filename whose suffix is the recorded type keeps every filename under its own suffix. */
  lemma InstallWellKeyed(t: Table, name: string, path: string, fontType: Option<string>)
    requires WellKeyed(t)
    requires Suffix(Basename(path)) == InstallType(Basename(path), fontType)
    ensures WellKeyed(Install(t, name, path, fontType))
  {
  }

  /** An install whose (name, type) is present changes nothing. */
  lemma InstallPresent(t: Table, name: string, path: string, fontType: Option<string>)
    requires name in t && InstallType(Basename(path), fontType) in t[name]
    ensures Install(t, name, path, fontType) == t
  {
  }

  /** A new install records `basename(path)` under (name, type) and leaves every other entry as it was. */
  lemma InstallNew(t: Table, name: string, path: string, fontType: Option<string>)
    requires !(name in t && InstallType(Basename(path), fontType) in t[name])
    ensures var t' := Install(t, name, path, fontType);
            var ty := InstallType(Basename(path), fontType);
            t'.Keys == t.Keys + {name} &&
            t'[name].Keys == Lookup(t, name).Keys + {ty} &&
            t'[name][ty] == Basename(path) &&
            (forall n, k :: n in t && k in t[n] && (n, k) != (name, ty) ==> k in t'[n] && t'[n][k] == t[n][k]) &&
            (forall n :: n in t && n != name ==> t'[n] == t[n])
  {
  }

  /** Installing the same font twice is the same as installing it once. */
  lemma InstallIdempotent(t: Table, name: string, path: string, fontType: Option<string>)
    ensures Install(Install(t, name, path, fontType), name, path, fontType) == Install(t, name, path, fontType)
  {
  }

  /** Installing keeps every entry non-empty. */
  lemma InstallNonEmpty(t: Table, name: string, path: string, fontType: Option<string>)
    requires NonEmptyEntries(t)
    ensures NonEmptyEntries(Install(t, name, path, fontType))
  {
    var ty := InstallType(Basename(path), fontType);
    if !(name in t && ty in t[name]) {
      assert ty in Install(t, name, path, fontType)[name];
    }
  }

  /** After an install, resolving the font with the installed type uses the recorded alias. */
  lemma InstallThenCandidate(t: Table, name: string, path: string, fontType: Option<string>)
    ensures var ty := InstallType(Basename(path), fontType);
            var t' := Install(t, name, path, fontType);
            var alias := if name in t && ty in t[name] then t[name][ty] else Basename(path);
            Candidate(t', name, ty) == if EndsWith(alias, ty) then alias else alias + ty
  {
    var ty := InstallType(Basename(path), fontType);
    LowerIdempotent(if IsFalsy(fontType) then Suffix(Basename(path)) else fontType.value);
    assert Lower(ty) == ty;
  }

  /** String facts of the upper-case example below. */
  lemma ExampleBasename()
    ensures Basename("/tmp/Foo.TTF") == "Foo.TTF"
  {
    var path := "/tmp/Foo.TTF";
    LastIndexOfAt(path, '/', 4);
    assert path[5..] == "Foo.TTF";
  }

  lemma ExampleSuffix()
    ensures Suffix("Foo.TTF") == ".TTF"
  {
    LastIndexOfAt("Foo.TTF", '.', 3);
    assert "Foo.TTF"[3..] == ".TTF";
  }

  lemma ExampleLower()
    ensures Lower(".TTF") == ".ttf" && Lower(".ttf") == ".ttf"
  {
    var lowered := Lower(".TTF");
    assert lowered[1] == 't' && lowered[2] == 't' && lowered[3] == 'f';
    ExampleLowerTtf();
  }

  lemma ExampleLowerTtf()
    ensures Lower(".ttf") == ".ttf"
  {
    var ttf := Lower(".ttf");
    assert ttf[0] == '.' && ttf[1] == 't' && ttf[2] == 't' && ttf[3] == 'f';
  }

  lemma ExampleEndsWith()
    ensures !EndsWith("Foo.TTF", ".ttf") && !EndsWith("Foo", ".ttf")
    ensures ".TTF" != ".ttf"
  {
    assert "Foo.TTF"[3..] == ".TTF";
    assert ".TTF"[1] != ".ttf"[1];
  }

  /** Once installed, a font whose filename ends with its type resolves to that filename wherever it first exists. */
  lemma InstallThenResolve(t: Table, name: string, path: string, fontType: Option<string>,
                           systemFontPath: seq<string>, libFontPath: string, files: set<string>)
    requires !(name in t && InstallType(Basename(path), fontType) in t[name])
    requires EndsWith(Basename(path), InstallType(Basename(path), fontType))
    requires libFontPath + Basename(path) in files
    ensures var ty := InstallType(Basename(path), fontType);
            var dirs := SearchDirs(systemFontPath, libFontPath);
            var r := Probe(dirs, files, Candidate(Install(t, name, path, fontType), name, ty));
            r == Probe(dirs, files, Basename(path)) && r != None
  {
    InstallThenCandidate(t, name, path, fontType);
    var dirs := SearchDirs(systemFontPath, libFontPath);
    assert dirs[|dirs| - 1] == libFontPath;
    ProbeNone(dirs, files, Basename(path));
  }

  /**
   * An install with an upper-case extension is not keyed by its own suffix:
   * "Foo" installed from "/tmp/Foo.TTF" is recorded under ".ttf", and since
   * the suffix test of `fontMap` is case-sensitive the candidate it then
   * looks for is "Foo.TTF.ttf".
   */
  lemma InstallUpperCaseExtension()
    ensures var t := Install(map[], "Foo", "/tmp/Foo.TTF", None);
            t == map["Foo" := map[".ttf" := "Foo.TTF"]] &&
            !WellKeyed(t) &&
            Candidate(t, "Foo", ".ttf") == "Foo.TTF.ttf"
  {
    ExampleInstall();
    ExampleNotKeyed();
    ExampleAliasCandidate();
  }

  lemma ExampleInstall()
    ensures Install(map[], "Foo", "/tmp/Foo.TTF", None) == map["Foo" := map[".ttf" := "Foo.TTF"]]
  {
    ExampleBasename();
    ExampleSuffix();
    ExampleLower();
    assert InstallType(Basename("/tmp/Foo.TTF"), None) == ".ttf";
  }

  lemma ExampleNotKeyed()
    ensures !WellKeyed(map["Foo" := map[".ttf" := "Foo.TTF"]])
  {
    ExampleSuffix();
    ExampleEndsWith();
    var t := map["Foo" := map[".ttf" := "Foo.TTF"]];
    assert Suffix(t["Foo"][".ttf"]) != ".ttf";
  }

  lemma ExampleAliasCandidate()
    ensures Candidate(map["Foo" := map[".ttf" := "Foo.TTF"]], "Foo", ".ttf") == "Foo.TTF.ttf"
  {
    var t := map["Foo" := map[".ttf" := "Foo.TTF"]];
    ExampleLowerTtf();
    ExampleEndsWith();
    assert "Foo" in t && ".ttf" in t["Foo"] && t["Foo"][".ttf"] == "Foo.TTF";
    CandidateCases(t, "Foo", ".ttf");
    assert Candidate(t, "Foo", ".ttf") == "Foo.TTF" + ".ttf";
  }

  /**
   * A given type that differs from the file's own suffix also leaves an
   * entry that is not keyed by its suffix: "Foo" installed from "foo.otf"
   * with type ".ttf" records ".ttf" to "foo.otf", which reads back under
   * ".otf".
   */
  lemma ExplicitTypeBreaks()
    ensures var t := Install(map[], "Foo", "foo.otf", Some(".ttf"));
            t == map["Foo" := map[".ttf" := "foo.otf"]] && !WellKeyed(t)
  {
    ExplicitTypeInstall();
    ExplicitTypeNotKeyed();
  }

  lemma ExplicitTypeNotKeyed()
    ensures !WellKeyed(map["Foo" := map[".ttf" := "foo.otf"]])
  {
    LastIndexOfAt("foo.otf", '.', 3);
    assert "foo.otf"[3..] == ".otf";
    assert ".otf"[1] != ".ttf"[1];
    var t := map["Foo" := map[".ttf" := "foo.otf"]];
    assert Suffix(t["Foo"][".ttf"]) != ".ttf";
  }

  lemma ExplicitTypeInstall()
    ensures Install(map[], "Foo", "foo.otf", Some(".ttf")) == map["Foo" := map[".ttf" := "foo.otf"]]
  {
    LastIndexOfAbsent("foo.otf", '/');
    assert "foo.otf"[0..] == "foo.otf";
    ExampleLowerTtf();
  }

  /**
   * The record that install writes, "Foo,Foo.TTF", reads back under ".TTF",
   * where `fontMap`, which lowers the type, never looks: after a write and a
   * read the alias is lost.
   */
  lemma ReloadUpperCaseExtension()
    ensures var t := ReadRows([["Foo", "Foo.TTF"]]);
            t == map["Foo" := map[".TTF" := "Foo.TTF"]] &&
            IsRecord(["Foo", "Foo.TTF"], "Foo", map[".ttf" := "Foo.TTF"]) &&
            Candidate(t, "Foo", ".ttf") == "Foo.ttf"
  {
    ExampleReload();
    var row: Row := ["Foo", "Foo.TTF"];
    assert RecordInOrder(row, "Foo", map[".ttf" := "Foo.TTF"], [".ttf"]);
    ExampleNameCandidate();
  }

  lemma ExampleReload()
    ensures ReadRows([["Foo", "Foo.TTF"]]) == map["Foo" := map[".TTF" := "Foo.TTF"]]
  {
    ExampleSuffix();
    ReadSingleRow("Foo", "Foo.TTF");
  }

  lemma ExampleNameCandidate()
    ensures Candidate(map["Foo" := map[".TTF" := "Foo.TTF"]], "Foo", ".ttf") == "Foo.ttf"
  {
    var t := map["Foo" := map[".TTF" := "Foo.TTF"]];
    ExampleLowerTtf();
    ExampleEndsWith();
    assert ".ttf" !in t["Foo"];
    CandidateCases(t, "Foo", ".ttf");
    assert Candidate(t, "Foo", ".ttf") == "Foo" + ".ttf";
  }

  /** A file with a single row naming one file holds that one font with that one file. */
  lemma ReadSingleRow(font: string, file: string)
    ensures ReadRows([[font, file]]) == map[font := map[Suffix(file) := file]]
  {
    var row: Row := [font, file];
    var rows: seq<Row> := [row];
    var files: seq<string> := [file];
    assert rows[..0] == [];
    assert ReadRows(rows) == AddRow(map[], row);
    assert row[1..] == files;
    assert files[..0] == [];
    assert AddFiles(map[], files) == map[Suffix(file) := file];
    assert Lookup(map[], font) == map[];
  }

  //
  // System font directories (the constructor)
  //

  /** The Unix and Mac directories the constructor probes when no system root is set. */
  const PotentialPaths: seq<string> := [
    "/usr/share/fonts/",
    "/usr/share/X11/fonts/Type1/",
    "/usr/share/X11/fonts/TTF/",
    "/usr/local/share/fonts/",
    "/Library/Fonts/",
    "~/Library/Fonts/"
  ]

  /** The candidates that are directories, in their order. */
  function KeepDirs(candidates: seq<string>, isDir: set<string>): seq<string> {
    if candidates == [] then []
    else
      var last := candidates[|candidates| - 1];
      KeepDirs(candidates[..|candidates| - 1], isDir) + (if last in isDir then [last] else [])
  }

  /** The system font directories: `SystemRoot/Fonts/` on Windows, else the probed candidates that are directories. */
  function SystemFontPath(systemRoot: Option<string>, isDir: set<string>): seq<string> {
    match systemRoot
    case Some(root) => [root + "/Fonts/"]
    case None => KeepDirs(PotentialPaths, isDir)
  }

  /** A kept directory is a candidate that is a directory, and every such candidate is kept. */
  lemma {:induction false} KeepDirsMembers(candidates: seq<string>, isDir: set<string>)
    ensures forall d :: d in KeepDirs(candidates, isDir) <==> d in candidates && d in isDir
  {
    if candidates != [] {
      var init := candidates[..|candidates| - 1];
      KeepDirsMembers(init, isDir);
      assert forall d :: d in candidates <==> d in init || d == candidates[|candidates| - 1];
    }
  }

  /** Filtering keeps the list order: filtering a concatenation concatenates the filtered parts. */
  lemma {:induction false} KeepDirsAppend(a: seq<string>, b: seq<string>, isDir: set<string>)
    ensures KeepDirs(a + b, isDir) == KeepDirs(a, isDir) + KeepDirs(b, isDir)
  {
    if b != [] {
      var n := |b| - 1;
      KeepDirsAppend(a, b[..n], isDir);
      assert (a + b)[..|a + b| - 1] == a + b[..n];
    } else {
      assert a + b == a;
    }
  }

  //
  // The write as PHP evaluates it
  //

  /**
   * PHP's `array($font) + $formats` for formats enumerated in order `ks`: a
   * string key that is a canonical decimal integer becomes an integer key, so
   * a format keyed "0" (a filename "0", which has no '.') collides with the
   * font name at key 0, and the union keeps only the font name.
   */
  function UnionRecord(font: string, ks: seq<string>, formats: Formats): Row
    requires forall i :: 0 <= i < |ks| ==> ks[i] in formats
  {
    if ks == [] then [font]
    else UnionRecord(font, ks[..|ks| - 1], formats) + (if ks[|ks| - 1] == "0" then [] else [formats[ks[|ks| - 1]]])
  }

  /** Without a "0" key, PHP's union is the intended record. */
  lemma {:induction false} UnionRecordAgrees(font: string, ks: seq<string>, formats: Formats)
    requires Enumerates(ks, formats.Keys)
    requires "0" !in formats
    ensures IsRecord(UnionRecord(font, ks, formats), font, formats)
  {
    UnionRecordValues(font, ks, formats);
    assert RecordInOrder(UnionRecord(font, ks, formats), font, formats, ks);
  }

  lemma {:induction false} UnionRecordValues(font: string, ks: seq<string>, formats: Formats)
    requires forall i :: 0 <= i < |ks| ==> ks[i] in formats && ks[i] != "0"
    ensures var r := UnionRecord(font, ks, formats);
            |r| == |ks| + 1 && r[0] == font && forall i :: 0 <= i < |ks| ==> r[i + 1] == formats[ks[i]]
  {
    if ks != [] {
      UnionRecordValues(font, ks[..|ks| - 1], formats);
    }
  }

  /** A table read from the row "Foo,0" is lost by PHP's union when written, but kept by the intended record. */
  lemma UnionRecordDropsZeroKey()
    ensures var t := ReadRows([["Foo", "0"]]);
            t == map["Foo" := map["0" := "0"]] &&
            UnionRecord("Foo", ["0"], t["Foo"]) == ["Foo"] &&
            ReadRows([UnionRecord("Foo", ["0"], t["Foo"])]) == map[] &&
            IsRecord(["Foo", "0"], "Foo", t["Foo"])
  {
    LastIndexOfAbsent("0", '.');
    ReadSingleRow("Foo", "0");
    var lost: seq<Row> := [["Foo"]];
    assert |lost[..0]| == 0;
    var row: Row := ["Foo", "0"];
    assert RecordInOrder(row, "Foo", map["0" := "0"], ["0"]);
  }
}
