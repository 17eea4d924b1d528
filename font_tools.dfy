/**
 * `Image_Canvas_Font_Tools`: the object that owns the font alias table, the
 * system font directories and the library font directory. The filesystem is
 * passed in: `files` is what `file_exists` sees, `isDir` what `is_dir` sees,
 * and the persisted font map is its rows. `copy` is returned as a request.
 */
module FontTools {
  import opened Wrappers
  import opened Strings
  import opened FontTable

  class FontTools {
    var systemFontPath: seq<string>
    var libFontPath: string
    /** The alias table, PHP's `_font_map`. */
    var fontTable: Table
    var saveFontMap: bool

    /** Every font in the table has at least one file. */
    ghost predicate Valid()
      reads this
    {
      NonEmptyEntries(fontTable)
    }

    /** Where the font map is persisted: `fontmap.txt` in the library font directory. */
    function FontDBPath(): string
      reads this
    {
      libFontPath + "fontmap.txt"
    }

    /** The directories `fontMap` searches, in order. */
    function Dirs(): seq<string>
      reads this
    {
      SearchDirs(systemFontPath, libFontPath)
    }

    /**
     * `__construct`: discover the system font directories, set the library
     * font directory under `libDir` (the directory of the source file), read
     * the font map and clear the dirty flag.
     */
    constructor (systemRoot: Option<string>, isDir: set<string>, libDir: string, files: set<string>, fontDB: seq<Row>)
      ensures Valid()
      ensures systemFontPath == SystemFontPath(systemRoot, isDir)
      ensures libFontPath == libDir + "/Fonts/"
      ensures fontTable == if libDir + "/Fonts/fontmap.txt" in files then ReadRows(fontDB) else map[]
      ensures !saveFontMap
    {
      new;
      systemFontPath := [];
      if systemRoot.Some? {
        systemFontPath := systemFontPath + [systemRoot.value + "/Fonts/"];
      } else {
        var i := 0;
        while i < |PotentialPaths|
          invariant 0 <= i <= |PotentialPaths|
          invariant systemFontPath == KeepDirs(PotentialPaths[..i], isDir)
        {
          assert PotentialPaths[..i + 1][..i] == PotentialPaths[..i];
          if PotentialPaths[i] in isDir {
            systemFontPath := systemFontPath + [PotentialPaths[i]];
          }
          i := i + 1;
        }
        assert PotentialPaths[..i] == PotentialPaths;
      }
      libFontPath := libDir + "/Fonts/";
      assert FontDBPath() == libDir + "/Fonts/fontmap.txt";
      ReadFontDB(files, fontDB);
      saveFontMap := false;
    }

    /** `__destruct`: the rows written to the font map, or nothing when no install changed the table. */
    method Destruct() returns (written: Option<seq<Row>>)
      requires Valid()
      ensures written.Some? <==> saveFontMap
      ensures written.Some? ==> IsDump(written.value, fontTable)
      ensures written.Some? && WellKeyed(fontTable) ==> ReadRows(written.value) == fontTable
    {
      written := None;
      if saveFontMap {
        var rows := WriteFontDB();
        if WellKeyed(fontTable) {
          WriteReadRoundTrip(rows, fontTable);
        }
        written := Some(rows);
      }
    }

    /** `_readFontDB`: the table is emptied, then filled from the rows when the font map file exists. */
    method ReadFontDB(files: set<string>, fontDB: seq<Row>)
      modifies this`fontTable
      ensures fontTable == if FontDBPath() in files then ReadRows(fontDB) else map[]
      ensures Valid()
    {
      ReadRowsShape(fontDB);
      fontTable := map[];
      if FontDBPath() in files {
        var i := 0;
        while i < |fontDB|
          invariant 0 <= i <= |fontDB|
          invariant fontTable == ReadRows(fontDB[..i])
        {
          assert fontDB[..i + 1][..i] == fontDB[..i];
          ReadRow(fontDB[i]);
          i := i + 1;
        }
        assert fontDB[..i] == fontDB;
      }
    }

    /** One pass of the row loop of `_readFontDB`: each filename of the row is stored under its suffix. */
    method ReadRow(row: Row)
      modifies this`fontTable
      ensures fontTable == AddRow(old(fontTable), row)
    {
      if |row| > 0 {
        var fontName := row[0];
        var filenames := row[1..];
        ghost var before := fontTable;
        var j := 0;
        while j < |filenames|
          invariant 0 <= j <= |filenames|
          invariant fontTable == if j == 0 then before else before[fontName := AddFiles(Lookup(before, fontName), filenames[..j])]
        {
          var filename := filenames[j];
          var fileType := Suffix(filename);
          assert filenames[..j + 1][..j] == filenames[..j];
          fontTable := fontTable[fontName := Lookup(fontTable, fontName)[fileType := filename]];
          j := j + 1;
        }
        assert filenames[..j] == filenames;
      }
    }

    /** `_writeFontDB`: one record, the font name followed by its filenames, per font in the table. */
    method WriteFontDB() returns (rows: seq<Row>)
      ensures IsDump(rows, fontTable)
    {
      rows := [];
      var remaining := fontTable.Keys;
      ghost var names: seq<string> := [];
      while remaining != {}
        invariant remaining <= fontTable.Keys
        invariant Enumerates(names, fontTable.Keys - remaining)
        invariant |rows| == |names|
        invariant forall i :: 0 <= i < |rows| ==> names[i] in fontTable && IsRecord(rows[i], names[i], fontTable[names[i]])
        decreases remaining
      {
        var font :| font in remaining;
        var data := FormatRecord(font, fontTable[font]);
        rows := rows + [data];
        names := names + [font];
        remaining := remaining - {font};
      }
      assert DumpInOrder(rows, fontTable, names);
    }

    /**
     * `fontMap`: the first existing `dir + candidate` over '.', the system
     * font directories and the library font directory, with backslashes made
     * forward slashes, or `None` for PHP's `false`. Nothing changes.
     */
    method FontMap(files: set<string>, name: string, fontType: string := ".ttf") returns (r: Option<string>)
      ensures r == Probe(Dirs(), files, Candidate(fontTable, name, fontType))
    {
      var ty := Lower(fontType);
      var filename;
      if name in fontTable && ty in fontTable[name] {
        filename := fontTable[name][ty];
      } else {
        filename := name;
      }
      if !EndsWith(filename, ty) {
        filename := filename + ty;
      }
      assert filename == Candidate(fontTable, name, fontType);

      var dirs := ["."] + systemFontPath + [libFontPath];
      var i := 0;
      while i < |dirs|
        invariant 0 <= i <= |dirs|
        invariant Probe(dirs[i..], files, filename) == Probe(dirs, files, filename)
      {
        var file := dirs[i] + filename;
        if file in files {
          return Some(ForwardSlashes(file));
        }
        assert dirs[i..][1..] == dirs[i + 1..];
        i := i + 1;
      }
      return None;
    }

    /**
     * `installFont`: unless the font already has the type, record
     * `basename(path)` under it, mark the table dirty, and ask for the file to
     * be copied into the library font directory (the copy's result is not
     * looked at).
     */
    method InstallFont(name: string, path: string, fontType: Option<string> := None) returns (copy: Option<(string, string)>)
      requires Valid()
      modifies this`fontTable, this`saveFontMap
      ensures Valid()
      ensures fontTable == Install(old(fontTable), name, path, fontType)
      ensures var present := name in old(fontTable) && InstallType(Basename(path), fontType) in old(fontTable)[name];
              (present ==> copy == None && saveFontMap == old(saveFontMap)) &&
              (!present ==> copy == Some((path, libFontPath + Basename(path))) && saveFontMap)
    {
      var filename := Basename(path);
      var ty := if IsFalsy(fontType) then Suffix(filename) else fontType.value;
      ty := Lower(ty);

      if name in fontTable && ty in fontTable[name] {
        return None;
      }

      var localPath := libFontPath + filename;
      copy := Some((path, localPath));
      InstallNonEmpty(fontTable, name, path, fontType);
      fontTable := fontTable[name := Lookup(fontTable, name)[ty := filename]];
      saveFontMap := true;
    }
  }
}
