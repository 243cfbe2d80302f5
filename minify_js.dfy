/** `_scripts/minify-js.js`: find every `.js` source under `src/js`, minify
    it with terser into a `.min.js` next to it (plus a `.map` source map), and
    rewrite an output only when its content changes. */
module MinifyJs {
  import opened Text
  import opened Paths
  import opened Fs

  // ---------------------------------------------------------------------
  // Discovery
  // ---------------------------------------------------------------------

  /** A directory entry as `readdirSync` lists it and `statSync` classifies
      it; a directory carries its own listing, in listing order. */
  datatype Entry = File(name: string) | Dir(name: string, entries: seq<Entry>)

  /** The name filter of `getAllFiles`: ends in `.js` but not in `.min.js`
      (case-sensitive). */
  predicate IsJsSource(name: string) {
    EndsWith(name, ".js") && !EndsWith(name, ".min.js")
  }

  /** The files `getAllFiles` collects from one entry of `dirPath`. */
  function FilesOf(dirPath: string, e: Entry): seq<string>
    decreases e, 1
  {
    match e
    case File(name) => if IsJsSource(name) then [Join(dirPath, name)] else []
    case Dir(name, entries) => FilesIn(Join(dirPath, name), entries)
  }

  /** The files `getAllFiles` collects from a listing of `dirPath`:
      depth-first, in listing order, each subdirectory expanded in place. */
  function FilesIn(dirPath: string, entries: seq<Entry>): seq<string>
    decreases entries, 0
  {
    if entries == [] then []
    else FilesOf(dirPath, entries[0]) + FilesIn(dirPath, entries[1..])
  }

  /** Appending an entry to a listing appends its files. */
  lemma {:induction false} FilesInSnoc(dirPath: string, entries: seq<Entry>, e: Entry)
    decreases |entries|
    ensures FilesIn(dirPath, entries + [e]) == FilesIn(dirPath, entries) + FilesOf(dirPath, e)
  {
    if entries == [] {
      assert [] + [e] == [e];
      assert [e][1..] == [];
    } else {
      assert (entries + [e])[0] == entries[0];
      assert (entries + [e])[1..] == entries[1..] + [e];
      FilesInSnoc(dirPath, entries[1..], e);
    }
  }

  /** The recursive walk of `getAllFiles(dirPath, arrayOfFiles)` over an
      existing directory: pushes onto the accumulator and returns it. */
  method CollectFiles(dirPath: string, entries: seq<Entry>, arrayOfFiles: seq<string>) returns (r: seq<string>)
    decreases entries
    ensures r == arrayOfFiles + FilesIn(dirPath, entries)
  {
    r := arrayOfFiles;
    for i := 0 to |entries|
      invariant r == arrayOfFiles + FilesIn(dirPath, entries[..i])
    {
      assert entries[..i + 1] == entries[..i] + [entries[i]];
      FilesInSnoc(dirPath, entries[..i], entries[i]);
      match entries[i]
      case Dir(name, sub) =>
        r := CollectFiles(Join(dirPath, name), sub, r);
      case File(name) =>
        if IsJsSource(name) {
          r := r + [Join(dirPath, name)];
        }
    }
    assert entries[..|entries|] == entries;
  }

  /** `getAllFiles(dirPath)`: `[]` when the directory does not exist
      (`listing` is None), otherwise the walk above from an empty
      accumulator. */
  method GetAllFiles(dirPath: string, listing: Option<seq<Entry>>) returns (r: seq<string>)
    ensures listing.None? ==> r == []
    ensures listing.Some? ==> r == FilesIn(dirPath, listing.value)
  {
    if listing.None? {
      return [];
    }
    r := CollectFiles(dirPath, listing.value, []);
  }

  /** Every file of the tree as (directory path, name), depth-first in
      listing order, whatever its name. */
  function TreeFilesOf(dirPath: string, e: Entry): seq<(string, string)>
    decreases e, 1
  {
    match e
    case File(name) => [(dirPath, name)]
    case Dir(name, entries) => TreeFiles(Join(dirPath, name), entries)
  }

  function TreeFiles(dirPath: string, entries: seq<Entry>): seq<(string, string)>
    decreases entries, 0
  {
    if entries == [] then []
    else TreeFilesOf(dirPath, entries[0]) + TreeFiles(dirPath, entries[1..])
  }

  /** The path of each (directory, name) pair, in order. */
  function JoinAll(pairs: seq<(string, string)>): (r: seq<string>)
    ensures |r| == |pairs|
    ensures forall i :: 0 <= i < |pairs| ==> r[i] == Join(pairs[i].0, pairs[i].1)
  {
    if pairs == [] then [] else [Join(pairs[0].0, pairs[0].1)] + JoinAll(pairs[1..])
  }

  lemma JoinAllAppend(a: seq<(string, string)>, b: seq<(string, string)>)
    ensures JoinAll(a + b) == JoinAll(a) + JoinAll(b)
  {
  }

  predicate IsSourceFile(f: (string, string)) {
    IsJsSource(f.1)
  }

  /** What `getAllFiles` collects is exactly the files of the tree whose name
      ends in `.js` but not in `.min.js`, in depth-first listing order. */
  lemma {:induction false} FilesInSelectsSources(dirPath: string, entries: seq<Entry>)
    decreases entries, 0
    ensures FilesIn(dirPath, entries) == JoinAll(Filter(TreeFiles(dirPath, entries), IsSourceFile))
  {
    if entries != [] {
      FilesOfSelectsSources(dirPath, entries[0]);
      FilesInSelectsSources(dirPath, entries[1..]);
      var here := TreeFilesOf(dirPath, entries[0]);
      var rest := TreeFiles(dirPath, entries[1..]);
      FilterAppend(here, rest, IsSourceFile);
      JoinAllAppend(Filter(here, IsSourceFile), Filter(rest, IsSourceFile));
    }
  }

  lemma {:induction false} FilesOfSelectsSources(dirPath: string, e: Entry)
    decreases e, 1
    ensures FilesOf(dirPath, e) == JoinAll(Filter(TreeFilesOf(dirPath, e), IsSourceFile))
  {
    match e
    case File(name) =>
      assert [(dirPath, name)][1..] == [];
    case Dir(name, entries) =>
      FilesInSelectsSources(Join(dirPath, name), entries);
  }

  // ---------------------------------------------------------------------
  // Naming
  // ---------------------------------------------------------------------

  /** `inputFile.replace(/\.js$/, '.min.js')`: the final `.js` becomes
      `.min.js`; a path without it is returned unchanged. */
  function MinPath(p: string): (r: string)
    ensures EndsWith(p, ".js") ==> |r| == |p| + 4 && r[..|p| - 3] == p[..|p| - 3] && EndsWith(r, ".min.js")
    ensures !EndsWith(p, ".js") ==> r == p
  {
    if EndsWith(p, ".js") then p[..|p| - 3] + ".min.js" else p
  }

  /** `outputFile + '.map'`. */
  function MapPath(p: string): (r: string)
    ensures EndsWith(r, ".map") && |r| == |MinPath(p)| + 4
    ensures r[..|MinPath(p)|] == MinPath(p)
  {
    MinPath(p) + ".map"
  }

  /** The output and map names are never picked up as inputs: the output
      ends in `.min.js`, the map in `.map`. */
  lemma OutputsNotSources(name: string)
    requires EndsWith(name, ".js")
    ensures !IsJsSource(MinPath(name)) && !IsJsSource(MapPath(name))
  {
    var m := MapPath(name);
    assert m[|m| - 1] == 'p';
  }

  /** Renaming acts on the file name only: the output of `Join(d, name)` is
      `Join(d, MinPath(name))`. */
  lemma MinPathInDir(d: string, name: string)
    requires EndsWith(name, ".js")
    ensures MinPath(Join(d, name)) == Join(d, MinPath(name))
  {
    var p := Join(d, name);
    var k := |p| - |name|;
    assert p[k..] == name;
    assert p[|p| - 3..] == name[|name| - 3..];
    assert p[..|p| - 3] == p[..k] + name[..|name| - 3];
  }

  // ---------------------------------------------------------------------
  // Processing
  // ---------------------------------------------------------------------

  /** What terser's `minify` yields: code with a source map (an empty map is
      falsy and is not written), or an error, which is thrown. */
  datatype Minified = Minified(code: string, sourceMap: string) | MinifyError

  /** `processFile(inputFile)` with terser as the oracle `terser`: whether it
      returns true, and the disk afterwards. A map write that throws after
      the output was written returns false with the output already on disk. */
  function Process(d: Disk, terser: string -> Minified, inputFile: string): (r: (bool, Disk))
    requires WellFormed(d)
    ensures r.0 ==> inputFile in d.files
  {
    var outputFile := MinPath(inputFile);
    var mapFile := MapPath(inputFile);
    if !Exists(d, inputFile) then (false, d)
    else match Read(d, inputFile)
      case None => (false, d)
      case Some(code) =>
        match terser(code)
        case MinifyError => (false, d)
        case Minified(min, sourceMap) =>
          match OutputChanged(d, outputFile, min)
          case None => (false, d)
          case Some(changed) =>
            if !changed then (false, d)
            else match EnsureDir(d, outputFile)
              case None => (false, d)
              case Some(d1) =>
                match Write(d1, outputFile, min)
                case None => (false, d1)
                case Some(d2) =>
                  if sourceMap == "" then (true, d2)
                  else match Write(d2, mapFile, sourceMap)
                    case None => (false, d2)
                    case Some(d3) => (true, d3)
  }

  /** The map is written into the directory of the output. */
  lemma MapBesideOutput(inputFile: string)
    ensures Dirname(MapPath(inputFile)) == Dirname(MinPath(inputFile))
  {
    DirnameAppend(MinPath(inputFile), ".map");
  }

  /** `processFile` returns true exactly when the input is a file, terser
      succeeds, the output is not a directory and is missing or different,
      the parent directories can be created and the parent is not a file, and
      (when there is a map) the map path is not a directory. The output then
      holds the minified code, the map holds the map when terser gave one,
      and no other file changed (the map path included, when it did not);
      the only new directories are the output's missing ancestors. */
  lemma ProcessWrites(d: Disk, terser: string -> Minified, inputFile: string)
    requires WellFormed(d)
    ensures var r := Process(d, terser, inputFile);
      var out := MinPath(inputFile);
      var mapFile := MapPath(inputFile);
      && (r.0 <==>
            && inputFile in d.files
            && terser(d.files[inputFile]).Minified?
            && out !in d.dirs
            && (out !in d.files || d.files[out] != terser(d.files[inputFile]).code)
            && EnsureDir(d, out).Some?
            && Dirname(out) !in d.files
            && (terser(d.files[inputFile]).sourceMap == "" || mapFile !in d.dirs))
      && (r.0 ==>
            var m := terser(d.files[inputFile]);
            && WellFormed(r.1)
            && r.1.dirs == d.dirs + NewDirs(d, out)
            && Read(r.1, out) == Some(m.code)
            && (m.sourceMap != "" ==> Read(r.1, mapFile) == Some(m.sourceMap))
            && (m.sourceMap == "" ==> Read(r.1, mapFile) == Read(d, mapFile))
            && forall p :: p != out && p != mapFile ==> Read(r.1, p) == Read(d, p))
  {
    var out := MinPath(inputFile);
    var mapFile := MapPath(inputFile);
    if inputFile in d.files && terser(d.files[inputFile]).Minified? && out !in d.dirs && EnsureDir(d, out).Some? {
      var m := terser(d.files[inputFile]);
      var d1 := EnsureDir(d, out).value;
      WriteAfterEnsureDir(d, out, m.code);
      EnsureDirEffect(d, out);
      if Write(d1, out, m.code).Some? {
        WriteEffect(d1, out, m.code);
        var d2 := Write(d1, out, m.code).value;
        MapBesideOutput(inputFile);
        assert mapFile !in d1.dirs - d.dirs;
        if m.sourceMap != "" && Write(d2, mapFile, m.sourceMap).Some? {
          WriteEffect(d2, mapFile, m.sourceMap);
        }
      }
    }
  }

  /** An existing output equal to the minified code is left alone, and
      nothing at all is written; likewise for a missing input or a terser
      error. */
  lemma ProcessSkips(d: Disk, terser: string -> Minified, inputFile: string)
    requires WellFormed(d)
    requires !Exists(d, inputFile) ||
      (inputFile in d.files &&
       (terser(d.files[inputFile]).MinifyError? ||
        (MinPath(inputFile) in d.files && d.files[MinPath(inputFile)] == terser(d.files[inputFile]).code)))
    ensures Process(d, terser, inputFile) == (false, d)
  {
  }

  /** `processFile` reports false with a changed disk only when the map
      write threw after the output had been written. */
  lemma ProcessFalseButWritten(d: Disk, terser: string -> Minified, inputFile: string)
    requires WellFormed(d)
    ensures var r := Process(d, terser, inputFile);
      !r.0 && r.1 != d ==>
        var m := terser(d.files[inputFile]);
        && m.Minified? && m.sourceMap != ""
        && Read(r.1, MinPath(inputFile)) == Some(m.code)
        && Write(r.1, MapPath(inputFile), m.sourceMap).None?
  {
    var out := MinPath(inputFile);
    if inputFile in d.files && terser(d.files[inputFile]).Minified? && out !in d.dirs && EnsureDir(d, out).Some? {
      var m := terser(d.files[inputFile]);
      var d1 := EnsureDir(d, out).value;
      WriteAfterEnsureDir(d, out, m.code);
      MissingAncestorsChain(d, out);
      if Write(d1, out, m.code).Some? {
        WriteEffect(d1, out, m.code);
      } else {
        assert NewDirs(d, out) == {};
        assert d1 == d;
      }
    }
  }

  /** `processFile`: the disk and the result follow `Process`. */
  method ProcessFile(fs: FileSystem, terser: string -> Minified, inputFile: string) returns (ok: bool)
    requires fs.Valid()
    modifies fs
    ensures fs.Valid()
    ensures (ok, fs.State()) == Process(old(fs.State()), terser, inputFile)
  {
    var outputFile := MinPath(inputFile);
    var mapFile := MapPath(inputFile);
    if !fs.ExistsSync(inputFile) {
      return false;
    }
    var code := fs.ReadFileSync(inputFile);
    if code.None? {
      return false;
    }
    var result := terser(code.value);
    if result.MinifyError? {
      return false;
    }
    var fileChanged := true;
    if fs.ExistsSync(outputFile) {
      var existing := fs.ReadFileSync(outputFile);
      if existing.None? {
        return false;
      }
      fileChanged := existing.value != result.code;
    }
    if !fileChanged {
      return false;
    }
    var _, dirOk := EnsureDirectoryExistence(fs, outputFile);
    if !dirOk {
      return false;
    }
    ok := fs.WriteFileSync(outputFile, result.code);
    if !ok {
      return false;
    }
    if result.sourceMap != "" {
      ok := fs.WriteFileSync(mapFile, result.sourceMap);
    }
  }

  /** One `processFile` call inside `minifyAll`. */
  function Step(prev: (nat, Disk), terser: string -> Minified, file: string): (r: (nat, Disk))
    requires WellFormed(prev.1)
    ensures WellFormed(r.1) && prev.0 <= r.0 <= prev.0 + 1
  {
    var step := Process(prev.1, terser, file);
    if step.0 then
      ProcessWrites(prev.1, terser, file);
      (prev.0 + 1, step.1)
    else
      ProcessFalseKeepsWellFormed(prev.1, terser, file);
      (prev.0, step.1)
  }

  lemma ProcessFalseKeepsWellFormed(d: Disk, terser: string -> Minified, inputFile: string)
    requires WellFormed(d)
    ensures WellFormed(Process(d, terser, inputFile).1)
  {
    var out := MinPath(inputFile);
    if inputFile in d.files && terser(d.files[inputFile]).Minified? && EnsureDir(d, out).Some? {
      EnsureDirEffect(d, out);
      var d1 := EnsureDir(d, out).value;
      var m := terser(d.files[inputFile]);
      if Write(d1, out, m.code).Some? {
        WriteEffect(d1, out, m.code);
      }
    }
  }

  /** The sequential loop of `minifyAll` over the collected files: how many
      returned true, and the disk after the last one. */
  function ProcessAll(d: Disk, terser: string -> Minified, files: seq<string>): (r: (nat, Disk))
    requires WellFormed(d)
    decreases |files|
    ensures r.0 <= |files| && WellFormed(r.1)
  {
    if files == [] then (0, d)
    else Step(ProcessAll(d, terser, files[..|files| - 1]), terser, files[|files| - 1])
  }

  lemma ProcessAllStep(d: Disk, terser: string -> Minified, files: seq<string>, i: nat)
    requires WellFormed(d) && i < |files|
    ensures ProcessAll(d, terser, files[..i + 1]) == Step(ProcessAll(d, terser, files[..i]), terser, files[i])
  {
    assert files[..i + 1][..i] == files[..i];
  }

  /** `minifyAll()`: nothing happens when `SRC_DIR` is missing or holds no
      source; otherwise each collected file is processed in turn and `count`
      (which it logs) is the number that returned true. */
  method MinifyAll(fs: FileSystem, terser: string -> Minified, srcDir: string, listing: Option<seq<Entry>>)
    returns (count: nat)
    requires fs.Valid()
    modifies fs
    ensures fs.Valid()
    ensures listing.None? ==> count == 0 && fs.State() == old(fs.State())
    ensures listing.Some? ==>
      (count, fs.State()) == ProcessAll(old(fs.State()), terser, FilesIn(srcDir, listing.value))
  {
    count := 0;
    if listing.None? {
      return;
    }
    var files := GetAllFiles(srcDir, listing);
    if |files| == 0 {
      return;
    }
    ghost var d := fs.State();
    for i := 0 to |files|
      invariant fs.Valid()
      invariant (count, fs.State()) == ProcessAll(d, terser, files[..i])
    {
      ProcessAllStep(d, terser, files, i);
      var wrote := ProcessFile(fs, terser, files[i]);
      if wrote {
        count := count + 1;
      }
    }
    assert files[..|files|] == files;
  }
}
