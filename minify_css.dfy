/** `_scripts/minify-css.js`: the same minifier and smart save as
    `auto-minify-css.js`, except that the output's missing parent
    directories are created (`ensureDirectoryExistence`) before the write. */
module MinifyCss {
  import opened Text
  import opened Paths
  import opened Fs
  import opened CssMinifier
  import AutoMinifyCss

  type Job = AutoMinifyCss.Job

  const FILES_TO_MINIFY: seq<Job> := [AutoMinifyCss.Job("src/css/style.css", "src/css/style.min.css")]

  /** `processFile(input, output, silent)` on the resolved paths: whether it
      returns true, and the disk afterwards. */
  function Process(d: Disk, inputPath: string, outputPath: string, silent: bool): (r: (bool, Disk))
    requires WellFormed(d)
    ensures r.0 ==> inputPath in d.files
  {
    if !Exists(d, inputPath) then (false, d)
    else match Read(d, inputPath)
      case None => (false, d)
      case Some(css) =>
        var minified := Minify(css);
        match OutputChanged(d, outputPath, minified)
        case None => (false, d)
        case Some(changed) =>
          if !changed && !silent then (false, d)
          else match EnsureDir(d, outputPath)
            case None => (false, d)
            case Some(d1) =>
              match Write(d1, outputPath, minified)
              case None => (false, d1)
              case Some(d2) => (true, d2)
  }

  /** `processFile` reports false only when it has changed nothing: a write
      that follows created directories never fails. */
  lemma ProcessFalseUnchanged(d: Disk, inputPath: string, outputPath: string, silent: bool)
    requires WellFormed(d)
    ensures !Process(d, inputPath, outputPath, silent).0 ==> Process(d, inputPath, outputPath, silent).1 == d
  {
    if inputPath in d.files && outputPath !in d.dirs && EnsureDir(d, outputPath).Some? {
      WriteAfterEnsureDir(d, outputPath, Minify(d.files[inputPath]));
      MissingAncestorsChain(d, outputPath);
    }
  }

  /** `processFile` returns true exactly when the input is a file, the output
      is not a directory, the run is silent or the output is missing or
      different, the parent directories can be created and the parent is not
      a file. The output then holds the minified input, and the only
      directories added are the output's missing ancestors. */
  lemma ProcessWrites(d: Disk, inputPath: string, outputPath: string, silent: bool)
    requires WellFormed(d)
    ensures var r := Process(d, inputPath, outputPath, silent);
      && (r.0 <==>
            && inputPath in d.files
            && outputPath !in d.dirs
            && (silent || outputPath !in d.files || d.files[outputPath] != Minify(d.files[inputPath]))
            && EnsureDir(d, outputPath).Some?
            && Dirname(outputPath) !in d.files)
      && (r.0 ==>
            && WellFormed(r.1)
            && r.1.files == d.files[outputPath := Minify(d.files[inputPath])]
            && r.1.dirs == d.dirs + NewDirs(d, outputPath))
  {
    if inputPath in d.files && outputPath !in d.dirs && EnsureDir(d, outputPath).Some? {
      WriteAfterEnsureDir(d, outputPath, Minify(d.files[inputPath]));
      EnsureDirEffect(d, outputPath);
    }
  }

  /** Where the output's parent already exists, `processFile` does exactly
      what the `auto-minify-css.js` version does. */
  lemma AgreesWithAutoMinify(d: Disk, inputPath: string, outputPath: string, silent: bool)
    requires WellFormed(d) && Exists(d, Dirname(outputPath))
    ensures Process(d, inputPath, outputPath, silent) == AutoMinifyCss.Process(d, inputPath, outputPath, silent)
  {
    MissingAncestorsChain(d, outputPath);
    assert NewDirs(d, outputPath) == {};
    assert d.(dirs := d.dirs + {}) == d;
  }

  /** After a write, running `processFile` again without `silent` changes
      nothing, unless the output is the input itself. */
  lemma ProcessSettles(d: Disk, inputPath: string, outputPath: string, silent: bool)
    requires WellFormed(d) && inputPath != outputPath
    requires Process(d, inputPath, outputPath, silent).0
    ensures var d' := Process(d, inputPath, outputPath, silent).1;
      WellFormed(d') && Process(d', inputPath, outputPath, false) == (false, d')
  {
    ProcessWrites(d, inputPath, outputPath, silent);
  }

  /** `processFile`: the disk and the result follow `Process`; every error
      is caught and turned into `false`. */
  method ProcessFile(fs: FileSystem, root: string, job: Job, silent: bool) returns (wrote: bool)
    requires fs.Valid()
    modifies fs
    ensures fs.Valid()
    ensures (wrote, fs.State()) == Process(old(fs.State()), Join(root, job.input), Join(root, job.output), silent)
  {
    var inputPath := Join(root, job.input);
    var outputPath := Join(root, job.output);
    if !fs.ExistsSync(inputPath) {
      return false;
    }
    var css := fs.ReadFileSync(inputPath);
    if css.None? {
      return false;
    }
    var minified := Minify(css.value);
    var fileChanged := true;
    if fs.ExistsSync(outputPath) {
      var existing := fs.ReadFileSync(outputPath);
      if existing.None? {
        return false;
      }
      fileChanged := existing.value != minified;
    }
    if !fileChanged && !silent {
      return false;
    }
    var _, ok := EnsureDirectoryExistence(fs, outputPath);
    if !ok {
      return false;
    }
    wrote := fs.WriteFileSync(outputPath, minified);
  }

  /** One `processFile` call inside `minifyAll`: the count so far goes up
      when it returns true. */
  function Step(prev: (nat, Disk), root: string, job: Job, silent: bool): (r: (nat, Disk))
    requires WellFormed(prev.1)
    ensures WellFormed(r.1) && prev.0 <= r.0 <= prev.0 + 1
  {
    var inputPath := Join(root, job.input);
    var outputPath := Join(root, job.output);
    var step := Process(prev.1, inputPath, outputPath, silent);
    ProcessFalseUnchanged(prev.1, inputPath, outputPath, silent);
    ProcessWrites(prev.1, inputPath, outputPath, silent);
    (prev.0 + (if step.0 then 1 else 0), step.1)
  }

  /** What `minifyAll` does over `jobs`: the number of files written, which
      it logs, and the disk after the last one. */
  function ProcessAll(d: Disk, root: string, jobs: seq<Job>, silent: bool): (r: (nat, Disk))
    requires WellFormed(d)
    decreases |jobs|
    ensures r.0 <= |jobs| && WellFormed(r.1)
  {
    if jobs == [] then (0, d)
    else Step(ProcessAll(d, root, jobs[..|jobs| - 1], silent), root, jobs[|jobs| - 1], silent)
  }

  lemma ProcessAllStep(d: Disk, root: string, jobs: seq<Job>, i: nat, silent: bool)
    requires WellFormed(d) && i < |jobs|
    ensures ProcessAll(d, root, jobs[..i + 1], silent) == Step(ProcessAll(d, root, jobs[..i], silent), root, jobs[i], silent)
  {
    assert jobs[..i + 1][..i] == jobs[..i];
  }

  /** As configured, `minifyAll` processes `src/css/style.css` into
      `src/css/style.min.css` alone: it reports one file exactly when that
      `processFile` call returns true, and leaves the disk as that call does. */
  lemma ConfiguredMinifyAll(d: Disk, root: string, silent: bool)
    requires WellFormed(d)
    ensures var r := ProcessAll(d, root, FILES_TO_MINIFY, silent);
      var p := Process(d, Join(root, "src/css/style.css"), Join(root, "src/css/style.min.css"), silent);
      r.0 <= 1 && (r.0 == 1 <==> p.0) && r.1 == p.1
  {
    assert FILES_TO_MINIFY[..0] == [];
  }

  /** The loop of `minifyAll` over a list of jobs: processes them in order
      and counts the `processFile` calls that return true. */
  method MinifyJobs(fs: FileSystem, root: string, jobs: seq<Job>, silent: bool) returns (filesProcessed: nat)
    requires fs.Valid()
    modifies fs
    ensures fs.Valid()
    ensures (filesProcessed, fs.State()) == ProcessAll(old(fs.State()), root, jobs, silent)
    ensures filesProcessed <= |jobs|
  {
    ghost var d := fs.State();
    filesProcessed := 0;
    for i := 0 to |jobs|
      invariant fs.Valid()
      invariant (filesProcessed, fs.State()) == ProcessAll(d, root, jobs[..i], silent)
    {
      ProcessAllStep(d, root, jobs, i, silent);
      var wrote := ProcessFile(fs, root, jobs[i], silent);
      if wrote {
        filesProcessed := filesProcessed + 1;
      }
    }
    assert jobs[..|jobs|] == jobs;
  }

  /** `minifyAll(silent)`: runs the loop over `FILES_TO_MINIFY` and returns
      how many files were written. */
  method MinifyAll(fs: FileSystem, root: string, silent: bool) returns (filesProcessed: nat)
    requires fs.Valid()
    modifies fs
    ensures fs.Valid()
    ensures (filesProcessed, fs.State()) == ProcessAll(old(fs.State()), root, FILES_TO_MINIFY, silent)
    ensures filesProcessed <= |FILES_TO_MINIFY|
  {
    filesProcessed := MinifyJobs(fs, root, FILES_TO_MINIFY, silent);
  }
}
