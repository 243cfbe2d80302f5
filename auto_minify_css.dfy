/** `_scripts/auto-minify-css.js`: minify each configured stylesheet and
    rewrite its output only when the content would change ("smart save"),
    unless the run is silent. The output's directory is not created. */
module AutoMinifyCss {
  import opened Text
  import opened Paths
  import opened Fs
  import opened CssMinifier

  /** One entry of `FILES_TO_MINIFY`, relative to the project root. */
  datatype Job = Job(input: string, output: string)

  const FILES_TO_MINIFY: seq<Job> := [Job("src/css/style.css", "src/css/style.min.css")]

  /** `processFile(input, output, silent)` on the resolved paths: whether it
      returns true, and the disk afterwards. Every exception it can meet
      (reading a directory, writing into a missing directory) is caught and
      returns false. */
  function Process(d: Disk, inputPath: string, outputPath: string, silent: bool): (r: (bool, Disk))
    ensures !r.0 ==> r.1 == d
    ensures r.0 ==> inputPath in d.files && r.1.dirs == d.dirs
  {
    if !Exists(d, inputPath) then (false, d)
    else match Read(d, inputPath)
      case None => (false, d)
      case Some(css) =>
        var minified := Minify(css);
        match OutputChanged(d, outputPath, minified)
        case None => (false, d)
        case Some(changed) =>
          if !changed && !silent then (false, d)
          else match Write(d, outputPath, minified)
            case None => (false, d)
            case Some(d') => (true, d')
  }

  /** `processFile` returns true exactly when the input is a file, the output
      path can be written (its parent is a directory and it is not one), and
      the run is silent or the output is missing or different; it then holds
      the minified input and nothing else has changed. */
  lemma ProcessWrites(d: Disk, inputPath: string, outputPath: string, silent: bool)
    ensures var r := Process(d, inputPath, outputPath, silent);
      && (r.0 <==>
            && inputPath in d.files
            && Dirname(outputPath) in d.dirs && outputPath !in d.dirs
            && (silent || outputPath !in d.files || d.files[outputPath] != Minify(d.files[inputPath])))
      && (r.0 ==> r.1 == d.(files := d.files[outputPath := Minify(d.files[inputPath])]))
  {
  }

  /** A missing input, or an output already equal to the minified input in a
      non-silent run, makes `processFile` return false and write nothing. */
  lemma ProcessSkips(d: Disk, inputPath: string, outputPath: string, silent: bool)
    requires !Exists(d, inputPath) ||
      (!silent && inputPath in d.files && outputPath in d.files
       && d.files[outputPath] == Minify(d.files[inputPath]))
    ensures Process(d, inputPath, outputPath, silent) == (false, d)
  {
  }

  /** After `processFile` has written an output, running it again without
      `silent` (the watch handler's call) changes nothing and reports no
      write, as long as the output is not the input itself. */
  lemma ProcessSettles(d: Disk, inputPath: string, outputPath: string, silent: bool)
    requires inputPath != outputPath
    requires Process(d, inputPath, outputPath, silent).0
    ensures var d' := Process(d, inputPath, outputPath, silent).1;
      Process(d', inputPath, outputPath, false) == (false, d')
  {
    ProcessWrites(d, inputPath, outputPath, silent);
  }

  /** `processFile`: the disk and the result follow `Process`. */
  method ProcessFile(fs: FileSystem, root: string, job: Job, silent: bool) returns (wrote: bool)
    requires fs.Valid()
    modifies fs
    ensures fs.Valid()
    ensures (wrote, fs.State()) == Process(old(fs.State()), Join(root, job.input), Join(root, job.output), silent)
  {
    var inputPath := Join(root, job.input);
    var outputPath := Join(root, job.output);
    if !fs.ExistsSync(inputPath) {
      return false;
    }
    var css := fs.ReadFileSync(inputPath);
    if css.None? {
      return false;
    }
    var minified := Minify(css.value);
    var fileChanged := true;
    if fs.ExistsSync(outputPath) {
      var existing := fs.ReadFileSync(outputPath);
      if existing.None? {
        return false;
      }
      fileChanged := existing.value != minified;
    }
    if !fileChanged && !silent {
      return false;
    }
    wrote := fs.WriteFileSync(outputPath, minified);
  }

  /** One `processFile` call inside `minifyAll`: the count so far goes up
      exactly when it returns true. */
  function Step(prev: (nat, Disk), root: string, job: Job, silent: bool): (r: (nat, Disk))
    ensures prev.0 <= r.0 <= prev.0 + 1
    ensures r.0 == prev.0 ==> r.1 == prev.1
  {
    var step := Process(prev.1, Join(root, job.input), Join(root, job.output), silent);
    (prev.0 + (if step.0 then 1 else 0), step.1)
  }

  /** The effect of `minifyAll` over `jobs`: the number of `processFile`
      calls that returned true, and the disk after the last one. */
  function ProcessAll(d: Disk, root: string, jobs: seq<Job>, silent: bool): (r: (nat, Disk))
    decreases |jobs|
    ensures r.0 <= |jobs|
    ensures r.0 == 0 ==> r.1 == d
  {
    if jobs == [] then (0, d)
    else Step(ProcessAll(d, root, jobs[..|jobs| - 1], silent), root, jobs[|jobs| - 1], silent)
  }

  lemma ProcessAllStep(d: Disk, root: string, jobs: seq<Job>, i: nat, silent: bool)
    requires i < |jobs|
    ensures ProcessAll(d, root, jobs[..i + 1], silent) == Step(ProcessAll(d, root, jobs[..i], silent), root, jobs[i], silent)
  {
    assert jobs[..i + 1][..i] == jobs[..i];
  }

  /** As configured, `minifyAll` processes `src/css/style.css` into
      `src/css/style.min.css` alone: it reports one file exactly when that
      `processFile` call returns true, and leaves the disk as that call does. */
  lemma ConfiguredMinifyAll(d: Disk, root: string, silent: bool)
    ensures var r := ProcessAll(d, root, FILES_TO_MINIFY, silent);
      var p := Process(d, Join(root, "src/css/style.css"), Join(root, "src/css/style.min.css"), silent);
      r.0 <= 1 && (r.0 == 1 <==> p.0) && r.1 == p.1
  {
    assert FILES_TO_MINIFY[..0] == [];
  }

  /** The loop of `minifyAll` over a list of jobs: processes them in order
      and counts the `processFile` calls that return true. */
  method MinifyJobs(fs: FileSystem, root: string, jobs: seq<Job>, silent: bool) returns (filesProcessed: nat)
    requires fs.Valid()
    modifies fs
    ensures fs.Valid()
    ensures (filesProcessed, fs.State()) == ProcessAll(old(fs.State()), root, jobs, silent)
    ensures filesProcessed <= |jobs|
  {
    ghost var d := fs.State();
    filesProcessed := 0;
    for i := 0 to |jobs|
      invariant fs.Valid()
      invariant (filesProcessed, fs.State()) == ProcessAll(d, root, jobs[..i], silent)
    {
      ProcessAllStep(d, root, jobs, i, silent);
      ghost var step := Process(fs.State(), Join(root, jobs[i].input), Join(root, jobs[i].output), silent);
      var wrote := ProcessFile(fs, root, jobs[i], silent);
      assert (wrote, fs.State()) == step;
      if wrote {
        filesProcessed := filesProcessed + 1;
      }
    }
    assert jobs[..|jobs|] == jobs;
  }

  /** `minifyAll(silent)`: runs the loop over `FILES_TO_MINIFY` and returns
      how many files were written. */
  method MinifyAll(fs: FileSystem, root: string, silent: bool) returns (filesProcessed: nat)
    requires fs.Valid()
    modifies fs
    ensures fs.Valid()
    ensures (filesProcessed, fs.State()) == ProcessAll(old(fs.State()), root, FILES_TO_MINIFY, silent)
    ensures filesProcessed <= |FILES_TO_MINIFY|
  {
    filesProcessed := MinifyJobs(fs, root, FILES_TO_MINIFY, silent);
  }
}
