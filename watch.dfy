/** `_scripts/watch.js`: runs every build task once at startup, then
    watches each task's directory and reruns the task after a burst of
    changes. Each task has one debounce slot: an accepted event cancels the
    armed timer and arms a new one, and a timer that fires runs the task.
    `fs.watch`, the 200 ms timers and `exec` are the environment; the model
    keeps the slots, the runs and what `runTask` prints. */
module Watch {
  import opened Text
  import OptimizeVideo

  datatype Task = Task(name: string, path: string, script: string)

  const TASKS: seq<Task> := [
    Task("CSS", "src/css", "node _scripts/minify-css.js"),
    Task("JS", "src/js", "node _scripts/minify-js.js"),
    Task("Images", "assets/img/originals", "node _scripts/optimize-images.js"),
    Task("Video", "assets/vid/originals", "node _scripts/optimize-video.js")
  ]

  /** The video task watches `assets/vid/originals`, while the video script
      reads `assets/video/originals`: a change to the videos it encodes
      does not trigger it. */
  lemma VideoTaskPath()
    ensures TASKS[3].path != OptimizeVideo.CONFIG.inputDir
  {
    assert TASKS[3].path[10] != OptimizeVideo.CONFIG.inputDir[10];
  }

  // ---------------------------------------------------------------------
  // The event filter
  // ---------------------------------------------------------------------

  /** The two early returns of the `fs.watch` callback: no file name (None
      or empty), a hidden file, a temporary file, or an output of the
      minifiers. */
  predicate Ignored(filename: Option<string>) {
    match filename
    case None => true
    case Some(f) =>
      f == "" || StartsWith(f, ".") || EndsWith(f, ".tmp") || Contains(f, ".min.") || Contains(f, ".map")
  }

  /** What the minifiers write (`*.min.css`, `*.min.js`, and source maps
      `*.map`) never triggers a run, so a task cannot retrigger itself. */
  lemma OutputsIgnored(f: string)
    requires EndsWith(f, ".min.css") || EndsWith(f, ".min.js") || EndsWith(f, ".map")
    ensures Ignored(Some(f))
  {
    if EndsWith(f, ".min.css") {
      assert f[|f| - 8..][..5] == f[|f| - 8..|f| - 3];
      ContainsAt(f, ".min.", |f| - 8);
    } else if EndsWith(f, ".min.js") {
      assert f[|f| - 7..][..5] == f[|f| - 7..|f| - 2];
      ContainsAt(f, ".min.", |f| - 7);
    } else {
      ContainsAt(f, ".map", |f| - 4);
    }
  }

  // ---------------------------------------------------------------------
  // runTask
  // ---------------------------------------------------------------------

  /** What `exec` passes to its callback. */
  datatype ExecResult = ExecResult(error: Option<string>, stdout: string, stderr: string)

  /** A line `runTask` prints. */
  datatype Line = ErrorLine(task: string, message: string) | StderrLine(task: string, text: string) | StdoutLine(text: string)

  /** The lines `runTask(task, silent)` prints once the script has ended. */
  function RunTaskReport(task: Task, silent: bool, result: ExecResult): (r: seq<Line>)
    ensures |r| <= 2
  {
    if result.error.Some? then [ErrorLine(task.name, result.error.value)]
    else
      (if result.stderr != "" && !Contains(result.stderr, "warn") then [StderrLine(task.name, result.stderr)] else [])
      + (if Trim(result.stdout) != "" && !silent then [StdoutLine(Trim(result.stdout))] else [])
  }

  /** A failed script prints its error and nothing else; otherwise stderr is
      shown exactly when it is non-empty and mentions no "warn", and the
      trimmed stdout exactly when it is non-blank and the run is not silent,
      stderr first. */
  lemma RunTaskShows(task: Task, silent: bool, result: ExecResult)
    ensures var r := RunTaskReport(task, silent, result);
      && (result.error.Some? ==> r == [ErrorLine(task.name, result.error.value)])
      && (StderrLine(task.name, result.stderr) in r <==>
            result.error.None? && result.stderr != "" && !Contains(result.stderr, "warn"))
      && (StdoutLine(Trim(result.stdout)) in r <==>
            result.error.None? && Trim(result.stdout) != "" && !silent)
      && (forall k :: 0 <= k < |r| && r[k].StdoutLine? ==> k == |r| - 1 && r[k].text == Trim(result.stdout))
      && (forall k :: 0 <= k < |r| && r[k].StderrLine? ==> k == 0 && r[k].text == result.stderr)
  {
  }

  /** A silent run (the startup one) never prints the script's output. */
  lemma SilentHidesStdout(task: Task, result: ExecResult)
    ensures forall line :: line in RunTaskReport(task, true, result) ==> !line.StdoutLine?
  {
  }

  // ---------------------------------------------------------------------
  // The debounce slots
  // ---------------------------------------------------------------------

  /** The slots after one `fs.watch` callback of task `i`: an ignored event
      returns early; otherwise `clearTimeout` and `setTimeout` re-arm task
      `i`'s slot with this file name. */
  function OnEventSlots(pending: seq<Option<string>>, i: nat, filename: Option<string>): (r: seq<Option<string>>)
    requires i < |pending|
    ensures |r| == |pending|
    ensures forall j :: 0 <= j < |pending| && j != i ==> r[j] == pending[j]
  {
    if Ignored(filename) then pending else pending[i := filename]
  }

  /** The slots after a burst of callbacks for task `i`, in order. */
  function AfterBurst(pending: seq<Option<string>>, i: nat, burst: seq<Option<string>>): (r: seq<Option<string>>)
    requires i < |pending|
    ensures |r| == |pending|
  {
    if burst == [] then pending
    else OnEventSlots(AfterBurst(pending, i, burst[..|burst| - 1]), i, burst[|burst| - 1])
  }

  /** The last accepted file name of a burst, or `before` when it accepts
      none. */
  function LastAccepted(burst: seq<Option<string>>, before: Option<string>): Option<string> {
    if burst == [] then before
    else if Ignored(burst[|burst| - 1]) then LastAccepted(burst[..|burst| - 1], before)
    else burst[|burst| - 1]
  }

  /** After a burst, task `i`'s slot holds the last accepted file name, and
      every other task's slot is untouched. */
  lemma {:induction false} BurstKeepsLast(pending: seq<Option<string>>, i: nat, burst: seq<Option<string>>)
    requires i < |pending|
    ensures AfterBurst(pending, i, burst)[i] == LastAccepted(burst, pending[i])
    ensures forall j :: 0 <= j < |pending| && j != i ==> AfterBurst(pending, i, burst)[j] == pending[j]
  {
    if burst != [] {
      BurstKeepsLast(pending, i, burst[..|burst| - 1]);
    }
  }

  /** A burst of ignored events leaves the slot as it was. */
  lemma {:induction false} AllIgnoredKeeps(burst: seq<Option<string>>, before: Option<string>)
    requires forall k :: 0 <= k < |burst| ==> Ignored(burst[k])
    ensures LastAccepted(burst, before) == before
  {
    if burst != [] {
      var init := burst[..|burst| - 1];
      assert forall k :: 0 <= k < |init| ==> init[k] == burst[k];
      AllIgnoredKeeps(init, before);
    }
  }

  /** The last accepted name is that of the accepted event with only
      ignored ones after it. */
  lemma {:induction false} LastAcceptedIsLast(burst: seq<Option<string>>, before: Option<string>, k: nat)
    requires k < |burst| && !Ignored(burst[k])
    requires forall m :: k < m < |burst| ==> Ignored(burst[m])
    ensures LastAccepted(burst, before) == burst[k]
  {
    if k < |burst| - 1 {
      var init := burst[..|burst| - 1];
      assert forall m :: 0 <= m < |init| ==> init[m] == burst[m];
      LastAcceptedIsLast(init, before, k);
    }
  }

  /** The watcher: which tasks have an `fs.watch` registered, each task's
      debounce slot (the file name its armed timer will report), and the
      `runTask` calls made so far (task index, silent). */
  class Watcher {
    var watched: seq<bool>
    var pending: seq<Option<string>>
    var runs: seq<(nat, bool)>

    ghost predicate Valid()
      reads this
    {
      |watched| == |TASKS| && |pending| == |TASKS|
      && forall i :: 0 <= i < |TASKS| && pending[i].Some? ==> watched[i]
    }

    /** Startup: every task runs once silently, in order; then each task
        whose directory exists and whose `fs.watch` does not throw gets a
        watcher, with no timer armed. */
    constructor (pathExists: string -> bool, watchable: string -> bool)
      ensures Valid()
      ensures runs == [(0, true), (1, true), (2, true), (3, true)]
      ensures forall i :: 0 <= i < |TASKS| ==>
        watched[i] == (pathExists(TASKS[i].path) && watchable(TASKS[i].path)) && pending[i].None?
    {
      var started: seq<(nat, bool)> := [];
      for i := 0 to |TASKS|
        invariant |started| == i && forall k :: 0 <= k < i ==> started[k] == (k, true)
      {
        started := started + [(i, true)];
      }
      assert started == [(0, true), (1, true), (2, true), (3, true)];
      var registered: seq<bool> := [];
      for i := 0 to |TASKS|
        invariant |registered| == i
        invariant forall k :: 0 <= k < i ==> registered[k] == (pathExists(TASKS[k].path) && watchable(TASKS[k].path))
      {
        if !pathExists(TASKS[i].path) {
          registered := registered + [false];
          continue;
        }
        registered := registered + [watchable(TASKS[i].path)];
      }
      watched := registered;
      pending := seq(|TASKS|, _ => None);
      runs := started;
    }

    /** The `fs.watch` callback of task `i` for a change to `filename`. */
    method OnEvent(i: nat, filename: Option<string>)
      requires Valid() && i < |TASKS| && watched[i]
      modifies this
      ensures Valid()
      ensures pending == OnEventSlots(old(pending), i, filename)
      ensures watched == old(watched) && runs == old(runs)
    {
      if filename.None? || filename.value == "" || StartsWith(filename.value, ".") || EndsWith(filename.value, ".tmp") {
        return;
      }
      if Contains(filename.value, ".min.") || Contains(filename.value, ".map") {
        return;
      }
      pending := pending[i := filename];
    }

    /** Task `i`'s timer fires: `runTask(task)` runs, not silently, and
        reports the last accepted file name; the slot is empty again, so
        one burst yields one run. */
    method Fire(i: nat) returns (reported: string)
      requires Valid() && i < |TASKS| && pending[i].Some?
      modifies this
      ensures Valid()
      ensures reported == old(pending[i]).value
      ensures pending == old(pending)[i := None] && watched == old(watched)
      ensures runs == old(runs) + [(i, false)]
    {
      reported := pending[i].value;
      pending := pending[i := None];
      runs := runs + [(i, false)];
    }
  }
}
