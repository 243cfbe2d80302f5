/** `_scripts/optimize-video.js`: every video of the input directory is
    encoded twice with ffmpeg, to WebM (VP9) and then to MP4 (H.264), into
    the output directory. ffmpeg itself and `fs.statSync` are answers of an
    environment; the model keeps the commands, their order and the control
    flow around them. */
module OptimizeVideo {
  import opened Text
  import opened Paths

  // ---------------------------------------------------------------------
  // Configuration and file filter
  // ---------------------------------------------------------------------

  datatype Config = Config(inputDir: string, outputDir: string, audio: bool)

  const CONFIG: Config := Config("assets/video/originals", "assets/video/optimized", false)

  const VIDEO_EXTENSIONS: seq<string> := [".mp4", ".mov", ".avi"]

  /** The test `/\.(mp4|mov|avi)$/i`. */
  predicate IsVideoName(file: string) {
    exists e :: e in VIDEO_EXTENSIONS && EndsWith(ToLower(file), e)
  }

  /** Each video extension is a dot followed by dot-free characters, so
      `Paths.ParseBaseExtension` applies to every selected name: `name` is
      the file name without the extension that matched. */
  lemma VideoExtensionShape(e: string)
    requires e in VIDEO_EXTENSIONS
    ensures |e| >= 2 && e[0] == '.' && forall k :: 1 <= k < |e| ==> e[k] != '.'
  {
  }

  // ---------------------------------------------------------------------
  // Output names and ffmpeg arguments
  // ---------------------------------------------------------------------

  /** `path.parse(filename).name`. */
  function Name(filename: string): (r: string)
    ensures |r| <= |filename| && filename[..|r|] == r
  {
    var (name, ext) := ParseBase(filename);
    assert filename == name + ext;
    name
  }

  /** For a name the filter keeps through extension `e`, `name` is the file
      name without the matched suffix, which lowers to `e`; a name that is
      only the extension keeps it. */
  lemma NameOfVideo(file: string, e: string)
    requires e in VIDEO_EXTENSIONS && EndsWith(ToLower(file), e)
    ensures |file| == |e| ==> Name(file) == file
    ensures |file| > |e| ==> Name(file) == file[..|file| - |e|] && ToLower(file[|file| - |e|..]) == e
  {
    VideoExtensionShape(e);
    ParseBaseExtension(file, ToLower(file), e);
    LowerEnding(file, e);
  }

  function InputPath(c: Config, filename: string): string {
    Join(c.inputDir, filename)
  }

  function WebmOutput(c: Config, filename: string): string {
    Join(c.outputDir, Name(filename) + ".webm")
  }

  function Mp4Output(c: Config, filename: string): string {
    Join(c.outputDir, Name(filename) + ".mp4")
  }

  /** A path in double quotes, as the commands write it. */
  function Quote(p: string): (r: string)
    ensures |r| == |p| + 2 && r[0] == '"'
  {
    "\"" + p + "\""
  }

  /** The element `CONFIG.audio ? '' : '-an'`. */
  function AudioArg(audio: bool): string {
    if audio then "" else "-an"
  }

  /** The array joined into the WebM command. */
  function WebmArgs(c: Config, ffmpegPath: string, filename: string): seq<string> {
    [ Quote(ffmpegPath), "-y", "-i " + Quote(InputPath(c, filename)),
      "-c:v libvpx-vp9", "-crf 35", "-b:v 0", "-deadline good", "-cpu-used 2",
      AudioArg(c.audio), Quote(WebmOutput(c, filename)) ]
  }

  /** The array joined into the MP4 command. */
  function Mp4Args(c: Config, ffmpegPath: string, filename: string): seq<string> {
    [ Quote(ffmpegPath), "-y", "-i " + Quote(InputPath(c, filename)),
      "-c:v libx264", "-preset medium", "-profile:v main", "-level 3.1", "-crf 26",
      "-movflags +faststart", AudioArg(c.audio), Quote(Mp4Output(c, filename)) ]
  }

  /** `[...].join(' ')`. */
  function Command(args: seq<string>): string {
    JoinWith(args, " ")
  }

  function WebmCommand(c: Config, ffmpegPath: string, filename: string): string {
    Command(WebmArgs(c, ffmpegPath, filename))
  }

  function Mp4Command(c: Config, ffmpegPath: string, filename: string): string {
    Command(Mp4Args(c, ffmpegPath, filename))
  }

  /** Only the audio element of an argument list can be `-an` or empty: the
      quoted ones start with a quote, the input one is longer, and the
      constant ones are other strings. */
  lemma OnlyAudioArg(args: seq<string>, audioAt: nat)
    requires audioAt < |args|
    requires forall i :: 0 <= i < |args| && i != audioAt ==>
      (|args[i]| > 0 && args[i][0] == '"') || |args[i]| > 3 || args[i] == "-y"
    ensures forall i :: 0 <= i < |args| && i != audioAt ==> args[i] != "-an" && args[i] != ""
  {
  }

  /** `-an` is in both argument lists exactly when the audio is dropped,
      and the empty element exactly when it is kept. */
  lemma AudioFlag(c: Config, ffmpegPath: string, filename: string)
    ensures var webm := WebmArgs(c, ffmpegPath, filename);
      && ("-an" in webm <==> !c.audio) && ("" in webm <==> c.audio)
    ensures var mp4 := Mp4Args(c, ffmpegPath, filename);
      && ("-an" in mp4 <==> !c.audio) && ("" in mp4 <==> c.audio)
  {
    var webm := WebmArgs(c, ffmpegPath, filename);
    var mp4 := Mp4Args(c, ffmpegPath, filename);
    OnlyAudioArg(webm, 8);
    OnlyAudioArg(mp4, 9);
    assert webm[8] == AudioArg(c.audio) && mp4[9] == AudioArg(c.audio);
  }

  /** As configured, both commands drop the audio track. */
  lemma ConfiguredWithoutAudio(ffmpegPath: string, filename: string)
    ensures "-an" in WebmArgs(CONFIG, ffmpegPath, filename)
    ensures "-an" in Mp4Args(CONFIG, ffmpegPath, filename)
  {
    AudioFlag(CONFIG, ffmpegPath, filename);
  }

  /** The WebM list sets VP9 at CRF 35 with `-b:v 0`. */
  lemma WebmSettings(c: Config, ffmpegPath: string, filename: string)
    ensures var webm := WebmArgs(c, ffmpegPath, filename);
      "-c:v libvpx-vp9" in webm && "-crf 35" in webm && "-b:v 0" in webm
  {
    var webm := WebmArgs(c, ffmpegPath, filename);
    assert webm[3] == "-c:v libvpx-vp9" && webm[4] == "-crf 35" && webm[5] == "-b:v 0";
  }

  /** The WebM list carries neither the H.264 codec nor its quality. */
  lemma WebmNotH264(c: Config, ffmpegPath: string, filename: string)
    ensures var webm := WebmArgs(c, ffmpegPath, filename);
      "-c:v libx264" !in webm && "-crf 26" !in webm
  {
    var webm := WebmArgs(c, ffmpegPath, filename);
    forall i | 0 <= i < |webm|
      ensures webm[i] != "-c:v libx264" && webm[i] != "-crf 26"
    {
      if i == 0 || i == 9 {
        assert webm[i][0] == '"';
      } else if i == 2 {
        assert webm[i][1] == 'i';
      }
    }
  }

  /** The MP4 list sets H.264 at CRF 26 with `+faststart`. */
  lemma Mp4Settings(c: Config, ffmpegPath: string, filename: string)
    ensures var mp4 := Mp4Args(c, ffmpegPath, filename);
      "-c:v libx264" in mp4 && "-crf 26" in mp4 && "-movflags +faststart" in mp4
  {
    var mp4 := Mp4Args(c, ffmpegPath, filename);
    assert mp4[3] == "-c:v libx264" && mp4[7] == "-crf 26" && mp4[8] == "-movflags +faststart";
  }

  /** The MP4 list carries neither the VP9 codec nor its quality. */
  lemma Mp4NotVp9(c: Config, ffmpegPath: string, filename: string)
    ensures var mp4 := Mp4Args(c, ffmpegPath, filename);
      "-c:v libvpx-vp9" !in mp4 && "-crf 35" !in mp4
  {
    var mp4 := Mp4Args(c, ffmpegPath, filename);
    forall i | 0 <= i < |mp4|
      ensures mp4[i] != "-c:v libvpx-vp9" && mp4[i] != "-crf 35"
    {
      if i == 0 || i == 10 {
        assert mp4[i][0] == '"';
      } else if i == 2 {
        assert mp4[i][1] == 'i';
      }
    }
  }

  /** Both lists start with the quoted ffmpeg path, `-y` and the quoted
      input. */
  lemma SharedHead(c: Config, ffmpegPath: string, filename: string)
    ensures WebmArgs(c, ffmpegPath, filename)[..3] == Mp4Args(c, ffmpegPath, filename)[..3]
      == [Quote(ffmpegPath), "-y", "-i " + Quote(InputPath(c, filename))]
  {
  }

  /** Joining keeps the first parts in front. */
  lemma {:induction false} JoinWithPrefix(parts: seq<string>, sep: string, k: nat)
    requires 1 <= k <= |parts|
    ensures StartsWith(JoinWith(parts, sep), JoinWith(parts[..k], sep))
  {
    if k < |parts| {
      if k == 1 {
        assert parts[..1] == [parts[0]];
      } else {
        JoinWithPrefix(parts[1..], sep, k - 1);
        assert parts[..k][1..] == parts[1..][..k - 1];
        var tail := JoinWith(parts[1..], sep);
        var head := JoinWith(parts[1..][..k - 1], sep);
        assert tail[..|head|] == head;
        assert JoinWith(parts[..k], sep) == parts[0] + sep + head;
        assert (parts[0] + sep + tail)[..|parts[0] + sep + head|] == parts[0] + sep + head;
      }
    } else {
      assert parts[..k] == parts;
    }
  }

  /** Both command lines begin `"<ffmpeg>" -y -i "<input>"`. */
  lemma CommandsStart(c: Config, ffmpegPath: string, filename: string)
    ensures var start := Quote(ffmpegPath) + " -y -i " + Quote(InputPath(c, filename));
      StartsWith(WebmCommand(c, ffmpegPath, filename), start)
      && StartsWith(Mp4Command(c, ffmpegPath, filename), start)
  {
    var head := [Quote(ffmpegPath), "-y", "-i " + Quote(InputPath(c, filename))];
    var start := Quote(ffmpegPath) + " -y -i " + Quote(InputPath(c, filename));
    assert JoinWith(head[2..], " ") == head[2];
    assert JoinWith(head[1..], " ") == head[1] + " " + head[2];
    assert JoinWith(head, " ") == start;
    SharedHead(c, ffmpegPath, filename);
    JoinWithPrefix(WebmArgs(c, ffmpegPath, filename), " ", 3);
    JoinWithPrefix(Mp4Args(c, ffmpegPath, filename), " ", 3);
  }

  /** A name without `/` has none in any prefix. */
  lemma NoSlashInName(filename: string, suffix: string)
    requires forall k :: 0 <= k < |filename| ==> filename[k] != '/'
    requires forall k :: 0 <= k < |suffix| ==> suffix[k] != '/'
    ensures var n := Name(filename) + suffix; forall k :: 0 <= k < |n| ==> n[k] != '/'
  {
    var name := Name(filename);
    assert forall k :: 0 <= k < |name| ==> name[k] == filename[k];
  }

  /** The two outputs sit in the output directory and are different files
      (a file name from `readdir` has no `/`). */
  lemma OutputsBeside(c: Config, filename: string)
    requires c.outputDir != [] && forall k :: 0 <= k < |filename| ==> filename[k] != '/'
    ensures Dirname(WebmOutput(c, filename)) == c.outputDir
    ensures Dirname(Mp4Output(c, filename)) == c.outputDir
    ensures WebmOutput(c, filename) != Mp4Output(c, filename)
  {
    NoSlashInName(filename, ".webm");
    NoSlashInName(filename, ".mp4");
    DirnameJoin(c.outputDir, Name(filename) + ".webm");
    DirnameJoin(c.outputDir, Name(filename) + ".mp4");
    var w := WebmOutput(c, filename);
    var m := Mp4Output(c, filename);
    assert w[|w| - 1] == 'm' && m[|m| - 1] == '4';
  }

  /** As configured, no output overwrites the original: an `x.mp4` input is
      read from `originals` and written to `optimized`. */
  lemma ConfiguredKeepsOriginals(filename: string)
    requires forall k :: 0 <= k < |filename| ==> filename[k] != '/'
    ensures InputPath(CONFIG, filename) != WebmOutput(CONFIG, filename)
    ensures InputPath(CONFIG, filename) != Mp4Output(CONFIG, filename)
  {
    OutputsBeside(CONFIG, filename);
    DirnameJoin(CONFIG.inputDir, filename);
    assert CONFIG.inputDir[14] != CONFIG.outputDir[14];
  }

  // ---------------------------------------------------------------------
  // processVideo and main
  // ---------------------------------------------------------------------

  /** What the environment answers: `fs.statSync(p).size` (None when it
      throws) and whether `exec` of a command succeeds. */
  datatype Env = Env(stat: string -> Option<nat>, exec: string -> bool)

  /** How `processVideo(filename)` ends: the original's `statSync` threw
      before anything ran (its promise rejects), or the commands it ran, in
      order, and whether the shared `try` caught an error. */
  datatype VideoRun = StatFailed | Ran(commands: seq<string>, caught: bool)

  function RunVideo(env: Env, c: Config, ffmpegPath: string, filename: string): (r: VideoRun)
    ensures r.StatFailed? <==> env.stat(InputPath(c, filename)).None?
    ensures r.Ran? ==> 1 <= |r.commands| <= 2
  {
    if env.stat(InputPath(c, filename)).None? then StatFailed
    else
      var webm := WebmCommand(c, ffmpegPath, filename);
      if !env.exec(webm) || env.stat(WebmOutput(c, filename)).None? then Ran([webm], true)
      else
        var mp4 := Mp4Command(c, ffmpegPath, filename);
        Ran([webm, mp4], !env.exec(mp4) || env.stat(Mp4Output(c, filename)).None?)
  }

  /** WebM runs first; MP4 runs only after WebM has produced its output, so
      a WebM failure skips MP4. The `try` catches nothing exactly when both
      outputs were produced. */
  lemma WebmThenMp4(env: Env, c: Config, ffmpegPath: string, filename: string)
    ensures var r := RunVideo(env, c, ffmpegPath, filename);
      var webmOk := env.exec(WebmCommand(c, ffmpegPath, filename)) && env.stat(WebmOutput(c, filename)).Some?;
      var mp4Ok := env.exec(Mp4Command(c, ffmpegPath, filename)) && env.stat(Mp4Output(c, filename)).Some?;
      && (r.StatFailed? <==> env.stat(InputPath(c, filename)).None?)
      && (r.Ran? ==>
            && r.commands[0] == WebmCommand(c, ffmpegPath, filename)
            && (|r.commands| == 2 <==> webmOk)
            && (|r.commands| == 2 ==> r.commands[1] == Mp4Command(c, ffmpegPath, filename))
            && (!r.caught <==> webmOk && mp4Ok))
  {
  }

  /** `processVideo(filename)`. */
  method ProcessVideo(env: Env, c: Config, ffmpegPath: string, filename: string) returns (r: VideoRun)
    ensures r == RunVideo(env, c, ffmpegPath, filename)
  {
    var inputPath := Join(c.inputDir, filename);
    var originalSize := env.stat(inputPath);
    if originalSize.None? {
      return StatFailed;
    }
    var webmOutput := WebmOutput(c, filename);
    var webmCmd := WebmCommand(c, ffmpegPath, filename);
    var mp4Output := Mp4Output(c, filename);
    var mp4Cmd := Mp4Command(c, ffmpegPath, filename);
    var commands := [webmCmd];
    var ok := env.exec(webmCmd);
    if ok {
      var webmSize := env.stat(webmOutput);
      ok := webmSize.Some?;
    }
    if ok {
      commands := commands + [mp4Cmd];
      ok := env.exec(mp4Cmd);
      if ok {
        var mp4Size := env.stat(mp4Output);
        ok := mp4Size.Some?;
      }
    }
    return Ran(commands, !ok);
  }

  /** What `main`'s loop does over `files`: the commands run, in order, and
      whether a `processVideo` rejected, which ends the run. */
  function RunAll(env: Env, c: Config, ffmpegPath: string, files: seq<string>): (r: (seq<string>, bool))
    ensures |r.0| <= 2 * |files|
  {
    if files == [] then ([], false)
    else
      var prev := RunAll(env, c, ffmpegPath, files[..|files| - 1]);
      if prev.1 then prev
      else match RunVideo(env, c, ffmpegPath, files[|files| - 1])
        case StatFailed => (prev.0, true)
        case Ran(commands, _) => (prev.0 + commands, false)
  }

  lemma RunAllStep(env: Env, c: Config, ffmpegPath: string, files: seq<string>, i: nat)
    requires i < |files|
    ensures RunAll(env, c, ffmpegPath, files[..i + 1]) ==
      var prev := RunAll(env, c, ffmpegPath, files[..i]);
      if prev.1 then prev
      else match RunVideo(env, c, ffmpegPath, files[i])
        case StatFailed => (prev.0, true)
        case Ran(commands, _) => (prev.0 + commands, false)
  {
    assert files[..i + 1][..i] == files[..i];
  }

  /** Once a video has rejected, later files change nothing. */
  lemma {:induction false} RunAllStopped(env: Env, c: Config, ffmpegPath: string, files: seq<string>, i: nat)
    requires i <= |files| && RunAll(env, c, ffmpegPath, files[..i]).1
    decreases |files| - i
    ensures RunAll(env, c, ffmpegPath, files) == RunAll(env, c, ffmpegPath, files[..i])
  {
    if i < |files| {
      RunAllStep(env, c, ffmpegPath, files, i);
      RunAllStopped(env, c, ffmpegPath, files, i + 1);
    } else {
      assert files[..i] == files;
    }
  }

  /** The run ends early exactly when some selected video cannot be
      `stat`ed. */
  lemma {:induction false} RunAllRejects(env: Env, c: Config, ffmpegPath: string, files: seq<string>)
    ensures RunAll(env, c, ffmpegPath, files).1 <==>
      exists i :: 0 <= i < |files| && env.stat(InputPath(c, files[i])).None?
  {
    if files != [] {
      var init := files[..|files| - 1];
      var last := files[|files| - 1];
      RunAllRejects(env, c, ffmpegPath, init);
      var failed := RunVideo(env, c, ffmpegPath, last).StatFailed?;
      if RunAll(env, c, ffmpegPath, init).1 {
        var i :| 0 <= i < |init| && env.stat(InputPath(c, init[i])).None?;
        assert files[i] == init[i];
      } else if failed {
        assert files[|files| - 1] == last;
      } else {
        forall i | 0 <= i < |files|
          ensures env.stat(InputPath(c, files[i])).Some?
        {
          if i < |init| {
            assert files[i] == init[i];
          } else {
            assert files[i] == last;
          }
        }
      }
    }
  }

  /** A run that does not end early runs every video's WebM command. */
  lemma {:induction false} RunAllReaches(env: Env, c: Config, ffmpegPath: string, files: seq<string>)
    requires !RunAll(env, c, ffmpegPath, files).1
    ensures forall i :: 0 <= i < |files| ==> WebmCommand(c, ffmpegPath, files[i]) in RunAll(env, c, ffmpegPath, files).0
  {
    if files != [] {
      var init := files[..|files| - 1];
      var last := files[|files| - 1];
      assert !RunAll(env, c, ffmpegPath, init).1;
      RunAllReaches(env, c, ffmpegPath, init);
      WebmThenMp4(env, c, ffmpegPath, last);
      var all := RunAll(env, c, ffmpegPath, files).0;
      var prev := RunAll(env, c, ffmpegPath, init).0;
      forall i | 0 <= i < |files|
        ensures WebmCommand(c, ffmpegPath, files[i]) in all
      {
        if i < |init| {
          assert files[i] == init[i];
          assert WebmCommand(c, ffmpegPath, init[i]) in prev;
        } else {
          assert all[|prev|] == WebmCommand(c, ffmpegPath, last);
        }
      }
    }
  }

  /** `main()` after the directory bootstrap, given the input directory's
      listing: selects the videos in listing order and processes them one
      at a time; an empty selection returns at once, and a rejected
      `processVideo` ends the run. */
  method OptimizeVideos(env: Env, c: Config, ffmpegPath: string, listing: seq<string>)
    returns (files: seq<string>, commands: seq<string>, rejected: bool)
    ensures files == Filter(listing, IsVideoName)
    ensures (commands, rejected) == RunAll(env, c, ffmpegPath, files)
  {
    files := Filter(listing, IsVideoName);
    commands, rejected := [], false;
    if |files| == 0 {
      return;
    }
    for i := 0 to |files|
      invariant (commands, rejected) == RunAll(env, c, ffmpegPath, files[..i])
      invariant !rejected
    {
      RunAllStep(env, c, ffmpegPath, files, i);
      var r := ProcessVideo(env, c, ffmpegPath, files[i]);
      if r.StatFailed? {
        rejected := true;
        RunAllStopped(env, c, ffmpegPath, files, i + 1);
        return;
      }
      commands := commands + r.commands;
    }
    assert files[..|files|] == files;
  }
}
