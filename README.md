# Build scripts of a vanilla starter site, modelled in Dafny

The repository's `_scripts/` directory holds the Node build scripts of a
static site:

- two CSS minifiers (`auto-minify-css.js`, `minify-css.js`) that run a
  five-pass regular-expression minifier and rewrite the output only when it
  changes (the "smart save");
- `minify-js.js`, which walks `src/js` for `.js` sources and minifies each
  with terser into a `.min.js` plus a `.map`;
- `optimize-images.js`, which fans every original image out into 4 widths
  times 3 formats and tallies what was written;
- `optimize-video.js`, which encodes each video to WebM and then MP4 with
  ffmpeg;
- `watch.js`, which runs every task at startup and reruns a task after a
  debounced burst of file changes.

The model keeps the logic of each script and turns what the scripts call
into parameters:

- **Parameters.** sharp, terser, ffmpeg, `exec`, `fs.stat` and
  `fs.readdir` become oracle functions.
- **Disk.** The disk is a value `Fs.Disk` (a map of files and a set of
  directories). The class `Fs.FileSystem` holds it and the scripts mutate it.
- **State-changing operations.** Each of these is a method proved against a
  function on `Disk` or on the oracles. The properties are lemmas about
  those functions.

Modules, one per script plus three shared ones:

| module | file | models |
|---|---|---|
| `Text` | text.dfy | JavaScript `\s`, `trim`, `startsWith`/`endsWith`/`includes`, `toLowerCase`, `Array.filter`, `join`, decimal formatting |
| `Paths` | paths.dfy | `path.dirname`, `path.join`, `path.parse` |
| `Fs` | fs.dfy | `existsSync`, `readFileSync`, `writeFileSync`, `mkdirSync`, and `ensureDirectoryExistence` |
| `CssMinifier` | css_minifier.dfy | `minifyCSS`, one definition for both CSS scripts |
| `AutoMinifyCss` | auto_minify_css.dfy | `_scripts/auto-minify-css.js` |
| `MinifyCss` | minify_css.dfy | `_scripts/minify-css.js` |
| `MinifyJs` | minify_js.dfy | `_scripts/minify-js.js` |
| `OptimizeImages` | optimize_images.dfy | `_scripts/optimize-images.js` |
| `OptimizeVideo` | optimize_video.dfy | `_scripts/optimize-video.js` |
| `Watch` | watch.dfy | `_scripts/watch.js` |

Behaviour of the code that the model makes explicit:

- **A comment can survive `minifyCSS`.** The code can leave a block comment
  in its output: the comment pass removes `/**/` from `//**/*x*/` and so
  forms a new comment `/*x*/`, which no later pass removes
  (`CssMinifier.CommentCanReappear`). The model follows the code, not the
  claim that minified output is comment-free.
- **`minifyCSS` is not idempotent.** `a{b:c;;}` becomes `a{b:c;}` and only
  a second run gives `a{b:c}` (`CssMinifier.MinifyNotIdempotent`).
- **The image script's actual outputs.** Its header comment describes
  per-category folders and an `og-image-1200x630` name. The code writes
  `{name}-social.{ext}` into `dirname(inputDir)/optimized`, and the model
  follows the code.
- **The social pair is never produced as configured.** `main` always uses
  `assets/img/optimized`, which does not contain "social"
  (`OptimizeImages.ConfiguredOutputDir`).
- **The AVIF and WebP pixel limits never decide anything.** The
  16000-pixel dimension limit already keeps every image within both
  (`OptimizeImages.PixelLimitsNeverBind`).
- **The watched video directory differs from the encoded one.** `watch.js`
  watches `assets/vid/originals`, but `optimize-video.js` reads
  `assets/video/originals` (`Watch.VideoTaskPath`).
- **A failed `stat` of an original is not caught.** In `optimize-video.js`
  the original's `statSync` sits outside the `try`, so it rejects
  `processVideo` and ends `main`. In `optimize-images.js` the original's
  `stat`, a failed `ensureDir` and a failed social write end `main` in the
  same way.

## Model

| member | source | states |
|---|---|---|
| Text.AsciiSpace | _scripts/auto-minify-css.js:30 | `IsSpace`: below U+00A0, JavaScript `\s` is exactly space and `\t` through `\r` |
| Text.SkipSpaces | _scripts/auto-minify-css.js:37 | the start of `Trim`: drops exactly the leading whitespace: what remains starts with a non-space and everything dropped is whitespace |
| Text.SkipSpacesSuffix | _scripts/auto-minify-css.js:37 | the result of skipping leading whitespace is a suffix of the input |
| Text.TrimEnd | _scripts/auto-minify-css.js:37 | the end of `Trim` (`Trim` is `SkipSpaces` then `TrimEnd`): drops exactly the trailing whitespace: the result is a prefix ending in a non-space, and everything dropped is whitespace |
| Text.LowerSuffix | _scripts/optimize-images.js:158 | lowering commutes with taking a suffix |
| Text.LowerEnding | _scripts/optimize-images.js:158 | a name whose lowered form ends in `e` ends in a part that lowers to `e` |
| Text.Filter | _scripts/optimize-images.js:157-159 | `Array.filter` never lengthens its input |
| Text.FilterSelects | _scripts/optimize-images.js:157-159 | an element is in the filtered sequence iff it is in the input and passes the test |
| Text.FilterAppend | _scripts/minify-js.js:51-59 | filtering distributes over concatenation, so the order of the kept elements is the input order |
| Text.ContainsAt | _scripts/watch.js:64 | `Contains`, `StartsWith`, `EndsWith` (`includes`, `startsWith`, `endsWith`): `includes` holds when the part occurs at some index |
| Text.ContainsChars | _scripts/optimize-images.js:352 | every character of an included part occurs in the string |
| Text.DigitChar | _scripts/optimize-images.js:326 | a digit below ten prints as a digit character that reads back as itself |
| Text.Decimal | _scripts/optimize-images.js:326 | the decimal form of a size in a template string is non-empty and all digits |
| Text.DecimalRoundTrip | _scripts/optimize-images.js:326 | reading the printed decimal back gives the number |
| Paths.LastIndexOf | _scripts/optimize-video.js:44 | the index found holds the character and no later index does; None means the character does not occur |
| Paths.LastIndexOfIs | _scripts/optimize-video.js:44 | an occurrence with none after it is the last index |
| Paths.ParseBase | _scripts/optimize-images.js:161-162 | `path.parse` splits a base name into name and extension that concatenate back to it; the extension is empty or a dot after a non-empty name |
| Paths.ParseBaseExtension | _scripts/optimize-images.js:158-162 | for a name that passes a case-insensitive one-dot extension test, `ext` is the matched suffix and `name` everything before it, and the extension is empty when the name is just the extension |
| Paths.LowerDot | _scripts/optimize-images.js:158 | lowering keeps exactly the dots |
| Paths.DirnameIsAncestor | _scripts/minify-css.js:29 | `Dirname`: `path.dirname` of a non-root path is a proper prefix followed by `/` |
| Paths.LastIndexOfAppend | _scripts/minify-css.js:29 | appending characters other than the one sought keeps its last index |
| Paths.DirnameAppend | _scripts/minify-js.js:70 | appending a slash-free suffix keeps the dirname |
| Paths.DirnameJoin | _scripts/optimize-images.js:387 | `Join` (`path.join`) and `Dirname`: the dirname of `path.join(dir, name)` for a slash-free name is `dir` |
| Fs.OutputChanged | _scripts/minify-css.js:70-74 | built on `Exists` and `Read` (`existsSync`, `readFileSync`): the smart-save test: unchanged iff the output is a file equal to the new content; throws iff the output is a directory |
| Fs.WriteEffect | _scripts/minify-css.js:82 | `Write` (`writeFileSync`): a successful write changes only that file and keeps the disk well formed |
| Fs.MissingAncestorsChain | _scripts/minify-css.js:28-35 | `MissingAncestors`: the directories `ensureDirectoryExistence` creates run from the first existing ancestor down to `dirname(p)`; none existed and each is a proper prefix of `p` ending before a `/` |
| Fs.EnsureDirEffect | _scripts/minify-css.js:28-35 | `EnsureDir`, the recursion of `ensureDirectoryExistence` on a disk value: after success `dirname(p)` exists, no file changed, and the directories added are exactly `NewDirs`, the missing ancestors |
| Fs.WriteAfterEnsureDir | _scripts/minify-css.js:81-82 | after the directories are ensured, the write fails only when the parent is a file |
| Fs.EnsureDirIdempotent | _scripts/minify-css.js:30-32 | a second call after a successful one changes nothing |
| Fs.FileSystem.WriteFileSync | _scripts/minify-css.js:82 | writes iff the parent is a directory and the path is not one; otherwise nothing changes |
| Fs.FileSystem.MkdirSync | _scripts/minify-css.js:34 | follows `Mkdir`: creates the directory iff its parent is a directory and the path does not exist |
| Fs.EnsureDirectoryExistence | _scripts/minify-css.js:28-35 | tests the parent with `FileSystem.ExistsSync`; returns whether `dirname(p)` existed; succeeds iff the first existing ancestor is a directory, and the disk becomes the one `EnsureDir` describes or stays unchanged |
| CssMinifier.FindCommentEnd | _scripts/auto-minify-css.js:28 | the lazy `[\s\S]*?`: finds the first `*/` at or after the start, or reports that none exists |
| CssMinifier.StripCommentsOpenerFree | _scripts/auto-minify-css.js:28 | text without a `/*` opener is copied unchanged |
| CssMinifier.StripCommentsNoClose | _scripts/auto-minify-css.js:28 | text with no `*/` is left unchanged |
| CssMinifier.CommentRemoved | _scripts/auto-minify-css.js:28 | `StripComments`, the first pass: each `/*` through the nearest following `*/` is removed and scanning resumes after it |
| CssMinifier.CommentBlockRemoved | _scripts/auto-minify-css.js:28 | a comment at the start is removed |
| CssMinifier.FirstCloser | _scripts/auto-minify-css.js:28 | the comment ends at the first `*/`, not a later one |
| CssMinifier.UnterminatedCommentKept | _scripts/auto-minify-css.js:28 | an unterminated `/*` and everything after it are left unchanged |
| CssMinifier.CommentCanReappear | _scripts/auto-minify-css.js:28 | removing `/**/` from `//**/*x*/` leaves the comment `/*x*/` |
| CssMinifier.CollapseSpaces | _scripts/auto-minify-css.js:30 | a non-empty input gives a non-empty output that starts with whitespace iff the input does |
| CssMinifier.CollapseSingle | _scripts/auto-minify-css.js:30 | after `\s+` → `' '` every whitespace character is a plain space and none is next to another |
| CssMinifier.CollapseKeepsText | _scripts/auto-minify-css.js:30 | the non-whitespace characters are kept, in order |
| CssMinifier.CollapseRun | _scripts/auto-minify-css.js:30 | a whitespace run becomes one space |
| CssMinifier.StripSeparatorSpaces | _scripts/auto-minify-css.js:32 | the first output character is the separator when the input starts with a match, and the first input character otherwise |
| CssMinifier.SeparatorStep | _scripts/auto-minify-css.js:32 | one match `\s*([{}:;,>+~])\s*` is replaced by its separator and scanning resumes after the trailing spaces |
| CssMinifier.SeparatorSpacesGone | _scripts/auto-minify-css.js:32 | after the pass no whitespace sits next to any of `{ } : ; , > + ~` |
| CssMinifier.SeparatorSpacesKeepSingle | _scripts/auto-minify-css.js:32 | the pass creates no adjacent whitespace |
| CssMinifier.SeparatorSpacesKeepText | _scripts/auto-minify-css.js:32 | the pass removes only whitespace, and every whitespace left is still a plain space |
| CssMinifier.SeparatorMatch | _scripts/auto-minify-css.js:32 | a separator with spaces after it keeps only the separator |
| CssMinifier.SeparatorAfterSpaces | _scripts/auto-minify-css.js:32 | spaces before a separator are removed |
| CssMinifier.DropSemicolonBeforeBrace | _scripts/auto-minify-css.js:34 | each `;}` starts the output with `}`, and any other start is copied |
| CssMinifier.SemicolonDropKeepsText | _scripts/auto-minify-css.js:34 | the `;}` pass removes only `;` characters |
| CssMinifier.SemicolonDropKeepsPlain | _scripts/auto-minify-css.js:34 | the `;}` pass keeps whitespace plain |
| CssMinifier.SemicolonDropKeepsTight | _scripts/auto-minify-css.js:34 | the `;}` pass keeps the spacing guarantees of the earlier passes |
| CssMinifier.SemicolonKept | _scripts/auto-minify-css.js:34 | a `;` not followed by `}` is kept |
| CssMinifier.SemicolonDropped | _scripts/auto-minify-css.js:34 | a `;` followed by `}` is removed |
| CssMinifier.SemicolonExamples | _scripts/auto-minify-css.js:34 | `a{b:c;}` → `a{b:c}` and `a{b:c;;}` → `a{b:c;}`: one `;` per non-overlapping match |
| CssMinifier.SemicolonBraceGone | _scripts/auto-minify-css.js:34 | without `;;}` in the input, no `;}` is left |
| CssMinifier.UrlRun | _scripts/auto-minify-css.js:36 | the greedy `[^'"()]+`: the longest leading run of allowed characters |
| CssMinifier.QuotedUrlAt | _scripts/auto-minify-css.js:36 | a match `url(` quote, non-empty run, the same quote, `)` |
| CssMinifier.PlainUrlAt | _scripts/auto-minify-css.js:36 | a match `url(`, non-empty run, `)` without quotes |
| CssMinifier.UnquoteUrls | _scripts/auto-minify-css.js:36 | the output starts with the input's first character |
| CssMinifier.UnquoteMatched | _scripts/auto-minify-css.js:36 | `url('x')` and `url("x")` become `url(x)` when the quotes match and `x` has no quotes or parentheses |
| CssMinifier.UnquoteAtQuoted | _scripts/auto-minify-css.js:36 | a quoted match is replaced by `url(x)` and scanning resumes after it |
| CssMinifier.PlainUrlCopied | _scripts/auto-minify-css.js:36 | an unquoted `url(x)` is copied unchanged |
| CssMinifier.UnquoteKeepsQuote | _scripts/auto-minify-css.js:36 | a quoted `url(` that does not match (mismatched quotes, a quote or parenthesis inside) keeps its quote |
| CssMinifier.UnquoteNoQuotes | _scripts/auto-minify-css.js:36 | text without quotes is unchanged by the pass |
| CssMinifier.UnquoteNoParen | _scripts/auto-minify-css.js:36 | text without `(` is unchanged by the pass |
| CssMinifier.UnquoteKeepsTight | _scripts/auto-minify-css.js:36 | unquoting keeps the spacing guarantees |
| CssMinifier.UnquoteKeepsPlain | _scripts/auto-minify-css.js:36 | unquoting keeps whitespace plain |
| CssMinifier.UrlSingleQuoted | _scripts/auto-minify-css.js:36 | `url('a.png')` → `url(a.png)` |
| CssMinifier.UrlDoubleQuoted | _scripts/auto-minify-css.js:36 | `url("a.png")` → `url(a.png)` |
| CssMinifier.UrlPlain | _scripts/auto-minify-css.js:36 | `url(a.png)` is unchanged |
| CssMinifier.Minify | _scripts/auto-minify-css.js:25-38 | `minifyCSS` output has no leading or trailing whitespace; every whitespace character is a single plain space, never next to another or to any of `{ } : ; , > + ~` |
| CssMinifier.PassesClean | _scripts/auto-minify-css.js:26-36 | `Passes`, the five replacements in order: after the five passes the text is tight and its whitespace plain |
| CssMinifier.TrimKeepsClean | _scripts/auto-minify-css.js:37 | `trim` keeps those guarantees and removes the edges' whitespace |
| CssMinifier.MinifyCompact | _scripts/auto-minify-css.js:25-38 | on text with no whitespace, no `/`, no `(` and none of `>`, `+`, `~` (every character is `Neutral` or one of `;{}:,`), `minifyCSS` is just the `;}` pass |
| CssMinifier.MinifyNotIdempotent | _scripts/auto-minify-css.js:34-37 | `minifyCSS("a{b:c;;}")` is `a{b:c;}`, and minifying that again gives `a{b:c}` |
| CssMinifier.MessyRuleMinified | _scripts/auto-minify-css.js:25-38 | a one-declaration rule after a comment, with loose spacing and a stray `;`, minifies to `sel{prop:val;}` |
| CssMinifier.WorkedExample | _scripts/auto-minify-css.js:25-38 | `/* note */\nbody {  color: red; ; }` minifies to `body{color:red;}` |
| AutoMinifyCss.Process | _scripts/auto-minify-css.js:44-103 | a false return leaves the disk unchanged; a true one means the input was a file and no directory was created |
| AutoMinifyCss.ProcessWrites | _scripts/auto-minify-css.js:50-98 | returns true iff the input is a file, the output's parent is a directory, the output is not one, and the run is silent or the output is missing or different; then exactly the output changes, to the minified input |
| AutoMinifyCss.ProcessSkips | _scripts/auto-minify-css.js:50-81 | a missing input, or a non-silent run whose output already equals the minified input, returns false and writes nothing |
| AutoMinifyCss.ProcessSettles | _scripts/auto-minify-css.js:71-81 | after a write, a non-silent rerun writes nothing and returns false |
| AutoMinifyCss.ProcessFile | _scripts/auto-minify-css.js:44-103 | the result and the new disk are those of `Process`; every exception becomes false |
| AutoMinifyCss.Step | _scripts/auto-minify-css.js:115-119 | the counter grows by at most one, and the disk is unchanged when it does not grow |
| AutoMinifyCss.ProcessAll | _scripts/auto-minify-css.js:109-130 | the count is at most the number of entries, and a zero count leaves the disk unchanged |
| AutoMinifyCss.ConfiguredMinifyAll | _scripts/auto-minify-css.js:14-16 | as configured, `minifyAll` processes only `src/css/style.css` into `src/css/style.min.css`: it counts one iff that `processFile` returns true, and the disk is what that call leaves |
| AutoMinifyCss.MinifyJobs | _scripts/auto-minify-css.js:114-119 | the `forEach` loop over a job list: the count of `processFile` calls that returned true, in order, at most the number of jobs; the disk follows `ProcessAll` |
| AutoMinifyCss.MinifyAll | _scripts/auto-minify-css.js:109-130 | runs the loop over `FILES_TO_MINIFY` and returns the count, at most `FILES_TO_MINIFY.length`; the disk follows `ProcessAll` over `FILES_TO_MINIFY` |
| MinifyCss.Process | _scripts/minify-css.js:51-101 | a true return means the input was a file |
| MinifyCss.ProcessFalseUnchanged | _scripts/minify-css.js:96-100 | a false return leaves the disk unchanged, so a caught error leaves nothing half-written |
| MinifyCss.ProcessWrites | _scripts/minify-css.js:56-95 | returns true iff the input is a file, the output is not a directory, the run is silent or the output differs, the ancestors can be created and the parent is not a file; then the output holds the minified input and the only new directories are the missing ancestors |
| MinifyCss.AgreesWithAutoMinify | _scripts/minify-css.js:51-101 | with the output's parent present, `processFile` (and its copy of `minifyCSS`) does exactly what the auto-minify version does |
| MinifyCss.ProcessSettles | _scripts/minify-css.js:69-79 | after a write, a non-silent rerun writes nothing and returns false |
| MinifyCss.ProcessFile | _scripts/minify-css.js:51-101 | the result and the new disk are those of `Process` |
| MinifyCss.Step | _scripts/minify-css.js:111-115 | the counter grows by at most one and the disk stays well formed |
| MinifyCss.ProcessAll | _scripts/minify-css.js:107-121 | the count is at most the number of entries |
| MinifyCss.ConfiguredMinifyAll | _scripts/minify-css.js:17-19 | as configured, `minifyAll` processes only `src/css/style.css` into `src/css/style.min.css`: it counts one iff that `processFile` returns true, and the disk is what that call leaves |
| MinifyCss.MinifyJobs | _scripts/minify-css.js:111-115 | the `forEach` loop over a job list: the count of `processFile` calls that returned true, in order, at most the number of jobs; the disk follows `ProcessAll` |
| MinifyCss.MinifyAll | _scripts/minify-css.js:107-121 | runs the loop over `FILES_TO_MINIFY`; the count, at most `FILES_TO_MINIFY.length`, and the disk follow `ProcessAll` over `FILES_TO_MINIFY` |
| MinifyJs.FilesInSnoc | _scripts/minify-js.js:51-59 | appending a listing entry appends what it contributes |
| MinifyJs.CollectFiles | _scripts/minify-js.js:45-62 | the recursive walk returns the accumulator followed by the tree's `.js` sources in depth-first listing order |
| MinifyJs.GetAllFiles | _scripts/minify-js.js:45-62 | `[]` for a missing directory, otherwise the walk from an empty accumulator |
| MinifyJs.JoinAll | _scripts/minify-js.js:56 | each (directory, name) pair becomes `path.join(directory, name)`, in order |
| MinifyJs.FilesInSelectsSources | _scripts/minify-js.js:45-62 | `FilesIn`/`FilesOf` with `IsJsSource`: the walk's result is exactly the tree's files whose name ends in `.js` but not `.min.js`, depth-first, with subdirectories expanded in place |
| MinifyJs.FilesOfSelectsSources | _scripts/minify-js.js:52-58 | the same for one entry |
| MinifyJs.MinPath | _scripts/minify-js.js:69 | a final `.js` becomes `.min.js`, keeping everything before it; other paths are unchanged |
| MinifyJs.MapPath | _scripts/minify-js.js:70 | the map path is the output path followed by `.map`: it starts with the output path, ends in `.map` and is four characters longer |
| MinifyJs.OutputsNotSources | _scripts/minify-js.js:55-70 | neither the output nor the map of a source is ever selected as a source |
| MinifyJs.MinPathInDir | _scripts/minify-js.js:69 | renaming a joined path renames the file name only |
| MinifyJs.MapBesideOutput | _scripts/minify-js.js:100-102 | the map goes into the output's directory |
| MinifyJs.Process | _scripts/minify-js.js:68-110 | a true return means the input was a file |
| MinifyJs.ProcessWrites | _scripts/minify-js.js:73-105 | returns true iff the input is a file, terser succeeds, the output is not a directory and is missing or different, its directories can be created, and the map path (when there is a map) is not a directory; then the output holds the code, the map path holds the map when terser gave one and is unchanged when it did not, no other file changed, and the only new directories are the output's missing ancestors |
| MinifyJs.ProcessSkips | _scripts/minify-js.js:73-96 | a missing input, a terser error, or an output equal to the minified code returns false and writes nothing |
| MinifyJs.ProcessFalseButWritten | _scripts/minify-js.js:101-108 | a false return with a changed disk happens only when the map write threw after the output was written |
| MinifyJs.ProcessFalseKeepsWellFormed | _scripts/minify-js.js:106-108 | any return leaves the disk well formed |
| MinifyJs.ProcessFile | _scripts/minify-js.js:68-110 | the result and the new disk are those of `Process` |
| MinifyJs.Step | _scripts/minify-js.js:127 | the count grows by at most one |
| MinifyJs.ProcessAll | _scripts/minify-js.js:125-128 | the count is at most the number of files |
| MinifyJs.MinifyAll | _scripts/minify-js.js:116-131 | a missing source directory does nothing; otherwise the files are processed in order, and the count and disk follow `ProcessAll` over `getAllFiles` |
| OptimizeImages.ToImage | _scripts/optimize-images.js:159-163 | the record's path is `path.join(dir, file)`, and its name and extension put back together give the file |
| OptimizeImages.GetImages | _scripts/optimize-images.js:154-168 | `[]` when `readdir` throws; otherwise no more records than names |
| OptimizeImages.GetImagesSelects | _scripts/optimize-images.js:157-163 | `IsImageName` is the test `/\.(jpg|jpeg|png|webp|tiff)$/i`; every record is that of a listed image name, and every listed image name has its record |
| OptimizeImages.ImageExtensionShape | _scripts/optimize-images.js:158 | each image extension is a dot followed by dot-free letters, so `ParseBaseExtension` gives the record's `ext` and `filename` |
| OptimizeImages.ImageRecord | _scripts/optimize-images.js:157-163 | for a name kept through extension `e`, the record's `ext` is the matched suffix, which lowers to `e`, and `filename` what precedes it; a name that is only the extension has an empty `ext` |
| OptimizeImages.GetImagesExtensions | _scripts/optimize-images.js:154-168 | every record `getImages` returns has an `ext` whose lowered form is one of the five extensions, or an empty `ext` for a name that is only an extension |
| OptimizeImages.PixelLimitsNeverBind | _scripts/optimize-images.js:195-209 | `CanGenerateFormat`: `canGenerateFormat` holds iff both dimensions are at most 16000, for every format |
| OptimizeImages.TargetWidth | _scripts/optimize-images.js:219 | `min(requested, width)`: never exceeds either, and is one of them |
| OptimizeImages.TargetHeightBounds | _scripts/optimize-images.js:220 | `TargetHeight`: the height is `tw·h/w` rounded to the nearest integer, halves up |
| OptimizeImages.TargetHeightAtMost | _scripts/optimize-images.js:220 | the target height never exceeds the source height |
| OptimizeImages.TargetHeightFull | _scripts/optimize-images.js:220 | at the full width the height is the source height |
| OptimizeImages.NoUpscale | _scripts/optimize-images.js:219-220 | a request at or above the source width keeps both source dimensions |
| OptimizeImages.GenerateVariant | _scripts/optimize-images.js:214-271 | no metadata iff `metadata()` fails; `toFile` is called iff the target fits the format's limits (`CanGenerateFormat`); a rejected or written variant reports `TargetWidth(width)` and `TargetHeight` of it, as the returned `{size, width, height}` does; a written one is no wider than requested, within the limits, and its size is what `stat` reports; an encode failure is exactly a failing `toFile`/`stat` |
| OptimizeImages.VariantNamesDistinct | _scripts/optimize-images.js:326 | `VariantName`: distinct (size, format) pairs get distinct `{filename}-{size}.{ext}` names |
| OptimizeImages.SocialNameNotVariant | _scripts/optimize-images.js:293 | `SocialName`: a `{filename}-social.{ext}` name is never a variant name |
| OptimizeImages.PlanOrder | _scripts/optimize-images.js:322-327 | `Plan`, the nested loops: exactly 12 variants, sizes 400, 800, 1200, 1600 in the outer loop and avif, webp, jpg in the inner one |
| OptimizeImages.PlanLength | _scripts/optimize-images.js:393 | the plan has `sizes.length × formats.length` = 12 entries |
| OptimizeImages.SocialFormats | _scripts/optimize-images.js:290 | the social formats are webp then jpg, never avif |
| OptimizeImages.WrittenCount | _scripts/optimize-images.js:339 | never more successes than variants attempted |
| OptimizeImages.TallySnoc | _scripts/optimize-images.js:329-347 | `WrittenCount`, `SavedBy` and `TouchedPaths` together: one more variant adds one success with its saving when written, one `toFile` path when attempted, and nothing when it fails earlier |
| OptimizeImages.GenerateSocialImage | _scripts/optimize-images.js:276-306 | writes webp then jpg into `{filename}-social.{ext}`; the first write that throws ends it |
| OptimizeImages.GenerateVariants | _scripts/optimize-images.js:322-349 | the loops attempt every planned variant in order, catching each failure; `variantCount`, `totalSaved` and the `toFile` paths are the tally over the plan |
| OptimizeImages.ProcessImage | _scripts/optimize-images.js:311-358 | a failed original `stat` throws before anything; otherwise `variantCount` is the number of successes (at most 12), `totalSaved` sums `originalSize − size` over them, and the social pair is written only into a "social" directory, its failure not caught |
| OptimizeImages.ConfiguredInputDir | _scripts/optimize-images.js:98-100 | the configured input is `assets/img/originals` |
| OptimizeImages.ConfiguredOutputDir | _scripts/optimize-images.js:387 | `OutputDir`: the output directory is `dirname(inputDir)/optimized` = `assets/img/optimized`, which does not contain "social" |
| OptimizeImages.ConfiguredOutputNotSocial | _scripts/optimize-images.js:352 | `assets/img/optimized` does not include "social" |
| OptimizeImages.ImagesInStep | _scripts/optimize-images.js:373-377 | one more directory adds the number of its images |
| OptimizeImages.VariantsPerImage | _scripts/optimize-images.js:393 | `VARIANTS_PER_IMAGE` is `sizes.length × formats.length` |
| OptimizeImages.ImageWritten | _scripts/optimize-images.js:319-339 | the variants one `processImage` writes and counts in `variantCount` (`WrittenCount` over the plan): at most 12 |
| OptimizeImages.WrittenOf | _scripts/optimize-images.js:390-394 | the variants written, summed over a run of images: at most 12 per image |
| OptimizeImages.WrittenInBound | _scripts/optimize-images.js:364-395 | `WrittenIn`, the variants written summed over directories, is at most 12 × `ImagesIn`, the images found there |
| OptimizeImages.CountImage | _scripts/optimize-images.js:390-391 | one `await processImage`: it throws iff `ImageAborts`; otherwise its `variantCount` extends `WrittenOf` by that image |
| OptimizeImages.ProcessImages | _scripts/optimize-images.js:390-394 | each image adds one to `totalImages` and 12 to `totalVariants` whatever its variants' fate; the run continues iff no `processImage` throws; `written` is `WrittenOf` the images processed (all of them when the run continues), at most 12 per image |
| OptimizeImages.OptimizeAll | _scripts/optimize-images.js:364-395 | `totalVariants` is 12 × `totalImages` and bounds `written`, the variants actually written; the run completes iff every directory gets through, and then `totalImages` is `ImagesIn` and `written` is `WrittenIn` over all the input directories |
| OptimizeVideo.VideoExtensionShape | _scripts/optimize-video.js:110 | `IsVideoName` is the test `/\.(mp4|mov|avi)$/i`; each video extension is a dot followed by dot-free letters, so `ParseBaseExtension` gives `name` for every selected file |
| OptimizeVideo.NameOfVideo | _scripts/optimize-video.js:44 | for a name kept through extension `e`, `path.parse(file).name` is the file name without the matched suffix, which lowers to `e` |
| OptimizeVideo.Name | _scripts/optimize-video.js:44 | `path.parse(filename).name` is a prefix of the file name |
| OptimizeVideo.Quote | _scripts/optimize-video.js:55 | a quoted path starts with `"` and is two characters longer |
| OptimizeVideo.AudioFlag | _scripts/optimize-video.js:63-79 | `-an` is in each argument list iff audio is off, and the empty element iff it is on |
| OptimizeVideo.ConfiguredWithoutAudio | _scripts/optimize-video.js:16 | as configured, both lists drop the audio |
| OptimizeVideo.WebmSettings | _scripts/optimize-video.js:58-60 | `WebmArgs`: the WebM list has `-c:v libvpx-vp9`, `-crf 35` and `-b:v 0` |
| OptimizeVideo.WebmNotH264 | _scripts/optimize-video.js:54-65 | the WebM list has neither `-c:v libx264` nor `-crf 26` |
| OptimizeVideo.Mp4Settings | _scripts/optimize-video.js:73-78 | `Mp4Args`: the MP4 list has `-c:v libx264`, `-crf 26` and `-movflags +faststart` |
| OptimizeVideo.Mp4NotVp9 | _scripts/optimize-video.js:69-81 | the MP4 list has neither `-c:v libvpx-vp9` nor `-crf 35` |
| OptimizeVideo.SharedHead | _scripts/optimize-video.js:54-72 | both lists start with the quoted ffmpeg path, `-y`, and `-i` with the quoted input |
| OptimizeVideo.CommandsStart | _scripts/optimize-video.js:65 | `JoinWith` (`join(' ')`): both joined command lines start `"<ffmpeg>" -y -i "<input>"` |
| OptimizeVideo.NoSlashInName | _scripts/optimize-video.js:44 | the name of a slash-free file name is slash-free |
| OptimizeVideo.OutputsBeside | _scripts/optimize-video.js:53-68 | `WebmOutput` and `Mp4Output`: both outputs are in the output directory and are different files |
| OptimizeVideo.ConfiguredKeepsOriginals | _scripts/optimize-video.js:14-15 | as configured, neither output is the input |
| OptimizeVideo.RunVideo | _scripts/optimize-video.js:42-104 | `processVideo` rejects iff the original's `stat` fails; otherwise it runs one or two commands |
| OptimizeVideo.WebmThenMp4 | _scripts/optimize-video.js:92-103 | WebM runs first; MP4 runs iff WebM succeeded and produced its output; the `try` catches nothing iff both outputs were produced |
| OptimizeVideo.ProcessVideo | _scripts/optimize-video.js:42-104 | the commands run and the outcome are those of `RunVideo` |
| OptimizeVideo.RunAll | _scripts/optimize-video.js:117-119 | at most two commands per file |
| OptimizeVideo.RunAllStopped | _scripts/optimize-video.js:117-119 | once a `processVideo` has rejected, later files change nothing |
| OptimizeVideo.RunAllRejects | _scripts/optimize-video.js:48 | the run ends early iff some selected video's `stat` fails |
| OptimizeVideo.RunAllReaches | _scripts/optimize-video.js:117-119 | a run that does not end early runs every video's WebM command |
| OptimizeVideo.OptimizeVideos | _scripts/optimize-video.js:107-122 | the selected files are the `.mp4/.mov/.avi` names in listing order; the commands and the rejection follow `RunAll` over them; an empty selection runs nothing |
| Watch.VideoTaskPath | _scripts/watch.js:30-35 | the video task watches a different directory from the one the video script reads |
| Watch.OutputsIgnored | _scripts/watch.js:64 | `Ignored`, the two early returns (no name, hidden, `.tmp`, `.min.`, `.map`): outputs of the minifiers (`.min.css`, `.min.js`, `.map`) never trigger a run |
| Watch.RunTaskReport | _scripts/watch.js:77-89 | prints at most two lines |
| Watch.RunTaskShows | _scripts/watch.js:79-88 | an error prints only the error; stderr is shown iff non-empty and free of "warn"; trimmed stdout iff non-blank and not silent; stderr first |
| Watch.SilentHidesStdout | _scripts/watch.js:86 | a silent run never prints the script's output |
| Watch.OnEventSlots | _scripts/watch.js:59-70 | an event for one task never touches another task's slot |
| Watch.AfterBurst | _scripts/watch.js:59-70 | a burst of events keeps the number of slots |
| Watch.BurstKeepsLast | _scripts/watch.js:61-70 | after a burst the task's slot holds the last accepted file name, and other slots are untouched |
| Watch.AllIgnoredKeeps | _scripts/watch.js:61-64 | ignored events leave the pending timer as it was |
| Watch.LastAcceptedIsLast | _scripts/watch.js:66-69 | the reported name is that of the accepted event with only ignored ones after it |
| Watch.Watcher.constructor | _scripts/watch.js:44-75 | every task runs once silently, in order; a task gets a watcher iff its path exists and `fs.watch` does not throw; no timer is armed |
| Watch.Watcher.OnEvent | _scripts/watch.js:59-71 | the slots change as `OnEventSlots` says: ignored events change nothing, an accepted one re-arms its own task's slot |
| Watch.Watcher.Fire | _scripts/watch.js:67-70 | a firing timer runs its task non-silently, reports the last accepted name and empties the slot, so a burst yields one run |

## Left out

- `ROOT_DIR`, `SRC_DIR` and `__dirname` resolution: paths are taken as already resolved strings, and `Paths` assumes normalised paths (no `.` or `..` segments, no trailing `/`).
- Symbolic links, permissions and file-system errors other than a missing or wrong-kind path.
- sharp (`metadata`, `resize`, `rotate`, the encoders, `clone`, `toFile`): an oracle gives the metadata and, for each variant, the written size or a failure. The resize options, encoder qualities and the 1200×630 social crop are not modelled.
- terser's `minify` and its options: an oracle gives code and a map, or an error. An empty map counts as absent, because it is falsy.
- ffmpeg and `exec`, in `optimize-video.js` and `runTask`: an oracle says whether each command succeeds. The asynchronous callbacks of `runTask` are modelled as the lines printed once the script has ended.
- `fs.watch` registration and events, the 200 ms timers, and the image script's own watch mode with its 500 ms timer (`optimize-images.js:423-475`). Debounce is modelled only as the per-task slot with event and fire transitions, not as elapsed time.
- The watch modes of `auto-minify-css.js` (132-175) and `minify-css.js` (123-154), other than the non-silent rerun of `processFile` they perform (`ProcessSettles`).
- `formatBytes`, `calculateSavings`, the `toFixed` percentages, byte counts and `Date.now` durations: floating-point text for the console only.
- Console output and `process.exit`.
- The video script's top-level directory bootstrap (`optimize-video.js:21-30`) and its `readdirSync`: `OptimizeVideos` starts from the listing.
- A rejection ending `main` (caught by `main().catch` and turned into exit code 1 for images, `optimize-images.js:487-495`; unhandled for video, `optimize-video.js:124`) is modelled only as the run stopping (`rejected`, `ok` false), not as the process exiting or what it prints.
- OptimizeImages.TargetHeightBounds: `Math.round` of a floating-point ratio is modelled in exact integers as `floor((2·tw·h + w) / (2·w))`; floating-point error at exact halves is not modelled.
- OptimizeImages.GetImages: whether a name passes the case-insensitive extension test is stated over the lowered name (`ToLower`), not over the regular expression's own matching.
- OptimizeImages.ProcessImages: `written` is a ghost output. The script keeps each image's `variantCount` inside `processImage` and never sums them. Variants written by an image whose social pair then fails are not in the sum, since that `processImage` throws.
- MinifyCss.MinifyAll: returns the count, which the script only logs and does not return.
- MinifyJs.CollectFiles: the `statSync` of each entry, made on `dirPath + "/" + file`, is represented by the entry's kind in the listing. The implicit global `files` that `getAllFiles` reassigns has no effect on the iteration and is not modelled.
- Watch.Watcher.constructor: startup runs are recorded in call order; the four `exec` calls run concurrently in the script, and their output interleaving is not modelled.
