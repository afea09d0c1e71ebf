# node-compress: a Dafny model of `compressImages`

This project models the core of `index.js` in node-compress, a command-line
tool that compresses every PNG and JPEG image below a folder in place. The
model covers:

- the staging of the `backup` and `temp` folders;
- the recursive walk `processDirectory`;
- the per-file transaction: compress into `temp`, then back up the
  original, delete it, and move the compressed copy into its place;
- the progress bar's tick count;
- the pre-pass `countFiles` that sets the bar's total;
- the removal of `temp`;
- the PNG quality range the command line derives from the prompted quality.

The folder is an immutable tree (`FileSystem.Node`). Entries keep their
listing order. Every filesystem call `index.js` makes is a pure function on
that tree that returns either a new tree or an error:

- `readdirSync`, `mkdirSync` with `recursive`, `copyFileSync`, `unlinkSync`,
  `renameSync` and `rmSync`;
- the file write imagemin performs.

The compressor behind imagemin is a parameter. It is an oracle from the
file's bytes and the chosen plugin to either a throw or a list of outputs.

Modules:

- `Text`: string tests and `/`-joined path texts.
- `FileSystem`: the tree, lookups, the calls, and their frame lemmas.
- `Classifier`: the reserved names, the image pattern and the path check.
- `Codec`: imagemin, plugin dispatch and quality options.
- `Walker`: `countFiles` and the list of files the walk attempts, read off the staged tree.
- `Pipeline`: staging, the walk, the transaction, teardown and `compressImages`.
- `WalkPosition`: where the walk stands against the staged tree, entry by entry.
- `WalkProof`: the live walk over the changing tree equals a fold over the planned list.
- `Runs`: what a whole call promises, plus a concrete folder.

The walk looks every entry up afresh while earlier files are being
replaced. `WalkProof.WalkFollowsPlan` shows that, with names compared
case-sensitively, this never disturbs an entry the walk has still to reach. The walk therefore attempts exactly
`Walker.Plan` of the staged tree, in order.

The bar's total is not the number of files the walk can attempt. It is
computed by `countFiles`, which runs after staging and descends into every
folder, `backup` and `temp` included. It also ignores the path check of
line 45. A plain reading of the tool says the total counts the files to be
processed, for example 2 for a folder holding `a.png`, `sub/b.jpg` and an
earlier run's `backup/old.png`. `index.js` gives 3 for that folder. The model
follows `index.js`, and `Runs.CountExceedsPlanExample` proves the 3 and the 2.
In general the model proves only ticks ≤ attempts ≤ total.

The path check of line 45 is kept as written. Below a root folder other
than `.`, it skips every file whose own name begins with `backup` or `temp`,
such as `photos/temperature.jpg`. When the root folder is `.`, it skips
top-level files whose name merely contains those words. Plugin dispatch is
also kept as written: only names ending in lower-case `.jpg` go to mozjpeg,
and `.jpeg` and `.JPG` files go to pngquant. A prompted quality below 10
gives a negative lower bound for the PNG range. The model states this rather
than clamping it.

## Model

| member | source | states |
|---|---|---|
| Classifier.ImagePatternIsSuffix | index.js:44 | the image pattern of line 44 holds exactly when the text ends in `.png`, `.jpg` or `.jpeg`, in any ASCII case |
| Classifier.PatternSeesOnlyTheName | index.js:44 | matched against the whole path text, the pattern gives the same answer as on the file's own name |
| Classifier.PathCheckIsNamePrefix | index.js:45 | below a non-empty directory text, the `includes` check skips exactly the files whose name begins with "backup" or "temp" |
| Classifier.PathCheckAtDotRoot | index.js:45 | at the top of a root folder `.`, the check skips exactly the names that contain "backup" or "temp" anywhere |
| Codec.Imagemin | index.js:47-56 | taking the source path as a literal file name and setting aside imagemin's filter of junk names, imagemin resolves exactly when the source is a file, the compressor does not throw, and, if the first output is to be written, its target is writable. It then reports the outputs with that target, the first output stands there, and nothing outside the target and its ancestors changes |
| Codec.PluginFor | index.js:50-52 | mozjpeg is given the JPEG quality, pngquant the PNG range |
| Codec.OnlyLowerCaseJpgUsesMozjpeg | index.js:50-52 | an accepted file goes to mozjpeg exactly when its name ends in lower-case ".jpg"; every other image goes to pngquant |
| Codec.DispatchExamples | index.js:50-52 | "a.JPG" and "b.jpeg" are images that pngquant gets; "c.jpg" goes to mozjpeg |
| Codec.OptionsFromQuality | index.js:150-155 | the JPEG quality is q; the PNG range in hundredths ends at q and is 10 wide |
| Codec.PngRangeBounds | index.js:150 | q = 80 gives the range 0.70-0.80; for 10 ≤ q ≤ 100 the range lies in [0, 1]; the lower end is negative exactly when q < 10 |
| FileSystem.ReadDir | index.js:35 | listing succeeds exactly on a directory and yields its entry names in order |
| FileSystem.MkdirP | index.js:22-27 | the recursive mkdir fails exactly when a file lies on the way. Otherwise the path is a directory afterwards, nothing off the path changes, and no directory disappears |
| FileSystem.WriteFile | index.js:71 | writing a file succeeds exactly when its folder exists and the target is no directory. The target then holds the bytes, nothing outside it changes, and no directory disappears |
| FileSystem.CopyFile | index.js:71 | the copy succeeds exactly when the source is a file, the destination's folder exists and the destination is no directory. The destination then holds the source's content and nothing else changes |
| FileSystem.Unlink | index.js:72 | unlinking succeeds exactly on a file, which is then gone; nothing else changes |
| FileSystem.Rename | index.js:73 | renaming a file succeeds exactly when the target's folder exists and the target is no directory. The content then moves, the source is gone, and nothing else changes |
| FileSystem.RemoveTree | index.js:90-92 | the recursive removal succeeds exactly when the path exists. Nothing is left at or below it, and paths beside it are untouched |
| Walker.CountFiles | index.js:100-113 | `countFiles` throws exactly on a root that is a file; otherwise it returns the number of files the unfiltered traversal lists |
| Walker.CountIsFound | index.js:100-113 | the recursive count equals the length of the list of pattern-matching files in every folder, `backup` and `temp` included |
| Walker.FoundExactly | index.js:36-46 | the walk's list holds exactly the files below the folder that match the pattern, pass the path check, and have no folder named `backup` or `temp` on their way |
| Walker.PlanAvoidsStaging | index.js:40-45 | every planned path is a file whose name matches the pattern and does not begin with "backup" or "temp", whatever the root, "." included; no folder on its way is named `backup` or `temp` |
| Walker.FoundDistinct | index.js:36-46 | in a tree with distinct entry names, the walk lists no file twice |
| Walker.PlanFacts | index.js:100-113 | the plan repeats no path, `countFiles` succeeds on the staged folder, and the plan is no longer than the count |
| Pipeline.EnsureFolder | index.js:22-27 | it fails exactly on a root that is a file. Whatever already stands under that name, file or folder, is left alone; otherwise a folder is created there. Nothing else changes and no folder disappears |
| Pipeline.Stage | index.js:20-27 | staging fails exactly on a root that is a file. Afterwards `backup` and `temp` exist, what already stood there is kept, a newly made `backup` or `temp` is a folder, a tree that already holds both is returned unchanged, and every other path is unchanged |
| Pipeline.Teardown | index.js:90-92 | afterwards `temp` is gone and nothing outside it changes |
| Pipeline.CompressIntoTemp | index.js:47-56 | for a source path taken literally and not a junk name, imagemin with the plugin from line 50 resolves exactly when the file can be compressed and its copy in `temp` can be written. The copy then holds the first output, and only `temp/p` and its ancestors change |
| Pipeline.Conclude | index.js:58-75 | a rejection records the compression-failed skip, an empty array the nothing-produced skip, and a first object without a destination the malformed-output skip, each leaving the tree as it was; a first object with a destination leads to a replacement or a throw. Only a replacement ticks, and it leaves `backup` and `temp` standing |
| Pipeline.Visit | index.js:47-75 | one file's transaction changes nothing but the file, its backup path, its copy in `temp` and their ancestors. It keeps every folder and records one attempt that ticks only for a replacement; a throw records nothing |
| Pipeline.Replace | index.js:69-70 | the transaction changes only the frame of the file and keeps every folder; when it completes, the `backup` folder stands |
| Pipeline.MoveIntoPlace | index.js:70-73 | copy, unlink and rename go through exactly when the file and its copy in `temp` are files and no directory blocks the backup path. The file then holds the compressed bytes, `backup/p` the original, and `temp/p` nothing; when they throw with the copy present, the file is as it was |
| Pipeline.ReplaceOutcome | index.js:69-73 | lines 69-73 complete exactly when the file and its copy in `temp` are files and the backup path is writable. They then leave the compressed bytes at the file, the original at `backup/p` and nothing at `temp/p` |
| Pipeline.ReplaceKeepsFile | index.js:69-73 | with the compressed copy in `temp`, a throw from the backup, unlink or rename leaves the file as it was |
| Pipeline.WalkDirContinues | index.js:34-78 | `processDirectory`, whether it returns or throws, only appends attempts to those made before, and the bar ticks once for each replacement among the new ones |
| Pipeline.WalkEntriesContinues | index.js:36-77 | the loop over a folder's entries, from any entry on, only appends attempts, and the bar ticks once for each replacement among the new ones |
| Pipeline.Fold | index.js:36-77 | handling files in turn only appends attempts; a completed run attempted exactly the list, a throw stopped partway, and the ticks rose by the number of replacements |
| Pipeline.CompressImages | index.js:18-98 | a root that is a file aborts at once with nothing attempted. A finished run has removed `temp` and its total is `countFiles` of the staged tree |
| WalkProof.WalkFollowsPlan | index.js:34-78 | the live walk over the changing tree gives the same outcome as handling the staged tree's planned files in order |
| Runs.FinishedRun | index.js:80-92 | a finished run attempted exactly the planned files of the staged tree, each once and in order. It ticked once per replacement, attempted no more files than the total, and left no `temp`. Each replaced file holds its compressed bytes with its original at `backup/p`; every other file outside `backup` and `temp` is as it was. Every path off the frame of all planned files and outside `temp`, such as an earlier run's copy in `backup`, is as staging left it |
| Runs.AbortedRun | index.js:94-97 | a run over a folder aborts only partway through the plan. Every folder of the staged tree, `temp` among them, still stands, and the ticks equal the replacements made. Each replaced file holds its compressed bytes with its original at `backup/p`; every other file outside `backup` and `temp`, the one in hand at the throw included, is as it was. Every path off the frame of all planned files is as staging left it |
| Runs.VisitOutcome | index.js:47-75 | a file outside `backup` and `temp` that is skipped or hit by a throw keeps its content; a replaced one holds the compressor's first output and its original is at `backup/p` |
| Runs.FoldFrame | index.js:36-77 | a path off the frame of every file handled, outside each file, its backup path and its copy in `temp`, is unchanged by the walk |
| Runs.FoldOutcome | index.js:36-77 | over distinct files outside `backup` and `temp`, whether the walk completes or throws, each replaced file holds its compressed bytes with its original at `backup/p`, and every other file is as it was |
| Runs.VisitSkips | index.js:54-67 | when the compressor throws, produces nothing or produces a first file without a destination, the file is skipped with that reason and the tree is unchanged |
| Runs.VisitReplaces | index.js:58-75 | for a usable compressed output: a blocked `temp` path means a skip, and a blocked backup path throws out of the walk with the file left as it was. Otherwise the file is replaced by the compressed bytes, the original goes to `backup/p`, nothing is left at `temp/p`, and the bar ticks |
| Runs.CountExceedsPlanExample | index.js:100-113 | for any root, "." included, and a folder holding `a.png`, `sub/b.jpg`, an earlier run's `backup/old.png` and an empty `temp`, staging changes nothing, the total is 3 and the walk plans 2 files |
| Runs.RunFrame | index.js:18-98 | a path off the frame of every planned file (the file, its backup path, its copy in `temp` and their ancestors) is as staging left it after a throw, and after a finished run unless it lies in `temp` |
| Runs.ExampleBackupKept | index.js:18-98 | in the example folder, an earlier run's `backup/old.png` holds its bytes after any run, finished or thrown, whatever the compressor does |
| Runs.ExampleAtDot | index.js:45 | at the root folder ".", the check lets `a.png` through |
| Runs.StagingIdempotent | index.js:20-27 | staging a staged tree changes nothing, and removing `temp` twice is the same as once |

## Left out

- The image compressors (imagemin-mozjpeg, imagemin-pngquant) are foreign code. They are the `Compressor` parameter.
- Of imagemin itself, the model keeps reading the source, calling the plugin, creating the destination folder and writing the first output. Further outputs are reported but not written, since the one input file yields one output. Its glob expansion and its junk-name filter are left out (see the `Codec.Imagemin` line below).
- The progress bar's rendering (lines 81-86) is output only. The bar is a tick count.
- The console messages (lines 55, 59, 65, 95-96) are output only. The attempts list records, per file, which message would appear.
- The interactive prompt and its validation (lines 121-149, 152-157) are user interface. Only the arithmetic of line 150 is kept, on an integer quality, which stands in for `parseInt`.
- The `strip` option (line 155) is ignored because `compressImages` never reads it.
- `async`/`await` is left out: the walk awaits one file at a time, so it is modelled as sequential.
- Symbolic links, permissions and file metadata are left out: the tree has only files and folders.
- Crash atomicity between unlink and rename (lines 72-73) is left out: the model has thrown errors but no process crash between two filesystem calls.
- The listing order of `readdirSync` is the entry order of the tree, fixed but arbitrary.
- Path texts are `/`-joined segments. The root folder `.` is the empty path. `path.join` normalisation of `..`, repeated or trailing slashes, and absolute roots is not modelled.
- Codec.Imagemin: the source path is taken literally. imagemin reads its inputs as glob patterns by default, and `index.js:47` does not turn that off, so a file whose name holds glob syntax (`*`, `?`, `[`, `{`, or a leading `!`) may match no file or other files. imagemin also drops inputs whose base name the `junk` package lists, such as the AppleDouble files `._a.png` that macOS writes on FAT, exFAT and SMB volumes, or names under `.Trashes`; for those it resolves with an empty array without calling the plugin, so line 58 skips the file. The model assumes every name matches only itself and no name is junk, and always hands the file to the compressor.
- Pipeline.CompressIntoTemp, Runs.VisitOutcome, Runs.VisitSkips, Runs.VisitReplaces, Runs.FinishedRun, Runs.AbortedRun: they inherit the two `Codec.Imagemin` assumptions above. For a glob or junk name the source skips the file or compresses another one, where the model compresses the file itself.
- Names compare case-sensitively, as on Linux file systems. On the default macOS and Windows file systems an existing `Backup` folder would satisfy the existence checks of lines 20-27, the backup copies of line 71 would land in it, and the case-sensitive check of line 45 would let the walk enter it. That case is not modelled: `WalkProof.WalkFollowsPlan` holds for case-sensitive names only.
- Pipeline.WalkDir: its depth is bounded by the height of the staged tree. `WalkProof.WalkFollowsPlan` shows the bound never cuts the walk short, because the walk only enters folders that existed at staging.
- WalkProof.WalkFollowsPlan: stated only for trees whose folders have distinct entry names, as every real folder does.
- Runs.VisitSkips and Runs.VisitReplaces: stated only for files outside `backup` and `temp`, the only files the walk hands over (`Walker.PlanAvoidsStaging`).
- Pipeline.CompressImages: its own contract covers only the file root and the finished run. The full outcome is stated by `Runs.FinishedRun` and `Runs.AbortedRun` for trees with distinct entry names.
