# butler template engine — Dafny model

This project models the core of `commands/template/template.go` from butler,
a project scaffolding tool. Butler clones a template repository into a
destination directory. It then renders the `butler{ … }` markers found in
directory names, file names and file contents.

The model covers these parts of the engine:

- **The entry filter `Skip`** (module `Filter`). Hidden entries are refused
  first. Then the walk is kept out of excluded directories. Last, files
  whose extension, taken from `"." + name`, is in the binary set are
  skipped.
- **The catalogue helpers** (module `Templates`). `toMap`, `getTemplateByName`
  (the first template with a given name) and `getTemplateOptions` (the
  template names, sorted). `sort.Strings` is specified in module
  `StringOrder` by the order Go uses for strings.
- **The two walks** (module `TreeWalk`). `filepath.Walk` is modelled over the
  list of entries it visits in pre-order. A `SkipDir` answer keeps the walk
  out of everything inside that directory. The directory pass submits a job
  for each directory the filter lets through. The file pass submits a job
  for each such file.
- **The jobs** (module `RenderJobs`). A directory job renders the directory's
  base name and records a rename when the new path differs. A file job
  renders the file name, reads the file, renders its content, writes the
  output to the new path and removes the original when the path changed.
  Rendering with `text/template` is an abstract function from text to an
  outcome: the output, a parse failure, or an execution failure with the
  output written before it. The file system is a map from file paths to
  contents.
- **The passes** (module `Passes`). The walk and the jobs together, with what
  each pass does to the tree as a whole.
- **A worked example** (module `Scenarios`). A project tree with a marker
  directory, a `.git` directory and a `.png` image, run through the
  directory pass; and a second tree, with a marker file next to a `.png`
  image and a `.git` directory, run through the file pass.

Paths are strings. `filepath.Dir`, `filepath.Base` and `filepath.Ext` are
modelled (module `Paths`) for clean paths, which is the form `filepath.Walk`
reports paths in below a clean root. `filepath.Join` is modelled on a clean
directory and an arbitrary rendered name. The name's elements are resolved
the way `filepath.Clean` resolves them: empty and "." elements vanish, ".."
goes up one directory, and a trailing separator is dropped.

What the code does in the cases where a job fails, and when the renames are
read:

- **Failed directory render.** A directory whose name fails to parse keeps
  its name: the nil template panics and the job's `recover` ends it. After
  an execution failure the error is only logged, and the partial output is
  still used as the new name (lines 361-381).
- **Failed content execution.** A file whose content fails to execute has
  had its target created already. The target keeps the partial output, and
  the original is not removed (lines 472-486).
- **No run report.** Failures are only logged. No report of failed jobs is
  built.
- **Renames read before the jobs finish.** The rename loop (lines 392-395)
  runs as soon as the walk returns. The workers are only waited for when
  `Run` returns (lines 283-287). The `renamings` map is written by several
  goroutines without a lock. The model runs each job to completion, in
  submission order.

## Model

| member | source | states |
|---|---|---|
| Filter.Skip | commands/template/template.go:170-196 | An entry gets `SkipDir` iff it is a directory that is hidden or whose name is excluded. It is skipped as a file iff it is a file that is hidden or whose extension, taken from "." + name, is binary. So a hidden entry never proceeds, a directory is never skipped as a file, and a file never gets `SkipDir`. |
| Filter.VisibleFileSkippedByExtension | commands/template/template.go:187-193 | A visible file is skipped iff its own extension is binary. A name without a '.' counts as its own extension, so a file named "png" counts as ".png". The walk still continues after such a file. |
| Paths.HasPrefix | commands/template/template.go:172 | `strings.HasPrefix` holds iff the prefix is no longer than the string and agrees with it character by character. |
| Paths.Ext | commands/template/template.go:189 | `filepath.Ext` returns a suffix of the path. When nonempty, it starts with '.' and holds no other '.' and no '/'. When empty, the final element has no '.'. |
| Paths.ExtOfDotted | commands/template/template.go:189 | The extension of "." + name always starts with '.'. It equals the name's own extension when the name has a '.', and "." + name otherwise. |
| Paths.Base | commands/template/template.go:364 | The base name holds no separator and is a suffix of the path. For a clean path it is a single element: not empty, not "." and not "..". |
| Paths.Dir | commands/template/template.go:377 | The parent of a clean path is ".", the root, or a clean path that contains it. |
| Paths.Join | commands/template/template.go:377 | Joining an empty name or "." gives the directory back. Joining ".." goes up one directory. Joining a single element to ".", the root or a clean directory gives a path whose parent is that directory and whose base name is the element. |
| Paths.JoinElement | commands/template/template.go:377 | A single element joined to "." is the element itself. Joined to any other directory except the root, it is that directory, a separator and the element. |
| Paths.JoinTrailingSlash | commands/template/template.go:377 | A separator at the end of a rendered name does not change the joined path. |
| Paths.JoinDirBase | commands/template/template.go:377 | Joining the parent and the base name of a clean path gives the path back. |
| Paths.ReplaceBase | commands/template/template.go:377 | Replacing the base name of a clean path with a single element (not empty, not "." or "..", no separator) keeps the parent and gives that base name. The path changes iff the name differs. |
| Templates.ToMap | commands/template/template.go:528-534 | The keys of the result are exactly the elements of the slice. |
| Templates.GetTemplateByName | commands/template/template.go:106-114 | The result is nil iff no template has the name. Otherwise it has the name, and no template before it does. |
| Templates.GetTemplateOptions | commands/template/template.go:117-127 | The result is sorted, and it is a permutation of the template names with each name as often as it occurs. |
| StringOrder.SortStrings | commands/template/template.go:124 | `sort.Strings` yields a sorted permutation of its argument. |
| StringOrder.SortedPermutationUnique | commands/template/template.go:124 | Two sorted permutations of the same strings are equal, so the options do not depend on the sorting algorithm. |
| StringOrder.Insert | commands/template/template.go:124 | Inserting into a sorted list keeps it sorted and adds exactly one occurrence. |
| TreeWalk.DirectoryStep | commands/template/template.go:327-343 | The directory-pass callback submits a job iff the entry is a directory that is neither hidden nor excluded. It returns `SkipDir` iff the entry is a hidden or excluded directory. |
| TreeWalk.FileStep | commands/template/template.go:399-417 | The file-pass callback submits a job iff the entry is a visible file without a binary extension. It returns `SkipDir` iff the entry is a hidden or excluded directory. |
| TreeWalk.Callback | commands/template/template.go:325-343 | Each callback submits only entries of its own pass's kind, and never a hidden one. Both callbacks answer `SkipDir` exactly for hidden and excluded directories. |
| TreeWalk.Walk | commands/template/template.go:325-343 | The walk, with its set of refused directories, submits exactly the jobs of the specification: the entries in visiting order whose callback submits and that lie inside no directory refused before them. |
| TreeWalk.Visit | commands/template/template.go:325-343 | Visiting one entry extends the jobs and the refused directories exactly as the specification of the walk does for that entry. It submits the entry iff the walk is not kept out of it and the callback submits it. |
| TreeWalk.JobsExactly | commands/template/template.go:325-343 | In a pre-order listing, an entry gets a job iff it is listed, its callback submits, and it lies inside no hidden or excluded directory. |
| TreeWalk.DirectoryJobsExactly | commands/template/template.go:325-343 | The directory pass makes a job for an entry iff it is a visible, non-excluded directory that is not inside a hidden or excluded directory. |
| TreeWalk.FileJobsExactly | commands/template/template.go:398-417 | The file pass makes a job for an entry iff it is a visible file without a binary extension that is not inside a hidden or excluded directory. |
| TreeWalk.KeptPathsDistinct | commands/template/template.go:325-343 | A walk over a listing without repeated paths submits no path twice. |
| RenderJobs.DirectoryName | commands/template/template.go:361-376 | The new name is missing iff the name fails to parse. Otherwise it is the text the execution wrote: the whole output, or the partial output when the execution fails. |
| RenderJobs.DirectoryJob | commands/template/template.go:361-381 | A directory job records a rename only when its name rendered, or failed to execute after producing partial output, and the new path differs from the old one. |
| RenderJobs.DirectoryRenameIffNameChanges | commands/template/template.go:376-381 | When the name renders to a single path element (not empty, not "." or "..", no separator), a rename is recorded iff the name changed. The new path keeps the parent and takes the new name. |
| RenderJobs.EmptyOrDotNameRenamesToParent | commands/template/template.go:376-381 | A directory whose name renders to nothing or to "." is recorded as renamed to its parent. |
| RenderJobs.DotDotNameRenamesToGrandparent | commands/template/template.go:376-381 | A directory whose name renders to ".." is recorded as renamed to the parent of its parent. That is the root when the parent is the root, and ".." when the directory is a bare name. |
| RenderJobs.TrailingSlashNotRenamed | commands/template/template.go:376-381 | A directory whose name renders to itself followed by a separator is not renamed. |
| RenderJobs.RecordRenamings | commands/template/template.go:379-381 | No directory is ever recorded as renamed onto its own path. |
| RenderJobs.RunDirectoryJobs | commands/template/template.go:352-382 | Running the directory jobs in order fills the rename map as the fold of the jobs specifies. |
| RenderJobs.RenamingsFromJobs | commands/template/template.go:379-381 | Every recorded rename comes from a job for that path. Every job that decides on a rename has its path recorded. |
| RenderJobs.Target | commands/template/template.go:435-453 | A file job has a target iff its name renders. When the rendered name is a single element, the target keeps the file's parent and takes that name. |
| RenderJobs.FileJob | commands/template/template.go:434-492 | A file job touches only the file and its target. It changes nothing when the name does not render, the file cannot be read, or its content fails to parse. After a failed execution, the target holds the partial output and the original is kept. On success, the target holds the rendered content, and the original is removed iff the target differs. |
| RenderJobs.ApplyFileJobs | commands/template/template.go:426-493 | After the file jobs, every file that was not there before is the target of some job. |
| RenderJobs.RunFileJobs | commands/template/template.go:426-493 | Running the file jobs in order gives the file contents as the fold of the jobs specifies. |
| RenderJobs.ApplyFileJobsAppend | commands/template/template.go:426-493 | Running two lists of jobs one after the other is running their concatenation. |
| RenderJobs.JobRenderedAtTarget | commands/template/template.go:434-492 | A job whose file no earlier job touches, and whose file and target no later job touches, leaves the rendered content at the target. It removes the original when the target differs. |
| RenderJobs.OnlyJobRenderedAtTarget | commands/template/template.go:434-492 | Among jobs for distinct paths, a job whose file and target no other job touches leaves the rendered content at the target. It removes the original when the target differs. |
| RenderJobs.UntouchedFileKept | commands/template/template.go:434-492 | A file that no job reads or writes keeps its content. |
| RenderJobs.RemovedOnlyWhenRenamed | commands/template/template.go:488-492 | A file disappears only through its own job, and only when its rendered name gave a different path. |
| RenderJobs.FileJobIdempotent | commands/template/template.go:434-492 | One job for a file whose name and content render to themselves leaves the files unchanged. |
| RenderJobs.FileJobsIdempotent | commands/template/template.go:434-492 | File jobs over names and contents that render to themselves change nothing. |
| Passes.DirectoryPass | commands/template/template.go:325-385 | The directory pass produces the renames of the jobs its walk submits. |
| Passes.FilePass | commands/template/template.go:398-496 | The file pass produces the file contents left by the jobs its walk submits. |
| Passes.FileRenderedAtTarget | commands/template/template.go:398-496 | A visible, non-binary file outside every hidden or excluded directory, whose name and content render, ends up at its target with the rendered content. The original is gone when the target differs. This holds provided no other job of the pass reads or writes either path. |
| Passes.JobsFromEntries | commands/template/template.go:325-343 | Every job of either pass is for a listed entry whose callback submits. |
| Passes.RenamingsExactly | commands/template/template.go:325-385 | A path has a recorded rename iff it is a visible, non-excluded directory, outside every hidden or excluded directory, whose job decides on a rename. The recorded new path is the one that job decided. |
| Passes.SkippedFileUntouched | commands/template/template.go:398-496 | The file pass leaves a file's content alone when the file is hidden, binary or inside a hidden or excluded directory, unless another file is rendered onto its path. |
| Passes.FileRemovedOnlyWhenRenamed | commands/template/template.go:488-492 | The file pass removes a file only when the file got a job and its rendered name gave a different path. |
| Passes.FilePassIdempotent | commands/template/template.go:398-496 | The file pass over a tree without markers changes nothing. |
| Scenarios.DemoDirectoryPass | commands/template/template.go:325-385 | In the directory example, only the marker directory is recorded for renaming, to "src/demo". The root and the `.git` directory are not. |
| Scenarios.DemoDirectoryJobs | commands/template/template.go:325-343 | In the example tree, the directory pass submits the project root and the marker directory. It submits neither `.git` nor anything inside it. |
| Scenarios.DemoFileJobs | commands/template/template.go:398-417 | In the example file tree, the file pass submits only the marker file. The file inside `.git` is never reached, and the `.png` image is binary. |
| Scenarios.DemoFilePass | commands/template/template.go:398-496 | In the file example, the marker file is replaced by "src/demo" holding the rendered content. The `.git` file and the image keep their marker content. |

## Left out

- **The worker pool** (`startN`, `start`, `stop`, lines 505-525) and the goroutines. Jobs are run one after another in submission order. A panic inside a job is modelled as the job contributing nothing.
- **The race between directory jobs and the rename loop.** Because the model runs every job to completion, it does not capture renames lost to that race or to the unsynchronised map.
- **The rename application loop** (lines 391-395: `os.Rename` and `os.RemoveAll`). Its outcome for nested renamed directories depends on the map's iteration order, which Go leaves unspecified. The model stops at the recorded renames. The file pass takes the listing of the renamed tree as its own input.
- **`text/template`, the `butler{` … `}` delimiters and the helper functions** (`casee` case conversion, `join`, `getSurveyResult`, lines 301-320). These are abstracted as the render function.
- **The template data** (project, date, year, variables; lines 289-299). The clock is left out.
- **Walk errors** (the `err != nil` return at lines 328-330 and 400-402). They are not modelled. The listing is taken to be readable.
- **`os.Create` failure** (lines 472-477), for example a rendered file name that is empty and names the parent directory. It is not modelled. Writing to the target always succeeds in the map.
- **Byte contents.** File contents are strings rather than bytes.
- **Unclean paths from the walk.** `filepath.Clean` is modelled only for the rendered names that are joined to a path. The paths the walk reports are taken to be clean, with no trailing or doubled separator and no "." or ".." element. `filepath.Walk` reports its root exactly as given, though (lines 325-326, 398). A root such as "./demo" or "demo/" is not modelled. For "./demo", the code computes `Join(".", "demo")`, which is "demo", and records a rename of "./demo" to "demo". The rename loop would then rename the project onto itself and call `os.RemoveAll("./demo")`. A root with a leading ".." element is not modelled either.
- **The prompts, cloning and spinner.** `GetQuestions`, `startCommandSurvey`, `startTemplateSurvey`, `cloneRepo`, the spinner and the timing output of `Run` (lines 129-167, 198-299) are interactive I/O, network access and clock access.
- **Constructor and options.** `New` and its options (lines 57-90) only fill fields. The contents of `ExcludedDirs` and `BinaryFileExt` are not part of this model: both are parameters of the filter.
- **The `config` package** (`config.Template`) is not part of this model beyond a template's name and URL.
- **Logging** is left out.
