/** The jobs the two walks of `Templating.Run` submit
    (commands/template/template.go), run one after another in submission
    order. Rendering a text with `text/template` (delimiters "butler{" and
    "}", the helper functions and the run's data) is an abstract function;
    the file system is a map from file paths to contents. */
module RenderJobs {
  import opened Wrappers
  import opened Paths
  import opened TreeWalk

  /** The outcome of parsing and then executing a template text: the output,
      a parse failure, or an execution failure together with the output
      written before it failed. */
  datatype Rendered = Ok(text: string) | ParseError | ExecError(partial: string)

  /** Rendering against the run's fixed data and helper functions. */
  type Renderer = string -> Rendered

  /** The output a directory job takes as the new name: after a parse
      failure there is none (the nil template makes `Execute` panic and the
      job's `recover` ends it); after an execution failure the error is only
      logged and the partial output is used. */
  function DirectoryName(e: Entry, render: Renderer): (r: Option<string>)
    ensures r.None? <==> render(e.name).ParseError?
    ensures r.Some? ==> render(e.name) in {Ok(r.value), ExecError(r.value)}
  {
    match render(e.name)
    case ParseError => None
    case ExecError(partial) => Some(partial)
    case Ok(text) => Some(text)
  }

  /** One directory job: the rename it records, if any. The new path keeps
      the parent and replaces the base name; nothing is recorded when it
      equals the old path. */
  function DirectoryJob(e: Entry, render: Renderer): (r: Option<string>)
    ensures r.Some? ==> r.value != e.path && DirectoryName(e, render).Some?
  {
    match DirectoryName(e, render)
    case None => None
    case Some(name) =>
      var newPath := Join(Dir(e.path), name);
      if e.path != newPath then Some(newPath) else None
  }

  /** The `renamings` map after running `jobs` in order. */
  function RecordRenamings(jobs: seq<Entry>, render: Renderer): (m: map<string, string>)
    ensures forall p :: p in m ==> m[p] != p
  {
    if jobs == [] then map[]
    else
      var last := jobs[|jobs| - 1];
      var m := RecordRenamings(jobs[..|jobs| - 1], render);
      match DirectoryJob(last, render)
      case None => m
      case Some(newPath) => m[last.path := newPath]
  }

  /** Runs the directory jobs one after another, filling `renamings`. */
  method RunDirectoryJobs(jobs: seq<Entry>, render: Renderer) returns (renamings: map<string, string>)
    ensures renamings == RecordRenamings(jobs, render)
  {
    renamings := map[];
    for i := 0 to |jobs|
      invariant renamings == RecordRenamings(jobs[..i], render)
    {
      assert jobs[..i + 1][..i] == jobs[..i];
      var job := jobs[i];
      var newName := DirectoryName(job, render);
      if newName.Some? {
        var newPath := Join(Dir(job.path), newName.value);
        if job.path != newPath {
          renamings := renamings[job.path := newPath];
        }
      }
    }
    assert jobs[..|jobs|] == jobs;
  }

  /** For a canonical directory path named after its base name, rendering
      the name to a single path element `name` records a rename exactly when
      `name` differs from the old name, to the path with the same parent and
      base name `name`. This holds for a failed execution too, with the
      partial output as `name`. */
  lemma DirectoryRenameIffNameChanges(e: Entry, render: Renderer, name: string)
    requires Canonical(e.path) && e.name == Base(e.path)
    requires DirectoryName(e, render) == Some(name) && Element(name)
    ensures DirectoryJob(e, render).Some? <==> name != e.name
    ensures DirectoryJob(e, render).Some? ==>
      Dir(DirectoryJob(e, render).value) == Dir(e.path) && Base(DirectoryJob(e, render).value) == name
  {
    ReplaceBase(e.path, name);
  }

  /** A directory whose name renders to nothing or to "." is recorded as
      renamed to its parent, since `filepath.Join` drops such a name. */
  lemma EmptyOrDotNameRenamesToParent(e: Entry, render: Renderer)
    requires Canonical(e.path)
    requires DirectoryName(e, render) in {Some(""), Some(".")}
    ensures DirectoryJob(e, render) == Some(Dir(e.path))
  {
    var i := LastSlash(e.path);
    CanonicalNotDotNorRoot(e.path);
    if i > 0 {
      assert |Dir(e.path)| < |e.path|;
    }
  }

  /** A directory whose name renders to ".." is recorded as renamed to its
      grandparent: the parent of its parent directory, the root when the
      parent is the root, and ".." when the directory is a bare name. */
  lemma DotDotNameRenamesToGrandparent(e: Entry, render: Renderer)
    requires Canonical(e.path)
    requires DirectoryName(e, render) == Some("..")
    ensures DirectoryJob(e, render) ==
      Some(if Dir(e.path) == "." then ".." else if Dir(e.path) == "/" then "/" else Dir(Dir(e.path)))
  {
    var d := Dir(e.path);
    CanonicalNotDotNorRoot(e.path);
    if d != "." && d != "/" {
      UpCanonical(d);
      assert |Dir(d)| < |e.path| || Dir(d) == "." || Dir(d) == "/";
    }
  }

  /** A directory whose name renders to that name followed by a separator is
      not renamed: `filepath.Join` drops the trailing separator. */
  lemma TrailingSlashNotRenamed(e: Entry, render: Renderer)
    requires Canonical(e.path) && e.name == Base(e.path)
    requires DirectoryName(e, render) == Some(e.name + "/")
    ensures DirectoryJob(e, render) == None
  {
    JoinTrailingSlash(Dir(e.path), e.name);
    JoinDirBase(e.path);
  }

  /** Every recorded rename comes from a job for that path, and every job
      that decides on a rename has it recorded. */
  lemma {:induction false} RenamingsFromJobs(jobs: seq<Entry>, render: Renderer)
    ensures forall p :: p in RecordRenamings(jobs, render) ==>
      exists j :: j in jobs && j.path == p && DirectoryJob(j, render) == Some(RecordRenamings(jobs, render)[p])
    ensures forall j :: j in jobs && DirectoryJob(j, render).Some? ==> j.path in RecordRenamings(jobs, render)
  {
    if jobs != [] {
      var init := jobs[..|jobs| - 1];
      RenamingsFromJobs(init, render);
      assert jobs == init + [jobs[|jobs| - 1]];
    }
  }

  /** The path a file job writes to, when its name renders. */
  function Target(e: Entry, render: Renderer): (r: Option<string>)
    ensures r.Some? <==> render(e.name).Ok?
    ensures r.Some? && Canonical(e.path) && Element(render(e.name).text) ==>
      Dir(r.value) == Dir(e.path) && Base(r.value) == render(e.name).text
  {
    match render(e.name)
    case Ok(newName) => Some(Join(Dir(e.path), newName))
    case _ => None
  }

  /** One file job on the file contents `fs`. A failure to render the name,
      to read the file or to parse its content ends the job with no effect.
      Otherwise the target is created; a failed execution leaves the partial
      output in it and keeps the original; a successful one writes the
      output and removes the original when the path changed. */
  function FileJob(e: Entry, fs: map<string, string>, render: Renderer): (fs': map<string, string>)
    ensures forall p :: p != e.path && Target(e, render) != Some(p) ==>
      (p in fs' <==> p in fs) && (p in fs ==> fs'[p] == fs[p])
    ensures forall p :: p in fs && p !in fs' ==>
      p == e.path && Target(e, render).Some? && Target(e, render).value != e.path
    ensures e.path !in fs || Target(e, render).None? ==> fs' == fs
    ensures e.path in fs && Target(e, render).Some? && render(fs[e.path]).Ok? ==>
      && Target(e, render).value in fs' && fs'[Target(e, render).value] == render(fs[e.path]).text
      && (Target(e, render).value != e.path ==> e.path !in fs')
    ensures e.path in fs && render(fs[e.path]).ParseError? ==> fs' == fs
    ensures e.path in fs && Target(e, render).Some? && render(fs[e.path]).ExecError? ==>
      && Target(e, render).value in fs' && fs'[Target(e, render).value] == render(fs[e.path]).partial
      && e.path in fs'
      && (Target(e, render).value != e.path ==> fs'[e.path] == fs[e.path])
  {
    match render(e.name)
    case Ok(newName) =>
      var newPath := Join(Dir(e.path), newName);
      if e.path !in fs then fs
      else
        (match render(fs[e.path])
         case ParseError => fs
         case ExecError(partial) => fs[newPath := partial]
         case Ok(out) => if e.path != newPath then fs[newPath := out] - {e.path} else fs[newPath := out])
    case _ => fs
  }

  /** The file contents after running `jobs` in order. */
  function ApplyFileJobs(jobs: seq<Entry>, fs: map<string, string>, render: Renderer): (fs': map<string, string>)
    ensures forall p :: p in fs' && p !in fs ==> exists j :: j in jobs && Target(j, render) == Some(p)
  {
    if jobs == [] then fs
    else
      var init := jobs[..|jobs| - 1];
      var last := jobs[|jobs| - 1];
      var m := ApplyFileJobs(init, fs, render);
      assert forall j :: j in init ==> j in jobs;
      FileJob(last, m, render)
  }

  /** Running two lists of jobs one after the other. */
  lemma {:induction false} ApplyFileJobsAppend(a: seq<Entry>, b: seq<Entry>, fs: map<string, string>, render: Renderer)
    ensures ApplyFileJobs(a + b, fs, render) == ApplyFileJobs(b, ApplyFileJobs(a, fs, render), render)
  {
    if b == [] {
      assert a + b == a;
    } else {
      var init, last := b[..|b| - 1], b[|b| - 1];
      ApplyFileJobsAppend(a, init, fs, render);
      assert (a + b)[..|a + b| - 1] == a + init;
      assert (a + b)[|a + b| - 1] == last;
      assert ApplyFileJobs(a + b, fs, render) == FileJob(last, ApplyFileJobs(a + init, fs, render), render);
    }
  }

  /** Runs the file jobs one after another. */
  method RunFileJobs(jobs: seq<Entry>, fs: map<string, string>, render: Renderer) returns (fs': map<string, string>)
    ensures fs' == ApplyFileJobs(jobs, fs, render)
  {
    fs' := fs;
    for i := 0 to |jobs|
      invariant fs' == ApplyFileJobs(jobs[..i], fs, render)
    {
      assert jobs[..i + 1][..i] == jobs[..i];
      fs' := FileJob(jobs[i], fs', render);
    }
    assert jobs[..|jobs|] == jobs;
  }

  /** A file that no job reads and no job writes keeps its content. */
  lemma {:induction false} UntouchedFileKept(jobs: seq<Entry>, fs: map<string, string>, render: Renderer, p: string)
    requires forall j :: j in jobs ==> j.path != p && Target(j, render) != Some(p)
    ensures p in ApplyFileJobs(jobs, fs, render) <==> p in fs
    ensures p in fs ==> ApplyFileJobs(jobs, fs, render)[p] == fs[p]
  {
    if jobs != [] {
      UntouchedFileKept(jobs[..|jobs| - 1], fs, render, p);
    }
  }

  /** A file disappears only through a job for that file whose rendered name
      gave a different path. */
  lemma {:induction false} RemovedOnlyWhenRenamed(jobs: seq<Entry>, fs: map<string, string>, render: Renderer, p: string)
    requires p in fs && p !in ApplyFileJobs(jobs, fs, render)
    ensures exists j :: j in jobs && j.path == p && Target(j, render).Some? && Target(j, render).value != p
  {
    var init := jobs[..|jobs| - 1];
    var last := jobs[|jobs| - 1];
    assert jobs == init + [last];
    if p in ApplyFileJobs(init, fs, render) {
      assert last.path == p;
    } else {
      RemovedOnlyWhenRenamed(init, fs, render, p);
    }
  }

  /** A job whose file no earlier job touches, and whose file and target no
      later job touches, leaves its rendered content at the target and
      removes the original when the target differs. */
  lemma JobRenderedAtTarget(before: seq<Entry>, e: Entry, after: seq<Entry>, fs: map<string, string>, render: Renderer)
    requires e.path in fs && render(e.name).Ok? && render(fs[e.path]).Ok?
    requires forall j :: j in before ==> j.path != e.path && Target(j, render) != Some(e.path)
    requires forall j :: j in after ==>
      && j.path != e.path && j.path != Target(e, render).value
      && Target(j, render) != Some(e.path) && Target(j, render) != Target(e, render)
    ensures var fs' := ApplyFileJobs(before + [e] + after, fs, render);
      var t := Target(e, render).value;
      && t in fs' && fs'[t] == render(fs[e.path]).text
      && (t != e.path ==> e.path !in fs')
  {
    var t := Target(e, render).value;
    ApplyFileJobsAppend(before + [e], after, fs, render);
    assert (before + [e])[..|before|] == before;
    UntouchedFileKept(before, fs, render, e.path);
    var m' := FileJob(e, ApplyFileJobs(before, fs, render), render);
    assert ApplyFileJobs(before + [e], fs, render) == m';
    UntouchedFileKept(after, m', render, t);
    UntouchedFileKept(after, m', render, e.path);
  }

  /** The jobs around the `i`-th one of jobs for distinct paths are for
      other paths. */
  lemma AroundJob(jobs: seq<Entry>, i: nat)
    requires i < |jobs| && DistinctPaths(jobs)
    ensures jobs == jobs[..i] + [jobs[i]] + jobs[i + 1..]
    ensures forall j :: j in jobs[..i] ==> j in jobs && j.path != jobs[i].path
    ensures forall j :: j in jobs[i + 1..] ==> j in jobs && j.path != jobs[i].path
  {
    forall j | j in jobs[..i]
      ensures j in jobs && j.path != jobs[i].path
    {
      var a :| 0 <= a < i && jobs[..i][a] == j;
      assert jobs[a] == j;
    }
    forall j | j in jobs[i + 1..]
      ensures j in jobs && j.path != jobs[i].path
    {
      var b :| 0 <= b < |jobs| - i - 1 && jobs[i + 1..][b] == j;
      assert jobs[i + 1 + b] == j;
    }
  }

  /** Among jobs for distinct paths, a job whose file and target no other
      job touches leaves its rendered content at the target and removes the
      original when the target differs. */
  lemma OnlyJobRenderedAtTarget(jobs: seq<Entry>, e: Entry, fs: map<string, string>, render: Renderer)
    requires e in jobs && DistinctPaths(jobs)
    requires e.path in fs && render(e.name).Ok? && render(fs[e.path]).Ok?
    requires forall j :: j in jobs && j != e ==>
      && j.path != Target(e, render).value
      && Target(j, render) != Some(e.path)
      && Target(j, render) != Target(e, render)
    ensures var fs' := ApplyFileJobs(jobs, fs, render);
      var t := Target(e, render).value;
      && t in fs' && fs'[t] == render(fs[e.path]).text
      && (t != e.path ==> e.path !in fs')
  {
    var i :| 0 <= i < |jobs| && jobs[i] == e;
    AroundJob(jobs, i);
    JobRenderedAtTarget(jobs[..i], e, jobs[i + 1..], fs, render);
  }

  /** Running the file jobs over a tree whose names and contents hold no
      markers (rendering gives them back unchanged) changes nothing. */
  lemma {:induction false} FileJobsIdempotent(jobs: seq<Entry>, fs: map<string, string>, render: Renderer)
    requires forall j :: j in jobs ==> Canonical(j.path) && j.name == Base(j.path) && render(j.name) == Ok(j.name)
    requires forall p :: p in fs ==> render(fs[p]) == Ok(fs[p])
    ensures ApplyFileJobs(jobs, fs, render) == fs
  {
    if jobs != [] {
      var init := jobs[..|jobs| - 1];
      var last := jobs[|jobs| - 1];
      assert last in jobs;
      FileJobsIdempotent(init, fs, render);
      FileJobIdempotent(last, fs, render);
    }
  }

  /** A single job for a file whose name and content render to themselves
      writes the content back in place. */
  lemma FileJobIdempotent(e: Entry, fs: map<string, string>, render: Renderer)
    requires Canonical(e.path) && e.name == Base(e.path) && render(e.name) == Ok(e.name)
    requires e.path in fs ==> render(fs[e.path]) == Ok(fs[e.path])
    ensures FileJob(e, fs, render) == fs
  {
    JoinDirBase(e.path);
    if e.path in fs {
      assert fs[e.path := fs[e.path]] == fs;
    }
  }
}
