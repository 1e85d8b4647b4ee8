/** The directory pass and the file pass of `Templating.Run`
    (commands/template/template.go): each walks the tree, submits its jobs
    and runs them; then what each pass does to the tree as a whole. */
module Passes {
  import opened Wrappers
  import opened Paths
  import opened Filter
  import opened TreeWalk
  import opened RenderJobs

  /** The directory pass: walks the tree, and for every directory it lets
      through records the directory's rename in `renamings`. */
  method DirectoryPass(entries: seq<Entry>, excludedDirs: set<string>, excludedExts: set<string>, render: Renderer)
    returns (renamings: map<string, string>)
    ensures renamings == RecordRenamings(WalkJobs(entries, Directories, excludedDirs, excludedExts), render)
  {
    var jobs := Walk(entries, Directories, excludedDirs, excludedExts);
    renamings := RunDirectoryJobs(jobs, render);
  }

  /** The file pass: walks the tree, and renders every file it lets through
      into the file contents `fs`. */
  method FilePass(entries: seq<Entry>, excludedDirs: set<string>, excludedExts: set<string>,
                  fs: map<string, string>, render: Renderer)
    returns (fs': map<string, string>)
    ensures fs' == ApplyFileJobs(WalkJobs(entries, Files, excludedDirs, excludedExts), fs, render)
  {
    var jobs := Walk(entries, Files, excludedDirs, excludedExts);
    fs' := RunFileJobs(jobs, fs, render);
  }

  /** Every job is for an entry of the listing that its callback submits. */
  lemma JobsFromEntries(entries: seq<Entry>, phase: Phase, excludedDirs: set<string>, excludedExts: set<string>)
    ensures forall j :: j in WalkJobs(entries, phase, excludedDirs, excludedExts) ==>
      j in entries && Callback(phase, j, excludedDirs, excludedExts).submit
  {
    forall j | j in WalkJobs(entries, phase, excludedDirs, excludedExts)
      ensures j in entries && Callback(phase, j, excludedDirs, excludedExts).submit
    {
      var flags := Admissions(entries, phase, excludedDirs, excludedExts);
      KeptMembers(entries, flags, |entries|, j);
    }
  }

  /** Renames are recorded only for visible, non-excluded directories outside
      every pruned directory, each to what its own job decided; and every
      such directory whose job decides on a rename has it recorded. */
  lemma RenamingsExactly(entries: seq<Entry>, excludedDirs: set<string>, excludedExts: set<string>, render: Renderer)
    requires AncestorsFirst(entries)
    ensures var renamings := RecordRenamings(WalkJobs(entries, Directories, excludedDirs, excludedExts), render);
      && (forall p :: p in renamings ==>
            exists e :: e in entries && e.path == p && e.isDir && !Hidden(e.name) && e.name !in excludedDirs
              && Reachable(entries, e, excludedDirs) && DirectoryJob(e, render) == Some(renamings[p]))
      && (forall e ::
            (e in entries && e.isDir && !Hidden(e.name) && e.name !in excludedDirs
             && Reachable(entries, e, excludedDirs) && DirectoryJob(e, render).Some?) ==> e.path in renamings)
  {
    var jobs := WalkJobs(entries, Directories, excludedDirs, excludedExts);
    RenamingsFromJobs(jobs, render);
    forall e | e in entries || e in jobs {
      DirectoryJobsExactly(entries, excludedDirs, excludedExts, e);
    }
  }

  /** A file the file pass does not render (hidden, binary, or inside a
      pruned directory) keeps its content, unless some other file is
      rendered onto its path. */
  lemma SkippedFileUntouched(entries: seq<Entry>, excludedDirs: set<string>, excludedExts: set<string>,
                             fs: map<string, string>, render: Renderer, e: Entry)
    requires AncestorsFirst(entries) && UniquePaths(entries)
    requires e in entries && !e.isDir
    requires Hidden(e.name) || Ext("." + e.name) in excludedExts || !Reachable(entries, e, excludedDirs)
    requires forall j :: j in entries && !j.isDir && j.path != e.path ==> Target(j, render) != Some(e.path)
    ensures var fs' := ApplyFileJobs(WalkJobs(entries, Files, excludedDirs, excludedExts), fs, render);
      && (e.path in fs' <==> e.path in fs)
      && (e.path in fs ==> fs'[e.path] == fs[e.path])
  {
    var jobs := WalkJobs(entries, Files, excludedDirs, excludedExts);
    forall j | j in jobs
      ensures j.path != e.path && Target(j, render) != Some(e.path)
    {
      FileJobsExactly(entries, excludedDirs, excludedExts, j);
      FileJobsExactly(entries, excludedDirs, excludedExts, e);
      var a :| 0 <= a < |entries| && entries[a] == j;
      var b :| 0 <= b < |entries| && entries[b] == e;
    }
    UntouchedFileKept(jobs, fs, render, e.path);
  }

  /** A file the file pass renders ends up at its target with the rendered
      content, and the original is gone when the target differs, provided no
      other job of the pass reads or writes either path. */
  lemma FileRenderedAtTarget(entries: seq<Entry>, excludedDirs: set<string>, excludedExts: set<string>,
                             fs: map<string, string>, render: Renderer, e: Entry)
    requires AncestorsFirst(entries) && UniquePaths(entries)
    requires e in entries && !e.isDir && !Hidden(e.name) && Ext("." + e.name) !in excludedExts
    requires Reachable(entries, e, excludedDirs)
    requires e.path in fs && render(e.name).Ok? && render(fs[e.path]).Ok?
    requires forall j :: j in WalkJobs(entries, Files, excludedDirs, excludedExts) && j != e ==>
      && j.path != Target(e, render).value
      && Target(j, render) != Some(e.path)
      && Target(j, render) != Target(e, render)
    ensures var fs' := ApplyFileJobs(WalkJobs(entries, Files, excludedDirs, excludedExts), fs, render);
      var t := Target(e, render).value;
      && t in fs' && fs'[t] == render(fs[e.path]).text
      && (t != e.path ==> e.path !in fs')
  {
    FileJobsExactly(entries, excludedDirs, excludedExts, e);
    KeptPathsDistinct(entries, Admissions(entries, Files, excludedDirs, excludedExts), |entries|);
    OnlyJobRenderedAtTarget(WalkJobs(entries, Files, excludedDirs, excludedExts), e, fs, render);
  }

  /** The file pass removes a file only when that file was rendered (a
      visible file without a binary extension outside every pruned
      directory) and its rendered name gave a different path. */
  lemma FileRemovedOnlyWhenRenamed(entries: seq<Entry>, excludedDirs: set<string>, excludedExts: set<string>,
                                   fs: map<string, string>, render: Renderer, p: string)
    requires AncestorsFirst(entries)
    requires p in fs && p !in ApplyFileJobs(WalkJobs(entries, Files, excludedDirs, excludedExts), fs, render)
    ensures exists e ::
      (&& e in entries && e.path == p && !e.isDir && !Hidden(e.name)
       && Ext("." + e.name) !in excludedExts && Reachable(entries, e, excludedDirs)
       && Target(e, render).Some? && Target(e, render).value != p)
  {
    var jobs := WalkJobs(entries, Files, excludedDirs, excludedExts);
    RemovedOnlyWhenRenamed(jobs, fs, render, p);
    var e :| e in jobs && e.path == p && Target(e, render).Some? && Target(e, render).value != p;
    FileJobsExactly(entries, excludedDirs, excludedExts, e);
  }

  /** Running the file pass over a tree that holds no markers any more (its
      names and contents render to themselves) changes nothing. */
  lemma FilePassIdempotent(entries: seq<Entry>, excludedDirs: set<string>, excludedExts: set<string>,
                           fs: map<string, string>, render: Renderer)
    requires forall e :: e in entries && !e.isDir ==>
      Canonical(e.path) && e.name == Base(e.path) && render(e.name) == Ok(e.name)
    requires forall p :: p in fs ==> render(fs[p]) == Ok(fs[p])
    ensures ApplyFileJobs(WalkJobs(entries, Files, excludedDirs, excludedExts), fs, render) == fs
  {
    JobsFromEntries(entries, Files, excludedDirs, excludedExts);
    FileJobsIdempotent(WalkJobs(entries, Files, excludedDirs, excludedExts), fs, render);
  }
}
