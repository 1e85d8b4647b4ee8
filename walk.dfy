/** The two walks of `Templating.Run` (commands/template/template.go): which
    entries of the destination tree get a job. `filepath.Walk` is modelled
    over the list of entries it would visit in pre-order, with `SkipDir`
    keeping the walk out of everything inside the directory it was returned
    for. */
module TreeWalk {
  import opened Paths
  import opened Filter

  /** An entry of the tree: its path, its base name (`info.Name()`) and
      whether it is a directory. */
  datatype Entry = Entry(path: string, name: string, isDir: bool)

  /** The directory pass renames directories; the file pass renders files. */
  datatype Phase = Directories | Files

  /** What one invocation of a walk callback does: whether it submits a job
      for the entry, and what it returns to the walk. */
  datatype Step = Step(submit: bool, signal: Signal)

  /** The directory-pass callback: files are ignored, the filter runs on
      directories, and every directory it lets through gets a job. */
  function DirectoryStep(e: Entry, excludedDirs: set<string>, excludedExts: set<string>): (s: Step)
    ensures s.submit <==> e.isDir && !Hidden(e.name) && e.name !in excludedDirs
    ensures s.signal == SkipDir <==> Prunes(e, excludedDirs)
  {
    if !e.isDir then Step(false, Continue)
    else
      var v := Skip(e.name, e.isDir, excludedDirs, excludedExts);
      if v.skipFile then Step(false, Continue)
      else if v.signal == SkipDir then Step(false, SkipDir)
      else Step(true, Continue)
  }

  /** The file-pass callback: the filter runs first on every entry, then
      directories pass through, and every file left gets a job. */
  function FileStep(e: Entry, excludedDirs: set<string>, excludedExts: set<string>): (s: Step)
    ensures s.submit <==> !e.isDir && !Hidden(e.name) && Ext("." + e.name) !in excludedExts
    ensures s.signal == SkipDir <==> Prunes(e, excludedDirs)
  {
    var v := Skip(e.name, e.isDir, excludedDirs, excludedExts);
    if v.skipFile then Step(false, Continue)
    else if v.signal == SkipDir then Step(false, SkipDir)
    else if e.isDir then Step(false, Continue)
    else Step(true, Continue)
  }

  /** The callback of the walk of `phase`. Each pass submits only entries of
      its own kind and never a hidden one, and both refuse exactly the hidden
      and excluded directories. */
  function Callback(phase: Phase, e: Entry, excludedDirs: set<string>, excludedExts: set<string>): (s: Step)
    ensures s.submit ==> (e.isDir <==> phase == Directories) && !Hidden(e.name)
    ensures s.signal == SkipDir <==> Prunes(e, excludedDirs)
  {
    match phase
    case Directories => DirectoryStep(e, excludedDirs, excludedExts)
    case Files => FileStep(e, excludedDirs, excludedExts)
  }

  /** A directory that neither walk descends into: hidden or excluded. */
  predicate Prunes(e: Entry, excludedDirs: set<string>) {
    e.isDir && (Hidden(e.name) || e.name in excludedDirs)
  }

  /** Entry `k` lies inside a pruned directory listed before it. */
  ghost predicate Shadowed(entries: seq<Entry>, k: nat, excludedDirs: set<string>)
    requires k < |entries|
  {
    exists i :: 0 <= i < k && Prunes(entries[i], excludedDirs) && Below(entries[k].path, entries[i].path)
  }

  /** Entry `k` gets a job: no pruned directory hides it and its callback
      submits. */
  ghost predicate Admitted(entries: seq<Entry>, k: nat, phase: Phase, excludedDirs: set<string>, excludedExts: set<string>)
    requires k < |entries|
  {
    !Shadowed(entries, k, excludedDirs) && Callback(phase, entries[k], excludedDirs, excludedExts).submit
  }

  /** For every entry, whether it gets a job. */
  ghost function Admissions(entries: seq<Entry>, phase: Phase, excludedDirs: set<string>, excludedExts: set<string>): (flags: seq<bool>)
    ensures |flags| == |entries|
    ensures forall k :: 0 <= k < |entries| ==> flags[k] == Admitted(entries, k, phase, excludedDirs, excludedExts)
  {
    seq(|entries|, k requires 0 <= k < |entries| => Admitted(entries, k, phase, excludedDirs, excludedExts))
  }

  /** The entries among the first `n` whose flag is set, in listing order. */
  function Kept(entries: seq<Entry>, flags: seq<bool>, n: nat): seq<Entry>
    requires n <= |entries| == |flags|
  {
    if n == 0 then []
    else Kept(entries, flags, n - 1) + (if flags[n - 1] then [entries[n - 1]] else [])
  }

  /** The jobs of a whole walk, in submission order. */
  ghost function WalkJobs(entries: seq<Entry>, phase: Phase, excludedDirs: set<string>, excludedExts: set<string>): seq<Entry> {
    Kept(entries, Admissions(entries, phase, excludedDirs, excludedExts), |entries|)
  }

  /** `filepath.Walk` with one of the two callbacks: visits the entries in
      order, skips everything inside a directory for which the callback
      returned `SkipDir`, and collects the submitted jobs. */
  method Walk(entries: seq<Entry>, phase: Phase, excludedDirs: set<string>, excludedExts: set<string>)
    returns (jobs: seq<Entry>)
    ensures jobs == WalkJobs(entries, phase, excludedDirs, excludedExts)
  {
    var pruned: set<string> := {};
    ghost var origin: map<string, nat> := map[];
    ghost var cover: seq<string> := [];
    ghost var flags := Admissions(entries, phase, excludedDirs, excludedExts);
    jobs := [];
    for k := 0 to |entries|
      invariant jobs == Kept(entries, flags, k)
      invariant PrunedUpTo(entries, k, pruned, origin, cover, excludedDirs)
    {
      pruned, jobs, origin, cover := Visit(entries, k, phase, excludedDirs, excludedExts, flags, pruned, jobs, origin, cover);
    }
  }

  /** The walk visits entry `k`: it stays out when a refused directory
      contains the entry, and otherwise runs the callback, submitting a job
      or refusing the directory as the callback answers. */
  method Visit(entries: seq<Entry>, k: nat, phase: Phase, excludedDirs: set<string>, excludedExts: set<string>,
               ghost flags: seq<bool>, pruned: set<string>, jobs: seq<Entry>, ghost origin: map<string, nat>, ghost cover: seq<string>)
    returns (pruned': set<string>, jobs': seq<Entry>, ghost origin': map<string, nat>, ghost cover': seq<string>)
    requires k < |entries| && flags == Admissions(entries, phase, excludedDirs, excludedExts)
    requires jobs == Kept(entries, flags, k) && PrunedUpTo(entries, k, pruned, origin, cover, excludedDirs)
    ensures jobs' == Kept(entries, flags, k + 1) && PrunedUpTo(entries, k + 1, pruned', origin', cover', excludedDirs)
  {
    var e := entries[k];
    var inside := exists q :: q in pruned && Below(e.path, q);
    ghost var q0: string := e.path;
    if inside {
      q0 :| q0 in pruned && Below(e.path, q0);
    }
    WalkStep(entries, k, phase, excludedDirs, excludedExts, pruned, origin, cover, inside, q0);
    pruned', jobs', origin' := pruned, jobs, origin;
    if !inside {
      var step := Callback(phase, e, excludedDirs, excludedExts);
      if step.signal == SkipDir {
        pruned' := pruned + {e.path};
        origin' := origin[e.path := k];
      }
      if step.submit {
        jobs' := jobs + [e];
      }
    }
    cover' := cover + [q0];
  }

  /** One step of the walk: entry `k` gets a job exactly when the walk is
      not kept out of it and its callback submits; the refused directories
      grow by the entry when the callback returns `SkipDir` for it. */
  lemma WalkStep(entries: seq<Entry>, k: nat, phase: Phase, excludedDirs: set<string>, excludedExts: set<string>,
                 pruned: set<string>, origin: map<string, nat>, cover: seq<string>, inside: bool, q0: string)
    requires k < |entries| && PrunedUpTo(entries, k, pruned, origin, cover, excludedDirs)
    requires inside <==> exists q :: q in pruned && Below(entries[k].path, q)
    requires inside ==> q0 in pruned && Below(entries[k].path, q0)
    requires !inside ==> q0 == entries[k].path
    ensures var step := Callback(phase, entries[k], excludedDirs, excludedExts);
      && (Admitted(entries, k, phase, excludedDirs, excludedExts) <==> !inside && step.submit)
      && (!inside && step.signal == SkipDir ==>
            PrunedUpTo(entries, k + 1, pruned + {entries[k].path}, origin[entries[k].path := k], cover + [q0], excludedDirs))
      && (!(!inside && step.signal == SkipDir) ==>
            PrunedUpTo(entries, k + 1, pruned, origin, cover + [q0], excludedDirs))
  {
    InsideIffShadowed(entries, k, pruned, origin, cover, excludedDirs);
    PrunedNext(entries, k, pruned, origin, cover, excludedDirs, inside, q0);
  }

  /** The directories the walk has refused to enter among the first `k`
      entries: `origin` names, for each, the pruned entry it is the path of;
      `cover` names, for every pruned entry, one of them containing it. */
  ghost predicate PrunedUpTo(entries: seq<Entry>, k: nat, pruned: set<string>, origin: map<string, nat>,
                             cover: seq<string>, excludedDirs: set<string>)
    requires k <= |entries|
  {
    && pruned == origin.Keys
    && (forall q {:trigger origin[q]} :: q in origin ==>
          origin[q] < k && Prunes(entries[origin[q]], excludedDirs) && entries[origin[q]].path == q)
    && |cover| == k
    && (forall i {:trigger cover[i]} :: 0 <= i < k && Prunes(entries[i], excludedDirs) ==>
          cover[i] in pruned && AtOrBelow(entries[i].path, cover[i]))
  }

  lemma PrunedNext(entries: seq<Entry>, k: nat, pruned: set<string>, origin: map<string, nat>,
                   cover: seq<string>, excludedDirs: set<string>, inside: bool, q0: string)
    requires k < |entries| && PrunedUpTo(entries, k, pruned, origin, cover, excludedDirs)
    requires inside ==> q0 in pruned && Below(entries[k].path, q0)
    requires !inside ==> q0 == entries[k].path
    ensures var e := entries[k];
      if !inside && Prunes(e, excludedDirs)
      then PrunedUpTo(entries, k + 1, pruned + {e.path}, origin[e.path := k], cover + [q0], excludedDirs)
      else PrunedUpTo(entries, k + 1, pruned, origin, cover + [q0], excludedDirs)
  {
    var e := entries[k];
    var cover' := cover + [q0];
    var (pruned', origin') :=
      if !inside && Prunes(e, excludedDirs) then (pruned + {e.path}, origin[e.path := k]) else (pruned, origin);
    assert pruned' == origin'.Keys;
    forall q | q in origin'
      ensures origin'[q] < k + 1 && Prunes(entries[origin'[q]], excludedDirs) && entries[origin'[q]].path == q
    {
      if q != e.path || !(!inside && Prunes(e, excludedDirs)) {
        assert origin'[q] == origin[q];
      }
    }
    forall i | 0 <= i < k + 1 && Prunes(entries[i], excludedDirs)
      ensures cover'[i] in pruned' && AtOrBelow(entries[i].path, cover'[i])
    {
      if i < k {
        assert cover'[i] == cover[i];
      }
    }
  }

  /** The walk stays out of entry `k` exactly when a pruned directory listed
      before it contains it. */
  lemma InsideIffShadowed(entries: seq<Entry>, k: nat, pruned: set<string>, origin: map<string, nat>,
                          cover: seq<string>, excludedDirs: set<string>)
    requires k < |entries| && PrunedUpTo(entries, k, pruned, origin, cover, excludedDirs)
    ensures (exists q :: q in pruned && Below(entries[k].path, q)) <==> Shadowed(entries, k, excludedDirs)
  {
    if Shadowed(entries, k, excludedDirs) {
      var i :| 0 <= i < k && Prunes(entries[i], excludedDirs) && Below(entries[k].path, entries[i].path);
      BelowTransitive(entries[k].path, entries[i].path, cover[i]);
    }
    if q :| q in pruned && Below(entries[k].path, q) {
      assert Prunes(entries[origin[q]], excludedDirs);
    }
  }

  /** Every ancestor directory is listed before what it contains, as in a
      pre-order walk. */
  ghost predicate AncestorsFirst(entries: seq<Entry>) {
    forall i, k :: 0 <= i < |entries| && 0 <= k < |entries| && Below(entries[k].path, entries[i].path) ==> i < k
  }

  /** No two entries share a path. */
  ghost predicate UniquePaths(entries: seq<Entry>) {
    forall i, k :: 0 <= i < |entries| && 0 <= k < |entries| && entries[i].path == entries[k].path ==> i == k
  }

  /** Entry `e` is inside no pruned directory of the listing. */
  ghost predicate Reachable(entries: seq<Entry>, e: Entry, excludedDirs: set<string>) {
    forall i :: 0 <= i < |entries| && Prunes(entries[i], excludedDirs) ==> !Below(e.path, entries[i].path)
  }

  /** An entry is kept exactly when it is listed with its flag set. */
  lemma {:induction false} KeptMembers(entries: seq<Entry>, flags: seq<bool>, n: nat, e: Entry)
    requires n <= |entries| == |flags|
    ensures e in Kept(entries, flags, n) <==> exists k :: 0 <= k < n && entries[k] == e && flags[k]
  {
    if n > 0 {
      KeptMembers(entries, flags, n - 1, e);
    }
  }

  /** No path occurs twice in `s`. */
  predicate DistinctPaths(s: seq<Entry>) {
    forall a, b :: 0 <= a < b < |s| ==> s[a].path != s[b].path
  }

  /** Of a listing without repeated paths, the kept entries have distinct
      paths too. */
  lemma {:induction false} KeptPathsDistinct(entries: seq<Entry>, flags: seq<bool>, n: nat)
    requires n <= |entries| == |flags| && UniquePaths(entries)
    ensures DistinctPaths(Kept(entries, flags, n))
  {
    if n > 0 {
      KeptPathsDistinct(entries, flags, n - 1);
      var prev := Kept(entries, flags, n - 1);
      var kept := Kept(entries, flags, n);
      if flags[n - 1] {
        assert kept == prev + [entries[n - 1]];
        forall a, b | 0 <= a < b < |kept|
          ensures kept[a].path != kept[b].path
        {
          if b == |prev| {
            assert kept[a] == prev[a] && kept[b] == entries[n - 1];
            KeptMembers(entries, flags, n - 1, prev[a]);
            var k :| 0 <= k < n - 1 && entries[k] == prev[a] && flags[k];
            assert entries[k].path != entries[n - 1].path;
          } else {
            assert kept[a] == prev[a] && kept[b] == prev[b];
          }
        }
      }
    }
  }

  /** In a pre-order listing, an entry gets a job exactly when its callback
      submits one and no pruned directory contains it: no job is ever made
      at or below a hidden or excluded directory. */
  lemma JobsExactly(entries: seq<Entry>, phase: Phase, excludedDirs: set<string>, excludedExts: set<string>, e: Entry)
    requires AncestorsFirst(entries)
    ensures e in WalkJobs(entries, phase, excludedDirs, excludedExts) <==>
      e in entries && Callback(phase, e, excludedDirs, excludedExts).submit && Reachable(entries, e, excludedDirs)
  {
    var flags := Admissions(entries, phase, excludedDirs, excludedExts);
    KeptMembers(entries, flags, |entries|, e);
    if e in entries && Callback(phase, e, excludedDirs, excludedExts).submit && Reachable(entries, e, excludedDirs) {
      var k :| 0 <= k < |entries| && entries[k] == e;
      assert !Shadowed(entries, k, excludedDirs);
    }
  }

  /** The directory pass makes jobs only for visible, non-excluded
      directories outside every pruned directory, and for all of them. */
  lemma DirectoryJobsExactly(entries: seq<Entry>, excludedDirs: set<string>, excludedExts: set<string>, e: Entry)
    requires AncestorsFirst(entries)
    ensures e in WalkJobs(entries, Directories, excludedDirs, excludedExts) <==>
      && e in entries && e.isDir && !Hidden(e.name) && e.name !in excludedDirs
      && Reachable(entries, e, excludedDirs)
  {
    JobsExactly(entries, Directories, excludedDirs, excludedExts, e);
  }

  /** The file pass makes jobs only for visible files without a binary
      extension outside every pruned directory, and for all of them. */
  lemma FileJobsExactly(entries: seq<Entry>, excludedDirs: set<string>, excludedExts: set<string>, e: Entry)
    requires AncestorsFirst(entries)
    ensures e in WalkJobs(entries, Files, excludedDirs, excludedExts) <==>
      && e in entries && !e.isDir && !Hidden(e.name) && Ext("." + e.name) !in excludedExts
      && Reachable(entries, e, excludedDirs)
  {
    JobsExactly(entries, Files, excludedDirs, excludedExts, e);
  }
}
