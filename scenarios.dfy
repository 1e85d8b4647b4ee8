/** A small project tree run through both passes: the project name marker
    in a directory or file name is rendered, the hidden `.git` directory and
    the binary image are left alone. */
module Scenarios {
  import opened Wrappers
  import opened Paths
  import opened Filter
  import opened TreeWalk
  import opened RenderJobs

  const Marker := "butler{.Project.Name}"

  /** Renders the project name marker to "demo"; every other text renders
      to itself. */
  function DemoRender(s: string): Rendered {
    if s == Marker then Ok("demo") else Ok(s)
  }

  /** A tree for the directory pass, in the order `filepath.Walk` visits it:
      pre-order, the names of each directory in lexical order (".git" before
      the marker, the marker before "logo.png"). */
  function DemoTree(): seq<Entry> {
    [ Entry("src", "src", true),
      Entry("src/.git", ".git", true),
      Entry("src/.git/HEAD", "HEAD", false),
      Entry("src/" + Marker, Marker, true),
      Entry("src/" + Marker + "/" + Marker, Marker, false),
      Entry("src/" + Marker + "/logo.png", "logo.png", false) ]
  }

  /** A tree for the file pass, in the order `filepath.Walk` visits it. */
  function DemoFiles(): seq<Entry> {
    [ Entry("src", "src", true),
      Entry("src/.git", ".git", true),
      Entry("src/.git/HEAD", "HEAD", false),
      Entry("src/" + Marker, Marker, false),
      Entry("src/logo.png", "logo.png", false) ]
  }

  /** The marker renders to "demo" inside the project root. */
  lemma RootJoin()
    ensures Join(".", "src") == "src"
  {
    assert Element("src");
    JoinElement(".", "src");
  }

  lemma DemoJoin()
    ensures Join("src", "demo") == "src/demo"
  {
    assert Element("demo");
    JoinElement("src", "demo");
  }

  /** Only ".git" among the names is hidden; the marker is a single element. */
  lemma DemoNames()
    ensures Hidden(".git") && !Hidden("src") && !Hidden("demo") && !Hidden(Marker)
    ensures '/' !in Marker
  {
    assert ".git"[..1] == ".";
    assert "src"[0] != '.' && "demo"[0] != '.' && Marker[0] != '.';
    assert forall j :: 0 <= j < |Marker| ==> Marker[j] != '/';
  }

  /** In a tree of this shape only `.git` is refused. */
  lemma DemoPrunes(t: seq<Entry>)
    requires t == DemoTree() || t == DemoFiles()
    ensures Prunes(t[1], {})
    ensures forall i :: 0 <= i < |t| && i != 1 ==> !Prunes(t[i], {})
  {
    DemoNames();
  }

  /** In a tree of this shape only the entry at index 2 lies inside `.git`. */
  lemma DemoInsideGit(t: seq<Entry>)
    requires t == DemoTree() || t == DemoFiles()
    ensures Below(t[2].path, t[1].path)
    ensures forall k :: 3 <= k < |t| ==> !Below(t[k].path, t[1].path)
  {
    assert t[2].path[..9] == "src/.git/";
    forall k | 3 <= k < |t| ensures !Below(t[k].path, t[1].path) {
      assert t[k].path[4] != "src/.git/"[4];
    }
  }

  /** In a tree of this shape the walk stays out of the entry inside `.git`
      and out of nothing else. */
  lemma DemoShadowing(t: seq<Entry>)
    requires t == DemoTree() || t == DemoFiles()
    ensures !Shadowed(t, 0, {}) && !Shadowed(t, 1, {}) && Shadowed(t, 2, {})
    ensures forall k :: 3 <= k < |t| ==> !Shadowed(t, k, {})
  {
    DemoPrunes(t);
    DemoInsideGit(t);
  }

  /** The directory pass admits the project root and the marker directory. */
  lemma DemoDirectoryAdmissions()
    ensures var a := Admissions(DemoTree(), Directories, {}, {".png"});
      a[0] && !a[1] && !a[2] && a[3] && !a[4] && !a[5]
  {
    DemoNames();
    DemoShadowing(DemoTree());
  }

  /** Keeping the entries at indices 0 and 3 of six. */
  lemma KeptFirstAndFourth(t: seq<Entry>, flags: seq<bool>)
    requires |t| == |flags| == 6
    requires flags[0] && !flags[1] && !flags[2] && flags[3] && !flags[4] && !flags[5]
    ensures Kept(t, flags, 6) == [t[0], t[3]]
  {
    assert Kept(t, flags, 1) == [t[0]];
    assert Kept(t, flags, 3) == [t[0]];
    assert Kept(t, flags, 4) == [t[0], t[3]];
  }

  /** The directory pass submits the project root and the marker directory. */
  lemma DemoDirectoryJobs()
    ensures WalkJobs(DemoTree(), Directories, {}, {".png"}) == [DemoTree()[0], DemoTree()[3]]
  {
    DemoDirectoryAdmissions();
    KeptFirstAndFourth(DemoTree(), Admissions(DemoTree(), Directories, {}, {".png"}));
  }

  /** The project root's job records nothing: its name holds no marker. */
  lemma DemoRootKept()
    ensures DirectoryJob(DemoTree()[0], DemoRender) == None
  {
    assert LastSlash("src") == -1;
    RootJoin();
  }

  /** The marker directory's job records "src/demo". */
  lemma DemoDirectoryRenames()
    ensures DirectoryJob(DemoTree()[3], DemoRender) == Some("src/demo")
  {
    var t := DemoTree();
    DemoNames();
    DemoJoin();
    LastSlashOfJoined("src", Marker);
    assert t[3].path == "src" + "/" + Marker;
    assert Dir(t[3].path) == "src";
    assert DirectoryName(t[3], DemoRender) == Some("demo");
    assert t[3].path != "src/demo" by { assert t[3].path[4] != "src/demo"[4]; }
  }

  /** Only the marker directory is recorded for renaming, to "src/demo". */
  /** Two directory jobs of which only the second records a rename. */
  lemma SecondRenamed(a: Entry, b: Entry, render: Renderer, p: string)
    requires DirectoryJob(a, render) == None && DirectoryJob(b, render) == Some(p)
    ensures RecordRenamings([a, b], render) == map[b.path := p]
  {
    assert [a, b][..1] == [a];
    assert [a][..0] == [];
    assert RecordRenamings([a], render) == map[];
  }

  lemma DemoDirectoryPass()
    ensures RecordRenamings(WalkJobs(DemoTree(), Directories, {}, {".png"}), DemoRender)
      == map["src/" + Marker := "src/demo"]
  {
    var t := DemoTree();
    DemoDirectoryJobs();
    DemoRootKept();
    DemoDirectoryRenames();
    SecondRenamed(t[0], t[3], DemoRender, "src/demo");
  }

  /** The image's extension is binary. */
  lemma DemoImageExt()
    ensures Ext("." + "logo.png") == ".png"
  {
    assert "." + "logo.png" == ".logo.png";
    LastDotOrSlashAt(".logo.png", 5);
  }

  /** The marker file's extension is not. */
  lemma DemoMarkerExt()
    ensures Ext("." + Marker) != ".png"
  {
    var p := "." + Marker;
    assert p[|p| - 1] == '}';
  }

  /** The file pass admits only the marker file. */
  lemma DemoFileAdmissions()
    ensures var a := Admissions(DemoFiles(), Files, {}, {".png"});
      !a[0] && !a[1] && !a[2] && a[3] && !a[4]
  {
    DemoFileAdmissionsBefore();
    DemoFileAdmissionsAfter();
  }

  lemma DemoFileAdmissionsBefore()
    ensures var a := Admissions(DemoFiles(), Files, {}, {".png"});
      !a[0] && !a[1] && !a[2]
  {
    DemoShadowing(DemoFiles());
  }

  lemma DemoFileAdmissionsAfter()
    ensures var a := Admissions(DemoFiles(), Files, {}, {".png"});
      a[3] && !a[4]
  {
    DemoMarkerAdmitted();
    DemoImageRefused();
  }

  lemma DemoMarkerAdmitted()
    ensures Admissions(DemoFiles(), Files, {}, {".png"})[3]
  {
    DemoShadowing(DemoFiles());
    DemoMarkerStep();
  }

  /** The marker file passes the file filter. */
  lemma DemoMarkerStep()
    ensures FileStep(DemoFiles()[3], {}, {".png"}).submit
  {
    DemoMarkerExt();
    DemoNames();
  }

  lemma DemoImageRefused()
    ensures !Admissions(DemoFiles(), Files, {}, {".png"})[4]
  {
    DemoImageExt();
  }

  /** Keeping only the fourth of five entries. */
  lemma KeptFourth(t: seq<Entry>, flags: seq<bool>)
    requires |t| == |flags| == 5
    requires !flags[0] && !flags[1] && !flags[2] && flags[3] && !flags[4]
    ensures Kept(t, flags, 5) == [t[3]]
  {
    assert Kept(t, flags, 1) == [];
    assert Kept(t, flags, 3) == [];
    assert Kept(t, flags, 4) == [t[3]];
  }

  /** The file pass submits only the file named after the marker: the file
      inside `.git` is never reached and the image has a binary extension. */
  lemma DemoFileJobs()
    ensures WalkJobs(DemoFiles(), Files, {}, {".png"}) == [DemoFiles()[3]]
  {
    DemoFileAdmissions();
    KeptFourth(DemoFiles(), Admissions(DemoFiles(), Files, {}, {".png"}));
  }

  /** The marker file is written to "src/demo". */
  lemma DemoFileTarget()
    ensures Target(DemoFiles()[3], DemoRender) == Some("src/demo")
  {
    var e := DemoFiles()[3];
    DemoNames();
    DemoJoin();
    LastSlashOfJoined("src", Marker);
    assert e.path == "src" + "/" + Marker;
    assert Dir(e.path) == "src";
    assert DemoRender(e.name) == Ok("demo");
  }

  /** After the file pass the marker file is replaced by "src/demo" with the
      rendered content; the file inside `.git` and the image keep their
      content although it holds the marker too. */
  /** A file pass whose only job renders a file to a different path. */
  lemma MovedFile(entries: seq<Entry>, fs: map<string, string>, render: Renderer, e: Entry, t: string, out: string)
    requires WalkJobs(entries, Files, {}, {".png"}) == [e]
    requires Target(e, render) == Some(t) && t != e.path
    requires e.path in fs && render(fs[e.path]) == Ok(out)
    ensures ApplyFileJobs(WalkJobs(entries, Files, {}, {".png"}), fs, render) == fs[t := out] - {e.path}
  {
    assert [e][..0] == [];
  }

  /** Moving the content under one key of a three-entry map to a new key. */
  lemma MovedKey(k1: string, k2: string, k3: string, k4: string, v1: string, v2: string, v3: string, v4: string)
    requires k3 != k1 && k3 != k2 && k3 != k4 && k4 != k1 && k4 != k2
    ensures map[k1 := v1, k2 := v2, k3 := v3][k4 := v4] - {k3} == map[k1 := v1, k2 := v2, k4 := v4]
  {
  }

  lemma DemoFilePass()
    ensures ApplyFileJobs(WalkJobs(DemoFiles(), Files, {}, {".png"}),
                          map["src/.git/HEAD" := Marker, "src/logo.png" := Marker, "src/" + Marker := Marker],
                          DemoRender)
      == map["src/.git/HEAD" := Marker, "src/logo.png" := Marker, "src/demo" := "demo"]
  {
    var e := DemoFiles()[3];
    var fs := map["src/.git/HEAD" := Marker, "src/logo.png" := Marker, e.path := Marker];
    assert e.path != "src/demo" by { assert e.path[4] != "src/demo"[4]; }
    assert e.path != "src/logo.png" by { assert e.path[4] != "src/logo.png"[4]; }
    assert e.path != "src/.git/HEAD" by { assert e.path[4] != "src/.git/HEAD"[4]; }
    assert "src/demo" != "src/logo.png" && "src/demo" != "src/.git/HEAD";
    DemoFileJobs();
    DemoFileTarget();
    MovedFile(DemoFiles(), fs, DemoRender, e, "src/demo", "demo");
    MovedKey("src/.git/HEAD", "src/logo.png", e.path, "src/demo", Marker, Marker, Marker, "demo");
  }
}
