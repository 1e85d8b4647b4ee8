/** The entry filter applied by both walks of the template engine
    (commands/template/template.go, `Skip`). */
module Filter {
  import opened Paths

  /** What a walk callback returns: `nil`, or `filepath.SkipDir` to stop the
      walk from descending into a directory. */
  datatype Signal = Continue | SkipDir

  /** The pair `(skipFile, err)` that `Skip` returns. */
  datatype Verdict = Verdict(skipFile: bool, signal: Signal)

  /** Hidden entries: the base name starts with '.'. */
  predicate Hidden(name: string) {
    HasPrefix(name, ".")
  }

  /** `Skip` for an entry with base name `name`, given the set of excluded
      directory names and the set of binary file extensions. Hidden entries
      are handled first, then excluded directories, then binary files; the
      extension is taken from "." + name. */
  function Skip(name: string, isDir: bool, excludedDirs: set<string>, excludedExts: set<string>): (v: Verdict)
    ensures v.signal == SkipDir <==> isDir && (Hidden(name) || name in excludedDirs)
    ensures v.skipFile <==> !isDir && (Hidden(name) || Ext("." + name) in excludedExts)
  {
    if HasPrefix(name, ".") then
      if isDir then Verdict(false, SkipDir) else Verdict(true, Continue)
    else if isDir && name in excludedDirs then
      Verdict(false, SkipDir)
    else if !isDir && Ext("." + name) in excludedExts then
      Verdict(true, Continue)
    else
      Verdict(false, Continue)
  }

  /** A visible file is skipped exactly when its extension is binary, where a
      name without any '.' counts as its own extension ("png" as ".png"). */
  lemma VisibleFileSkippedByExtension(name: string, excludedDirs: set<string>, excludedExts: set<string>)
    requires !Hidden(name) && '/' !in name
    ensures Skip(name, false, excludedDirs, excludedExts).skipFile <==>
      (if '.' in name then Ext(name) else "." + name) in excludedExts
    ensures Skip(name, false, excludedDirs, excludedExts).signal == Continue
  {
    ExtOfDotted(name);
  }
}
