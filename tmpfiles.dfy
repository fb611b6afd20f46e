/** `create_tmpfile_dir`: the directories packages ship below `/var` are recorded as
    systemd-tmpfiles `L` rules, so that a fresh, empty `/var` is repopulated with
    links into `usr/rootdirs/var` at boot. */
module Tmpfiles {
  import opened Strings
  import opened FileTree
  import opened Steps

  /** One package of the apt cache: its name and its `installed_files`. */
  datatype Package = Package(name: string, installedFiles: seq<string>)

  /** Packages whose files never give rise to rules (`excluded_packages`). */
  const ExcludedPackages: seq<string> :=
    ["ucf", "base-files", "systemd", "init-system-helpers", "dbus", "policykit-1",
     "polkitd", "debconf"]

  /** Paths that get no rule of their own. */
  const BasePaths: seq<string> :=
    ["/var", "/var/lock", "/var/cache", "/var/spool", "/var/log", "/var/lib"]

  const ConfPath: Path := ["usr", "lib", "tmpfiles.d", "ostree-integration-autovar.conf"]

  const Header: string := "# Auto-genernated by apt-ostree\n"

  const RulePrefix: string := "L "
  const RuleMiddle: string := " - - - - ../../usr/rootdirs"

  /** A package counts when it owns `/var` itself and is not excluded. */
  predicate Contributes(p: Package) {
    "/var" in p.installedFiles && p.name !in ExcludedPackages
  }

  /** The files of one package whose text starts with "/var", in order. */
  function VarFiles(files: seq<string>): (r: seq<string>)
    ensures |r| <= |files|
    decreases |files|
  {
    if files == [] then []
    else
      var f := files[|files| - 1];
      VarFiles(files[..|files| - 1]) + (if StartsWith(f, "/var") then [f] else [])
  }

  /** `dirs` after the loop over the cache: package order, then file order,
      duplicates kept. */
  function Collected(cache: seq<Package>): seq<string>
    decreases |cache|
  {
    if cache == [] then []
    else
      var p := cache[|cache| - 1];
      Collected(cache[..|cache| - 1]) + (if Contributes(p) then VarFiles(p.installedFiles) else [])
  }

  function Rule(d: string): string {
    RulePrefix + d + RuleMiddle + d + "\n"
  }

  /** The rules written for the collected paths, skipping the base paths. */
  function Rules(dirs: seq<string>): seq<string>
    decreases |dirs|
  {
    if dirs == [] then []
    else
      var d := dirs[|dirs| - 1];
      Rules(dirs[..|dirs| - 1]) + (if d in BasePaths then [] else [Rule(d)])
  }

  /** The lines of the configuration file. */
  function ConfLines(dirs: seq<string>): seq<string> {
    [Header] + Rules(dirs)
  }

  /** `conf.exists()` then `os.unlink(conf)`, then `open(conf, "w")` and the writes.
      A directory in the way makes `unlink` raise; a missing `usr/lib/tmpfiles.d`
      makes `open` raise. Nothing collected: nothing written, nothing removed. */
  function CreateTmpfileDir(t: Tree, cache: seq<Package>): Run {
    var dirs := Collected(cache);
    if dirs == [] then Run(t, Done)
    else if ConfPath in t && t[ConfPath].Dir? then Run(t, Failed(Raised))
    else
      var t1 := t - {ConfPath};
      if !IsDir(t1, Parent(ConfPath)) then Run(t1, Failed(Raised))
      else Run(t1[ConfPath := File(ConfLines(dirs))], Done)
  }

  // ---------------------------------------------------------------------------
  // What gets collected

  lemma {:induction false} VarFilesExactly(files: seq<string>, d: string)
    ensures d in VarFiles(files) <==> d in files && StartsWith(d, "/var")
    decreases |files|
  {
    if files != [] {
      var init := files[..|files| - 1];
      VarFilesExactly(init, d);
      assert files == init + [files[|files| - 1]];
    }
  }

  /** A path is collected exactly when a contributing package lists it and its text
      starts with "/var" (so `/variety` counts as well as `/var/lib`). */
  lemma {:induction false} CollectedExactly(cache: seq<Package>, d: string)
    ensures d in Collected(cache) <==>
      exists i :: 0 <= i < |cache| && Contributes(cache[i]) && d in cache[i].installedFiles
                  && StartsWith(d, "/var")
    decreases |cache|
  {
    if cache != [] {
      var init, p := cache[..|cache| - 1], cache[|cache| - 1];
      CollectedExactly(init, d);
      VarFilesExactly(p.installedFiles, d);
      if d in Collected(cache) && !(d in Collected(init)) {
        assert Contributes(cache[|cache| - 1]) && d in cache[|cache| - 1].installedFiles;
      }
      if exists i :: 0 <= i < |cache| && Contributes(cache[i]) && d in cache[i].installedFiles
                     && StartsWith(d, "/var") {
        var i :| 0 <= i < |cache| && Contributes(cache[i]) && d in cache[i].installedFiles
                 && StartsWith(d, "/var");
        if i < |cache| - 1 {
          assert cache[i] == init[i];
        }
      }
    }
  }

  /** Packages without `/var` among their files, and excluded packages, add nothing,
      whatever else they own. */
  lemma {:induction false} NonContributorsAddNothing(cache: seq<Package>)
    requires forall i :: 0 <= i < |cache| ==> !Contributes(cache[i])
    ensures Collected(cache) == []
    decreases |cache|
  {
    if cache != [] {
      NonContributorsAddNothing(cache[..|cache| - 1]);
    }
  }

  /** With nothing collected the stage touches nothing, not even a stale file. */
  lemma NothingCollectedChangesNothing(t: Tree, cache: seq<Package>)
    requires forall i :: 0 <= i < |cache| ==> !Contributes(cache[i])
    ensures CreateTmpfileDir(t, cache) == Run(t, Done)
  {
    NonContributorsAddNothing(cache);
  }

  // ---------------------------------------------------------------------------
  // What gets written

  /** A rule names its path twice; the path can be read back from the rule. */
  lemma RuleDeterminesPath(d1: string, d2: string)
    requires Rule(d1) == Rule(d2)
    ensures d1 == d2
  {
    var r := Rule(d1);
    assert |r| == |RulePrefix| + 2 * |d1| + |RuleMiddle| + 1;
    assert |Rule(d2)| == |RulePrefix| + 2 * |d2| + |RuleMiddle| + 1;
    assert d1 == r[|RulePrefix|..|RulePrefix| + |d1|];
    assert d2 == Rule(d2)[|RulePrefix|..|RulePrefix| + |d2|];
  }

  /** The rules are one per collected path outside the base paths, in order. */
  lemma {:induction false} RulesExactly(dirs: seq<string>, line: string)
    ensures line in Rules(dirs) <==>
      exists d :: d in dirs && d !in BasePaths && line == Rule(d)
    decreases |dirs|
  {
    if dirs != [] {
      var init, d := dirs[..|dirs| - 1], dirs[|dirs| - 1];
      RulesExactly(init, line);
      assert dirs == init + [d];
      if line in Rules(dirs) && line !in Rules(init) {
        assert d in dirs && d !in BasePaths && line == Rule(d);
      }
    }
  }

  /** A path gets a rule exactly when it is collected and is not a base path. */
  lemma RuleWrittenExactly(dirs: seq<string>, d: string)
    ensures Rule(d) in Rules(dirs) <==> d in dirs && d !in BasePaths
  {
    RulesExactly(dirs, Rule(d));
    if Rule(d) in Rules(dirs) {
      var e :| e in dirs && e !in BasePaths && Rule(d) == Rule(e);
      RuleDeterminesPath(d, e);
    }
  }

  /** A successful stage that collected something leaves the header and the rules in
      the file, and every other entry as it was. */
  lemma ConfWritten(t: Tree, cache: seq<Package>, k: Path)
    requires Collected(cache) != []
    requires CreateTmpfileDir(t, cache).outcome == Done
    ensures var r := CreateTmpfileDir(t, cache).tree;
      && ConfPath in r && r[ConfPath] == File([Header] + Rules(Collected(cache)))
      && (k != ConfPath ==> Agree(r, t, k))
  {
  }

  /** Only the configuration file can change, whatever the outcome. */
  lemma TmpfilesFrame(t: Tree, cache: seq<Package>, k: Path)
    requires k != ConfPath
    ensures Agree(CreateTmpfileDir(t, cache).tree, t, k)
  {
  }

  lemma ConfNameValid()
    ensures ConfPath != [] && ValidName(ConfPath[|ConfPath| - 1])
  {
    var name := ConfPath[|ConfPath| - 1];
    assert forall i :: 0 <= i < |name| ==> name[i] != '/';
  }

  /** Whatever its outcome, the stage leaves a well-formed tree. */
  lemma TmpfilesKeepWellFormed(t: Tree, cache: seq<Package>)
    requires WellFormed(t)
    ensures WellFormed(CreateTmpfileDir(t, cache).tree)
  {
    if Collected(cache) != [] && !(ConfPath in t && t[ConfPath].Dir?) {
      ConfNameValid();
      ReplaceLeafKeepsWellFormed(t, ConfPath, File(ConfLines(Collected(cache))));
    }
  }
}
