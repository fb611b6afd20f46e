/** The root filesystem being turned into an OSTree commit, and `create_ostree`: the
    stages run in place on the tree, each proved to do what its specification
    function in `BootSetup`, `Tmpfiles`, `Sanitize` and `Conversion` says. */
module Bootstrap {
  import opened Strings
  import opened FileTree
  import opened Steps
  import opened PathResolution
  import BootSetup
  import Tmpfiles
  import Sanitize
  import Conversion

  /** `create_ostree`: boot setup, then the tmpfiles rules, then the conversion; the
      first failure ends the run. */
  function OstreeStages(t: Tree, listing: seq<string>, cache: seq<Tmpfiles.Package>,
                        root: Path, walk: seq<Path>): Run
    requires ValidPath(root) && Sanitize.WalkEntries(walk)
  {
    var b := BootSetup.SetupBoot(t, listing);
    if b.outcome.Failed? then b
    else
      var c := Tmpfiles.CreateTmpfileDir(b.tree, cache);
      if c.outcome.Failed? then c
      else Conversion.ConvertToOstree(c.tree, root, walk)
  }

  /** The directory tree below `rootdir`. */
  class RootFs {
    var tree: Tree

    constructor (t: Tree)
      ensures tree == t
    {
      tree := t;
    }

    /** `os.rename(bootdir/name, targetdir/version/newName)`; failure is `sys.exit(1)`. */
    method RenameInto(name: string, version: string, newName: string) returns (outcome: Outcome)
      modifies this
      ensures Run(tree, outcome) == BootSetup.RenameInto(old(tree), name, version, newName)
    {
      var dst := BootSetup.InVersionDir(tree, version, newName);
      if dst.Err? {
        return Failed(Exited);
      }
      var moved := Rename(tree, BootSetup.Boot + [name], dst.value);
      if moved.Err? {
        return Failed(Exited);
      }
      tree := moved.value;
      return Done;
    }

    /** `setup_boot`: the scan of `os.listdir(bootdir)`, listed in `listing`, then the
        renames. */
    method SetupBoot(listing: seq<string>) returns (outcome: Outcome)
      modifies this
      ensures Run(tree, outcome) == BootSetup.SetupBoot(old(tree), listing)
    {
      var made := Mkdir(tree, BootSetup.Modules);
      if made.Ok? {
        tree := made.value;
      }
      if !IsDir(tree, BootSetup.Boot) {
        return Failed(Raised);
      }
      ghost var t0 := tree;
      var kernel: Option<string> := None;
      var version := "";
      var initrd: Option<string> := None;
      var dtbs: Option<string> := None;
      for i := 0 to |listing|
        invariant BootSetup.ScanListing(t0, listing[..i]) ==
                  BootSetup.Scanning(BootSetup.Scan(tree, kernel, version, initrd, dtbs))
      {
        ScanListingStep(t0, listing, i);
        var stop: Option<Outcome>;
        stop, kernel, version, initrd, dtbs := ScanEntry(listing[i], kernel, version, initrd, dtbs);
        if stop.Some? {
          ScanStops(t0, listing, i + 1);
          return stop.value;
        }
      }
      assert listing[..|listing|] == listing;
      if kernel.None? {
        return Failed(AssertionFailed);
      }
      outcome := InstallKernel(kernel.value, version, initrd);
    }

    /** One iteration of the loop of `setup_boot`: `stop` is the failure that ends it. */
    method ScanEntry(item: string, kernel: Option<string>, version: string,
                     initrd: Option<string>, dtbs: Option<string>)
      returns (stop: Option<Outcome>, kernel': Option<string>, version': string,
               initrd': Option<string>, dtbs': Option<string>)
      modifies this
      ensures var r := BootSetup.ScanItem(BootSetup.Scan(old(tree), kernel, version, initrd, dtbs), item);
        if stop.Some? then r == BootSetup.Stopped(Run(tree, stop.value))
        else r == BootSetup.Scanning(BootSetup.Scan(tree, kernel', version', initrd', dtbs'))
    {
      stop, kernel', version', initrd', dtbs' := None, kernel, version, initrd, dtbs;
      if BootSetup.IsKernel(item) {
        if kernel.Some? {
          return Some(Failed(AssertionFailed)), kernel, version, initrd, dtbs;
        }
        var v := BootSetup.KernelVersion(item);
        if v.None? {
          return Some(Failed(Raised)), kernel, version, initrd, dtbs;
        }
        kernel', version' := Some(item), v.value;
      } else if BootSetup.IsInitrd(item) {
        if initrd.Some? {
          return Some(Failed(AssertionFailed)), kernel, version, initrd, dtbs;
        }
        initrd' := Some(item);
      } else if BootSetup.IsDtbs(item) {
        if dtbs.Some? {
          return Some(Failed(AssertionFailed)), kernel, version, initrd, dtbs;
        }
        dtbs' := Some(item);
      } else if BootSetup.IsSystemMap(item) {
        var moved := ShutilMove(tree, BootSetup.Boot + [item], BootSetup.Modules);
        if moved.Ok? {
          tree := moved.value;
        }
      }
    }

    /** The two renames after the loop of `setup_boot`. */
    method InstallKernel(kernel: string, version: string, initrd: Option<string>)
      returns (outcome: Outcome)
      modifies this
      ensures Run(tree, outcome) ==
        BootSetup.InstallKernel(BootSetup.Scan(old(tree), Some(kernel), version, initrd, None))
    {
      outcome := RenameInto(kernel, version, "vmlinuz");
      if outcome.Failed? || initrd.None? {
        return;
      }
      outcome := RenameInto(initrd.value, version, "initramfs.img");
    }

    /** The loops of `create_tmpfile_dir` that gather the paths below `/var`. */
    static method CollectVarDirs(cache: seq<Tmpfiles.Package>) returns (dirs: seq<string>)
      ensures dirs == Tmpfiles.Collected(cache)
    {
      dirs := [];
      for i := 0 to |cache|
        invariant dirs == Tmpfiles.Collected(cache[..i])
      {
        var pkg := cache[i];
        CollectedStep(cache, i);
        if "/var" in pkg.installedFiles && pkg.name !in Tmpfiles.ExcludedPackages {
          var files := pkg.installedFiles;
          for j := 0 to |files|
            invariant dirs == Tmpfiles.Collected(cache[..i]) + Tmpfiles.VarFiles(files[..j])
          {
            VarFilesStep(files, j);
            if StartsWith(files[j], "/var") {
              dirs := dirs + [files[j]];
            }
          }
          assert files[..|files|] == files;
        }
      }
      assert cache[..|cache|] == cache;
    }

    /** `create_tmpfile_dir`, with the packages of the apt cache given in `cache`. */
    method CreateTmpfileDir(cache: seq<Tmpfiles.Package>) returns (outcome: Outcome)
      modifies this
      ensures Run(tree, outcome) == Tmpfiles.CreateTmpfileDir(old(tree), cache)
    {
      var dirs := CollectVarDirs(cache);
      if |dirs| == 0 {
        return Done;
      }
      var conf := Tmpfiles.ConfPath;
      if conf in tree {
        if tree[conf].Dir? {
          return Failed(Raised);
        }
        tree := tree - {conf};
      } else {
        assert tree - {conf} == tree;
      }
      if !IsDir(tree, Parent(conf)) {
        return Failed(Raised);
      }
      ghost var t1 := tree;
      tree := tree[conf := File([Tmpfiles.Header])];
      assert Tmpfiles.ConfLines(dirs[..0]) == [Tmpfiles.Header] by { assert dirs[..0] == []; }
      for j := 0 to |dirs|
        invariant tree == t1[conf := File(Tmpfiles.ConfLines(dirs[..j]))]
      {
        ConfLinesStep(dirs, j);
        assert tree[conf].content == Tmpfiles.ConfLines(dirs[..j]);
        if dirs[j] !in Tmpfiles.BasePaths {
          tree := tree[conf := File(tree[conf].content + [Tmpfiles.Rule(dirs[j])])];
        }
      }
      assert dirs[..|dirs|] == dirs;
      return Done;
    }

    /** One file of the walk: a link into `var` is removed, then replaced by a hard
        link to a file target or a copy of a directory target; an error is
        `sys.exit(1)`. */
    method SanitizeEntry(root: Path, p: Path) returns (outcome: Outcome)
      requires ValidPath(root) && Sanitize.WalkEntry(p)
      modifies this
      ensures Run(tree, outcome) == Sanitize.SanitizeOne(old(tree), root, p)
    {
      if p !in tree || !tree[p].Symlink? {
        return Done;
      }
      var link := tree[p].target;
      var target := TargetComponents(root, p, link);
      if InsideUsr(root, target) {
        return Done;
      }
      ToplevelOfTarget(root, p, link);
      RelPathIsTokens(root, Normalize(target));
      var toplevel := GetToplevel(RelPathString(root, Normalize(target)));
      if toplevel != "var" {
        return Done;
      }
      var source := Normalize(target)[|root|..];
      assert Sanitize.Classify(tree, root, p) == Sanitize.Replace(source);
      var removed := Unlink(tree, p);
      if removed.Err? {
        return Failed(Exited);
      }
      tree := removed.value;
      if source in tree && tree[source].File? {
        var linked := HardLink(tree, source, p);
        if linked.Err? {
          return Failed(Exited);
        }
        tree := linked.value;
      } else if source in tree && tree[source].Dir? {
        var copied := CopyTree(tree, source, p);
        if copied.Err? {
          return Failed(Exited);
        }
        tree := copied.value;
      }
      return Done;
    }

    /** `sanitize_usr_symlinks`, over the files the walk of `usr` reports, in order. */
    method SanitizeUsrSymlinks(root: Path, walk: seq<Path>) returns (outcome: Outcome)
      requires ValidPath(root) && Sanitize.WalkEntries(walk)
      modifies this
      ensures Run(tree, outcome) == Sanitize.SanitizeWalk(old(tree), root, walk)
    {
      for i := 0 to |walk|
        invariant Run(tree, Done) == Sanitize.SanitizeWalk(old(tree), root, walk[..i])
      {
        assert walk[..i + 1][..i] == walk[..i];
        outcome := SanitizeEntry(root, walk[i]);
        if outcome.Failed? {
          WalkStops(old(tree), root, walk, i + 1);
          return;
        }
      }
      assert walk[..|walk|] == walk;
      return Done;
    }

    /** `convert_to_ostree`, with the components of `rootdir` and the walk of `usr`
        given. */
    method ConvertToOstree(root: Path, walk: seq<Path>) returns (outcome: Outcome)
      requires ValidPath(root) && Sanitize.WalkEntries(walk)
      modifies this
      ensures Run(tree, outcome) == Conversion.ConvertToOstree(old(tree), root, walk)
    {
      outcome := SanitizeUsrSymlinks(root, walk);
      if outcome.Failed? {
        return;
      }
      outcome := MoveVar();
      if outcome.Failed? {
        return;
      }
      RemoveCruft();
      var moved := ShutilMove(tree, Conversion.Etc, Conversion.Usr);
      if moved.Err? {
        return Failed(Raised);
      }
      tree := moved.value;
      MakePlaceholders();
      outcome := SetTopLevelLinks();
    }

    /** The loop over `CRUFT`: `os.remove` of each path, errors ignored. */
    method RemoveCruft()
      modifies this
      ensures tree == Conversion.RemoveCruft(old(tree), Conversion.Cruft)
    {
      var cruft := Conversion.Cruft;
      for i := 0 to |cruft|
        invariant tree == Conversion.RemoveCruft(old(tree), cruft[..i])
      {
        assert cruft[..i + 1][..i] == cruft[..i];
        var removed := Unlink(tree, cruft[i]);
        if removed.Ok? {
          tree := removed.value;
        }
      }
      assert cruft[..|cruft|] == cruft;
    }

    /** `usr/rootdirs` made, `var` copied into it, removed and made again, empty. */
    method MoveVar() returns (outcome: Outcome)
      modifies this
      ensures Run(tree, outcome) == Conversion.MoveVar(old(tree))
    {
      var r := Mkdir(tree, Conversion.RootDirs);
      if r.Err? {
        return Failed(Raised);
      }
      tree := r.value;
      r := CopyTree(tree, Conversion.Var, Conversion.RootDirsVar);
      if r.Err? {
        return Failed(Raised);
      }
      tree := r.value;
      r := RmTree(tree, Conversion.Var);
      if r.Err? {
        return Failed(Raised);
      }
      tree := r.value;
      r := Mkdir(tree, Conversion.Var);
      if r.Err? {
        return Failed(Raised);
      }
      tree := r.value;
      return Done;
    }

    /** `ostree` and `sysroot` made with `exist_ok`; an error skips the rest. */
    method MakePlaceholders()
      modifies this
      ensures tree == Conversion.Placeholders(old(tree))
    {
      var o := Conversion.MakeDirExistOk(tree, Conversion.OstreeDir);
      if o.Err? {
        return;
      }
      tree := o.value;
      var s := Conversion.MakeDirExistOk(tree, Conversion.SysrootDir);
      if s.Ok? {
        tree := s.value;
      }
    }

    /** The loop over `TOPLEVEL_LINKS`: `shutil.rmtree` then `os.symlink` for each. */
    method SetTopLevelLinks() returns (outcome: Outcome)
      modifies this
      ensures Run(tree, outcome) == Conversion.SetLinks(old(tree), Conversion.TopLevelLinks)
    {
      var links := Conversion.TopLevelLinks;
      for i := 0 to |links|
        invariant Run(tree, Done) == Conversion.SetLinks(old(tree), links[..i])
      {
        var l := links[i];
        LinksStep(old(tree), links, i);
        var removed := RmTree(tree, l.name);
        if removed.Err? {
          LinksStop(old(tree), links, i + 1);
          return Failed(Raised);
        }
        tree := removed.value;
        var made := MakeSymlink(tree, l.name, l.target);
        if made.Err? {
          LinksStop(old(tree), links, i + 1);
          return Failed(Raised);
        }
        tree := made.value;
      }
      assert links[..|links|] == links;
      return Done;
    }

    /** `create_ostree`: the three stages in order, the first failure ending the run. */
    method CreateOstree(listing: seq<string>, cache: seq<Tmpfiles.Package>, root: Path,
                        walk: seq<Path>) returns (outcome: Outcome)
      requires ValidPath(root) && Sanitize.WalkEntries(walk)
      modifies this
      ensures Run(tree, outcome) == OstreeStages(old(tree), listing, cache, root, walk)
    {
      outcome := SetupBoot(listing);
      if outcome.Failed? {
        return;
      }
      outcome := CreateTmpfileDir(cache);
      if outcome.Failed? {
        return;
      }
      outcome := ConvertToOstree(root, walk);
    }
  }

  /** The tree the conversion starts from: after the boot and tmpfiles stages. */
  function BeforeConversion(t: Tree, listing: seq<string>, cache: seq<Tmpfiles.Package>): Tree {
    Tmpfiles.CreateTmpfileDir(BootSetup.SetupBoot(t, listing).tree, cache).tree
  }

  // ---------------------------------------------------------------------------
  // What the whole run promises

  /** The stages before the conversion touch only `boot`, `usr/lib` and the tmpfiles
      configuration. */
  lemma UntouchedBeforeConversion(t: Tree, listing: seq<string>, cache: seq<Tmpfiles.Package>,
                                  k: Path)
    requires k != [] && k[0] != "usr" && k[0] != "boot"
    ensures Agree(BeforeConversion(t, listing, cache), t, k)
  {
    assert !Under(k, BootSetup.Boot) by { assert k[..1][0] == k[0]; }
    assert !Under(k, BootSetup.UsrLib) by {
      if |k| >= 2 { assert k[..2][0] == k[0]; }
    }
    BootSetup.SetupBootFrame(t, listing, k);
    assert k != Tmpfiles.ConfPath;
    Tmpfiles.TmpfilesFrame(BootSetup.SetupBoot(t, listing).tree, cache, k);
  }

  lemma SubtreeBeforeConversion(t: Tree, listing: seq<string>, cache: seq<Tmpfiles.Package>,
                                d: Path)
    requires |d| == 1 && d[0] != "usr" && d[0] != "boot"
    ensures Subtree(BeforeConversion(t, listing, cache), d) == Subtree(t, d)
  {
    forall k | Under(k, d)
      ensures Agree(BeforeConversion(t, listing, cache), t, k)
    {
      assert k[0] == k[..1][0];
      UntouchedBeforeConversion(t, listing, cache, k);
    }
    SubtreeAgrees(BeforeConversion(t, listing, cache), t, d);
  }

  /** After a successful `create_ostree` the deployment's copy of `var` is the
      root filesystem's `var` as it was before any stage ran, `var` itself is an
      empty directory, `usr/etc` is the original `etc`, the eight top-level
      links are in place, and `sysroot`, the target of the `ostree` link, is a
      directory unless something else stood there from the start. */
  lemma StagesConvert(t: Tree, listing: seq<string>, cache: seq<Tmpfiles.Package>,
                      root: Path, walk: seq<Path>)
    requires WellFormed(t) && BootSetup.ListingNames(listing) && ValidPath(root)
    requires Sanitize.WalkOf(BeforeConversion(t, listing, cache), walk)
    requires OstreeStages(t, listing, cache, root, walk).outcome == Done
    ensures var r := OstreeStages(t, listing, cache, root, walk).tree;
      && Subtree(r, Conversion.RootDirsVar) == Subtree(t, Conversion.Var)
      && Conversion.Var in r && r[Conversion.Var] == Dir && NothingBelow(r, Conversion.Var)
      && Subtree(r, Conversion.UsrEtc) == Subtree(t, Conversion.Etc)
      && Conversion.LinksIn(r, Conversion.TopLevelLinks)
      && (Conversion.FreeForDir(t, Conversion.SysrootDir) ==> IsDir(r, Conversion.SysrootDir))
  {
    var b := BootSetup.SetupBoot(t, listing);
    BootSetup.SetupBootKeepsWellFormed(t, listing);
    Tmpfiles.TmpfilesKeepWellFormed(b.tree, cache);
    var c := BeforeConversion(t, listing, cache);
    assert OstreeStages(t, listing, cache, root, walk) == Conversion.ConvertToOstree(c, root, walk);
    Conversion.Converted(c, root, walk);
    VarAndEtcOutside();
    SubtreeBeforeConversion(t, listing, cache, Conversion.Var);
    SubtreeBeforeConversion(t, listing, cache, Conversion.Etc);
    SysrootBeforeConversion(t, listing, cache);
  }

  /** A successful run leaves every entry of plain `usr` (outside `usr/rootdirs`,
      `usr/etc` and `usr/local`) that is not a link as the stages before the
      conversion left it: the kernel and initramfs below `usr/lib/modules` and the
      tmpfiles configuration among them. */
  lemma StagesKeepPlainUsr(t: Tree, listing: seq<string>, cache: seq<Tmpfiles.Package>,
                           root: Path, walk: seq<Path>, k: Path)
    requires WellFormed(t) && BootSetup.ListingNames(listing) && ValidPath(root)
    requires Sanitize.WalkOf(BeforeConversion(t, listing, cache), walk)
    requires OstreeStages(t, listing, cache, root, walk).outcome == Done
    requires Conversion.InPlainUsr(k)
    requires k in BeforeConversion(t, listing, cache)
    requires !BeforeConversion(t, listing, cache)[k].Symlink?
    ensures var r := OstreeStages(t, listing, cache, root, walk).tree;
      k in r && r[k] == BeforeConversion(t, listing, cache)[k]
  {
    var b := BootSetup.SetupBoot(t, listing);
    BootSetup.SetupBootKeepsWellFormed(t, listing);
    Tmpfiles.TmpfilesKeepWellFormed(b.tree, cache);
    var c := BeforeConversion(t, listing, cache);
    assert OstreeStages(t, listing, cache, root, walk) == Conversion.ConvertToOstree(c, root, walk);
    Conversion.ConvertedKeepsPlainUsr(c, root, walk, k);
  }

  /** After a successful run the kernel of `boot`, unless it was a link, is
      `usr/lib/modules/<version>/vmlinuz` in the committed tree. */
  lemma StagesInstallKernel(t: Tree, listing: seq<string>, cache: seq<Tmpfiles.Package>,
                            root: Path, walk: seq<Path>, kernel: string, version: string)
    requires BootSetup.Matching(listing, BootSetup.IsKernel) == [kernel]
    requires BootSetup.KernelVersion(kernel) == Some(version)
    requires WellFormed(t) && BootSetup.ListingNames(listing) && ValidPath(root)
    requires Sanitize.WalkOf(BeforeConversion(t, listing, cache), walk)
    requires OstreeStages(t, listing, cache, root, walk).outcome == Done
    ensures BootSetup.Boot + [kernel] in t
    ensures var dst := BootSetup.VersionDir(version) + ["vmlinuz"];
      var r := OstreeStages(t, listing, cache, root, walk).tree;
      !t[BootSetup.Boot + [kernel]].Symlink? ==> dst in r && r[dst] == t[BootSetup.Boot + [kernel]]
  {
    var b := BootSetup.SetupBoot(t, listing);
    assert b.outcome == Done;
    BootSetup.KernelInstalled(t, listing);
    var dst := BootSetup.VersionDir(version) + ["vmlinuz"];
    KernelInPlainUsr(version);
    Tmpfiles.TmpfilesFrame(b.tree, cache, dst);
    if !t[BootSetup.Boot + [kernel]].Symlink? {
      StagesKeepPlainUsr(t, listing, cache, root, walk, dst);
    }
  }

  lemma KernelInPlainUsr(version: string)
    ensures var dst := BootSetup.VersionDir(version) + ["vmlinuz"];
      Conversion.InPlainUsr(dst) && dst != Tmpfiles.ConfPath
  {
    var d := BootSetup.VersionDir(version);
    var dst := d + ["vmlinuz"];
    assert d[..2] == BootSetup.UsrLib;
    assert dst[0] == d[0] && dst[1] == d[1];
    if |dst| == 4 {
      assert dst[2] == "modules" != Tmpfiles.ConfPath[2];
    }
  }

  /** After a successful run that collected rules, the tmpfiles configuration holds
      the header and the rules in the committed tree. */
  lemma StagesKeepTmpfilesConf(t: Tree, listing: seq<string>, cache: seq<Tmpfiles.Package>,
                               root: Path, walk: seq<Path>)
    requires WellFormed(t) && BootSetup.ListingNames(listing) && ValidPath(root)
    requires Sanitize.WalkOf(BeforeConversion(t, listing, cache), walk)
    requires OstreeStages(t, listing, cache, root, walk).outcome == Done
    requires Tmpfiles.Collected(cache) != []
    ensures var r := OstreeStages(t, listing, cache, root, walk).tree;
      && Tmpfiles.ConfPath in r
      && r[Tmpfiles.ConfPath] == File(Tmpfiles.ConfLines(Tmpfiles.Collected(cache)))
  {
    var b := BootSetup.SetupBoot(t, listing);
    assert b.outcome == Done && Tmpfiles.CreateTmpfileDir(b.tree, cache).outcome == Done;
    ConfBeforeConversion(b.tree, cache);
    ConfInPlainUsr();
    StagesKeepPlainUsr(t, listing, cache, root, walk, Tmpfiles.ConfPath);
  }

  lemma ConfBeforeConversion(b: Tree, cache: seq<Tmpfiles.Package>)
    requires Tmpfiles.Collected(cache) != [] && Tmpfiles.CreateTmpfileDir(b, cache).outcome == Done
    ensures var c := Tmpfiles.CreateTmpfileDir(b, cache).tree;
      Tmpfiles.ConfPath in c && c[Tmpfiles.ConfPath] == File(Tmpfiles.ConfLines(Tmpfiles.Collected(cache)))
  {
    Tmpfiles.ConfWritten(b, cache, Tmpfiles.ConfPath);
  }

  lemma ConfInPlainUsr()
    ensures Conversion.InPlainUsr(Tmpfiles.ConfPath)
  {
    assert "lib"[0] != "rootdirs"[0] && "lib"[0] != "etc"[0] && "lib"[1] != "local"[1];
  }

  lemma SysrootBeforeConversion(t: Tree, listing: seq<string>, cache: seq<Tmpfiles.Package>)
    ensures Agree(BeforeConversion(t, listing, cache), t, Conversion.SysrootDir)
  {
    assert "sysroot"[0] != "usr"[0] && "sysroot"[0] != "boot"[0];
    UntouchedBeforeConversion(t, listing, cache, Conversion.SysrootDir);
  }

  /** `var` and `etc` are neither in `usr` nor in `boot`. */
  lemma VarAndEtcOutside()
    ensures |Conversion.Var| == 1 && Conversion.Var[0] != "usr" && Conversion.Var[0] != "boot"
    ensures |Conversion.Etc| == 1 && Conversion.Etc[0] != "usr" && Conversion.Etc[0] != "boot"
  {
    assert "var"[0] != "usr"[0] && "var"[0] != "boot"[0];
    assert "etc"[0] != "usr"[0] && "etc"[0] != "boot"[0];
  }

  /** A failed boot setup ends the run before the conversion: `var` stays where it
      was. */
  lemma BootFailureStopsRun(t: Tree, listing: seq<string>, cache: seq<Tmpfiles.Package>,
                            root: Path, walk: seq<Path>)
    requires ValidPath(root) && Sanitize.WalkEntries(walk)
    requires BootSetup.SetupBoot(t, listing).outcome.Failed?
    ensures var r := OstreeStages(t, listing, cache, root, walk).tree;
      && OstreeStages(t, listing, cache, root, walk).outcome.Failed?
      && Subtree(r, Conversion.Var) == Subtree(t, Conversion.Var)
  {
    var r := OstreeStages(t, listing, cache, root, walk).tree;
    forall k | Under(k, Conversion.Var)
      ensures Agree(r, t, k)
    {
      assert k[0] == k[..1][0] == "var";
      assert !Under(k, BootSetup.Boot) by { assert "var"[0] != "boot"[0]; }
      assert !Under(k, BootSetup.UsrLib) by { assert "var"[0] != "usr"[0]; }
      BootSetup.SetupBootFrame(t, listing, k);
    }
    SubtreeAgrees(r, t, Conversion.Var);
  }

  // ---------------------------------------------------------------------------
  // A loop that stops early ends where its specification stops

  /** One more entry of the loop in `setup_boot`. */
  lemma ScanListingStep(t: Tree, listing: seq<string>, i: nat)
    requires i < |listing| && BootSetup.ScanListing(t, listing[..i]).Scanning?
    ensures BootSetup.ScanListing(t, listing[..i + 1]) ==
      BootSetup.ScanItem(BootSetup.ScanListing(t, listing[..i]).scan, listing[i])
  {
    assert listing[..i + 1][..i] == listing[..i];
  }

  /** Once the scan of `boot` stops, later entries change nothing. */
  lemma {:induction false} ScanStops(t: Tree, listing: seq<string>, n: nat)
    requires n <= |listing| && BootSetup.ScanListing(t, listing[..n]).Stopped?
    ensures BootSetup.ScanListing(t, listing) == BootSetup.ScanListing(t, listing[..n])
    decreases |listing| - n
  {
    if n < |listing| {
      var init := listing[..|listing| - 1];
      assert init[..n] == listing[..n];
      ScanStops(t, init, n);
    } else {
      assert listing[..n] == listing;
    }
  }

  /** Once an iteration of the sanitizer fails, later entries change nothing. */
  lemma {:induction false} WalkStops(t: Tree, root: Path, walk: seq<Path>, n: nat)
    requires ValidPath(root) && Sanitize.WalkEntries(walk)
    requires n <= |walk| && Sanitize.SanitizeWalk(t, root, walk[..n]).outcome.Failed?
    ensures Sanitize.SanitizeWalk(t, root, walk) == Sanitize.SanitizeWalk(t, root, walk[..n])
    decreases |walk| - n
  {
    if n < |walk| {
      var init := walk[..|walk| - 1];
      assert init[..n] == walk[..n];
      WalkStops(t, root, init, n);
    } else {
      assert walk[..n] == walk;
    }
  }

  /** One more package of the loop in `create_tmpfile_dir`. */
  lemma CollectedStep(cache: seq<Tmpfiles.Package>, i: nat)
    requires i < |cache|
    ensures Tmpfiles.Contributes(cache[i]) ==>
      Tmpfiles.Collected(cache[..i + 1]) ==
      Tmpfiles.Collected(cache[..i]) + Tmpfiles.VarFiles(cache[i].installedFiles)
    ensures !Tmpfiles.Contributes(cache[i]) ==>
      Tmpfiles.Collected(cache[..i + 1]) == Tmpfiles.Collected(cache[..i])
  {
    assert cache[..i + 1][..i] == cache[..i];
  }

  /** One more file of a contributing package. */
  lemma VarFilesStep(files: seq<string>, j: nat)
    requires j < |files|
    ensures StartsWith(files[j], "/var") ==>
      Tmpfiles.VarFiles(files[..j + 1]) == Tmpfiles.VarFiles(files[..j]) + [files[j]]
    ensures !StartsWith(files[j], "/var") ==>
      Tmpfiles.VarFiles(files[..j + 1]) == Tmpfiles.VarFiles(files[..j])
  {
    assert files[..j + 1][..j] == files[..j];
  }

  /** One more rule written. */
  lemma ConfLinesStep(dirs: seq<string>, j: nat)
    requires j < |dirs|
    ensures dirs[j] !in Tmpfiles.BasePaths ==>
      Tmpfiles.ConfLines(dirs[..j + 1]) == Tmpfiles.ConfLines(dirs[..j]) + [Tmpfiles.Rule(dirs[j])]
    ensures dirs[j] in Tmpfiles.BasePaths ==>
      Tmpfiles.ConfLines(dirs[..j + 1]) == Tmpfiles.ConfLines(dirs[..j])
  {
    assert dirs[..j + 1][..j] == dirs[..j];
  }

  /** One more link of the loop in `convert_to_ostree`. */
  lemma LinksStep(t: Tree, links: seq<Conversion.Link>, i: nat)
    requires i < |links| && Conversion.SetLinks(t, links[..i]).outcome.Done?
    ensures Conversion.SetLinks(t, links[..i + 1]) ==
      Conversion.SetLink(Conversion.SetLinks(t, links[..i]).tree, links[i])
  {
    assert links[..i + 1][..i] == links[..i];
  }

  /** Once a link fails, later links change nothing. */
  lemma {:induction false} LinksStop(t: Tree, links: seq<Conversion.Link>, n: nat)
    requires n <= |links| && Conversion.SetLinks(t, links[..n]).outcome.Failed?
    ensures Conversion.SetLinks(t, links) == Conversion.SetLinks(t, links[..n])
    decreases |links| - n
  {
    if n < |links| {
      var init := links[..|links| - 1];
      assert init[..n] == links[..n];
      LinksStop(t, init, n);
    } else {
      assert links[..n] == links;
    }
  }
}
