/** `setup_boot`: the kernel and the initramfs move from `boot` into the kernel's
    directory below `usr/lib/modules`, where OSTree looks for them. */
module BootSetup {
  import opened Strings
  import opened FileTree
  import opened Steps

  const Boot: Path := ["boot"]
  const Modules: Path := ["usr", "lib", "modules"]

  predicate IsKernel(item: string) { StartsWith(item, "vmlinuz") }

  predicate IsInitrd(item: string) {
    StartsWith(item, "initrd.img") || StartsWith(item, "initramfs")
  }

  predicate IsDtbs(item: string) { StartsWith(item, "dtbs") }

  predicate IsSystemMap(item: string) { StartsWith(item, "System.map") }

  /** The second name of `item.split("-", 1)`; `None` where unpacking it into two
      names raises `ValueError`. */
  function KernelVersion(item: string): Option<string> {
    match IndexOf(item, '-')
    case None => None
    case Some(i) => Some(item[i + 1..])
  }

  /** The variables of the loop over `os.listdir(bootdir)`. */
  datatype Scan = Scan(tree: Tree, kernel: Option<string>, version: string,
                       initrd: Option<string>, dtbs: Option<string>)

  datatype ScanResult = Scanning(scan: Scan) | Stopped(run: Run)

  /** One iteration of the loop: remember the kernel (and split its version off), the
      initramfs and the device trees, each at most once, and move `System.map` files
      to the modules directory, ignoring errors. */
  function ScanItem(s: Scan, item: string): ScanResult {
    if IsKernel(item) then
      if s.kernel.Some? then Stopped(Run(s.tree, Failed(AssertionFailed)))
      else match KernelVersion(item)
        case None => Stopped(Run(s.tree, Failed(Raised)))
        case Some(v) => Scanning(s.(kernel := Some(item), version := v))
    else if IsInitrd(item) then
      if s.initrd.Some? then Stopped(Run(s.tree, Failed(AssertionFailed)))
      else Scanning(s.(initrd := Some(item)))
    else if IsDtbs(item) then
      if s.dtbs.Some? then Stopped(Run(s.tree, Failed(AssertionFailed)))
      else Scanning(s.(dtbs := Some(item)))
    else if IsSystemMap(item) then
      match ShutilMove(s.tree, Boot + [item], Modules)
      case Ok(u) => Scanning(s.(tree := u))
      case Err => Scanning(s)
    else Scanning(s)
  }

  /** The loop over the entries of `boot`, in the order the system lists them. */
  function ScanListing(t: Tree, listing: seq<string>): ScanResult
    decreases |listing|
  {
    if listing == [] then Scanning(Scan(t, None, "", None, None))
    else match ScanListing(t, listing[..|listing| - 1])
      case Stopped(r) => Stopped(r)
      case Scanning(s) => ScanItem(s, listing[|listing| - 1])
  }

  const UsrLib: Path := ["usr", "lib"]

  /** `os.path.join(targetdir, version)` as the system resolves it: an empty version
      or "." is `targetdir` itself, ".." its parent. */
  function VersionDir(version: string): (d: Path)
    ensures Under(d, UsrLib) && d != []
  {
    if version == "" || version == "." then Modules
    else if version == ".." then UsrLib
    else Modules + [version]
  }

  /** `os.path.join(targetdir, version, name)`; the system reaches ".." through
      `targetdir`, which must then be a directory. */
  function InVersionDir(t: Tree, version: string, name: string): (r: Result<Path>)
    ensures r.Ok? ==> r.value == VersionDir(version) + [name]
    ensures r.Err? <==> version == ".." && !IsDir(t, Modules)
  {
    if version == ".." && !IsDir(t, Modules) then Err
    else Ok(VersionDir(version) + [name])
  }

  /** `os.rename` of `boot/<name>` to `<targetdir>/<version>/<newName>`; an error ends
      the program with `sys.exit(1)`. */
  function RenameInto(t: Tree, name: string, version: string, newName: string): Run {
    match InVersionDir(t, version, newName)
    case Err => Run(t, Failed(Exited))
    case Ok(dst) =>
      match Rename(t, Boot + [name], dst)
      case Err => Run(t, Failed(Exited))
      case Ok(u) => Run(u, Done)
  }

  /** The kernel is renamed to `vmlinuz`, then the initramfs, if any, to
      `initramfs.img`. */
  function InstallKernel(s: Scan): Run
    requires s.kernel.Some?
  {
    var r := RenameInto(s.tree, s.kernel.value, s.version, "vmlinuz");
    if r.outcome.Failed? || s.initrd.None? then r
    else RenameInto(r.tree, s.initrd.value, s.version, "initramfs.img")
  }

  /** `os.mkdir(targetdir)`, errors ignored. */
  function MakeModulesDir(t: Tree): (r: Tree)
    ensures forall k | k != Modules :: Agree(r, t, k)
    ensures IsDir(t, Parent(Modules)) && Modules !in t ==> r == t[Modules := Dir]
  {
    match Mkdir(t, Modules) case Ok(u) => u case Err => t
  }

  /** `setup_boot(rootdir, rootdir/boot, rootdir/usr/lib/modules)`. */
  function SetupBoot(t: Tree, listing: seq<string>): Run {
    var t0 := MakeModulesDir(t);
    if !IsDir(t0, Boot) then Run(t0, Failed(Raised))
    else match ScanListing(t0, listing)
      case Stopped(r) => r
      case Scanning(s) =>
        if s.kernel.None? then Run(s.tree, Failed(AssertionFailed))
        else InstallKernel(s)
  }

  // ---------------------------------------------------------------------------
  // Which listings the loop accepts

  function Matching(listing: seq<string>, f: string -> bool): (r: seq<string>)
    ensures |r| <= |listing|
    ensures forall i :: 0 <= i < |r| ==> f(r[i]) && r[i] in listing
    decreases |listing|
  {
    if listing == [] then []
    else
      var init := Matching(listing[..|listing| - 1], f);
      var last := listing[|listing| - 1];
      init + (if f(last) then [last] else [])
  }

  function FirstOf(xs: seq<string>): Option<string> {
    if xs == [] then None else Some(xs[0])
  }

  /** At most one kernel, one initramfs and one device-tree entry, and every kernel
      name holds a '-'. */
  predicate Admissible(kernels: seq<string>, initrds: seq<string>, dtbs: seq<string>) {
    && |kernels| <= 1 && |initrds| <= 1 && |dtbs| <= 1
    && (forall i :: 0 <= i < |kernels| ==> '-' in kernels[i])
  }

  /** The loop holds the first entry of each kind, and the kernel's version. */
  predicate Remembers(s: Scan, kernels: seq<string>, initrds: seq<string>, dtbs: seq<string>) {
    && s.kernel == FirstOf(kernels)
    && s.initrd == FirstOf(initrds)
    && s.dtbs == FirstOf(dtbs)
    && (s.kernel.Some? ==> KernelVersion(s.kernel.value) == Some(s.version))
  }

  predicate Acceptable(listing: seq<string>) {
    Admissible(Matching(listing, IsKernel), Matching(listing, IsInitrd), Matching(listing, IsDtbs))
  }

  /** The loop found the first (and only) entry of each kind. */
  predicate Found(s: Scan, listing: seq<string>) {
    Remembers(s, Matching(listing, IsKernel), Matching(listing, IsInitrd), Matching(listing, IsDtbs))
  }

  lemma FirstChar(item: string, prefix: string)
    requires prefix != [] && StartsWith(item, prefix)
    ensures item != [] && item[0] == prefix[0]
  {
    assert item[..|prefix|][0] == item[0];
  }

  /** No name is of two kinds, so the order of the tests does not matter. */
  lemma KindsAreExclusive(item: string)
    ensures IsKernel(item) ==> !IsInitrd(item) && !IsDtbs(item) && !IsSystemMap(item)
    ensures IsInitrd(item) ==> !IsDtbs(item) && !IsSystemMap(item)
    ensures IsDtbs(item) ==> !IsSystemMap(item)
  {
    if StartsWith(item, "vmlinuz") { FirstChar(item, "vmlinuz"); }
    if StartsWith(item, "initrd.img") { FirstChar(item, "initrd.img"); }
    if StartsWith(item, "initramfs") { FirstChar(item, "initramfs"); }
    if StartsWith(item, "dtbs") { FirstChar(item, "dtbs"); }
    if StartsWith(item, "System.map") { FirstChar(item, "System.map"); }
  }

  /** The loop runs to its end exactly on an acceptable listing, and then it has found
      each kind of entry; when it stops early the stage has failed. */
  lemma {:induction false} ScanExactly(t: Tree, listing: seq<string>)
    ensures ScanListing(t, listing).Scanning? <==> Acceptable(listing)
    ensures ScanListing(t, listing).Scanning? ==> Found(ScanListing(t, listing).scan, listing)
    ensures ScanListing(t, listing).Stopped? ==> ScanListing(t, listing).run.outcome.Failed?
    decreases |listing|
  {
    if listing != [] {
      var init, last := listing[..|listing| - 1], listing[|listing| - 1];
      ScanExactly(t, init);
      if Acceptable(listing) {
        AcceptablePrefix(listing);
      }
      if ScanListing(t, init).Scanning? {
        ScanStep(ScanListing(t, init).scan, listing);
      }
    }
  }

  lemma AcceptablePrefix(listing: seq<string>)
    requires listing != [] && Acceptable(listing)
    ensures Acceptable(listing[..|listing| - 1])
  {
    var init := listing[..|listing| - 1];
    assert Matching(init, IsKernel) <= Matching(listing, IsKernel);
    assert Matching(init, IsInitrd) <= Matching(listing, IsInitrd);
    assert Matching(init, IsDtbs) <= Matching(listing, IsDtbs);
  }

  /** One more entry, after a prefix the loop accepted. */
  lemma ScanStep(s: Scan, listing: seq<string>)
    requires listing != [] && Acceptable(listing[..|listing| - 1])
    requires Found(s, listing[..|listing| - 1])
    ensures ScanItem(s, listing[|listing| - 1]).Scanning? <==> Acceptable(listing)
    ensures ScanItem(s, listing[|listing| - 1]).Scanning? ==>
      Found(ScanItem(s, listing[|listing| - 1]).scan, listing)
    ensures ScanItem(s, listing[|listing| - 1]).Stopped? ==>
      ScanItem(s, listing[|listing| - 1]).run.outcome.Failed?
  {
    var init, last := listing[..|listing| - 1], listing[|listing| - 1];
    MatchingLast(listing, IsKernel);
    MatchingLast(listing, IsInitrd);
    MatchingLast(listing, IsDtbs);
    ItemStep(s, last, Matching(init, IsKernel), Matching(init, IsInitrd), Matching(init, IsDtbs));
  }

  /** The step on the entries of each kind found so far. */
  lemma ItemStep(s: Scan, last: string, kernels: seq<string>, initrds: seq<string>,
                 dtbs: seq<string>)
    requires Admissible(kernels, initrds, dtbs) && Remembers(s, kernels, initrds, dtbs)
    ensures var k, i, d := kernels + (if IsKernel(last) then [last] else []),
                           initrds + (if IsInitrd(last) then [last] else []),
                           dtbs + (if IsDtbs(last) then [last] else []);
      && (ScanItem(s, last).Scanning? <==> Admissible(k, i, d))
      && (ScanItem(s, last).Scanning? ==> Remembers(ScanItem(s, last).scan, k, i, d))
      && (ScanItem(s, last).Stopped? ==> ScanItem(s, last).run.outcome.Failed?)
  {
    KindsAreExclusive(last);
    var k := kernels + (if IsKernel(last) then [last] else []);
    assert KernelVersion(last).Some? <==> '-' in last;
    if IsKernel(last) {
      assert k[|k| - 1] == last;
    } else {
      assert k == kernels;
    }
  }

  lemma MatchingLast(listing: seq<string>, f: string -> bool)
    requires listing != []
    ensures Matching(listing, f) == Matching(listing[..|listing| - 1], f) +
      (if f(listing[|listing| - 1]) then [listing[|listing| - 1]] else [])
  {
  }

  // ---------------------------------------------------------------------------
  // What the stage does

  /** `boot` must be a directory: `os.listdir` raises otherwise. */
  lemma NoBootDirRaises(t: Tree, listing: seq<string>)
    requires !IsDir(t, Boot)
    ensures SetupBoot(t, listing).outcome == Failed(Raised)
  {
    assert Agree(MakeModulesDir(t), t, Boot);
  }

  /** A `boot` without a kernel fails the assertion after the loop. */
  lemma NoKernelFails(t: Tree, listing: seq<string>)
    requires Matching(listing, IsKernel) == []
    ensures SetupBoot(t, listing).outcome.Failed?
    ensures IsDir(t, Boot) ==> SetupBoot(t, listing).outcome == Failed(AssertionFailed)
  {
    var t0 := MakeModulesDir(t);
    ScanExactly(t0, listing);
    assert Agree(t0, t, Boot);
  }

  /** When the stage succeeds, `boot` held exactly one kernel, whose name holds a '-',
      at most one initramfs and at most one device-tree entry. */
  lemma SuccessMeansOneKernel(t: Tree, listing: seq<string>)
    requires SetupBoot(t, listing).outcome == Done
    ensures |Matching(listing, IsKernel)| == 1 && '-' in Matching(listing, IsKernel)[0]
    ensures Acceptable(listing)
  {
    ScanExactly(MakeModulesDir(t), listing);
  }

  // ---------------------------------------------------------------------------
  // Where the entries go

  lemma UnderUsrLib(k: Path, d: Path)
    requires Under(d, UsrLib) && !Under(k, UsrLib)
    ensures !Under(k, d)
  {
    if Under(k, d) { UnderTransitive(k, d, UsrLib); }
  }

  /** Outside `boot` and `usr/lib` one iteration changes nothing. */
  lemma ScanItemFrame(s: Scan, item: string, k: Path)
    requires !Under(k, Boot) && !Under(k, UsrLib)
    ensures ScanItem(s, item).Scanning? ==> Agree(ScanItem(s, item).scan.tree, s.tree, k)
    ensures ScanItem(s, item).Stopped? ==> ScanItem(s, item).run.tree == s.tree
  {
    if !IsKernel(item) && !IsInitrd(item) && !IsDtbs(item) && IsSystemMap(item)
      && ShutilMove(s.tree, Boot + [item], Modules).Ok?
    {
      if Under(k, Boot + [item]) { UnderExtension(k, Boot, item); }
      UnderUsrLib(k, Modules);
      ShutilMoveFrame(s.tree, Boot + [item], Modules, k);
    }
  }

  /** One iteration moves only a `System.map` entry out of `boot`. */
  lemma ScanItemKeepsBootEntry(s: Scan, item: string, name: string)
    requires !IsSystemMap(name)
    ensures ScanItem(s, item).Scanning? ==> Agree(ScanItem(s, item).scan.tree, s.tree, Boot + [name])
  {
    var k := Boot + [name];
    if !IsKernel(item) && !IsInitrd(item) && !IsDtbs(item) && IsSystemMap(item)
      && ShutilMove(s.tree, Boot + [item], Modules).Ok?
    {
      assert !Under(k, Boot + [item]);
      assert !Under(k, UsrLib) by { assert k[0] != UsrLib[0]; }
      UnderUsrLib(k, Modules);
      ShutilMoveFrame(s.tree, Boot + [item], Modules, k);
    }
  }

  /** Outside `boot` and `usr/lib` the loop changes nothing. */
  lemma {:induction false} ScanFrame(t: Tree, listing: seq<string>, k: Path)
    requires !Under(k, Boot) && !Under(k, UsrLib)
    ensures ScanListing(t, listing).Scanning? ==> Agree(ScanListing(t, listing).scan.tree, t, k)
    ensures ScanListing(t, listing).Stopped? ==> Agree(ScanListing(t, listing).run.tree, t, k)
    decreases |listing|
  {
    if listing != [] {
      ScanFrame(t, listing[..|listing| - 1], k);
      var r := ScanListing(t, listing[..|listing| - 1]);
      if r.Scanning? { ScanItemFrame(r.scan, listing[|listing| - 1], k); }
    }
  }

  /** The loop moves only `System.map` entries out of `boot`. */
  lemma {:induction false} ScanKeepsBootEntry(t: Tree, listing: seq<string>, name: string)
    requires !IsSystemMap(name)
    ensures ScanListing(t, listing).Scanning? ==>
      Agree(ScanListing(t, listing).scan.tree, t, Boot + [name])
    decreases |listing|
  {
    if listing != [] {
      ScanKeepsBootEntry(t, listing[..|listing| - 1], name);
      var r := ScanListing(t, listing[..|listing| - 1]);
      if r.Scanning? { ScanItemKeepsBootEntry(r.scan, listing[|listing| - 1], name); }
    }
  }

  /** One `os.rename` into the version directory, when it succeeds. */
  lemma RenameIntoEffect(t: Tree, name: string, version: string, newName: string)
    requires RenameInto(t, name, version, newName).outcome == Done
    ensures var dst, r := VersionDir(version) + [newName], RenameInto(t, name, version, newName).tree;
      && Boot + [name] in t && dst in r && r[dst] == t[Boot + [name]] && Boot + [name] !in r
  {
    var dst := VersionDir(version) + [newName];
    RenameTarget(t, Boot + [name], dst);
  }

  /** Away from the renamed entry and the version directory nothing changes. */
  lemma RenameIntoFrame(t: Tree, name: string, version: string, newName: string, k: Path)
    requires !Under(k, Boot + [name]) && !Under(k, VersionDir(version) + [newName])
    ensures Agree(RenameInto(t, name, version, newName).tree, t, k)
  {
    var dst := VersionDir(version) + [newName];
    if InVersionDir(t, version, newName).Ok? && Rename(t, Boot + [name], dst).Ok? {
      RenameFrame(t, Boot + [name], dst, k);
    }
  }

  /** An entry of `boot` is never inside the version directory: that is deeper. */
  lemma BootEntryOutsideVersionDir(name: string, version: string, newName: string)
    ensures !Under(Boot + [name], VersionDir(version) + [newName])
  {
    assert |UsrLib| == 2;
  }

  lemma OutsideVersionDir(k: Path, version: string, newName: string)
    requires !Under(k, UsrLib)
    ensures !Under(k, VersionDir(version) + [newName])
  {
    var d := VersionDir(version);
    if Under(k, d + [newName]) {
      UnderExtension(k, d, newName);
      UnderTransitive(k, d, UsrLib);
    }
  }

  /** The stage changes nothing outside `boot` and `usr/lib`, whether it succeeds
      or not. */
  lemma SetupBootFrame(t: Tree, listing: seq<string>, k: Path)
    requires !Under(k, Boot) && !Under(k, UsrLib)
    ensures Agree(SetupBoot(t, listing).tree, t, k)
  {
    var t0 := MakeModulesDir(t);
    assert Agree(t0, t, k);
    ScanFrame(t0, listing, k);
    var r := ScanListing(t0, listing);
    if IsDir(t0, Boot) && r.Scanning? && r.scan.kernel.Some? {
      var s := r.scan;
      OutsideVersionDir(k, s.version, "vmlinuz");
      OutsideVersionDir(k, s.version, "initramfs.img");
      if Under(k, Boot + [s.kernel.value]) { UnderExtension(k, Boot, s.kernel.value); }
      RenameIntoFrame(s.tree, s.kernel.value, s.version, "vmlinuz", k);
      if s.initrd.Some? {
        var u := RenameInto(s.tree, s.kernel.value, s.version, "vmlinuz").tree;
        if Under(k, Boot + [s.initrd.value]) { UnderExtension(k, Boot, s.initrd.value); }
        RenameIntoFrame(u, s.initrd.value, s.version, "initramfs.img", k);
      }
    }
  }

  /** Renaming the initramfs leaves the kernel's old and new places alone. */
  lemma InitrdRenameKeepsKernel(u: Tree, initrd: string, version: string, kernel: string)
    requires kernel != initrd
    ensures var r := RenameInto(u, initrd, version, "initramfs.img").tree;
      Agree(r, u, VersionDir(version) + ["vmlinuz"]) && Agree(r, u, Boot + [kernel])
  {
    var dst := VersionDir(version) + ["vmlinuz"];
    assert !Under(dst, Boot + [initrd]) by { assert dst[0] != "boot"; }
    assert !Under(dst, VersionDir(version) + ["initramfs.img"]) by {
      assert dst[|dst| - 1] != "initramfs.img";
    }
    RenameIntoFrame(u, initrd, version, "initramfs.img", dst);
    assert !Under(Boot + [kernel], Boot + [initrd]) by {
      assert (Boot + [kernel])[1] != (Boot + [initrd])[1];
    }
    BootEntryOutsideVersionDir(kernel, version, "initramfs.img");
    RenameIntoFrame(u, initrd, version, "initramfs.img", Boot + [kernel]);
  }

  /** Renaming the initramfs afterwards leaves the kernel where the first rename put it. */
  lemma InstallKernelMovesKernel(s: Scan)
    requires s.kernel.Some? && InstallKernel(s).outcome == Done
    requires s.initrd.Some? ==> s.initrd.value != s.kernel.value
    ensures var dst, r := VersionDir(s.version) + ["vmlinuz"], InstallKernel(s).tree;
      && Boot + [s.kernel.value] in s.tree && dst in r && r[dst] == s.tree[Boot + [s.kernel.value]]
      && Boot + [s.kernel.value] !in r
  {
    var kernel := s.kernel.value;
    RenameIntoEffect(s.tree, kernel, s.version, "vmlinuz");
    if s.initrd.Some? {
      var u := RenameInto(s.tree, kernel, s.version, "vmlinuz").tree;
      InitrdRenameKeepsKernel(u, s.initrd.value, s.version, kernel);
    }
  }

  /** The loop of a successful stage ran to its end and found the first kernel. */
  lemma SuccessfulScan(t: Tree, listing: seq<string>)
    requires SetupBoot(t, listing).outcome == Done
    ensures IsDir(MakeModulesDir(t), Boot)
    ensures var r := ScanListing(MakeModulesDir(t), listing);
      && r.Scanning? && Found(r.scan, listing) && r.scan.kernel.Some?
      && SetupBoot(t, listing) == InstallKernel(r.scan)
  {
    ScanExactly(MakeModulesDir(t), listing);
  }

  /** The stage never creates `usr/lib/modules/<version>`: when the scan found a
      kernel but the version directory is not a directory in the tree the scan left,
      the kernel rename fails, the program exits, and that tree is what remains. */
  lemma MissingVersionDirExits(t: Tree, listing: seq<string>)
    requires IsDir(MakeModulesDir(t), Boot)
    requires ScanListing(MakeModulesDir(t), listing).Scanning?
    requires ScanListing(MakeModulesDir(t), listing).scan.kernel.Some?
    ensures var s := ScanListing(MakeModulesDir(t), listing).scan;
      !IsDir(s.tree, VersionDir(s.version)) ==> SetupBoot(t, listing) == Run(s.tree, Failed(Exited))
  {
    var s := ScanListing(MakeModulesDir(t), listing).scan;
    if !IsDir(s.tree, VersionDir(s.version)) {
      RenameNeedsVersionDir(s.tree, s.kernel.value, s.version, "vmlinuz");
    }
  }

  /** A rename into a version directory that is not a directory exits. */
  lemma RenameNeedsVersionDir(t: Tree, name: string, version: string, newName: string)
    requires !IsDir(t, VersionDir(version))
    ensures RenameInto(t, name, version, newName) == Run(t, Failed(Exited))
  {
    var dst := VersionDir(version) + [newName];
    assert Parent(dst) == VersionDir(version);
  }

  /** So a successful stage found its version directory already in place. */
  lemma SuccessNeedsVersionDir(t: Tree, listing: seq<string>)
    requires SetupBoot(t, listing).outcome == Done
    ensures ScanListing(MakeModulesDir(t), listing).Scanning?
    ensures var s := ScanListing(MakeModulesDir(t), listing).scan;
      s.kernel.Some? && IsDir(s.tree, VersionDir(s.version))
  {
    SuccessfulScan(t, listing);
    MissingVersionDirExits(t, listing);
  }

  /** After a successful stage the kernel `boot/vmlinuz-<version>` is
      `usr/lib/modules/<version>/vmlinuz`, and gone from `boot`. */
  lemma KernelInstalled(t: Tree, listing: seq<string>)
    requires SetupBoot(t, listing).outcome == Done
    ensures Matching(listing, IsKernel) != [] && KernelVersion(Matching(listing, IsKernel)[0]).Some?
    ensures var kernel := Matching(listing, IsKernel)[0];
      var dst := VersionDir(KernelVersion(kernel).value) + ["vmlinuz"];
      var r := SetupBoot(t, listing).tree;
      && Boot + [kernel] in t && dst in r && r[dst] == t[Boot + [kernel]] && Boot + [kernel] !in r
  {
    SuccessfulScan(t, listing);
    var t0 := MakeModulesDir(t);
    var s := ScanListing(t0, listing).scan;
    var kernel := s.kernel.value;
    KindsAreExclusive(kernel);
    ScanKeepsBootEntry(t0, listing, kernel);
    assert Agree(t0, t, Boot + [kernel]);
    if s.initrd.Some? { KindsAreExclusive(s.initrd.value); }
    InstallKernelMovesKernel(s);
  }

  /** After a successful stage the initramfs, if `boot` had one, is
      `usr/lib/modules/<version>/initramfs.img`, and gone from `boot`. */
  lemma InitrdInstalled(t: Tree, listing: seq<string>)
    requires SetupBoot(t, listing).outcome == Done
    requires Matching(listing, IsInitrd) != []
    ensures Matching(listing, IsKernel) != [] && KernelVersion(Matching(listing, IsKernel)[0]).Some?
    ensures var initrd := Matching(listing, IsInitrd)[0];
      var dst := VersionDir(KernelVersion(Matching(listing, IsKernel)[0]).value) + ["initramfs.img"];
      var r := SetupBoot(t, listing).tree;
      && Boot + [initrd] in t && dst in r && r[dst] == t[Boot + [initrd]] && Boot + [initrd] !in r
  {
    SuccessfulScan(t, listing);
    var t0 := MakeModulesDir(t);
    var s := ScanListing(t0, listing).scan;
    var kernel, initrd := s.kernel.value, s.initrd.value;
    KindsAreExclusive(initrd);
    ScanKeepsBootEntry(t0, listing, initrd);
    assert Agree(t0, t, Boot + [initrd]);
    InstallKernelMovesInitrd(s);
  }

  /** The initramfs is renamed after the kernel, whose rename leaves it in `boot`. */
  lemma InstallKernelMovesInitrd(s: Scan)
    requires s.kernel.Some? && s.initrd.Some? && InstallKernel(s).outcome == Done
    requires s.initrd.value != s.kernel.value
    ensures var initrd, dst := s.initrd.value, VersionDir(s.version) + ["initramfs.img"];
      var r := InstallKernel(s).tree;
      && Boot + [initrd] in s.tree && dst in r && r[dst] == s.tree[Boot + [initrd]]
      && Boot + [initrd] !in r
  {
    var kernel, initrd := s.kernel.value, s.initrd.value;
    BootEntryOutsideVersionDir(initrd, s.version, "vmlinuz");
    assert !Under(Boot + [initrd], Boot + [kernel]) by {
      assert (Boot + [initrd])[1] != (Boot + [kernel])[1];
    }
    RenameIntoFrame(s.tree, kernel, s.version, "vmlinuz", Boot + [initrd]);
    var u := RenameInto(s.tree, kernel, s.version, "vmlinuz").tree;
    RenameIntoEffect(u, initrd, s.version, "initramfs.img");
  }

  /** `System.map` entry `m` of `t` has left `boot` for `usr/lib/modules` in `r`. */
  predicate MapMoved(t: Tree, r: Tree, m: string) {
    && Boot + [m] in t && Modules + [m] in r && r[Modules + [m]] == t[Boot + [m]]
    && Boot + [m] !in r
  }

  /** The names `os.listdir` reports are distinct. */
  predicate Distinct(listing: seq<string>) {
    forall i, j :: 0 <= i < j < |listing| ==> listing[i] != listing[j]
  }

  /** Each `System.map` entry of the listing is in `boot`, and its place in
      `usr/lib/modules` is free. */
  predicate MapsFree(t: Tree, listing: seq<string>) {
    forall i :: 0 <= i < |listing| && IsSystemMap(listing[i]) ==>
      Boot + [listing[i]] in t && Modules + [listing[i]] !in t
  }

  predicate MapsMoved(t: Tree, r: Tree, listing: seq<string>) {
    forall i :: 0 <= i < |listing| && IsSystemMap(listing[i]) ==> MapMoved(t, r, listing[i])
  }

  /** The `boot` and module entries of names outside the listing are as in `t`. */
  ghost predicate OthersKept(t: Tree, r: Tree, listing: seq<string>) {
    forall name | name !in listing :: Agree(r, t, Boot + [name]) && Agree(r, t, Modules + [name])
  }

  /** Every `System.map` entry of a listing without a kernel leaves `boot` for
      `usr/lib/modules` (where nothing of its name stood) before the stage fails its
      kernel assertion. */
  lemma SystemMapsMovedBeforeFailure(t: Tree, listing: seq<string>)
    requires IsDir(t, Boot) && IsDir(t, Modules) && Distinct(listing)
    requires Matching(listing, IsKernel) == []
    requires |Matching(listing, IsInitrd)| <= 1 && |Matching(listing, IsDtbs)| <= 1
    requires MapsFree(t, listing)
    ensures SetupBoot(t, listing).outcome == Failed(AssertionFailed)
    ensures MapsMoved(t, SetupBoot(t, listing).tree, listing)
  {
    assert MakeModulesDir(t) == t;
    ScanExactly(t, listing);
    ScanMovesMaps(t, listing);
  }

  /** The loop, once it has got through, has moved each `System.map` entry. */
  lemma {:induction false} ScanMovesMaps(t: Tree, listing: seq<string>)
    requires IsDir(t, Modules) && ScanListing(t, listing).Scanning?
    requires Distinct(listing) && MapsFree(t, listing)
    ensures var r := ScanListing(t, listing).scan.tree;
      IsDir(r, Modules) && MapsMoved(t, r, listing) && OthersKept(t, r, listing)
    decreases |listing|
  {
    if listing != [] {
      var init, last := listing[..|listing| - 1], listing[|listing| - 1];
      ListingInit(t, listing);
      ScanMovesMaps(t, init);
      var s := ScanListing(t, init).scan;
      assert ScanListing(t, listing) == ScanItem(s, last);
      var r := ScanItem(s, last).scan.tree;
      ScanItemKeepsModules(s, last);
      assert Agree(s.tree, t, Boot + [last]) && Agree(s.tree, t, Modules + [last]);
      if IsSystemMap(last) {
        ScanItemMovesMap(s, last);
      }
      forall i | 0 <= i < |listing| && IsSystemMap(listing[i])
        ensures MapMoved(t, r, listing[i])
      {
        if i < |init| {
          assert listing[i] == init[i];
          assert MapMoved(t, s.tree, init[i]);
          ScanItemKeepsOthers(s, last, init[i]);
        }
      }
      forall name | name !in listing
        ensures Agree(r, t, Boot + [name]) && Agree(r, t, Modules + [name])
      {
        assert name !in init && name != last;
        ScanItemKeepsOthers(s, last, name);
      }
    }
  }

  lemma ListingInit(t: Tree, listing: seq<string>)
    requires listing != [] && Distinct(listing) && MapsFree(t, listing)
    ensures var init := listing[..|listing| - 1];
      && Distinct(init) && MapsFree(t, init) && listing[|listing| - 1] !in init
      && listing == init + [listing[|listing| - 1]]
  {
  }

  /** A `System.map` entry whose place in `usr/lib/modules` is free is moved there. */
  lemma ScanItemMovesMap(s: Scan, item: string)
    requires IsDir(s.tree, Modules) && IsSystemMap(item)
    requires Boot + [item] in s.tree && Modules + [item] !in s.tree
    ensures ScanItem(s, item).Scanning? && MapMoved(s.tree, ScanItem(s, item).scan.tree, item)
  {
    KindsAreExclusive(item);
    var src, dst := Boot + [item], Modules + [item];
    assert Parent(dst) == Modules && Modules + [src[|src| - 1]] == dst;
    assert !Under(dst, src) by { assert dst[0] != src[0]; }
    assert ShutilMove(s.tree, src, Modules) == Rename(s.tree, src, dst);
    RenameTarget(s.tree, src, dst);
  }

  /** No iteration takes away the directory `usr/lib/modules`. */
  lemma ScanItemKeepsModules(s: Scan, item: string)
    requires IsDir(s.tree, Modules)
    ensures ScanItem(s, item).Scanning? ==> IsDir(ScanItem(s, item).scan.tree, Modules)
  {
    if !IsKernel(item) && !IsInitrd(item) && !IsDtbs(item) && IsSystemMap(item)
      && ShutilMove(s.tree, Boot + [item], Modules).Ok?
    {
      var src, dst := Boot + [item], Modules + [item];
      assert Modules + [src[|src| - 1]] == dst;
      assert !Under(Modules, src) by { assert Modules[0] != src[0]; }
      RenameFrame(s.tree, src, dst, Modules);
    }
  }

  /** An iteration leaves the `boot` and module entries of every other name alone. */
  lemma ScanItemKeepsOthers(s: Scan, item: string, name: string)
    requires name != item && IsDir(s.tree, Modules)
    ensures ScanItem(s, item).Scanning? ==>
      && Agree(ScanItem(s, item).scan.tree, s.tree, Boot + [name])
      && Agree(ScanItem(s, item).scan.tree, s.tree, Modules + [name])
  {
    if !IsKernel(item) && !IsInitrd(item) && !IsDtbs(item) && IsSystemMap(item)
      && ShutilMove(s.tree, Boot + [item], Modules).Ok?
    {
      EntriesApart(item, name);
      assert Modules + [(Boot + [item])[1]] == Modules + [item];
      RenameFrame(s.tree, Boot + [item], Modules + [item], Boot + [name]);
      RenameFrame(s.tree, Boot + [item], Modules + [item], Modules + [name]);
    }
  }

  /** The `boot` and module entries of two different names lie apart. */
  lemma EntriesApart(item: string, name: string)
    requires name != item
    ensures !Under(Boot + [name], Boot + [item]) && !Under(Modules + [name], Boot + [item])
    ensures !Under(Boot + [name], Modules + [item]) && !Under(Modules + [name], Modules + [item])
  {
    assert (Modules + [name])[0] != (Boot + [item])[0];
    assert (Boot + [name])[0] != (Modules + [item])[0];
    assert (Boot + [name])[1] != (Boot + [item])[1];
    assert (Modules + [name])[3] != (Modules + [item])[3];
  }

  // ---------------------------------------------------------------------------
  // When the stage succeeds

  /** `boot` lists one kernel (and at most one initramfs and device-tree entry), the
      kernel and initramfs it lists are in `boot`, the kernel's version directory is
      a directory with its `vmlinuz` and `initramfs.img` names free, and no
      `System.map` entry bears the version's name (and so moves onto it). */
  predicate Installable(t: Tree, listing: seq<string>, version: string) {
    && Acceptable(listing) && Matching(listing, IsKernel) != []
    && KernelVersion(Matching(listing, IsKernel)[0]) == Some(version)
    && Boot + [Matching(listing, IsKernel)[0]] in t
    && IsDir(t, VersionDir(version)) && VersionDir(version) + ["vmlinuz"] !in t
    && (Matching(listing, IsInitrd) != [] ==>
         Boot + [Matching(listing, IsInitrd)[0]] in t && VersionDir(version) + ["initramfs.img"] !in t)
    && (forall i :: 0 <= i < |listing| && IsSystemMap(listing[i]) ==> listing[i] != version)
  }

  /** `setup_boot` succeeds when `boot` is a directory, the modules directory is
      there once `os.mkdir(targetdir)` has run, and the listing and tree are
      installable. */
  lemma SucceedsWhen(t: Tree, listing: seq<string>, version: string)
    requires IsDir(t, Boot)
    requires IsDir(t, Modules) || (Modules !in t && IsDir(t, UsrLib))
    requires Installable(t, listing, version)
    ensures SetupBoot(t, listing).outcome == Done
  {
    var t0 := MakeModulesDir(t);
    ModulesDirMade(t, listing, version);
    assert Agree(t0, t, Boot);
    ScanThenInstall(t0, listing, version);
    assert SetupBoot(t, listing) == InstallKernel(ScanListing(t0, listing).scan);
  }

  /** After `os.mkdir(targetdir)` the modules directory is there, and the listing and
      tree are still installable: the new directory is none of the paths involved. */
  lemma ModulesDirMade(t: Tree, listing: seq<string>, version: string)
    requires IsDir(t, Modules) || (Modules !in t && IsDir(t, UsrLib))
    requires Installable(t, listing, version)
    ensures IsDir(MakeModulesDir(t), Modules)
    ensures Installable(MakeModulesDir(t), listing, version)
  {
    assert Parent(Modules) == UsrLib;
    var d := VersionDir(version);
    if d != Modules {
      assert Agree(MakeModulesDir(t), t, d);
    }
    InstallNamesAreNoMaps();
    MadeDirAgrees(t, Matching(listing, IsKernel)[0], version, "vmlinuz");
    if Matching(listing, IsInitrd) != [] {
      MadeDirAgrees(t, Matching(listing, IsInitrd)[0], version, "initramfs.img");
    }
  }

  /** The same on the tree after `os.mkdir(targetdir)`: the loop gets through and
      both renames succeed. */
  lemma ScanThenInstall(t: Tree, listing: seq<string>, version: string)
    requires IsDir(t, Modules) && Installable(t, listing, version)
    ensures ScanListing(t, listing).Scanning? && ScanListing(t, listing).scan.kernel.Some?
    ensures InstallKernel(ScanListing(t, listing).scan).outcome == Done
  {
    ScanExactly(t, listing);
    var s := ScanListing(t, listing).scan;
    var kernel := Matching(listing, IsKernel)[0];
    FoundFirst(s, listing);
    KindsAreExclusive(kernel);
    InstallNamesAreNoMaps();
    ScanKeepsInstallPaths(t, listing, version, kernel, "vmlinuz");
    if s.initrd.Some? {
      var initrd := s.initrd.value;
      KindsAreExclusive(initrd);
      ScanKeepsInstallPaths(t, listing, version, initrd, "initramfs.img");
      assert initrd != kernel;
    }
    InstallKernelSucceeds(s);
  }

  /** The loop remembers the first kernel, its version, and the first initramfs. */
  lemma FoundFirst(s: Scan, listing: seq<string>)
    requires Found(s, listing) && Matching(listing, IsKernel) != []
    ensures s.kernel == Some(Matching(listing, IsKernel)[0])
    ensures KernelVersion(Matching(listing, IsKernel)[0]) == Some(s.version)
    ensures s.initrd.Some? <==> Matching(listing, IsInitrd) != []
    ensures s.initrd.Some? ==>
      s.initrd.value == Matching(listing, IsInitrd)[0] && IsInitrd(s.initrd.value)
  {
  }

  /** `os.mkdir(targetdir)` leaves `boot` entries and the names in the version
      directory alone. */
  lemma MadeDirAgrees(t: Tree, name: string, version: string, newName: string)
    requires newName != "modules"
    ensures Agree(MakeModulesDir(t), t, Boot + [name])
    ensures Agree(MakeModulesDir(t), t, VersionDir(version) + [newName])
  {
    var p := VersionDir(version) + [newName];
    assert Boot + [name] != Modules by { assert |Boot + [name]| == 2; }
    assert p != Modules by {
      if |p| == 3 { assert p[2] == newName; }
    }
  }

  lemma InstallNamesAreNoMaps()
    ensures !IsSystemMap("vmlinuz") && !IsSystemMap("initramfs.img")
    ensures "vmlinuz" != "modules" && "initramfs.img" != "modules"
  {
    assert "initramfs.img"[..10][0] != "System.map"[0];
    assert "vmlinuz"[0] != "modules"[0];
    assert "initramfs.img"[0] != "modules"[0];
  }

  /** The loop leaves the modules directory, the `boot` entry `name`, the version
      directory and the name `newName` in it as they were, when none of those is a
      `System.map` name and no `System.map` entry bears the version's name. */
  lemma ScanKeepsInstallPaths(t: Tree, listing: seq<string>, version: string, name: string,
                              newName: string)
    requires IsDir(t, Modules)
    requires forall i :: 0 <= i < |listing| && IsSystemMap(listing[i]) ==> listing[i] != version
    requires !IsSystemMap(name) && !IsSystemMap(newName)
    ensures ScanListing(t, listing).Scanning? ==>
      var r := ScanListing(t, listing).scan.tree;
      && IsDir(r, Modules) && Agree(r, t, Boot + [name]) && Agree(r, t, VersionDir(version))
      && Agree(r, t, VersionDir(version) + [newName])
  {
    InstallPathsAway(listing, version, name, newName);
    ScanAway(t, listing, Boot + [name]);
    ScanAway(t, listing, VersionDir(version));
    ScanAway(t, listing, VersionDir(version) + [newName]);
  }

  /** `k` lies neither inside a `System.map` entry of the listing nor inside the
      place in `usr/lib/modules` that entry moves to. */
  predicate AwayFromMaps(k: Path, listing: seq<string>) {
    forall i :: 0 <= i < |listing| && IsSystemMap(listing[i]) ==>
      !Under(k, Boot + [listing[i]]) && !Under(k, Modules + [listing[i]])
  }

  /** Away from the `System.map` entries the loop changes nothing, and it keeps the
      modules directory. */
  lemma {:induction false} ScanAway(t: Tree, listing: seq<string>, k: Path)
    requires IsDir(t, Modules) && AwayFromMaps(k, listing)
    ensures ScanListing(t, listing).Scanning? ==>
      IsDir(ScanListing(t, listing).scan.tree, Modules)
      && Agree(ScanListing(t, listing).scan.tree, t, k)
    decreases |listing|
  {
    if listing != [] {
      var init, last := listing[..|listing| - 1], listing[|listing| - 1];
      forall i | 0 <= i < |init| && IsSystemMap(init[i])
        ensures !Under(k, Boot + [init[i]]) && !Under(k, Modules + [init[i]])
      {
        assert init[i] == listing[i];
      }
      ScanAway(t, init, k);
      var r := ScanListing(t, init);
      if r.Scanning? {
        ScanItemKeepsModules(r.scan, last);
        ScanItemAway(r.scan, last, k);
      }
    }
  }

  lemma ScanItemAway(s: Scan, item: string, k: Path)
    requires IsDir(s.tree, Modules)
    requires IsSystemMap(item) ==> !Under(k, Boot + [item]) && !Under(k, Modules + [item])
    ensures ScanItem(s, item).Scanning? ==> Agree(ScanItem(s, item).scan.tree, s.tree, k)
  {
    if !IsKernel(item) && !IsInitrd(item) && !IsDtbs(item) && IsSystemMap(item)
      && ShutilMove(s.tree, Boot + [item], Modules).Ok?
    {
      assert Modules + [(Boot + [item])[1]] == Modules + [item];
      RenameFrame(s.tree, Boot + [item], Modules + [item], k);
    }
  }

  /** The entry of a boot file that is no `System.map`, the version directory and a
      name in it that is no `System.map` lie away from the `System.map` entries, when
      none of those bears the version's name. */
  lemma InstallPathsAway(listing: seq<string>, version: string, name: string, newName: string)
    requires forall i :: 0 <= i < |listing| && IsSystemMap(listing[i]) ==> listing[i] != version
    requires !IsSystemMap(name) && !IsSystemMap(newName)
    ensures AwayFromMaps(Boot + [name], listing)
    ensures AwayFromMaps(VersionDir(version), listing)
    ensures AwayFromMaps(VersionDir(version) + [newName], listing)
  {
    forall i | 0 <= i < |listing| && IsSystemMap(listing[i])
      ensures !Under(Boot + [name], Boot + [listing[i]])
      ensures !Under(Boot + [name], Modules + [listing[i]])
    {
      assert (Boot + [name])[1] != (Boot + [listing[i]])[1];
    }
    forall i | 0 <= i < |listing| && IsSystemMap(listing[i])
      ensures !Under(VersionDir(version), Boot + [listing[i]])
      ensures !Under(VersionDir(version), Modules + [listing[i]])
      ensures !Under(VersionDir(version) + [newName], Boot + [listing[i]])
      ensures !Under(VersionDir(version) + [newName], Modules + [listing[i]])
    {
      assert VersionDir(version) + [] == VersionDir(version);
      VersionPathApart(version, listing[i], []);
      VersionPathApart(version, listing[i], [newName]);
    }
  }

  lemma VersionPathApart(version: string, m: string, rest: Path)
    requires IsSystemMap(m) && m != version && |rest| <= 1
    requires rest != [] ==> !IsSystemMap(rest[0])
    ensures !Under(VersionDir(version) + rest, Boot + [m])
    ensures !Under(VersionDir(version) + rest, Modules + [m])
  {
    var d := VersionDir(version);
    var p := d + rest;
    assert p[0] == d[0] == "usr" by { assert d[..|UsrLib|] == UsrLib; }
    if version == "" || version == "." {
      if rest != [] { assert p[3] == rest[0] != m; }
    } else if version == ".." {
      assert |p| <= 3;
    } else {
      assert p[3] == version;
    }
  }

  /** Both renames succeed when their sources are in `boot`, the version directory is
      a directory (the modules directory too when it is reached through ".."), and
      the two names in it are free. */
  lemma InstallKernelSucceeds(s: Scan)
    requires s.kernel.Some? && Boot + [s.kernel.value] in s.tree
    requires IsDir(s.tree, VersionDir(s.version)) && IsDir(s.tree, Modules)
    requires VersionDir(s.version) + ["vmlinuz"] !in s.tree
    requires s.initrd.Some? ==>
      && s.initrd.value != s.kernel.value && Boot + [s.initrd.value] in s.tree
      && VersionDir(s.version) + ["initramfs.img"] !in s.tree
    ensures InstallKernel(s).outcome == Done
  {
    var kernel, version := s.kernel.value, s.version;
    var d := VersionDir(version);
    RenameIntoSucceeds(s.tree, kernel, version, "vmlinuz");
    if s.initrd.Some? {
      var initrd := s.initrd.value;
      var u := RenameInto(s.tree, kernel, version, "vmlinuz").tree;
      InitrdStillMovable(s.tree, kernel, initrd, version);
      RenameIntoSucceeds(u, initrd, version, "initramfs.img");
    }
  }

  /** The kernel's rename leaves the initramfs, the version directory, the modules
      directory and the free `initramfs.img` name as they were. */
  lemma InitrdStillMovable(t: Tree, kernel: string, initrd: string, version: string)
    requires kernel != initrd
    ensures var u, d := RenameInto(t, kernel, version, "vmlinuz").tree, VersionDir(version);
      && Agree(u, t, Boot + [initrd]) && Agree(u, t, d) && Agree(u, t, Modules)
      && Agree(u, t, d + ["initramfs.img"])
  {
    var d := VersionDir(version);
    var dst := d + ["vmlinuz"];
    assert !Under(Boot + [initrd], Boot + [kernel]) by {
      assert (Boot + [initrd])[1] != (Boot + [kernel])[1];
    }
    BootEntryOutsideVersionDir(initrd, version, "vmlinuz");
    RenameIntoFrame(t, kernel, version, "vmlinuz", Boot + [initrd]);
    assert d[0] == "usr" && Modules[0] == "usr" by { assert d[..|UsrLib|] == UsrLib; }
    assert !Under(d, dst) && !Under(d, Boot + [kernel]);
    RenameIntoFrame(t, kernel, version, "vmlinuz", d);
    assert !Under(Modules, dst) by {
      if |dst| == 3 { assert dst[2] == "vmlinuz" != Modules[2]; }
    }
    assert !Under(Modules, Boot + [kernel]);
    RenameIntoFrame(t, kernel, version, "vmlinuz", Modules);
    var other := d + ["initramfs.img"];
    assert !Under(other, dst) by { assert other[|d|] != dst[|d|]; }
    assert !Under(other, Boot + [kernel]) by { assert other[0] == "usr"; }
    RenameIntoFrame(t, kernel, version, "vmlinuz", other);
  }

  /** One rename into the version directory succeeds when its source is in `boot`,
      the directory is there and the name in it is free. */
  lemma RenameIntoSucceeds(t: Tree, name: string, version: string, newName: string)
    requires Boot + [name] in t && IsDir(t, VersionDir(version))
    requires version == ".." ==> IsDir(t, Modules)
    requires VersionDir(version) + [newName] !in t
    ensures RenameInto(t, name, version, newName).outcome == Done
  {
    var d := VersionDir(version);
    var dst := d + [newName];
    assert Parent(dst) == d;
    assert !Under(dst, Boot + [name]) by {
      assert dst[0] == "usr" by { assert d[..|UsrLib|] == UsrLib; }
    }
  }

  // ---------------------------------------------------------------------------
  // The tree stays a tree

  /** The names `os.listdir` reports are entry names. */
  predicate ListingNames(listing: seq<string>) {
    forall i :: 0 <= i < |listing| ==> ValidName(listing[i])
  }

  lemma ScanItemKeepsWellFormed(s: Scan, item: string)
    requires WellFormed(s.tree) && ValidName(item)
    ensures ScanItem(s, item).Scanning? ==> WellFormed(ScanItem(s, item).scan.tree)
    ensures ScanItem(s, item).Stopped? ==> ScanItem(s, item).run.tree == s.tree
  {
    if !IsKernel(item) && !IsInitrd(item) && !IsDtbs(item) && IsSystemMap(item) {
      SystemMapMoveKeepsWellFormed(s.tree, item);
    }
  }

  lemma SystemMapMoveKeepsWellFormed(t: Tree, item: string)
    requires WellFormed(t) && ValidName(item)
    ensures ShutilMove(t, Boot + [item], Modules).Ok? ==>
            WellFormed(ShutilMove(t, Boot + [item], Modules).value)
  {
    assert ValidName(Modules[2]);
    ShutilMoveKeepsWellFormed(t, Boot + [item], Modules);
  }

  lemma {:induction false} ScanKeepsWellFormed(t: Tree, listing: seq<string>)
    requires WellFormed(t) && ListingNames(listing)
    ensures ScanListing(t, listing).Scanning? ==> WellFormed(ScanListing(t, listing).scan.tree)
    ensures ScanListing(t, listing).Stopped? ==> WellFormed(ScanListing(t, listing).run.tree)
    decreases |listing|
  {
    if listing != [] {
      var init := listing[..|listing| - 1];
      ScanKeepsWellFormed(t, init);
      var r := ScanListing(t, init);
      if r.Scanning? { ScanItemKeepsWellFormed(r.scan, listing[|listing| - 1]); }
    }
  }

  lemma RenameIntoKeepsWellFormed(t: Tree, name: string, version: string, newName: string)
    requires WellFormed(t) && ValidName(newName)
    ensures WellFormed(RenameInto(t, name, version, newName).tree)
  {
    var dst := VersionDir(version) + [newName];
    if InVersionDir(t, version, newName).Ok? && Rename(t, Boot + [name], dst).Ok? {
      RenameKeepsWellFormed(t, Boot + [name], dst);
    }
  }

  lemma MakeModulesDirKeepsWellFormed(t: Tree)
    requires WellFormed(t)
    ensures WellFormed(MakeModulesDir(t))
  {
    if Mkdir(t, Modules).Ok? {
      assert ValidName(Modules[2]);
      PutKeepsWellFormed(t, Modules, Dir);
    }
  }

  lemma InstallKernelKeepsWellFormed(s: Scan)
    requires WellFormed(s.tree) && s.kernel.Some?
    ensures WellFormed(InstallKernel(s).tree)
  {
    assert ValidName("vmlinuz") && ValidName("initramfs.img");
    RenameIntoKeepsWellFormed(s.tree, s.kernel.value, s.version, "vmlinuz");
    var u := RenameInto(s.tree, s.kernel.value, s.version, "vmlinuz").tree;
    if s.initrd.Some? {
      RenameIntoKeepsWellFormed(u, s.initrd.value, s.version, "initramfs.img");
    }
  }

  /** Whatever its outcome, the stage leaves a well-formed tree. */
  lemma SetupBootKeepsWellFormed(t: Tree, listing: seq<string>)
    requires WellFormed(t) && ListingNames(listing)
    ensures WellFormed(SetupBoot(t, listing).tree)
  {
    MakeModulesDirKeepsWellFormed(t);
    var t0 := MakeModulesDir(t);
    ScanKeepsWellFormed(t0, listing);
    var r := ScanListing(t0, listing);
    if IsDir(t0, Boot) && r.Scanning? && r.scan.kernel.Some? {
      InstallKernelKeepsWellFormed(r.scan);
    }
  }
}
