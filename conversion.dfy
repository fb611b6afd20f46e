/** `convert_to_ostree`: the Debian layout becomes the OSTree one. `/var` moves
    below `usr/rootdirs`, `/etc` becomes `usr/etc`, leftover boot links go, and the
    top-level directories that hold state become links into `/var` or `/sysroot`. */
module Conversion {
  import opened Strings
  import opened FileTree
  import opened Steps
  import opened PathResolution
  import opened Sanitize

  const Usr: Path := ["usr"]
  const Var: Path := ["var"]
  const Etc: Path := ["etc"]
  const RootDirs: Path := ["usr", "rootdirs"]
  const RootDirsVar: Path := ["usr", "rootdirs", "var"]
  const UsrEtc: Path := ["usr", "etc"]
  const OstreeDir: Path := ["ostree"]
  const SysrootDir: Path := ["sysroot"]

  /** Links and images the Debian kernel packages leave behind (`CRUFT`). */
  const Cruft: seq<Path> :=
    [["boot", "initrd.img"], ["boot", "vmlinuz"], ["initrd.img"], ["initrd.img.old"],
     ["vmlinuz"], ["vmlinuz.old"]]

  /** Where a link is made, relative to the root: never the root itself. */
  type LinkName = p: Path | p != [] witness ["home"]

  /** A top-level link: where it is made and its target text. */
  datatype Link = Link(name: LinkName, target: string)

  /** `TOPLEVEL_LINKS`, in the order the loop visits them. */
  const TopLevelLinks: seq<Link> :=
    [Link(["home"], "var/home"), Link(["media"], "run/media"), Link(["mnt"], "var/mnt"),
     Link(["opt"], "var/opt"), Link(["ostree"], "sysroot/ostree"),
     Link(["root"], "var/roothome"), Link(["srv"], "var/srv"),
     Link(["usr", "local"], "../var/usrlocal")]

  // ---------------------------------------------------------------------------
  // The steps

  /** `os.mkdir(usr/rootdirs)`, `shutil.copytree(var, usr/rootdirs/var, symlinks=True)`,
      `shutil.rmtree(var)`, `os.mkdir(var)`; the first error propagates. */
  function MoveVar(t: Tree): Run {
    match Mkdir(t, RootDirs)
    case Err => Run(t, Failed(Raised))
    case Ok(t1) =>
      match CopyTree(t1, Var, RootDirsVar)
      case Err => Run(t1, Failed(Raised))
      case Ok(t2) =>
        match RmTree(t2, Var)
        case Err => Run(t2, Failed(Raised))
        case Ok(t3) =>
          match Mkdir(t3, Var)
          case Err => Run(t3, Failed(Raised))
          case Ok(t4) => Run(t4, Done)
  }

  /** `os.remove` of each cruft path in turn, every `OSError` ignored. */
  function RemoveCruft(t: Tree, cruft: seq<Path>): Tree
    decreases |cruft|
  {
    if cruft == [] then t
    else
      var u := RemoveCruft(t, cruft[..|cruft| - 1]);
      match Unlink(u, cruft[|cruft| - 1]) case Ok(v) => v case Err => u
  }

  /** `Path.mkdir(parents=True, exist_ok=True)` for a name directly below the root:
      an existing directory is fine, anything else already there raises. */
  function MakeDirExistOk(t: Tree, p: Path): Result<Tree>
    requires |p| == 1
  {
    if p in t then (if t[p].Dir? then Ok(t) else Err) else Mkdir(t, p)
  }

  /** `Path.mkdir(exist_ok=True)` can succeed at `p`: nothing is there, or a directory. */
  predicate FreeForDir(t: Tree, p: Path) {
    p !in t || t[p].Dir?
  }

  /** Both placeholders in one `try`: a failure on `ostree` skips `sysroot`. */
  function Placeholders(t: Tree): Tree {
    match MakeDirExistOk(t, OstreeDir)
    case Err => t
    case Ok(u) => match MakeDirExistOk(u, SysrootDir) case Ok(v) => v case Err => u
  }

  /** `shutil.rmtree(l)` then `os.symlink(target, l, dir_fd=root)`. */
  function SetLink(t: Tree, l: Link): Run {
    match RmTree(t, l.name)
    case Err => Run(t, Failed(Raised))
    case Ok(u) =>
      match MakeSymlink(u, l.name, l.target)
      case Err => Run(u, Failed(Raised))
      case Ok(v) => Run(v, Done)
  }

  /** The loop over the links; the first error propagates. */
  function SetLinks(t: Tree, links: seq<Link>): Run
    decreases |links|
  {
    if links == [] then Run(t, Done)
    else
      var r := SetLinks(t, links[..|links| - 1]);
      if r.outcome.Failed? then r else SetLink(r.tree, links[|links| - 1])
  }

  /** Everything after the sanitisation of `usr`. */
  function ConvertLayout(t: Tree): Run {
    var m := MoveVar(t);
    if m.outcome.Failed? then m
    else
      var c := RemoveCruft(m.tree, Cruft);
      match ShutilMove(c, Etc, Usr)
      case Err => Run(c, Failed(Raised))
      case Ok(e) => SetLinks(Placeholders(e), TopLevelLinks)
  }

  /** `convert_to_ostree(rootdir)`, with the walk of `usr` and the components of
      `rootdir` given. */
  function ConvertToOstree(t: Tree, root: Path, walk: seq<Path>): Run
    requires ValidPath(root) && WalkEntries(walk)
  {
    var s := SanitizeWalk(t, root, walk);
    if s.outcome.Failed? then s else ConvertLayout(s.tree)
  }

  // ---------------------------------------------------------------------------
  // Removing the cruft

  /** Each cruft path that held a file or a link is gone; everything else, a
      directory at a cruft path included, is as it was. */
  lemma {:induction false} CruftRemoved(t: Tree, cruft: seq<Path>, k: Path)
    ensures var r := RemoveCruft(t, cruft);
      && (k in r <==> k in t && !(k in cruft && !t[k].Dir?))
      && (k in r ==> r[k] == t[k])
    decreases |cruft|
  {
    if cruft != [] {
      var init := cruft[..|cruft| - 1];
      CruftRemoved(t, init, k);
      assert cruft == init + [cruft[|cruft| - 1]];
    }
  }

  // ---------------------------------------------------------------------------
  // The top-level links

  /** No link name lies at or below another's, nor above another's parent. */
  ghost predicate Separate(links: seq<Link>) {
    && (forall i, j | 0 <= i < |links| && 0 <= j < |links| && i != j ::
          !Under(links[i].name, links[j].name))
    && (forall i, j | 0 <= i < |links| && 0 <= j < |links| ::
          !Under(Parent(links[j].name), links[i].name))
  }

  /** Where the link goes, there must be a directory (`rmtree` refuses anything
      else, a link included), inside a directory. */
  predicate Replaceable(t: Tree, p: Path)
    requires p != []
  {
    p in t && t[p].Dir? && IsDir(t, Parent(p))
  }

  lemma SetLinkEffect(t: Tree, l: Link, k: Path)
    ensures SetLink(t, l).outcome == Done <==> Replaceable(t, l.name)
    ensures SetLink(t, l).outcome.Failed? ==> SetLink(t, l).outcome == Failed(Raised)
    ensures SetLink(t, l).outcome == Done ==>
      && l.name in SetLink(t, l).tree && SetLink(t, l).tree[l.name] == Symlink(l.target)
    ensures !Under(k, l.name) ==> Agree(SetLink(t, l).tree, t, k)
  {
  }

  lemma SeparateInit(links: seq<Link>)
    requires Separate(links) && links != []
    ensures Separate(links[..|links| - 1])
    ensures forall i | 0 <= i < |links| - 1 ::
      && !Under(links[|links| - 1].name, links[i].name)
      && !Under(Parent(links[|links| - 1].name), links[i].name)
  {
    var init := links[..|links| - 1];
    forall i, j | 0 <= i < |init| && 0 <= j < |init| && i != j
      ensures !Under(init[i].name, init[j].name)
    {
      assert init[i] == links[i] && init[j] == links[j];
    }
    forall i, j | 0 <= i < |init| && 0 <= j < |init|
      ensures !Under(Parent(init[j].name), init[i].name)
    {
      assert init[i] == links[i] && init[j] == links[j];
    }
  }

  /** The loop succeeds exactly when every name is a directory in a directory, and
      otherwise raises. */
  lemma {:induction false} LinksSucceedExactly(t: Tree, links: seq<Link>)
    requires Separate(links)
    ensures SetLinks(t, links).outcome == Done <==>
      forall i | 0 <= i < |links| :: Replaceable(t, links[i].name)
    ensures SetLinks(t, links).outcome.Failed? ==> SetLinks(t, links).outcome == Failed(Raised)
    decreases |links|
  {
    if links != [] {
      var init, l := links[..|links| - 1], links[|links| - 1];
      SeparateInit(links);
      LinksSucceedExactly(t, init);
      LastSpotUntouched(t, links);
      SetLinkEffect(SetLinks(t, init).tree, l, l.name);
      AllReplaceableSplit(t, links, init);
    }
  }

  /** The steps before the last one leave the last name and its parent alone. */
  lemma LastSpotUntouched(t: Tree, links: seq<Link>)
    requires Separate(links) && links != []
    ensures var l := links[|links| - 1];
      Replaceable(SetLinks(t, links[..|links| - 1]).tree, l.name) <==> Replaceable(t, l.name)
  {
    var init, l := links[..|links| - 1], links[|links| - 1];
    SeparateInit(links);
    LinksFrame(t, init, l.name);
    LinksFrame(t, init, Parent(l.name));
  }

  lemma AllReplaceableSplit(t: Tree, links: seq<Link>, init: seq<Link>)
    requires links != [] && init == links[..|links| - 1]
    ensures (forall i | 0 <= i < |links| :: Replaceable(t, links[i].name)) <==>
      (forall i | 0 <= i < |init| :: Replaceable(t, init[i].name))
      && Replaceable(t, links[|links| - 1].name)
  {
    forall i | 0 <= i < |init|
      ensures Replaceable(t, init[i].name) <==> Replaceable(t, links[i].name)
    {
      assert init[i] == links[i];
    }
  }

  /** Each name of `links` is a symbolic link to its target. */
  predicate LinksIn(t: Tree, links: seq<Link>) {
    forall i | 0 <= i < |links| :: links[i].name in t && t[links[i].name] == Symlink(links[i].target)
  }

  /** After a successful loop every name is its link. */
  lemma {:induction false} LinksPlaced(t: Tree, links: seq<Link>)
    requires Separate(links)
    requires SetLinks(t, links).outcome == Done
    ensures LinksIn(SetLinks(t, links).tree, links)
    decreases |links|
  {
    if links != [] {
      var init, l := links[..|links| - 1], links[|links| - 1];
      SeparateInit(links);
      LinksPlaced(t, init);
      var r := SetLinks(t, init);
      var f := SetLink(r.tree, l).tree;
      assert SetLinks(t, links).tree == f;
      forall i | 0 <= i < |links|
        ensures links[i].name in f && f[links[i].name] == Symlink(links[i].target)
      {
        if i < |init| {
          assert links[i] == init[i];
          SeparateApart(links, i);
          SetLinkEffect(r.tree, l, init[i].name);
        } else {
          SetLinkEffect(r.tree, l, l.name);
        }
      }
    }
  }

  lemma SeparateApart(links: seq<Link>, i: nat)
    requires Separate(links) && i < |links| - 1
    ensures !Under(links[i].name, links[|links| - 1].name)
  {
  }

  /** Outside the link names the loop changes nothing, whether it succeeds or not. */
  lemma {:induction false} LinksFrame(t: Tree, links: seq<Link>, k: Path)
    requires forall i | 0 <= i < |links| :: !Under(k, links[i].name)
    ensures Agree(SetLinks(t, links).tree, t, k)
    decreases |links|
  {
    if links != [] {
      LinksFrame(t, links[..|links| - 1], k);
      var r := SetLinks(t, links[..|links| - 1]);
      if r.outcome == Done {
        SetLinkEffect(r.tree, links[|links| - 1], k);
      }
    }
  }

  /** The names of `TOPLEVEL_LINKS` start with eight different components, and the
      one parent among them, `usr`, is none of the names. */
  lemma TopLevelLinksSeparate()
    ensures Separate(TopLevelLinks)
  {
    forall i, j | 0 <= i < |TopLevelLinks| && 0 <= j < |TopLevelLinks| && i != j
      ensures !Under(TopLevelLinks[i].name, TopLevelLinks[j].name)
    {
      var a, b := TopLevelLinks[i].name, TopLevelLinks[j].name;
      assert a[0] != b[0];
    }
  }

  /** How the fixed paths of the conversion lie to each other. */
  lemma FixedPaths()
    ensures "usr" != "var" && "usr" != "etc" && "var" != "etc"
    ensures Parent(RootDirs) == Usr && Parent(RootDirsVar) == RootDirs && Parent(UsrEtc) == Usr
    ensures Var != RootDirs && Var != Usr && Var != UsrEtc && Etc != Usr
    ensures Under(RootDirsVar, RootDirs) && !Under(Var, RootDirsVar) && !Under(Var, RootDirs)
    ensures !Under(RootDirs, Var) && !Under(RootDirsVar, Var)
  {
    assert "usr"[0] != "var"[0] && "usr"[0] != "etc"[0] && "var"[0] != "etc"[0];
    assert RootDirs[..1][0] == RootDirs[0] && RootDirsVar[..1][0] == RootDirsVar[0];
  }

  // ---------------------------------------------------------------------------
  // Moving `var`

  /** Nothing of `t` lies at or below `d`. */
  predicate Absent(t: Tree, d: Path) {
    forall k | k in t :: !Under(k, d)
  }

  /** In a well-formed tree a missing directory has nothing below it either. */
  lemma MissingHasNothingBelow(t: Tree, d: Path)
    requires WellFormed(t) && d != [] && d !in t
    ensures Absent(t, d)
  {
    forall k | k in t
      ensures !Under(k, d)
    {
      if Under(k, d) {
        assert k != d;
        AncestorIsDir(t, k, |d|);
      }
    }
  }

  /** The tree a successful step leaves. */
  function VarMoved(t: Tree): Tree {
    var t1 := t[RootDirs := Dir];
    Prune(Graft(t1, RootDirsVar, Subtree(t1, Var)), Var)[Var := Dir]
  }

  lemma MoveVarTree(t: Tree)
    requires MoveVar(t).outcome == Done
    ensures MoveVar(t).tree == VarMoved(t)
  {
    var t1 := t[RootDirs := Dir];
    assert Mkdir(t, RootDirs) == Ok(t1);
    var t2 := Graft(t1, RootDirsVar, Subtree(t1, Var));
    assert CopyTree(t1, Var, RootDirsVar) == Ok(t2);
    var t3 := Prune(t2, Var);
    assert RmTree(t2, Var) == Ok(t3);
  }

  /** The copy under `usr/rootdirs` is the old `var`, and the new `var` is empty. */
  lemma MoveVarEffect(t: Tree)
    requires Absent(t, RootDirs) && MoveVar(t).outcome == Done
    ensures var r := MoveVar(t).tree;
      && Subtree(r, RootDirsVar) == Subtree(t, Var)
      && Var in r && r[Var] == Dir && NothingBelow(r, Var)
      && RootDirs in r && r[RootDirs] == Dir
  {
    MoveVarTree(t);
    VarMovedEffect(t);
  }

  lemma VarMovedEffect(t: Tree)
    requires Absent(t, RootDirs)
    ensures var r := VarMoved(t);
      && Subtree(r, RootDirsVar) == Subtree(t, Var)
      && Var in r && r[Var] == Dir && NothingBelow(r, Var)
      && RootDirs in r && r[RootDirs] == Dir
  {
    var t1 := t[RootDirs := Dir];
    var t2 := Graft(t1, RootDirsVar, Subtree(t1, Var));
    CopySource(t);
    CopyTarget(t);
    MakeVarKeepsCopy(t2);
    VarEmptied(t2);
    RootDirsKept(t1, Subtree(t1, Var));
  }

  lemma VarEmptied(t2: Tree)
    ensures var r := Prune(t2, Var)[Var := Dir];
      Var in r && r[Var] == Dir && NothingBelow(r, Var)
  {
  }

  lemma RootDirsKept(t1: Tree, s: map<Path, Node>)
    requires RootDirs in t1 && t1[RootDirs] == Dir
    ensures var r := Prune(Graft(t1, RootDirsVar, s), Var)[Var := Dir];
      RootDirs in r && r[RootDirs] == Dir
  {
    assert !Under(RootDirs, RootDirsVar);
    assert RootDirs[0] != Var[0] by { assert RootDirs[0][0] != Var[0][0]; }
    assert RootDirs[..1][0] == RootDirs[0];
  }

  lemma CopySource(t: Tree)
    ensures Subtree(t[RootDirs := Dir], Var) == Subtree(t, Var)
  {
    forall k | Under(k, Var)
      ensures Agree(t[RootDirs := Dir], t, k)
    {
      assert k[0] == "var";
    }
    SubtreeAgrees(t[RootDirs := Dir], t, Var);
  }

  lemma CopyTarget(t: Tree)
    requires Absent(t, RootDirs)
    ensures var t1 := t[RootDirs := Dir];
      Subtree(Graft(t1, RootDirsVar, Subtree(t1, Var)), RootDirsVar) == Subtree(t1, Var)
  {
    var t1 := t[RootDirs := Dir];
    forall k | k in t1
      ensures !Under(k, RootDirsVar)
    {
      if |k| >= 3 {
        assert k[..2] == k[..3][..2] && RootDirs == RootDirsVar[..2];
      }
    }
    SubtreeOfGraft(t1, RootDirsVar, Subtree(t1, Var));
  }

  lemma MakeVarKeepsCopy(t2: Tree)
    ensures Subtree(Prune(t2, Var)[Var := Dir], RootDirsVar) == Subtree(t2, RootDirsVar)
  {
    forall k | Under(k, RootDirsVar)
      ensures Agree(Prune(t2, Var)[Var := Dir], t2, k)
    {
      assert k[0] == "usr";
    }
    SubtreeAgrees(Prune(t2, Var)[Var := Dir], t2, RootDirsVar);
  }

  /** Outside `usr/rootdirs` and `var` nothing changes, whether the step succeeds or
      not. */
  lemma MoveVarFrame(t: Tree, k: Path)
    requires !Under(k, RootDirs) && !Under(k, Var)
    ensures Agree(MoveVar(t).tree, t, k)
  {
    assert !Under(k, RootDirsVar) by {
      if Under(k, RootDirsVar) {
        UnderExtension(k, RootDirs, "var");
      }
    }
    assert k != RootDirs && k != Var by { assert Under(RootDirs, RootDirs) && Under(Var, Var); }
    StepFrames(t, Var, RootDirs, k);
    if Mkdir(t, RootDirs).Ok? {
      var t1 := Mkdir(t, RootDirs).value;
      StepFrames(t1, Var, RootDirsVar, k);
      if CopyTree(t1, Var, RootDirsVar).Ok? {
        var t2 := CopyTree(t1, Var, RootDirsVar).value;
        StepFrames(t2, Var, Var, k);
        if RmTree(t2, Var).Ok? {
          StepFrames(RmTree(t2, Var).value, Var, Var, k);
        }
      }
    }
  }

  /** In a well-formed tree the step succeeds exactly when `usr` is a directory
      without `rootdirs` and `var` is a directory; a second conversion fails here. */
  lemma MoveVarSucceedsExactly(t: Tree)
    requires WellFormed(t)
    ensures MoveVar(t).outcome == Done <==>
      IsDir(t, Usr) && RootDirs !in t && Var in t && t[Var].Dir?
    ensures MoveVar(t).outcome.Failed? ==> MoveVar(t).outcome == Failed(Raised)
  {
    if MoveVar(t).outcome == Done {
      MoveVarNeeds(t);
    } else if IsDir(t, Usr) && RootDirs !in t && Var in t && t[Var].Dir? {
      MissingHasNothingBelow(t, RootDirs);
      MoveVarSucceeds(t);
    }
  }

  lemma MoveVarNeeds(t: Tree)
    requires MoveVar(t).outcome == Done
    ensures IsDir(t, Usr) && RootDirs !in t && Var in t && t[Var].Dir?
  {
    FixedPaths();
  }

  lemma MoveVarSucceeds(t: Tree)
    requires IsDir(t, Usr) && RootDirs !in t && Var in t && t[Var].Dir? && Absent(t, RootDirs)
    ensures MoveVar(t).outcome == Done
  {
    FixedPaths();
    var t1 := t[RootDirs := Dir];
    assert CopyTree(t1, Var, RootDirsVar).Ok?;
    var t2 := Graft(t1, RootDirsVar, Subtree(t1, Var));
    assert Var in t2 && t2[Var] == Dir;
    assert Var !in Prune(t2, Var);
  }

  // ---------------------------------------------------------------------------
  // The layout after the conversion

  /** `var` and `usr/rootdirs`, and what lies below them. */
  predicate InVarSide(k: Path) {
    k != [] && (k[0] == "var" || (|k| >= 2 && k[0] == "usr" && k[1] == "rootdirs"))
  }

  /** `usr/etc` and what lies below it. */
  predicate InUsrEtc(k: Path) {
    |k| >= 2 && k[0] == "usr" && k[1] == "etc"
  }

  lemma NotCruft(k: Path)
    requires InVarSide(k) || InUsrEtc(k) || (k != [] && k[0] == "etc")
    ensures k !in Cruft
  {
  }

  lemma NotLinked(k: Path)
    requires InVarSide(k) || InUsrEtc(k)
    ensures forall i | 0 <= i < |TopLevelLinks| :: !Under(k, TopLevelLinks[i].name)
  {
    forall i | 0 <= i < |TopLevelLinks|
      ensures !Under(k, TopLevelLinks[i].name)
    {
    }
  }

  /** The placeholders add `ostree` and `sysroot` and nothing else. */
  lemma PlaceholdersFrame(t: Tree, k: Path)
    requires k != OstreeDir && k != SysrootDir
    ensures Agree(Placeholders(t), t, k)
  {
  }

  /** Each placeholder is a directory afterwards unless something else stood in its
      way; something other than a directory at `ostree` makes the `try` give up before
      `sysroot`, and something other than a directory at `sysroot` stays as it was. */
  lemma PlaceholdersEffect(t: Tree)
    ensures FreeForDir(t, OstreeDir) ==> IsDir(Placeholders(t), OstreeDir)
    ensures FreeForDir(t, OstreeDir) && FreeForDir(t, SysrootDir) ==>
      IsDir(Placeholders(t), SysrootDir)
    ensures !FreeForDir(t, OstreeDir) ==> Placeholders(t) == t
    ensures !FreeForDir(t, SysrootDir) ==> Agree(Placeholders(t), t, SysrootDir)
  {
    assert OstreeDir != SysrootDir by { assert "ostree"[0] != "sysroot"[0]; }
    assert Parent(OstreeDir) == [] && Parent(SysrootDir) == [];
  }

  /** `shutil.move(etc, usr)` into a directory `usr` renames `etc` to `usr/etc`. */
  lemma EtcMoved(c: Tree)
    requires IsDir(c, Usr) && ShutilMove(c, Etc, Usr).Ok?
    ensures Subtree(ShutilMove(c, Etc, Usr).value, UsrEtc) == Subtree(c, Etc)
  {
    EtcMoveIsRename(c);
    SubtreeOfGraft(Prune(Prune(c, UsrEtc), Etc), UsrEtc, Subtree(c, Etc));
  }

  lemma EtcMoveIsRename(c: Tree)
    requires IsDir(c, Usr)
    ensures ShutilMove(c, Etc, Usr) == (if UsrEtc in c then Err else Rename(c, Etc, UsrEtc))
  {
    assert Usr + [Etc[|Etc| - 1]] == UsrEtc;
  }

  lemma EtcMoveFrame(c: Tree, k: Path)
    requires IsDir(c, Usr) && ShutilMove(c, Etc, Usr).Ok? && InVarSide(k)
    ensures Agree(ShutilMove(c, Etc, Usr).value, c, k)
  {
    EtcMoveIsRename(c);
    assert !Under(k, Etc) && !Under(k, UsrEtc) by { OutsideEtc(k); }
    RenameFrame(c, Etc, UsrEtc, k);
  }

  lemma OutsideEtc(k: Path)
    requires InVarSide(k)
    ensures !Under(k, Etc) && !Under(k, UsrEtc)
  {
    assert "var"[0] != "etc"[0] && "usr"[0] != "etc"[0] && "rootdirs"[0] != "etc"[0];
    assert k[..1][0] == k[0];
    if |k| >= 2 { assert k[..2][1] == k[1]; }
  }

  /** The placeholders and the links leave `var`, `usr/rootdirs` and `usr/etc` alone. */
  lemma LastStepsFrame(e: Tree, k: Path)
    requires InVarSide(k) || InUsrEtc(k)
    ensures Agree(SetLinks(Placeholders(e), TopLevelLinks).tree, e, k)
  {
    NotLinked(k);
    LinksFrame(Placeholders(e), TopLevelLinks, k);
    assert k != OstreeDir && k != SysrootDir by {
      assert k[0] != "ostree" by { assert k[0][0] != 'o'; }
      assert k[0] != "sysroot" by { assert k[0][0] != 's'; }
    }
    PlaceholdersFrame(e, k);
  }

  /** Below `usr` but outside `usr/rootdirs`, `usr/etc` and `usr/local`: `usr/lib`
      with the kernels and the tmpfiles configuration, `usr/bin`, `usr/share`. */
  predicate InPlainUsr(k: Path) {
    |k| >= 2 && k[0] == "usr" && k[1] != "rootdirs" && k[1] != "etc" && k[1] != "local"
  }

  /** None of the layout steps reaches such an entry. */
  lemma PlainUsrApart(k: Path)
    requires InPlainUsr(k)
    ensures !Under(k, RootDirs) && !Under(k, Var) && !Under(k, Etc) && !Under(k, UsrEtc)
    ensures k !in Cruft && k != OstreeDir && k != SysrootDir
    ensures forall i | 0 <= i < |TopLevelLinks| :: !Under(k, TopLevelLinks[i].name)
  {
    assert k[..1][0] == k[0] && k[..2][1] == k[1];
    assert "usr"[0] != "var"[0] && "usr"[0] != "etc"[0];
    forall i | 0 <= i < |TopLevelLinks|
      ensures !Under(k, TopLevelLinks[i].name)
    {
      var name := TopLevelLinks[i].name;
      if |name| == 1 {
        assert name[0][0] != 'u';
      } else {
        assert name == ["usr", "local"];
      }
    }
    forall i | 0 <= i < |Cruft|
      ensures Cruft[i] != k
    {
      assert Cruft[i][0][0] != 'u';
    }
  }

  /** The layout change leaves every entry in plain `usr` as it was. */
  lemma PlainUsrKept(t: Tree, k: Path)
    requires ConvertLayout(t).outcome == Done && InPlainUsr(k)
    ensures Agree(ConvertLayout(t).tree, t, k)
  {
    LayoutSteps(t);
    UsrStillDir(t);
    var m := MoveVar(t).tree;
    var c := RemoveCruft(m, Cruft);
    PlainUsrApart(k);
    MoveVarFrame(t, k);
    CruftRemoved(m, Cruft, k);
    EtcMoveIsRename(c);
    RenameFrame(c, Etc, UsrEtc, k);
    var e := ShutilMove(c, Etc, Usr).value;
    LinksFrame(Placeholders(e), TopLevelLinks, k);
    PlaceholdersFrame(e, k);
  }

  /** A successful layout change went through every step. */
  lemma LayoutSteps(t: Tree)
    requires ConvertLayout(t).outcome == Done
    ensures MoveVar(t).outcome == Done
    ensures var c := RemoveCruft(MoveVar(t).tree, Cruft);
      && ShutilMove(c, Etc, Usr).Ok?
      && ConvertLayout(t) == SetLinks(Placeholders(ShutilMove(c, Etc, Usr).value), TopLevelLinks)
  {
  }

  /** `usr` is still a directory when `etc` is moved. */
  lemma UsrStillDir(t: Tree)
    requires MoveVar(t).outcome == Done
    ensures IsDir(RemoveCruft(MoveVar(t).tree, Cruft), Usr)
  {
    MoveVarNeeds(t);
    FixedPaths();
    assert !Under(Usr, RootDirs) && !Under(Usr, Var);
    MoveVarFrame(t, Usr);
    NotCruft(["usr", "etc"]);
    CruftRemoved(MoveVar(t).tree, Cruft, Usr);
    assert Usr !in Cruft;
  }

  /** After the move of `var`, `var` and `usr/rootdirs` are left alone. */
  lemma VarSideKept(t: Tree, k: Path)
    requires ConvertLayout(t).outcome == Done && InVarSide(k)
    ensures Agree(ConvertLayout(t).tree, MoveVar(t).tree, k)
  {
    LayoutSteps(t);
    UsrStillDir(t);
    var m := MoveVar(t).tree;
    var c := RemoveCruft(m, Cruft);
    NotCruft(k);
    CruftRemoved(m, Cruft, k);
    EtcMoveFrame(c, k);
    LastStepsFrame(ShutilMove(c, Etc, Usr).value, k);
  }

  /** The move of `var` and the cruft removal leave `etc` alone. */
  lemma EtcEntryKept(t: Tree, k: Path)
    requires Under(k, Etc)
    ensures Agree(RemoveCruft(MoveVar(t).tree, Cruft), t, k)
  {
    NotCruft(k);
    CruftRemoved(MoveVar(t).tree, Cruft, k);
    assert !Under(k, RootDirs) && !Under(k, Var) by {
      assert "etc"[0] != "usr"[0] && "etc"[0] != "var"[0];
    }
    MoveVarFrame(t, k);
  }

  lemma CruftKeepsEtc(t: Tree)
    ensures Subtree(RemoveCruft(MoveVar(t).tree, Cruft), Etc) == Subtree(t, Etc)
  {
    forall k | Under(k, Etc)
      ensures Agree(RemoveCruft(MoveVar(t).tree, Cruft), t, k)
    {
      EtcEntryKept(t, k);
    }
    SubtreeAgrees(RemoveCruft(MoveVar(t).tree, Cruft), t, Etc);
  }

  lemma LastStepsKeepUsrEtc(e: Tree)
    ensures Subtree(SetLinks(Placeholders(e), TopLevelLinks).tree, UsrEtc) == Subtree(e, UsrEtc)
  {
    forall k | Under(k, UsrEtc)
      ensures Agree(SetLinks(Placeholders(e), TopLevelLinks).tree, e, k)
    {
      LastStepsFrame(e, k);
    }
    SubtreeAgrees(SetLinks(Placeholders(e), TopLevelLinks).tree, e, UsrEtc);
  }

  /** `usr/etc` is the old `etc`. */
  lemma EtcKept(t: Tree)
    requires ConvertLayout(t).outcome == Done
    ensures Subtree(ConvertLayout(t).tree, UsrEtc) == Subtree(t, Etc)
  {
    LayoutSteps(t);
    UsrStillDir(t);
    var c := RemoveCruft(MoveVar(t).tree, Cruft);
    LastStepsKeepUsrEtc(ShutilMove(c, Etc, Usr).value);
    EtcMoved(c);
    CruftKeepsEtc(t);
  }

  lemma BelowIsVarSide(k: Path, d: Path)
    requires d == RootDirsVar || d == Var || d == RootDirs
    requires Under(k, d)
    ensures InVarSide(k)
  {
    assert k[..|d|] == d;
    assert k[0] == k[..|d|][0];
    if |d| >= 2 { assert k[1] == k[..|d|][1]; }
  }

  lemma VarCopyKept(t: Tree)
    requires ConvertLayout(t).outcome == Done
    ensures Subtree(ConvertLayout(t).tree, RootDirsVar) == Subtree(MoveVar(t).tree, RootDirsVar)
  {
    forall k | Under(k, RootDirsVar)
      ensures Agree(ConvertLayout(t).tree, MoveVar(t).tree, k)
    {
      BelowIsVarSide(k, RootDirsVar);
      VarSideKept(t, k);
    }
    SubtreeAgrees(ConvertLayout(t).tree, MoveVar(t).tree, RootDirsVar);
  }

  lemma VarStaysEmpty(t: Tree)
    requires ConvertLayout(t).outcome == Done
    requires Var in MoveVar(t).tree && MoveVar(t).tree[Var] == Dir && NothingBelow(MoveVar(t).tree, Var)
    ensures var r := ConvertLayout(t).tree; Var in r && r[Var] == Dir && NothingBelow(r, Var)
  {
    forall k | Under(k, Var)
      ensures Agree(ConvertLayout(t).tree, MoveVar(t).tree, k)
    {
      BelowIsVarSide(k, Var);
      VarSideKept(t, k);
    }
  }

  lemma LinksAllPlaced(t: Tree)
    requires ConvertLayout(t).outcome == Done
    ensures LinksIn(ConvertLayout(t).tree, TopLevelLinks)
  {
    LayoutSteps(t);
    TopLevelLinksSeparate();
    var c := RemoveCruft(MoveVar(t).tree, Cruft);
    LinksPlaced(Placeholders(ShutilMove(c, Etc, Usr).value), TopLevelLinks);
  }

  /** After a successful layout change: `usr/rootdirs/var` holds what `var` held, `var`
      is an empty directory, `usr/etc` holds what `etc` held, and each top-level name
      is its link. */
  lemma LayoutConverted(t: Tree)
    requires Absent(t, RootDirs) && ConvertLayout(t).outcome == Done
    ensures var r := ConvertLayout(t).tree;
      && Subtree(r, RootDirsVar) == Subtree(t, Var)
      && Var in r && r[Var] == Dir && NothingBelow(r, Var)
      && RootDirs in r && r[RootDirs] == Dir
      && Subtree(r, UsrEtc) == Subtree(t, Etc)
      && LinksIn(r, TopLevelLinks)
      && (FreeForDir(t, SysrootDir) ==> IsDir(r, SysrootDir))
  {
    LayoutSteps(t);
    MoveVarEffect(t);
    VarCopyKept(t);
    VarStaysEmpty(t);
    VarSideKept(t, RootDirs);
    EtcKept(t);
    LinksAllPlaced(t);
    if FreeForDir(t, SysrootDir) {
      SysrootAfterLayout(t);
    }
  }

  /** A `sysroot` that was absent or a directory is a directory after a successful
      layout change: the link loop needs `ostree` to be a directory, so the `try`
      got as far as `sysroot`, and no later step touches it. */
  lemma SysrootAfterLayout(t: Tree)
    requires ConvertLayout(t).outcome == Done && FreeForDir(t, SysrootDir)
    ensures IsDir(ConvertLayout(t).tree, SysrootDir)
  {
    LayoutSteps(t);
    UsrStillDir(t);
    var c := RemoveCruft(MoveVar(t).tree, Cruft);
    var e := ShutilMove(c, Etc, Usr).value;
    SysrootApart();
    MoveVarFrame(t, SysrootDir);
    CruftRemoved(MoveVar(t).tree, Cruft, SysrootDir);
    EtcMoveIsRename(c);
    RenameFrame(c, Etc, UsrEtc, SysrootDir);
    assert FreeForDir(e, SysrootDir);
    TopLevelLinksSeparate();
    LinksSucceedExactly(Placeholders(e), TopLevelLinks);
    assert Replaceable(Placeholders(e), TopLevelLinks[4].name);
    PlaceholdersEffect(e);
    LinksFrame(Placeholders(e), TopLevelLinks, SysrootDir);
  }

  /** `sysroot` lies apart from every other fixed path of the conversion. */
  lemma SysrootApart()
    ensures SysrootDir !in Cruft
    ensures !Under(SysrootDir, RootDirs) && !Under(SysrootDir, Var)
    ensures !Under(SysrootDir, Etc) && !Under(SysrootDir, UsrEtc)
    ensures forall i | 0 <= i < |TopLevelLinks| :: !Under(SysrootDir, TopLevelLinks[i].name)
    ensures TopLevelLinks[4].name == OstreeDir
  {
    assert "sysroot"[0] != "usr"[0] && "sysroot"[0] != "var"[0] && "sysroot"[0] != "etc"[0];
    assert SysrootDir[..|Var|] == SysrootDir && SysrootDir != Var;
    forall i | 0 <= i < |TopLevelLinks|
      ensures !Under(SysrootDir, TopLevelLinks[i].name)
    {
      var n := TopLevelLinks[i].name;
      assert n[0] != "sysroot" by { assert n[0][1] != 'y'; }
    }
    forall i | 0 <= i < |Cruft|
      ensures Cruft[i] != SysrootDir
    {
      assert Cruft[i][0][0] != 's';
    }
  }

  lemma RootDirsAfterLayout(t: Tree)
    requires ConvertLayout(t).outcome == Done
    ensures RootDirs in ConvertLayout(t).tree && ConvertLayout(t).tree[RootDirs] == Dir
  {
    LayoutSteps(t);
    MoveVarTree(t);
    var t1 := t[RootDirs := Dir];
    RootDirsKept(t1, Subtree(t1, Var));
    VarSideKept(t, RootDirs);
  }

  // ---------------------------------------------------------------------------
  // The whole conversion

  /** Converting a converted tree fails: `usr/rootdirs` survives the sanitisation,
      so `os.mkdir` raises. */
  lemma SecondRunFails(t: Tree, root: Path, walk: seq<Path>, root2: Path, walk2: seq<Path>)
    requires ValidPath(root) && WalkEntries(walk) && ValidPath(root2) && WalkEntries(walk2)
    requires ConvertToOstree(t, root, walk).outcome == Done
    ensures ConvertToOstree(ConvertToOstree(t, root, walk).tree, root2, walk2).outcome == Failed(Exited)
         || ConvertToOstree(ConvertToOstree(t, root, walk).tree, root2, walk2).outcome == Failed(Raised)
  {
    var s := SanitizeWalk(t, root, walk);
    RootDirsAfterLayout(s.tree);
    var r := ConvertToOstree(t, root, walk).tree;
    SanitizeKeepsDir(r, root2, walk2, RootDirs);
    SanitizeFails(r, root2, walk2);
  }

  /** The loop fails only by exiting. */
  lemma {:induction false} SanitizeFails(t: Tree, root: Path, walk: seq<Path>)
    requires ValidPath(root) && WalkEntries(walk)
    ensures SanitizeWalk(t, root, walk).outcome.Failed? ==>
      SanitizeWalk(t, root, walk).outcome == Failed(Exited)
    decreases |walk|
  {
    if walk != [] {
      SanitizeFails(t, root, walk[..|walk| - 1]);
    }
  }

  /** A successful conversion of a well-formed tree with `usr` walked: `var` has moved
      to `usr/rootdirs/var` and is empty, `etc` has moved to `usr/etc`, and every
      top-level link is in place. */
  lemma Converted(t: Tree, root: Path, walk: seq<Path>)
    requires WellFormed(t) && ValidPath(root) && WalkOf(t, walk)
    requires ConvertToOstree(t, root, walk).outcome == Done
    ensures var r := ConvertToOstree(t, root, walk).tree;
      && Subtree(r, RootDirsVar) == Subtree(t, Var)
      && Var in r && r[Var] == Dir && NothingBelow(r, Var)
      && Subtree(r, UsrEtc) == Subtree(t, Etc)
      && LinksIn(r, TopLevelLinks)
      && (FreeForDir(t, SysrootDir) ==> IsDir(r, SysrootDir))
  {
    var s := SanitizeWalk(t, root, walk);
    SanitizeWalkEffect(t, root, walk);
    LayoutSteps(s.tree);
    MoveVarNeeds(s.tree);
    MissingHasNothingBelow(s.tree, RootDirs);
    LayoutConverted(s.tree);
    SanitizeKeepsOutsideUsr(t, root, walk, Var);
    SanitizeKeepsOutsideUsr(t, root, walk, Etc);
    SanitizeKeepsSysroot(t, root, walk);
  }

  /** A successful conversion of a well-formed tree keeps every entry in plain `usr`
      that is not a link: the sanitisation replaces only links, and the layout change
      does not reach there. */
  lemma ConvertedKeepsPlainUsr(t: Tree, root: Path, walk: seq<Path>, k: Path)
    requires WellFormed(t) && ValidPath(root) && WalkOf(t, walk)
    requires ConvertToOstree(t, root, walk).outcome == Done
    requires InPlainUsr(k) && k in t && !t[k].Symlink?
    ensures var r := ConvertToOstree(t, root, walk).tree; k in r && r[k] == t[k]
  {
    var s := SanitizeWalk(t, root, walk);
    SanitizeWalkEffect(t, root, walk);
    SanitizeKeepsNonLinks(t, root, walk, k);
    PlainUsrKept(s.tree, k);
  }

  lemma SanitizeKeepsSysroot(t: Tree, root: Path, walk: seq<Path>)
    requires ValidPath(root) && WalkEntries(walk)
    ensures Agree(SanitizeWalk(t, root, walk).tree, t, SysrootDir)
  {
    OutsideUsr(walk, SysrootDir);
    SanitizeWalkFrame(t, root, walk, SysrootDir);
  }

  lemma SanitizeKeepsOutsideUsr(t: Tree, root: Path, walk: seq<Path>, d: Path)
    requires ValidPath(root) && WalkEntries(walk) && d != [] && d[0] != "usr"
    ensures Subtree(SanitizeWalk(t, root, walk).tree, d) == Subtree(t, d)
  {
    forall k | Under(k, d)
      ensures Agree(SanitizeWalk(t, root, walk).tree, t, k)
    {
      assert k[0] == k[..|d|][0];
      OutsideUsr(walk, k);
      SanitizeWalkFrame(t, root, walk, k);
    }
    SubtreeAgrees(SanitizeWalk(t, root, walk).tree, t, d);
  }
}
