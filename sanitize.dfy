/** `sanitize_usr_symlinks`: links below `usr` that lead into `var` are replaced by a
    hard link to the file or a copy of the directory they lead to, because `var` is
    not part of the committed tree. */
module Sanitize {
  import opened Strings
  import opened FileTree
  import opened PathResolution
  import opened Steps

  /** A path `os.walk(rootdir/usr)` can report among the files of a directory. */
  predicate WalkEntry(p: Path) {
    |p| >= 2 && p[0] == "usr" && ValidPath(p)
  }

  predicate WalkEntries(walk: seq<Path>) {
    forall i :: 0 <= i < |walk| ==> WalkEntry(walk[i])
  }

  /** `walk` lists distinct non-directory entries of `t`, as `os.walk` reports files.
      Which links it lists is decided by the host (a link to a directory is listed
      among the directories and never visited), so the walk is an input. */
  ghost predicate WalkOf(t: Tree, walk: seq<Path>) {
    && WalkEntries(walk)
    && (forall i :: 0 <= i < |walk| ==> walk[i] in t && !t[walk[i]].Dir?)
    && (forall i, j :: 0 <= i < j < |walk| ==> walk[i] != walk[j])
  }

  /** `k` lies at or below one of the walked entries. */
  ghost predicate UnderSome(k: Path, walk: seq<Path>) {
    exists j :: 0 <= j < |walk| && Under(k, walk[j])
  }

  /** What one iteration does with the entry at `p`. */
  datatype Action = Keep | Replace(source: Path)

  /** The tests of one iteration: a link is replaced only when its target is not
      inside `usr` and the top level of the target relative to the root is "var";
      `source` is the entry the normalized target names. */
  function Classify(t: Tree, root: Path, p: Path): (a: Action)
    requires ValidPath(root) && WalkEntry(p)
    ensures a.Replace? ==> p in t && t[p].Symlink?
    ensures a.Replace? ==> |a.source| >= 1 && a.source[0] == "var" && ValidPath(a.source)
  {
    if p !in t || !t[p].Symlink? then Keep
    else
      var target := TargetComponents(root, p, t[p].target);
      if InsideUsr(root, target) then Keep
      else if ToplevelOf(root, target) != "var" then Keep
      else
        ToplevelOfTarget(root, p, t[p].target);
        Replace(Normalize(target)[|root|..])
  }

  /** One iteration: `os.remove` the link, then `os.link` a file target or
      `shutil.copytree` a directory target into its place; an error ends the program
      with `sys.exit(1)`. */
  function SanitizeOne(t: Tree, root: Path, p: Path): Run
    requires ValidPath(root) && WalkEntry(p)
  {
    Apply(t, p, Classify(t, root, p))
  }

  /** What an iteration does once the entry at `p` is classified. */
  function Apply(t: Tree, p: Path, a: Action): Run
    requires p != [] && (a.Replace? ==> a.source != [])
  {
    match a
    case Keep => Run(t, Done)
    case Replace(q) =>
      match Unlink(t, p)
      case Err => Run(t, Failed(Exited))
      case Ok(removed) =>
        var copied :=
          if q in removed && removed[q].File? then HardLink(removed, q, p)
          else if q in removed && removed[q].Dir? then CopyTree(removed, q, p)
          else Ok(removed);
        if copied.Ok? then Run(copied.value, Done) else Run(removed, Failed(Exited))
  }

  /** The loop over the files the walk reports, in order. */
  function SanitizeWalk(t: Tree, root: Path, walk: seq<Path>): Run
    requires ValidPath(root) && WalkEntries(walk)
    decreases |walk|
  {
    if walk == [] then Run(t, Done)
    else
      var before := SanitizeWalk(t, root, walk[..|walk| - 1]);
      if before.outcome.Failed? then before
      else SanitizeOne(before.tree, root, walk[|walk| - 1])
  }

  /** What the sanitizer leaves at and below `p`, keyed relative to `p`: the link
      itself when it is kept; the file or the directory tree it leads to; nothing when
      it leads to neither. */
  function Replacement(t: Tree, root: Path, p: Path): map<Path, Node>
    requires ValidPath(root) && WalkEntry(p)
  {
    match Classify(t, root, p)
    case Keep => Subtree(t, p)
    case Replace(q) =>
      if q in t && t[q].File? then map[[] := t[q]]
      else if q in t && t[q].Dir? then Subtree(t, q)
      else map[]
  }

  // ---------------------------------------------------------------------------
  // Which links are replaced

  /** A link is replaced exactly when it escapes `usr` as written and its normalized
      target lies in `rootdir/var`. */
  lemma ReplacedExactly(t: Tree, root: Path, p: Path)
    requires ValidPath(root) && WalkEntry(p)
    ensures Classify(t, root, p).Replace? <==>
      p in t && t[p].Symlink? &&
      var target := TargetComponents(root, p, t[p].target);
      var n := Normalize(target);
      !InsideUsr(root, target) && Under(n, root) && |n| > |root| && n[|root|] == "var"
  {
    if p in t && t[p].Symlink? {
      ToplevelOfTarget(root, p, t[p].target);
    }
  }

  /** The entry a link that is replaced leads to. */
  lemma ReplacedBy(t: Tree, root: Path, p: Path, target: seq<string>, q: Path)
    requires ValidPath(root) && WalkEntry(p) && p in t && t[p].Symlink?
    requires target == TargetComponents(root, p, t[p].target) && !InsideUsr(root, target)
    requires var n := Normalize(target);
      Under(n, root) && |n| > |root| && n[|root|] == "var" && q == n[|root|..]
    ensures Classify(t, root, p) == Replace(q)
  {
    ToplevelOfTarget(root, p, t[p].target);
  }

  /** A link whose target passes the `commonpath` test is kept. */
  lemma KeptInsideUsr(t: Tree, root: Path, p: Path, target: seq<string>)
    requires ValidPath(root) && WalkEntry(p)
    requires p in t && t[p].Symlink? && target == TargetComponents(root, p, t[p].target)
    requires InsideUsr(root, target)
    ensures Classify(t, root, p) == Keep
  {
  }

  /** A relative link is never replaced, wherever it leads. */
  lemma RelativeLinksAreKept(t: Tree, root: Path, p: Path)
    requires ValidPath(root) && WalkEntry(p)
    requires p in t && t[p].Symlink? && !StartsWith(t[p].target, "/")
    ensures Classify(t, root, p) == Keep
  {
    RelativeLinkInsideUsr(root, p, t[p].target);
  }

  /** The components of an absolute link written from valid names. */
  lemma ComponentsOfAbsolute(names: seq<string>)
    requires names != [] && forall i :: 0 <= i < |names| ==> IsToken(names[i], IsSlash)
    ensures StartsWith("/" + Join(names, '/'), "/")
    ensures !StartsWith(("/" + Join(names, '/'))[1..], "/")
    ensures Components(("/" + Join(names, '/'))[1..]) == names
  {
    var j := Join(names, '/');
    var s := "/" + j;
    assert s[..1] == "/";
    assert s[1..] == j;
    assert IsSlash('/');
    TokensOfJoin(names, '/', IsSlash);
    assert Components(j) == names;
    assert IsToken(names[0], IsSlash);
    JoinStartsWithFirst(names, '/');
    assert j[0] != '/' by { assert j[0] == names[0][0]; }
    assert j[..1] != "/" by { assert j[..1][0] == j[0]; }
  }

  lemma NamesAreTokens(names: seq<string>)
    requires ValidPath(names)
    ensures forall i :: 0 <= i < |names| ==> IsToken(names[i], IsSlash)
  {
  }

  lemma ClimbNamesAreTokens(rest: seq<string>)
    requires ValidPath(rest)
    ensures var names := ["usr", "..", "var"] + rest;
      forall i :: 0 <= i < |names| ==> IsToken(names[i], IsSlash)
  {
  }

  /** An absolute link to `/var/<rest>` is replaced by the entry `var/<rest>`. */
  lemma AbsoluteLinkIntoVarIsReplaced(t: Tree, root: Path, p: Path, rest: seq<string>)
    requires ValidPath(root) && WalkEntry(p) && ValidPath(rest)
    requires p in t && t[p] == Symlink("/" + Join(["var"] + rest, '/'))
    ensures Classify(t, root, p) == Replace(["var"] + rest)
  {
    var names := ["var"] + rest;
    VarNamesValid(rest);
    NamesAreTokens(names);
    AbsoluteTarget(root, p, names);
    VarTarget(root, rest);
    ReplacedBy(t, root, p, root + names, names);
  }

  /** An absolute link "/a/b/..." names `rootdir/a/b/...`. */
  lemma AbsoluteTarget(root: Path, p: Path, names: seq<string>)
    requires p != [] && names != [] && forall i :: 0 <= i < |names| ==> IsToken(names[i], IsSlash)
    ensures TargetComponents(root, p, "/" + Join(names, '/')) == root + names
  {
    ComponentsOfAbsolute(names);
  }

  lemma VarNamesValid(rest: seq<string>)
    requires ValidPath(rest)
    ensures ValidPath(["var"] + rest) && (["var"] + rest)[0] == "var" != "usr"
  {
    assert ValidName("var");
    assert "var"[0] != "usr"[0];
  }

  lemma VarTarget(root: Path, rest: seq<string>)
    requires ValidPath(root) && ValidPath(rest)
    ensures var target := root + (["var"] + rest);
      Normalize(target) == target && !InsideUsr(root, target) && target[|root|..] == ["var"] + rest
  {
    var names := ["var"] + rest;
    VarNamesValid(rest);
    var target := root + names;
    NormalizeValidPath(target);
    assert target[|root|..] == names;
    OutsideSibling(root, names, "usr");
  }

  /** A valid path whose next name after `root` is not `name` is not below `root/name`. */
  lemma OutsideSibling(root: Path, names: seq<string>, name: string)
    requires ValidPath(root) && ValidPath(names) && names != [] && names[0] != name
    ensures !Under(Clean(root + names), root + [name])
  {
    var target := root + names;
    assert ValidPath(target);
    assert Clean(target) == target;
    assert target[..|root| + 1][|root|] == names[0];
    assert (root + [name])[|root|] == name;
  }

  /** The `commonpath` test looks at the target as written: an absolute link to
      `/usr/../var/<rest>` is kept, although its target is `var/<rest>`. */
  lemma ClimbingLinkIntoVarIsKept(t: Tree, root: Path, p: Path, rest: seq<string>)
    requires ValidPath(root) && WalkEntry(p) && ValidPath(rest)
    requires p in t && t[p] == Symlink("/" + Join(["usr", "..", "var"] + rest, '/'))
    ensures Normalize(TargetComponents(root, p, t[p].target)) == root + (["var"] + rest)
    ensures Classify(t, root, p) == Keep
  {
    var names := ["usr", "..", "var"] + rest;
    var target := root + names;
    assert TargetComponents(root, p, t[p].target) == target by {
      ClimbNamesAreTokens(rest);
      ComponentsOfAbsolute(names);
    }
    NormalizeClimb(root, rest);
    ClimbTarget(root, rest);
    KeptInsideUsr(t, root, p, target);
  }

  lemma ClimbTarget(root: Path, rest: seq<string>)
    requires ValidPath(root) && ValidPath(rest)
    ensures InsideUsr(root, root + (["usr", "..", "var"] + rest))
  {
    var target := root + (["usr", "..", "var"] + rest);
    assert target == (root + ["usr"]) + ([".."] + (["var"] + rest));
    CleanConcat(root + ["usr"], [".."] + (["var"] + rest));
    assert Clean(root + ["usr"]) == root + ["usr"];
  }

  // ---------------------------------------------------------------------------
  // What the loop does to the tree

  /** `r` is `t` with `s` at and below `p` and nothing else changed. */
  ghost predicate ReplacedAt(t: Tree, r: Tree, p: Path, s: map<Path, Node>) {
    && (forall k | !Under(k, p) :: Agree(r, t, k))
    && Subtree(r, p) == s
  }

  /** `os.remove(p)` on a link leaves a well-formed tree with nothing at or below `p`. */
  lemma RemoveLink(t: Tree, p: Path)
    requires WellFormed(t) && p in t && !t[p].Dir?
    ensures WellFormed(t - {p})
    ensures forall k | k in t - {p} :: !Under(k, p)
  {
    LeafHasNothingBelow(t, p);
    RemoveLeafKeepsWellFormed(t, p);
  }

  /** `os.remove(p)` then `os.link(q, p)` for a file `q`. */
  lemma ReplaceByFile(t: Tree, p: Path, q: Path)
    requires WellFormed(t) && p in t && !t[p].Dir? && q in t && t[q].File? && q != p
    ensures HardLink(t - {p}, q, p).Ok?
    ensures WellFormed(HardLink(t - {p}, q, p).value)
    ensures ReplacedAt(t, HardLink(t - {p}, q, p).value, p, map[[] := t[q]])
  {
    RemoveLink(t, p);
    PutKeepsWellFormed(t - {p}, p, t[q]);
    PutInPlace(t, t - {p}, p, t[q]);
  }

  lemma PutInPlace(t: Tree, removed: Tree, p: Path, n: Node)
    requires removed == t - {p} && forall k | k in removed :: !Under(k, p)
    ensures ReplacedAt(t, removed[p := n], p, map[[] := n])
  {
    var r := removed[p := n];
    var s := Subtree(r, p);
    forall x
      ensures (x in s <==> x == []) && (x in s ==> s[x] == n)
    {
      assert Under(p + x, p);
      if x == [] {
        assert p + x == p;
      }
    }
    assert s.Keys == map[[] := n].Keys;
  }

  /** `os.remove(p)` then `shutil.copytree(q, p, symlinks=True)` for a directory `q`. */
  lemma ReplaceByDir(t: Tree, p: Path, q: Path)
    requires WellFormed(t) && p in t && !t[p].Dir? && q in t && t[q].Dir?
    requires !Under(q, p) && !Under(p, q) && ValidName(p[|p| - 1])
    ensures CopyTree(t - {p}, q, p).Ok?
    ensures WellFormed(CopyTree(t - {p}, q, p).value)
    ensures ReplacedAt(t, CopyTree(t - {p}, q, p).value, p, Subtree(t, q))
  {
    RemoveLink(t, p);
    CopyTreeKeepsWellFormed(t - {p}, q, p);
    CopyInPlace(t, t - {p}, p, q);
  }

  lemma CopyInPlace(t: Tree, removed: Tree, p: Path, q: Path)
    requires removed == t - {p} && forall k | k in removed :: !Under(k, p)
    requires !Under(q, p) && !Under(p, q)
    ensures ReplacedAt(t, Graft(removed, p, Subtree(removed, q)), p, Subtree(t, q))
  {
    var s := Subtree(removed, q);
    var r := Graft(removed, p, s);
    forall k | Under(k, q)
      ensures Agree(removed, t, k)
    {
      assert k != p;
    }
    SubtreeAgrees(removed, t, q);
    SubtreeOfGraft(removed, p, s);
    assert Under(p, p);
    forall k | !Under(k, p)
      ensures Agree(r, t, k)
    {
      assert k in r <==> k in removed;
    }
  }

  /** `os.remove(p)` alone, when the target is neither a file nor a directory. */
  lemma ReplaceByNothing(t: Tree, p: Path)
    requires WellFormed(t) && p in t && !t[p].Dir?
    ensures WellFormed(t - {p})
    ensures ReplacedAt(t, t - {p}, p, map[])
  {
    RemoveLink(t, p);
    var s := Subtree(t - {p}, p);
    forall x
      ensures x !in s
    {
      assert Under(p + x, p);
    }
    assert s.Keys == {};
  }

  /** One iteration never fails on a well-formed tree, leaves everything outside `p`
      alone and puts the replacement at `p`. */
  lemma SanitizeOneEffect(t: Tree, root: Path, p: Path)
    requires WellFormed(t) && ValidPath(root) && WalkEntry(p)
    requires p in t && !t[p].Dir?
    ensures SanitizeOne(t, root, p).outcome == Done
    ensures WellFormed(SanitizeOne(t, root, p).tree)
    ensures ReplacedAt(t, SanitizeOne(t, root, p).tree, p, Replacement(t, root, p))
  {
    match Classify(t, root, p)
    case Keep =>
      assert Subtree(t, p) == Replacement(t, root, p);
    case Replace(q) =>
      assert !Under(q, p) && !Under(p, q);
      if q in t && t[q].File? {
        ReplaceByFile(t, p, q);
      } else if q in t && t[q].Dir? {
        ReplaceByDir(t, p, q);
      } else {
        ReplaceByNothing(t, p);
      }
  }

  /** No walked entry lies below another. */
  ghost predicate Incomparable(walk: seq<Path>) {
    forall i, j | 0 <= i < |walk| && 0 <= j < |walk| && i != j :: !Under(walk[i], walk[j])
  }

  lemma WalkIsIncomparable(t: Tree, walk: seq<Path>)
    requires WellFormed(t) && WalkOf(t, walk)
    ensures Incomparable(walk)
  {
    forall i, j | 0 <= i < |walk| && 0 <= j < |walk| && i != j
      ensures !Under(walk[i], walk[j])
    {
      LeafHasNothingBelow(t, walk[j]);
    }
  }

  /** Two distinct walked entries have nothing in common below them. */
  lemma WalkEntriesDisjoint(walk: seq<Path>, i: nat, j: nat, k: Path)
    requires Incomparable(walk) && i < |walk| && j < |walk| && i != j
    ensures !(Under(k, walk[i]) && Under(k, walk[j]))
  {
    if Under(k, walk[i]) && Under(k, walk[j]) {
      if |walk[i]| <= |walk[j]| {
        UnderBoth(k, walk[i], walk[j]);
      } else {
        UnderBoth(k, walk[j], walk[i]);
      }
    }
  }

  /** The classification and the replacement at `p` only look at `p`, below `p` and
      into `var`. */
  lemma ReplacementUnchanged(t1: Tree, t2: Tree, root: Path, p: Path)
    requires ValidPath(root) && WalkEntry(p)
    requires forall k | Under(k, p) || (k != [] && k[0] == "var") :: Agree(t1, t2, k)
    ensures Classify(t1, root, p) == Classify(t2, root, p)
    ensures Replacement(t1, root, p) == Replacement(t2, root, p)
  {
    assert Agree(t1, t2, p);
    match Classify(t1, root, p)
    case Keep =>
      SubtreeAgrees(t1, t2, p);
    case Replace(q) =>
      assert Agree(t1, t2, q);
      forall k | Under(k, q)
        ensures Agree(t1, t2, k)
      {
        assert k[0] == q[0];
      }
      SubtreeAgrees(t1, t2, q);
  }

  /** The whole loop: on a well-formed tree it never exits, it changes nothing outside
      the walked entries, and at each walked entry it leaves that entry's replacement,
      computed on the tree before the loop. */
  lemma SanitizeWalkEffect(t: Tree, root: Path, walk: seq<Path>)
    requires WellFormed(t) && ValidPath(root) && WalkOf(t, walk)
    ensures var r := SanitizeWalk(t, root, walk);
      && r.outcome == Done
      && WellFormed(r.tree)
      && (forall k | !UnderSome(k, walk) :: Agree(r.tree, t, k))
      && (forall i | 0 <= i < |walk| :: Subtree(r.tree, walk[i]) == Replacement(t, root, walk[i]))
  {
    WalkIsIncomparable(t, walk);
    WalkLoop(t, root, walk);
  }

  lemma {:induction false} WalkLoop(t: Tree, root: Path, walk: seq<Path>)
    requires WellFormed(t) && ValidPath(root) && WalkOf(t, walk) && Incomparable(walk)
    ensures var r := SanitizeWalk(t, root, walk);
      && r.outcome == Done
      && WellFormed(r.tree)
      && (forall k | !UnderSome(k, walk) :: Agree(r.tree, t, k))
      && (forall i | 0 <= i < |walk| :: Subtree(r.tree, walk[i]) == Replacement(t, root, walk[i]))
    decreases |walk|
  {
    if walk != [] {
      var init, p := walk[..|walk| - 1], walk[|walk| - 1];
      assert WalkOf(t, init) && Incomparable(init);
      WalkLoop(t, root, init);
      var mid := SanitizeWalk(t, root, init).tree;
      NextEntryUntouched(t, walk, mid);
      assert p in mid && !mid[p].Dir? by {
        assert Agree(mid, t, p);
      }
      ReplacementUnchanged(mid, t, root, p);
      SanitizeOneEffect(mid, root, p);
      StepKeepsEarlier(t, root, walk, mid, SanitizeOne(mid, root, p).tree);
    }
  }

  /** Before the last walked entry is visited, it and `var` are as they were. */
  lemma NextEntryUntouched(t: Tree, walk: seq<Path>, mid: Tree)
    requires WalkEntries(walk) && Incomparable(walk) && walk != []
    requires forall k | !UnderSome(k, walk[..|walk| - 1]) :: Agree(mid, t, k)
    ensures forall k | Under(k, walk[|walk| - 1]) || (k != [] && k[0] == "var") :: Agree(mid, t, k)
  {
    var init, p := walk[..|walk| - 1], walk[|walk| - 1];
    forall k | Under(k, p) || (k != [] && k[0] == "var")
      ensures Agree(mid, t, k)
    {
      forall j | 0 <= j < |init|
        ensures !Under(k, init[j])
      {
        if Under(k, p) {
          WalkEntriesDisjoint(walk, j, |walk| - 1, k);
        }
      }
    }
  }

  /** Visiting the last walked entry keeps what the earlier visits did. */
  lemma StepKeepsEarlier(t: Tree, root: Path, walk: seq<Path>, mid: Tree, r: Tree)
    requires ValidPath(root) && WalkEntries(walk) && Incomparable(walk) && walk != []
    requires var init := walk[..|walk| - 1];
      && (forall k | !UnderSome(k, init) :: Agree(mid, t, k))
      && (forall i | 0 <= i < |init| :: Subtree(mid, init[i]) == Replacement(t, root, init[i]))
    requires ReplacedAt(mid, r, walk[|walk| - 1], Replacement(t, root, walk[|walk| - 1]))
    ensures forall k | !UnderSome(k, walk) :: Agree(r, t, k)
    ensures forall i | 0 <= i < |walk| :: Subtree(r, walk[i]) == Replacement(t, root, walk[i])
  {
    StepFrame(t, walk, mid, r);
    var want := seq(|walk|, i requires 0 <= i < |walk| => Replacement(t, root, walk[i]));
    forall i | 0 <= i < |walk| - 1
      ensures Subtree(mid, walk[i]) == want[i]
    {
      assert walk[i] == walk[..|walk| - 1][i];
    }
    SubtreesKept(walk, mid, r, want);
  }

  /** The subtrees of the earlier entries stay as they were, and the last one is new. */
  lemma {:induction false} SubtreesKept(walk: seq<Path>, mid: Tree, r: Tree, want: seq<map<Path, Node>>)
    requires Incomparable(walk) && walk != [] && |want| == |walk|
    requires forall i | 0 <= i < |walk| - 1 :: Subtree(mid, walk[i]) == want[i]
    requires forall k | !Under(k, walk[|walk| - 1]) :: Agree(r, mid, k)
    requires Subtree(r, walk[|walk| - 1]) == want[|walk| - 1]
    ensures forall i | 0 <= i < |walk| :: Subtree(r, walk[i]) == want[i]
  {
    var n := |walk| - 1;
    forall i | 0 <= i < n
      ensures Subtree(r, walk[i]) == want[i]
    {
      EarlierSubtreeKept(walk, mid, r, i);
      assert Subtree(mid, walk[i]) == want[i];
    }
    forall i | 0 <= i < |walk|
      ensures Subtree(r, walk[i]) == want[i]
    {
      if i == n {
        assert Subtree(r, walk[n]) == want[n];
      }
    }
  }

  lemma StepFrame(t: Tree, walk: seq<Path>, mid: Tree, r: Tree)
    requires walk != []
    requires forall k | !UnderSome(k, walk[..|walk| - 1]) :: Agree(mid, t, k)
    requires forall k | !Under(k, walk[|walk| - 1]) :: Agree(r, mid, k)
    ensures forall k | !UnderSome(k, walk) :: Agree(r, t, k)
  {
    var init, p := walk[..|walk| - 1], walk[|walk| - 1];
    forall k | !UnderSome(k, walk)
      ensures Agree(r, t, k)
    {
      assert !Under(k, p);
      forall j | 0 <= j < |init|
        ensures !Under(k, init[j])
      {
        assert init[j] == walk[j];
      }
      assert !UnderSome(k, init);
      assert Agree(mid, t, k) && Agree(r, mid, k);
    }
  }

  lemma EarlierSubtreeKept(walk: seq<Path>, mid: Tree, r: Tree, i: nat)
    requires Incomparable(walk) && i < |walk| - 1
    requires forall k | !Under(k, walk[|walk| - 1]) :: Agree(r, mid, k)
    ensures Subtree(r, walk[i]) == Subtree(mid, walk[i])
  {
    forall k | Under(k, walk[i])
      ensures Agree(r, mid, k)
    {
      WalkEntriesDisjoint(walk, i, |walk| - 1, k);
    }
    SubtreeAgrees(r, mid, walk[i]);
  }

  // ---------------------------------------------------------------------------
  // What the loop leaves alone, in any tree

  /** One iteration changes nothing outside the entry it handles. */
  lemma SanitizeOneFrame(t: Tree, root: Path, p: Path, k: Path)
    requires ValidPath(root) && WalkEntry(p) && !Under(k, p)
    ensures Agree(SanitizeOne(t, root, p).tree, t, k)
  {
    ApplyFrame(t, p, Classify(t, root, p), k);
  }

  lemma ApplyFrame(t: Tree, p: Path, a: Action, k: Path)
    requires p != [] && (a.Replace? ==> a.source != []) && !Under(k, p)
    ensures Agree(Apply(t, p, a).tree, t, k)
  {
    assert k != p by { assert Under(p, p); }
  }

  /** On a well-formed tree the loop keeps every entry that is not a link: a walked
      file is kept as it is, and nothing lies below a walked entry. */
  lemma SanitizeKeepsNonLinks(t: Tree, root: Path, walk: seq<Path>, k: Path)
    requires WellFormed(t) && ValidPath(root) && WalkOf(t, walk)
    requires k in t && !t[k].Symlink?
    ensures var r := SanitizeWalk(t, root, walk).tree; k in r && r[k] == t[k]
  {
    if j :| 0 <= j < |walk| && Under(k, walk[j]) {
      LeafHasNothingBelow(t, walk[j]);
      assert k == walk[j];
      WalkedFileKept(t, root, walk, j);
    } else {
      SanitizeWalkFrame(t, root, walk, k);
    }
  }

  /** A walked entry that is not a link is classified `Keep`, so it stays. */
  lemma WalkedFileKept(t: Tree, root: Path, walk: seq<Path>, j: nat)
    requires WellFormed(t) && ValidPath(root) && WalkOf(t, walk)
    requires j < |walk| && !t[walk[j]].Symlink?
    ensures var r := SanitizeWalk(t, root, walk).tree; walk[j] in r && r[walk[j]] == t[walk[j]]
  {
    var r := SanitizeWalk(t, root, walk).tree;
    var p := walk[j];
    SanitizeWalkEffect(t, root, walk);
    assert Subtree(r, p) == Replacement(t, root, p);
    NonLinkIsItsOwnReplacement(t, root, p);
    SubtreeTop(r, t, p);
  }

  lemma NonLinkIsItsOwnReplacement(t: Tree, root: Path, p: Path)
    requires ValidPath(root) && WalkEntry(p) && p in t && !t[p].Symlink?
    ensures Replacement(t, root, p) == Subtree(t, p)
  {
    assert Classify(t, root, p) == Keep;
  }

  /** Equal subtrees have equal tops. */
  lemma SubtreeTop(t1: Tree, t2: Tree, p: Path)
    requires Subtree(t1, p) == Subtree(t2, p) && p in t2
    ensures p in t1 && t1[p] == t2[p]
  {
    assert p + [] == p;
    assert [] in Subtree(t2, p);
  }

  /** The loop changes nothing outside the walked entries, whether it succeeds or
      not. */
  lemma {:induction false} SanitizeWalkFrame(t: Tree, root: Path, walk: seq<Path>, k: Path)
    requires ValidPath(root) && WalkEntries(walk)
    requires forall i | 0 <= i < |walk| :: !Under(k, walk[i])
    ensures Agree(SanitizeWalk(t, root, walk).tree, t, k)
    decreases |walk|
  {
    if walk != [] {
      SanitizeWalkFrame(t, root, walk[..|walk| - 1], k);
      var before := SanitizeWalk(t, root, walk[..|walk| - 1]);
      if before.outcome == Done {
        SanitizeOneFrame(before.tree, root, walk[|walk| - 1], k);
      }
    }
  }

  /** Entries outside `usr` are outside every walked entry. */
  lemma OutsideUsr(walk: seq<Path>, k: Path)
    requires WalkEntries(walk) && k != [] && k[0] != "usr"
    ensures forall i | 0 <= i < |walk| :: !Under(k, walk[i])
  {
    forall i | 0 <= i < |walk|
      ensures !Under(k, walk[i])
    {
    }
  }

  /** A directory two levels down, such as `usr/rootdirs`, stays a directory: the loop
      only ever replaces links and files. */
  lemma {:induction false} SanitizeKeepsDir(t: Tree, root: Path, walk: seq<Path>, d: Path)
    requires ValidPath(root) && WalkEntries(walk)
    requires |d| == 2 && d in t && t[d] == Dir
    ensures var r := SanitizeWalk(t, root, walk).tree; d in r && r[d] == Dir
    decreases |walk|
  {
    if walk != [] {
      SanitizeKeepsDir(t, root, walk[..|walk| - 1], d);
      var before := SanitizeWalk(t, root, walk[..|walk| - 1]);
      var p := walk[|walk| - 1];
      if before.outcome == Done {
        if Under(d, p) {
          assert p == d;
          assert Classify(before.tree, root, p) == Keep;
        } else {
          SanitizeOneFrame(before.tree, root, p, d);
        }
      }
    }
  }
}
