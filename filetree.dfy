/** The root filesystem the conversion works on, and the `os` / `shutil` calls it makes.

    A tree maps paths relative to the root directory (sequences of names) to nodes;
    the root directory itself is the empty path, is always a directory and is not a
    key. Each call is a function that gives the new tree, or `Err` where Python would
    raise an `OSError`. */
module FileTree {

  type Path = seq<string>

  /** A directory, a regular file (its lines) or a symbolic link (its target string). */
  datatype Node = Dir | File(content: seq<string>) | Symlink(target: string)

  type Tree = map<Path, Node>

  /** The outcome of one system call. */
  datatype Result<T> = Ok(value: T) | Err

  /** A directory entry name. */
  predicate ValidName(n: string) {
    n != "" && n != "." && n != ".." && '/' !in n
  }

  /** Every name along the path is a valid entry name. */
  predicate ValidPath(p: Path) {
    forall i :: 0 <= i < |p| ==> ValidName(p[i])
  }

  /** `t1` and `t2` hold the same thing (or nothing) at `k`. */
  predicate Agree(t1: Tree, t2: Tree, k: Path) {
    (k in t1 <==> k in t2) && (k in t1 ==> t1[k] == t2[k])
  }

  /** `p` is `d` or lies below it. */
  predicate Under(p: Path, d: Path) {
    |d| <= |p| && p[..|d|] == d
  }

  function Parent(p: Path): Path
    requires p != []
  {
    p[..|p| - 1]
  }

  predicate IsDir(t: Tree, p: Path) {
    p == [] || (p in t && t[p].Dir?)
  }

  /** Nothing lies strictly below `d`. */
  predicate NothingBelow(t: Tree, d: Path) {
    forall k | k in t && Under(k, d) :: k == d
  }

  /** Every entry has a valid name and sits in a directory. */
  ghost predicate WellFormed(t: Tree) {
    forall p | p in t :: p != [] && ValidName(p[|p| - 1]) && IsDir(t, Parent(p))
  }

  /** A subtree keyed relative to its top (`[]`), shaped like a tree. */
  ghost predicate WellFormedSubtree(s: map<Path, Node>) {
    && [] in s
    && forall r | r in s && r != [] :: ValidName(r[|r| - 1]) && Parent(r) in s && s[Parent(r)].Dir?
  }

  // ---------------------------------------------------------------------------
  // Tree surgery

  /** `t` without `p` and without everything below it. */
  function Prune(t: Tree, p: Path): (r: Tree)
    ensures forall k :: k in r <==> k in t && !Under(k, p)
    ensures forall k | k in r :: r[k] == t[k]
  {
    map k | k in t && !Under(k, p) :: t[k]
  }

  /** The entries at and below `p`, keyed relative to `p`. */
  function Subtree(t: Tree, p: Path): (s: map<Path, Node>)
    ensures forall r :: r in s <==> p + r in t
    ensures forall r | r in s :: s[r] == t[p + r]
  {
    var keys := set k | k in t && Under(k, p) :: k[|p|..];
    assert forall r :: r in keys <==> p + r in t by {
      forall r
        ensures r in keys <==> p + r in t
      {
        if p + r in t {
          var k := p + r;
          assert Under(k, p) && k[|p|..] == r;
        }
        if r in keys {
          var k :| k in t && Under(k, p) && k[|p|..] == r;
          assert k == p + r;
        }
      }
    }
    map r | r in keys :: t[p + r]
  }

  /** `t` with the subtree `s` placed at `d`. */
  function Graft(t: Tree, d: Path, s: map<Path, Node>): (r: Tree)
    ensures forall k :: k in r <==> k in t || (Under(k, d) && k[|d|..] in s)
    ensures forall k | k in r ::
      r[k] == if Under(k, d) && k[|d|..] in s then s[k[|d|..]] else t[k]
  {
    var keys := set x | x in s :: d + x;
    assert forall k :: k in keys <==> Under(k, d) && k[|d|..] in s by {
      forall k
        ensures k in keys <==> Under(k, d) && k[|d|..] in s
      {
        if Under(k, d) && k[|d|..] in s {
          assert k == d + k[|d|..];
        }
        if k in keys {
          var x :| x in s && k == d + x;
          assert k[|d|..] == x;
        }
      }
    }
    t + map k | k in keys :: s[k[|d|..]]
  }

  /** The subtree at `src` taken away and put at `dst`, replacing what was there. */
  function Move(t: Tree, src: Path, dst: Path): Tree {
    Graft(Prune(Prune(t, dst), src), dst, Subtree(t, src))
  }

  // ---------------------------------------------------------------------------
  // The calls the conversion makes

  /** `os.mkdir(p)`: fails when `p` exists or its parent is not a directory. */
  function Mkdir(t: Tree, p: Path): Result<Tree>
    requires p != []
  {
    if p !in t && IsDir(t, Parent(p)) then Ok(t[p := Dir]) else Err
  }

  /** `os.remove(p)` / `os.unlink(p)`: removes a file or a link, never a directory. */
  function Unlink(t: Tree, p: Path): Result<Tree> {
    if p in t && !t[p].Dir? then Ok(t - {p}) else Err
  }

  /** `shutil.rmtree(p)`: fails on a missing path, a file, or a symbolic link. */
  function RmTree(t: Tree, p: Path): Result<Tree>
    requires p != []
  {
    if p in t && t[p].Dir? then Ok(Prune(t, p)) else Err
  }

  /** `os.rename(src, dst)`: replaces a non-directory `dst` by a non-directory, or an
      empty directory `dst` by a directory. */
  function Rename(t: Tree, src: Path, dst: Path): Result<Tree>
    requires src != [] && dst != []
  {
    if src !in t || !IsDir(t, Parent(dst)) || Under(dst, src) then Err
    else if dst in t && t[dst].Dir? && !(t[src].Dir? && NothingBelow(t, dst)) then Err
    else if dst in t && !t[dst].Dir? && t[src].Dir? then Err
    else Ok(Move(t, src, dst))
  }

  /** `shutil.move(src, dst)`: into `dst` when it is a directory, which must not hold
      an entry of that name yet; otherwise a rename to `dst`. */
  function ShutilMove(t: Tree, src: Path, dst: Path): Result<Tree>
    requires src != [] && dst != []
  {
    if IsDir(t, dst) then
      if dst + [src[|src| - 1]] in t then Err else Rename(t, src, dst + [src[|src| - 1]])
    else Rename(t, src, dst)
  }

  /** `shutil.copytree(src, dst, symlinks=True)`: links inside are copied as links.
      Both call sites create `dst` inside an existing directory. */
  function CopyTree(t: Tree, src: Path, dst: Path): Result<Tree>
    requires src != [] && dst != []
  {
    if src in t && t[src].Dir? && dst !in t && IsDir(t, Parent(dst))
    then Ok(Graft(t, dst, Subtree(t, src)))
    else Err
  }

  /** `os.symlink(target, p)` */
  function MakeSymlink(t: Tree, p: Path, target: string): Result<Tree>
    requires p != []
  {
    if p !in t && IsDir(t, Parent(p)) then Ok(t[p := Symlink(target)]) else Err
  }

  /** `os.link(src, p)` for a regular file `src`. */
  function HardLink(t: Tree, src: Path, p: Path): Result<Tree>
    requires p != []
  {
    if src in t && t[src].File? && p !in t && IsDir(t, Parent(p)) then Ok(t[p := t[src]]) else Err
  }

  // ---------------------------------------------------------------------------
  // Path facts

  lemma UnderParent(k: Path, p: Path)
    requires k != [] && Under(Parent(k), p)
    ensures Under(k, p)
  {
    assert k[..|p|] == Parent(k)[..|p|];
  }

  lemma UnderTransitive(a: Path, b: Path, c: Path)
    requires Under(a, b) && Under(b, c)
    ensures Under(a, c)
  {
    assert a[..|c|] == a[..|b|][..|c|];
  }

  /** Two paths of which neither lies below the other share no descendant. */
  lemma UnderBoth(k: Path, a: Path, b: Path)
    requires Under(k, a) && Under(k, b) && |a| <= |b|
    ensures Under(b, a)
  {
    assert b[..|a|] == k[..|b|][..|a|];
  }

  /** Every proper prefix of an entry is a directory of the tree. */
  lemma {:induction false} AncestorIsDir(t: Tree, k: Path, n: nat)
    requires WellFormed(t) && k in t && 0 < n < |k|
    ensures k[..n] in t && t[k[..n]].Dir?
    decreases |k| - n
  {
    if n == |k| - 1 {
      assert k[..n] == Parent(k);
    } else {
      AncestorIsDir(t, k, n + 1);
      assert k[..n] == Parent(k[..n + 1]);
    }
  }

  /** Nothing lies below a non-directory. */
  lemma LeafHasNothingBelow(t: Tree, a: Path)
    requires WellFormed(t) && a in t && !t[a].Dir?
    ensures NothingBelow(t, a)
  {
    forall k | k in t && Under(k, a)
      ensures k == a
    {
      if k != a {
        AncestorIsDir(t, k, |a|);
      }
    }
  }

  // ---------------------------------------------------------------------------
  // The calls keep a tree well formed

  lemma PruneKeepsWellFormed(t: Tree, p: Path)
    requires WellFormed(t)
    ensures WellFormed(Prune(t, p))
  {
    var r := Prune(t, p);
    forall k | k in r
      ensures k != [] && ValidName(k[|k| - 1]) && IsDir(r, Parent(k))
    {
      if Parent(k) != [] && Under(Parent(k), p) {
        UnderParent(k, p);
      }
    }
  }

  lemma SubtreeIsWellFormed(t: Tree, p: Path)
    requires WellFormed(t) && p in t
    ensures WellFormedSubtree(Subtree(t, p))
  {
    var s := Subtree(t, p);
    assert p + [] == p;
    forall r | r in s && r != []
      ensures ValidName(r[|r| - 1]) && Parent(r) in s && s[Parent(r)].Dir?
    {
      SubtreeEntryInPlace(t, p, r);
    }
  }

  lemma SubtreeEntryInPlace(t: Tree, p: Path, r: Path)
    requires WellFormed(t) && p != [] && r != [] && p + r in t
    ensures ValidName(r[|r| - 1]) && p + Parent(r) in t && t[p + Parent(r)].Dir?
  {
    var k := p + r;
    assert k != [] && ValidName(k[|k| - 1]) && IsDir(t, Parent(k));
    assert Parent(k) == p + Parent(r);
    assert k[|k| - 1] == r[|r| - 1];
  }

  lemma GraftKeepsWellFormed(t: Tree, d: Path, s: map<Path, Node>)
    requires WellFormed(t) && WellFormedSubtree(s)
    requires d != [] && ValidName(d[|d| - 1]) && IsDir(t, Parent(d))
    requires forall k | k in t :: !Under(k, d)
    ensures WellFormed(Graft(t, d, s))
  {
    var g := Graft(t, d, s);
    forall k | k in g
      ensures k != [] && ValidName(k[|k| - 1]) && IsDir(g, Parent(k))
    {
      if Under(k, d) && k[|d|..] in s {
        GraftedEntryInPlace(t, d, s, k);
      } else {
        OldEntryInPlace(t, d, s, k);
      }
    }
  }

  lemma GraftedEntryInPlace(t: Tree, d: Path, s: map<Path, Node>, k: Path)
    requires WellFormed(t) && WellFormedSubtree(s)
    requires d != [] && ValidName(d[|d| - 1]) && IsDir(t, Parent(d))
    requires forall k | k in t :: !Under(k, d)
    requires Under(k, d) && k[|d|..] in s
    ensures k != [] && ValidName(k[|k| - 1]) && IsDir(Graft(t, d, s), Parent(k))
  {
    var r := k[|d|..];
    assert k == d + r;
    if r == [] {
      assert k == d;
      if Parent(d) != [] {
        assert !Under(Parent(d), d);
      }
    } else {
      assert Parent(k) == d + Parent(r);
      assert Parent(k)[|d|..] == Parent(r);
      assert k[|k| - 1] == r[|r| - 1];
    }
  }

  lemma OldEntryInPlace(t: Tree, d: Path, s: map<Path, Node>, k: Path)
    requires WellFormed(t)
    requires forall k | k in t :: !Under(k, d)
    requires k in t
    ensures k != [] && ValidName(k[|k| - 1]) && IsDir(Graft(t, d, s), Parent(k))
  {
    if Parent(k) != [] && Under(Parent(k), d) {
      UnderParent(k, d);
    }
  }

  lemma MoveKeepsWellFormed(t: Tree, src: Path, dst: Path)
    requires WellFormed(t) && src in t
    requires dst != [] && ValidName(dst[|dst| - 1]) && IsDir(t, Parent(dst)) && !Under(dst, src)
    ensures WellFormed(Move(t, src, dst))
  {
    PruneKeepsWellFormed(t, dst);
    PruneKeepsWellFormed(Prune(t, dst), src);
    SubtreeIsWellFormed(t, src);
    var u := Prune(Prune(t, dst), src);
    if Parent(dst) != [] {
      assert !Under(Parent(dst), dst);
      if Under(Parent(dst), src) {
        UnderParent(dst, src);
      }
    }
    GraftKeepsWellFormed(u, dst, Subtree(t, src));
  }

  lemma PutKeepsWellFormed(t: Tree, p: Path, n: Node)
    requires WellFormed(t) && p != [] && ValidName(p[|p| - 1]) && IsDir(t, Parent(p))
    requires p !in t || !t[p].Dir?
    ensures WellFormed(t[p := n])
  {
    if p in t {
      LeafHasNothingBelow(t, p);
    }
    var u := t[p := n];
    assert forall k | k in u :: k != [] && ValidName(k[|k| - 1]) && IsDir(u, Parent(k));
  }

  /** Removing whatever non-directory is at `p` and writing a file there, as
      `unlink` followed by `open(p, "w")` does. */
  lemma ReplaceLeafKeepsWellFormed(t: Tree, p: Path, n: Node)
    requires WellFormed(t) && p != [] && ValidName(p[|p| - 1])
    requires p !in t || !t[p].Dir?
    ensures WellFormed(t - {p})
    ensures IsDir(t - {p}, Parent(p)) ==> WellFormed((t - {p})[p := n])
  {
    if p in t {
      RemoveLeafKeepsWellFormed(t, p);
    } else {
      assert t - {p} == t;
    }
    if IsDir(t - {p}, Parent(p)) {
      PutKeepsWellFormed(t - {p}, p, n);
    }
  }

  lemma RemoveLeafKeepsWellFormed(t: Tree, p: Path)
    requires WellFormed(t) && p in t && !t[p].Dir?
    ensures WellFormed(t - {p})
  {
    LeafHasNothingBelow(t, p);
    var u := t - {p};
    assert forall k | k in u :: k != [] && ValidName(k[|k| - 1]) && IsDir(u, Parent(k));
  }

  lemma RenameKeepsWellFormed(t: Tree, src: Path, dst: Path)
    requires WellFormed(t) && src != [] && dst != [] && ValidName(dst[|dst| - 1])
    requires Rename(t, src, dst).Ok?
    ensures WellFormed(Rename(t, src, dst).value)
  {
    MoveKeepsWellFormed(t, src, dst);
  }

  lemma CopyTreeKeepsWellFormed(t: Tree, src: Path, dst: Path)
    requires WellFormed(t) && src != [] && dst != [] && ValidName(dst[|dst| - 1])
    requires CopyTree(t, src, dst).Ok?
    ensures WellFormed(CopyTree(t, src, dst).value)
  {
    SubtreeIsWellFormed(t, src);
    forall k | k in t
      ensures !Under(k, dst)
    {
      if Under(k, dst) && k != dst {
        AncestorIsDir(t, k, |dst|);
      }
    }
    GraftKeepsWellFormed(t, dst, Subtree(t, src));
  }

  // ---------------------------------------------------------------------------
  // Facts about entries and subtrees

  /** Every name along an entry's path is valid. */
  lemma EntryPathIsValid(t: Tree, p: Path)
    requires WellFormed(t) && p in t
    ensures ValidPath(p)
  {
    forall i | 0 <= i < |p|
      ensures ValidName(p[i])
    {
      if i < |p| - 1 {
        AncestorIsDir(t, p, i + 1);
        assert p[..i + 1][i] == p[i];
      }
    }
  }

  /** Two trees that agree everywhere below `q` have the same subtree at `q`. */
  lemma SubtreeAgrees(t1: Tree, t2: Tree, q: Path)
    requires forall k | Under(k, q) :: Agree(t1, t2, k)
    ensures Subtree(t1, q) == Subtree(t2, q)
  {
    var s1, s2 := Subtree(t1, q), Subtree(t2, q);
    forall r
      ensures (r in s1 <==> r in s2) && (r in s1 ==> s1[r] == s2[r])
    {
      assert Under(q + r, q);
      assert Agree(t1, t2, q + r);
    }
    assert s1.Keys == s2.Keys;
    assert forall r | r in s1 :: s1[r] == s2[r];
  }

  /** What is grafted at `d` onto a tree with nothing at or below `d` is the subtree there. */
  lemma SubtreeOfGraft(t: Tree, d: Path, s: map<Path, Node>)
    requires forall k | k in t :: !Under(k, d)
    ensures Subtree(Graft(t, d, s), d) == s
  {
    var g := Graft(t, d, s);
    forall r
      ensures Agree(Subtree(g, d), s, r)
    {
      assert Under(d + r, d) && (d + r)[|d|..] == r;
    }
    assert Subtree(g, d).Keys == s.Keys;
  }

  /** `mkdir`, `copytree` and `rmtree` change nothing away from the path they make or
      remove. */
  lemma StepFrames(t: Tree, src: Path, dst: Path, k: Path)
    requires src != [] && dst != []
    ensures k != dst && Mkdir(t, dst).Ok? ==> Agree(Mkdir(t, dst).value, t, k)
    ensures !Under(k, dst) && CopyTree(t, src, dst).Ok? ==> Agree(CopyTree(t, src, dst).value, t, k)
    ensures !Under(k, dst) && RmTree(t, dst).Ok? ==> Agree(RmTree(t, dst).value, t, k)
  {
  }

  /** A rename changes nothing outside its source and its destination. */
  lemma RenameFrame(t: Tree, src: Path, dst: Path, k: Path)
    requires src != [] && dst != [] && Rename(t, src, dst).Ok?
    requires !Under(k, src) && !Under(k, dst)
    ensures Agree(Rename(t, src, dst).value, t, k)
  {
  }

  /** A rename puts the source's entry at the destination and removes the source. */
  lemma RenameTarget(t: Tree, src: Path, dst: Path)
    requires src != [] && dst != [] && Rename(t, src, dst).Ok?
    ensures dst in Rename(t, src, dst).value && Rename(t, src, dst).value[dst] == t[src]
    ensures !Under(src, dst) ==> src !in Rename(t, src, dst).value
  {
    assert Under(dst, dst) && dst[|dst|..] == [];
    assert src + [] == src;
  }

  lemma ShutilMoveFrame(t: Tree, src: Path, dst: Path, k: Path)
    requires src != [] && dst != [] && ShutilMove(t, src, dst).Ok?
    requires !Under(k, src) && !Under(k, dst)
    ensures Agree(ShutilMove(t, src, dst).value, t, k)
  {
    var into := dst + [src[|src| - 1]];
    if IsDir(t, dst) {
      RenameFrame(t, src, into, k);
    } else {
      RenameFrame(t, src, dst, k);
    }
  }

  lemma UnderExtension(k: Path, d: Path, name: string)
    requires Under(k, d + [name])
    ensures Under(k, d)
  {
    assert k[..|d|] == k[..|d| + 1][..|d|];
  }

  lemma ShutilMoveKeepsWellFormed(t: Tree, src: Path, dst: Path)
    requires WellFormed(t) && src != [] && dst != []
    requires ValidName(src[|src| - 1]) && ValidName(dst[|dst| - 1])
    ensures ShutilMove(t, src, dst).Ok? ==> WellFormed(ShutilMove(t, src, dst).value)
  {
    if ShutilMove(t, src, dst).Ok? {
      if IsDir(t, dst) {
        var into := dst + [src[|src| - 1]];
        RenameKeepsWellFormed(t, src, into);
      } else {
        RenameKeepsWellFormed(t, src, dst);
      }
    }
  }
}
