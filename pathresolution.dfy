/** How `sanitize_usr_symlinks` resolves a link target and classifies it:
    `os.path.split`, `get_toplevel`, `os.path.normpath`, `os.path.relpath` and the
    `os.path.commonpath` test, all on the path's components. */
module PathResolution {
  import opened Strings
  import opened FileTree

  // ---------------------------------------------------------------------------
  // get_toplevel

  /** Index just past the last '/' of `s` (0 when there is none): `s.rfind('/') + 1`. */
  function AfterLastSlash(s: string): (i: nat)
    ensures i <= |s|
    ensures i > 0 ==> s[i - 1] == '/'
    ensures NoSeparator(s[i..], IsSlash)
  {
    if s == [] then 0
    else if s[|s| - 1] == '/' then |s|
    else
      var i := AfterLastSlash(s[..|s| - 1]);
      assert s[i..] == s[..|s| - 1][i..] + [s[|s| - 1]];
      i
  }

  /** The head `os.path.split(p)` returns: everything up to the last slash, with
      trailing slashes removed unless it is all slashes. */
  function Head(p: string): (h: string)
    ensures |h| <= AfterLastSlash(p) && h == p[..|h|]
    ensures h == [] || h[|h| - 1] != '/' || AllSeparators(h, IsSlash)
  {
    var i := AfterLastSlash(p);
    if !AllSeparators(p[..i], IsSlash) then
      var h := TrimEnd(p[..i], IsSlash);
      assert h == p[..|h|];
      h
    else p[..i]
  }

  /** The tail `os.path.split(p)` returns: everything after the last slash. */
  function Tail(p: string): string {
    p[AfterLastSlash(p)..]
  }

  /** The first nonempty component of a path, `""` when it has none: the reference
      meaning of `get_toplevel`. */
  function FirstComponent(p: string): string {
    var cs := Tokens(p, IsSlash);
    if cs == [] then "" else cs[0]
  }

  /** Splitting a path splits off its last component. */
  lemma SplitPathTokens(p: string)
    ensures Tokens(p, IsSlash) == Tokens(Head(p), IsSlash) + (if Tail(p) == [] then [] else [Tail(p)])
  {
    var i := AfterLastSlash(p);
    var tail := p[i..];
    assert Tokens(tail, IsSlash) == if tail == [] then [] else [tail] by {
      if tail != [] {
        TokensOfToken(tail, IsSlash);
      }
    }
    assert Tokens(Head(p), IsSlash) == Tokens(p[..i], IsSlash) by {
      if !AllSeparators(p[..i], IsSlash) {
        TokensTrimEnd(p[..i], IsSlash);
      }
    }
    if i > 0 {
      assert p == p[..i] + tail;
      TokensConcat(p[..i], tail, IsSlash);
    } else {
      assert p == tail;
    }
  }

  /** A prefix of a path that does not start with "//" is all slashes only when it
      is "" or "/". */
  lemma NotAllSlashes(head: string, path: string)
    requires |head| <= |path| && head == path[..|head|] && !StartsWith(path, "//")
    requires head != "/" && head != ""
    ensures !AllSeparators(head, IsSlash)
  {
    if |head| == 1 {
      assert head == [head[0]];
    }
  }

  /** The state of the `get_toplevel` loop: `head` is a prefix of `path` that does
      not end in a slash (unless it is all slashes), and the first component of
      `path` is the first component of `head`, or `tail` once `head` has none. */
  predicate Splitting(path: string, head: string, tail: string) {
    && |head| <= |path| && head == path[..|head|]
    && (head == [] || head[|head| - 1] != '/' || AllSeparators(head, IsSlash))
    && FirstComponent(path) == if Tokens(head, IsSlash) == [] then tail else Tokens(head, IsSlash)[0]
  }

  lemma SplitStart(path: string)
    ensures Splitting(path, Head(path), Tail(path))
  {
    SplitPathTokens(path);
  }

  /** One more `os.path.split` of the head keeps the loop state and shortens the
      head. */
  lemma SplitStep(path: string, head: string, tail: string)
    requires !StartsWith(path, "//") && head != "/" && head != ""
    requires Splitting(path, head, tail)
    ensures |Head(head)| < |head|
    ensures Splitting(path, Head(head), Tail(head))
  {
    NotAllSlashes(head, path);
    SplitPathTokens(head);
    var h := Head(head);
    assert head[..|h|] == path[..|h|];
  }

  /** A head of "/" or "" has no component left: the tail is the answer. */
  lemma SplitEnd(path: string, head: string, tail: string)
    requires head == "/" || head == ""
    requires Splitting(path, head, tail)
    ensures FirstComponent(path) == tail
  {
    TokensOfSeparators(head, IsSlash);
  }

  /** `get_toplevel(path)`: split off the last component until the head is "/" or
      empty. The source loops forever on a path that starts with two slashes, whose
      head never shrinks below "//"; `os.path.relpath` never returns one. */
  method GetToplevel(path: string) returns (top: string)
    requires !StartsWith(path, "//")
    ensures top == FirstComponent(path)
  {
    SplitStart(path);
    var head, tail := Head(path), Tail(path);
    while head != "/" && head != ""
      invariant Splitting(path, head, tail)
      decreases |head|
    {
      SplitStep(path, head, tail);
      head, tail := Head(head), Tail(head);
    }
    SplitEnd(path, head, tail);
    top := tail;
  }

  // ---------------------------------------------------------------------------
  // Resolving a link target

  /** The nonempty parts of a path string. */
  function Components(s: string): seq<string> {
    Tokens(s, IsSlash)
  }

  predicate NoSlashIn(cs: seq<string>) {
    forall i :: 0 <= i < |cs| ==> '/' !in cs[i]
  }

  lemma ComponentsHaveNoSlash(s: string)
    ensures NoSlashIn(Components(s))
    ensures forall i :: 0 <= i < |Components(s)| ==> Components(s)[i] != ""
    decreases |s|
  {
    if s != [] && !IsSlash(s[0]) {
      ComponentsHaveNoSlash(s[RunLength(s, IsSlash)..]);
    } else if s != [] {
      ComponentsHaveNoSlash(s[1..]);
    }
  }

  /** `os.path.normpath` of an absolute path: drops empty and "." parts, lets ".."
      remove the part before it, and ignores ".." at the root. */
  function Normalize(cs: seq<string>): (n: seq<string>)
    ensures NoSlashIn(cs) ==> ValidPath(n)
  {
    if cs == [] then []
    else
      var n := Normalize(cs[..|cs| - 1]);
      var c := cs[|cs| - 1];
      if c == "" || c == "." then n
      else if c == ".." then (if n == [] then [] else n[..|n| - 1])
      else n + [c]
  }

  /** Normalizing appends valid names unchanged. */
  lemma {:induction false} NormalizeAppend(cs: seq<string>, names: seq<string>)
    requires ValidPath(names)
    ensures Normalize(cs + names) == Normalize(cs) + names
    decreases |names|
  {
    if names != [] {
      var init := names[..|names| - 1];
      assert (cs + names)[..|cs + names| - 1] == cs + init;
      NormalizeAppend(cs, init);
      assert Normalize(cs) + init + [names[|names| - 1]] == Normalize(cs) + names;
    } else {
      assert cs + names == cs;
    }
  }

  /** A path of valid names is already normal. */
  lemma NormalizeValidPath(cs: seq<string>)
    requires ValidPath(cs)
    ensures Normalize(cs) == cs
  {
    NormalizeAppend([], cs);
    assert [] + cs == cs;
  }

  /** ".." removes the last name of what precedes it. */
  lemma NormalizeParent(cs: seq<string>)
    ensures Normalize(cs + [".."]) ==
      if Normalize(cs) == [] then [] else Normalize(cs)[..|Normalize(cs)| - 1]
  {
    var b := cs + [".."];
    assert b[..|b| - 1] == cs && b[|b| - 1] == "..";
    assert ".." != "" && ".." != ".";
  }

  lemma ValidNames(names: seq<string>)
    requires forall i :: 0 <= i < |names| ==> names[i] != [] && names[i][0] != '.' && '/' !in names[i]
    ensures ValidPath(names)
  {
    forall i | 0 <= i < |names|
      ensures ValidName(names[i])
    {
      assert names[i] != "." && names[i] != "..";
    }
  }

  /** ".." right after a name cancels it. */
  lemma NormalizeCancel(root: seq<string>, name: string, names: seq<string>)
    requires ValidPath(root) && ValidName(name) && ValidPath(names)
    ensures Normalize(root + [name] + [".."] + names) == root + names
  {
    var a := root + [name];
    assert ValidPath(a);
    NormalizeValidPath(a);
    NormalizeParent(a);
    assert a[..|a| - 1] == root;
    NormalizeAppend(a + [".."], names);
  }

  /** The climb `/usr/../var/...` lands in `rootdir/var`. */
  lemma NormalizeClimb(root: seq<string>, rest: seq<string>)
    requires ValidPath(root) && ValidPath(rest)
    ensures Normalize(root + (["usr", "..", "var"] + rest)) == root + (["var"] + rest)
  {
    var names := ["var"] + rest;
    ValidNames(["usr"]);
    ValidNames(["var"]);
    assert ValidPath(names);
    NormalizeCancel(root, "usr", names);
    SplitClimb(root, rest);
  }

  lemma SplitClimb(root: seq<string>, rest: seq<string>)
    ensures root + (["usr", "..", "var"] + rest) == root + ["usr"] + [".."] + (["var"] + rest)
  {
  }

  /** The parts `os.path.commonpath` compares: empty and "." parts dropped, ".." kept. */
  function Clean(cs: seq<string>): (r: seq<string>)
    ensures (forall i :: 0 <= i < |cs| ==> cs[i] != "" && cs[i] != ".") ==> r == cs
  {
    if cs == [] then []
    else (if cs[0] == "" || cs[0] == "." then [] else [cs[0]]) + Clean(cs[1..])
  }

  lemma {:induction false} CleanConcat(a: seq<string>, b: seq<string>)
    ensures Clean(a + b) == Clean(a) + Clean(b)
    decreases |a|
  {
    if a == [] {
      assert a + b == b;
    } else {
      assert (a + b)[1..] == a[1..] + b;
      CleanConcat(a[1..], b);
    }
  }

  function CommonPrefixLength(a: seq<string>, b: seq<string>): (k: nat)
    ensures k <= |a| && k <= |b| && a[..k] == b[..k]
    ensures k < |a| && k < |b| ==> a[k] != b[k]
  {
    if a == [] || b == [] || a[0] != b[0] then 0
    else
      var k := 1 + CommonPrefixLength(a[1..], b[1..]);
      assert a[..k] == [a[0]] + a[1..][..k - 1];
      assert b[..k] == [b[0]] + b[1..][..k - 1];
      k
  }

  /** `os.path.relpath(n, rootdir)` as components, for a normalized `n`; the empty
      sequence stands for ".". */
  function RelComponents(root: seq<string>, n: seq<string>): seq<string> {
    var i := CommonPrefixLength(root, n);
    seq(|root| - i, _ => "..") + n[i..]
  }

  function RelPathString(root: seq<string>, n: seq<string>): string {
    var rel := RelComponents(root, n);
    if rel == [] then "." else Join(rel, '/')
  }

  /** The target string of a link at `p` as the source builds it, in components:
      `os.path.join(rootdir, link[1:])` for an absolute link (which drops `rootdir`
      when `link[1:]` is itself absolute), `os.path.join(base, link)` otherwise. */
  function TargetComponents(root: seq<string>, p: Path, link: string): seq<string>
    requires p != []
  {
    if StartsWith(link, "/") then
      var rest := link[1..];
      if StartsWith(rest, "/") then Components(rest) else root + Components(rest)
    else root + Parent(p) + Components(link)
  }

  /** `os.path.commonpath([target, usrdir]) == usrdir`: a component-wise prefix test
      on the target as written, without resolving "..". */
  predicate InsideUsr(root: seq<string>, target: seq<string>) {
    Under(Clean(target), root + ["usr"])
  }

  /** `get_toplevel(os.path.relpath(target, rootdir))` */
  function ToplevelOf(root: seq<string>, target: seq<string>): string {
    FirstComponent(RelPathString(root, Normalize(target)))
  }

  lemma {:induction false} TargetHasNoSlash(root: seq<string>, p: Path, link: string)
    requires p != [] && ValidPath(root) && ValidPath(p)
    ensures NoSlashIn(TargetComponents(root, p, link))
  {
    if StartsWith(link, "/") {
      ComponentsHaveNoSlash(link[1..]);
    } else {
      ComponentsHaveNoSlash(link);
    }
  }

  lemma RelPathIsTokens(root: seq<string>, n: seq<string>)
    requires ValidPath(root) && ValidPath(n)
    ensures RelComponents(root, n) != [] ==>
      Tokens(RelPathString(root, n), IsSlash) == RelComponents(root, n)
    ensures !StartsWith(RelPathString(root, n), "//")
  {
    var rel := RelComponents(root, n);
    if rel != [] {
      RelComponentsAreTokens(root, n);
      TokensOfJoin(rel, '/', IsSlash);
      JoinStartsWithFirst(rel, '/');
      NoLeadingSlash(RelPathString(root, n));
    } else {
      NoLeadingSlash(".");
    }
  }

  /** Each relative component is ".." or a name of `n`: none is empty or holds '/'. */
  lemma RelComponentsAreTokens(root: seq<string>, n: seq<string>)
    requires ValidPath(n)
    ensures forall i :: 0 <= i < |RelComponents(root, n)| ==> IsToken(RelComponents(root, n)[i], IsSlash)
  {
    var k := CommonPrefixLength(root, n);
    var ups := seq(|root| - k, _ => "..");
    var rel := RelComponents(root, n);
    assert rel == ups + n[k..];
    forall i | 0 <= i < |rel|
      ensures IsToken(rel[i], IsSlash)
    {
      if i < |ups| {
        assert rel[i] == "..";
      } else {
        assert rel[i] == n[k + i - |ups|];
        assert ValidName(n[k + i - |ups|]);
      }
    }
  }

  lemma NoLeadingSlash(s: string)
    requires s != [] && s[0] != '/'
    ensures !StartsWith(s, "//")
  {
    if |s| >= 2 {
      assert s[..2][0] == s[0];
    }
  }

  lemma JoinStartsWithFirst(xs: seq<string>, c: char)
    requires xs != [] && xs[0] != ""
    ensures Join(xs, c) != [] && Join(xs, c)[0] == xs[0][0]
  {
  }

  /** The top level of a normalized target is "var" exactly when the target lies in
      `rootdir/var`. */
  lemma ToplevelIsVar(root: seq<string>, n: seq<string>)
    requires ValidPath(root) && ValidPath(n)
    ensures FirstComponent(RelPathString(root, n)) == "var" <==>
            Under(n, root) && |n| > |root| && n[|root|] == "var"
  {
    var i := CommonPrefixLength(root, n);
    var rel := RelComponents(root, n);
    RelPathIsTokens(root, n);
    if Under(n, root) {
      assert i == |root|;
      assert rel == n[|root|..];
    }
  }

  /** The full classification: a link whose target is not inside `usr` and whose
      normalized target has top level "var" is one the sanitizer acts on. */
  lemma ToplevelOfTarget(root: seq<string>, p: Path, link: string)
    requires p != [] && ValidPath(root) && ValidPath(p)
    ensures var n := Normalize(TargetComponents(root, p, link));
      ValidPath(n) &&
      (ToplevelOf(root, TargetComponents(root, p, link)) == "var" <==>
        Under(n, root) && |n| > |root| && n[|root|] == "var")
  {
    TargetHasNoSlash(root, p, link);
    ToplevelIsVar(root, Normalize(TargetComponents(root, p, link)));
  }

  /** A relative link below `usr` always passes the `commonpath` test, so the
      sanitizer never rewrites one. */
  lemma RelativeLinkInsideUsr(root: seq<string>, p: Path, link: string)
    requires ValidPath(root) && ValidPath(p)
    requires |p| >= 2 && p[0] == "usr" && !StartsWith(link, "/")
    ensures InsideUsr(root, TargetComponents(root, p, link))
  {
    var base := root + Parent(p);
    assert TargetComponents(root, p, link) == base + Components(link);
    CleanConcat(base, Components(link));
    UsrBaseInsideUsr(root, p);
    UnderAppend(base, Clean(Components(link)), root + ["usr"]);
  }

  /** The directory of an entry below `usr` is itself in `usr`, and clean. */
  lemma UsrBaseInsideUsr(root: seq<string>, p: Path)
    requires ValidPath(root) && ValidPath(p) && |p| >= 2 && p[0] == "usr"
    ensures Clean(root + Parent(p)) == root + Parent(p)
    ensures Under(root + Parent(p), root + ["usr"])
  {
    var base := root + Parent(p);
    assert forall i :: 0 <= i < |base| ==> ValidName(base[i]);
    assert base[..|root| + 1] == root + ["usr"];
  }

  lemma UnderAppend(a: seq<string>, b: seq<string>, d: seq<string>)
    requires Under(a, d)
    ensures Under(a + b, d)
  {
    assert (a + b)[..|d|] == a[..|d|];
  }
}
