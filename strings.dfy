/** Text helpers shared by the path and configuration-file models: prefix tests,
    Python's `str.split` on a separator class, `str.strip`, `str.join`. */
module Strings {

  datatype Option<T> = None | Some(value: T)

  predicate StartsWith(s: string, prefix: string) {
    |prefix| <= |s| && s[..|prefix|] == prefix
  }

  predicate IsSlash(c: char) { c == '/' }

  /** The characters Python's `str.isspace` accepts: the separators of `str.split()`
      and `str.strip()` without arguments. */
  predicate IsSpace(c: char) {
    || c == ' '
    || ('\t' <= c <= '\r')
    || ('\U{1c}' <= c <= '\U{1f}')
    || c == '\U{85}' || c == '\U{a0}' || c == '\U{1680}'
    || ('\U{2000}' <= c <= '\U{200a}')
    || c == '\U{2028}' || c == '\U{2029}' || c == '\U{202f}' || c == '\U{205f}' || c == '\U{3000}'
  }

  predicate NoSeparator(s: string, sep: char -> bool) {
    forall i :: 0 <= i < |s| ==> !sep(s[i])
  }

  predicate AllSeparators(s: string, sep: char -> bool) {
    forall i :: 0 <= i < |s| ==> sep(s[i])
  }

  /** A token: a nonempty run of non-separator characters. */
  predicate IsToken(w: string, sep: char -> bool) {
    w != [] && NoSeparator(w, sep)
  }

  /** Length of the run of non-separator characters that starts `s`. */
  function RunLength(s: string, sep: char -> bool): (n: nat)
    ensures n <= |s|
    ensures forall i :: 0 <= i < n ==> !sep(s[i])
    ensures n < |s| ==> sep(s[n])
    ensures s != [] && !sep(s[0]) ==> n >= 1
  {
    if s == [] || sep(s[0]) then 0 else 1 + RunLength(s[1..], sep)
  }

  /** The maximal runs of non-separator characters of `s`, left to right; this is
      `s.split()` for whitespace and the nonempty parts of `s.split('/')` for slashes. */
  function Tokens(s: string, sep: char -> bool): seq<string>
    decreases |s|
  {
    if s == [] then []
    else if sep(s[0]) then Tokens(s[1..], sep)
    else var n := RunLength(s, sep); [s[..n]] + Tokens(s[n..], sep)
  }

  /** `s.split()` */
  function Words(s: string): seq<string> { Tokens(s, IsSpace) }

  /** Drop separators from the front. */
  function TrimStart(s: string, sep: char -> bool): (r: string)
    ensures |r| <= |s| && r == s[|s| - |r|..]
    ensures r == [] || !sep(r[0])
    ensures AllSeparators(s[..|s| - |r|], sep)
  {
    if s != [] && sep(s[0]) then
      var r := TrimStart(s[1..], sep);
      assert s[1..][..|s[1..]| - |r|] == s[1..|s| - |r|];
      r
    else s
  }

  /** Drop separators from the back (`rstrip`). */
  function TrimEnd(s: string, sep: char -> bool): (r: string)
    ensures |r| <= |s| && r == s[..|r|]
    ensures r == [] || !sep(r[|r| - 1])
    ensures AllSeparators(s[|r|..], sep)
  {
    if s != [] && sep(s[|s| - 1]) then
      var r := TrimEnd(s[..|s| - 1], sep);
      assert s[..|s| - 1][|r|..] == s[|r|..|s| - 1];
      r
    else s
  }

  /** The index of the first `c` in `s`, if any. */
  function IndexOf(s: string, c: char): (r: Option<nat>)
    ensures r.Some? ==> r.value < |s| && s[r.value] == c && c !in s[..r.value]
    ensures r.None? <==> c !in s
  {
    if s == [] then None
    else if s[0] == c then Some(0)
    else match IndexOf(s[1..], c)
      case None => None
      case Some(i) =>
        assert s[..i + 1] == [s[0]] + s[1..][..i];
        Some(i + 1)
  }

  /** `s.strip()` */
  function Strip(s: string): string {
    TrimEnd(TrimStart(s, IsSpace), IsSpace)
  }

  /** `sep.join(xs)` for a one-character separator. */
  function Join(xs: seq<string>, sep: char): string
    decreases |xs|
  {
    if xs == [] then ""
    else if |xs| == 1 then xs[0]
    else xs[0] + [sep] + Join(xs[1..], sep)
  }

  // ---------------------------------------------------------------------------
  // Lemmas about Tokens

  lemma {:induction false} RunLengthConcat(a: string, b: string, sep: char -> bool)
    ensures RunLength(a + b, sep) ==
            if RunLength(a, sep) < |a| then RunLength(a, sep) else |a| + RunLength(b, sep)
    decreases |a|
  {
    if a == [] {
      assert a + b == b;
    } else if !sep(a[0]) {
      assert (a + b)[1..] == a[1..] + b;
      RunLengthConcat(a[1..], b, sep);
    }
  }

  lemma {:induction false} TokensOfSeparators(s: string, sep: char -> bool)
    ensures Tokens(s, sep) == [] <==> AllSeparators(s, sep)
    decreases |s|
  {
    if s != [] {
      if sep(s[0]) {
        TokensOfSeparators(s[1..], sep);
        if !AllSeparators(s, sep) {
          var i :| 0 <= i < |s| && !sep(s[i]);
          assert !sep(s[1..][i - 1]);
        }
      }
    }
  }

  lemma {:induction false} TokensOfToken(w: string, sep: char -> bool)
    requires IsToken(w, sep)
    ensures Tokens(w, sep) == [w]
  {
    var n := RunLength(w, sep);
    assert n == |w|;
    assert w[..n] == w && w[n..] == [];
  }

  /** A trailing separator does not change the tokens. */
  lemma {:induction false} TokensTrailingSeparator(a: string, c: char, sep: char -> bool)
    requires sep(c)
    ensures Tokens(a + [c], sep) == Tokens(a, sep)
    decreases |a|
  {
    if a == [] {
    } else if sep(a[0]) {
      assert (a + [c])[1..] == a[1..] + [c];
      TokensTrailingSeparator(a[1..], c, sep);
    } else {
      var n := RunLength(a, sep);
      RunLengthConcat(a, [c], sep);
      assert RunLength(a + [c], sep) == n;
      assert (a + [c])[..n] == a[..n];
      if n < |a| {
        assert (a + [c])[n..] == a[n..] + [c];
        TokensTrailingSeparator(a[n..], c, sep);
      } else {
        assert (a + [c])[n..] == [c];
        assert Tokens([c], sep) == [];
        assert a[n..] == [] && a[..n] == a;
      }
    }
  }

  /** Splitting at a separator splits the tokens. */
  lemma TokensConcat(a: string, b: string, sep: char -> bool)
    requires (a != [] && sep(a[|a| - 1])) || (b != [] && sep(b[0]))
    ensures Tokens(a + b, sep) == Tokens(a, sep) + Tokens(b, sep)
  {
    if a != [] && sep(a[|a| - 1]) {
      TokensConcatAfterSeparator(a, b, sep);
    } else {
      // b starts with a separator: move it over to the end of a
      var c := b[0];
      assert a + b == (a + [c]) + b[1..];
      TokensConcatAfterSeparator(a + [c], b[1..], sep);
      TokensTrailingSeparator(a, c, sep);
    }
  }

  lemma {:induction false} TokensConcatAfterSeparator(a: string, b: string, sep: char -> bool)
    requires a != [] && sep(a[|a| - 1])
    ensures Tokens(a + b, sep) == Tokens(a, sep) + Tokens(b, sep)
    decreases |a|
  {
    if sep(a[0]) {
      assert (a + b)[1..] == a[1..] + b;
      if |a| == 1 {
        assert a[1..] + b == b;
      } else {
        TokensConcatAfterSeparator(a[1..], b, sep);
      }
    } else {
      var n := RunLength(a, sep);
      RunLengthConcat(a, b, sep);
      SplitAfterRun(a, b, n);
      TokensConcatAfterSeparator(a[n..], b, sep);
    }
  }

  lemma SplitAfterRun(a: string, b: string, n: nat)
    requires n < |a|
    ensures (a + b)[..n] == a[..n] && (a + b)[n..] == a[n..] + b
  {
  }

  lemma {:induction false} TokensTrimStart(s: string, sep: char -> bool)
    ensures Tokens(TrimStart(s, sep), sep) == Tokens(s, sep)
    decreases |s|
  {
    if s != [] && sep(s[0]) {
      TokensTrimStart(s[1..], sep);
    }
  }

  lemma {:induction false} TokensTrimEnd(s: string, sep: char -> bool)
    ensures Tokens(TrimEnd(s, sep), sep) == Tokens(s, sep)
    decreases |s|
  {
    if s != [] && sep(s[|s| - 1]) {
      TokensTrimEnd(s[..|s| - 1], sep);
      assert s == s[..|s| - 1] + [s[|s| - 1]];
      TokensTrailingSeparator(s[..|s| - 1], s[|s| - 1], sep);
    }
  }

  lemma WordsStrip(s: string)
    ensures Words(Strip(s)) == Words(s)
  {
    TokensTrimStart(s, IsSpace);
    TokensTrimEnd(TrimStart(s, IsSpace), IsSpace);
  }

  /** Joining tokens with a separator and splitting again gives the tokens back. */
  lemma {:induction false} TokensOfJoin(xs: seq<string>, c: char, sep: char -> bool)
    requires sep(c)
    requires forall i :: 0 <= i < |xs| ==> IsToken(xs[i], sep)
    ensures Tokens(Join(xs, c), sep) == xs
    decreases |xs|
  {
    if xs == [] {
    } else if |xs| == 1 {
      TokensOfToken(xs[0], sep);
    } else {
      TokensOfJoin(xs[1..], c, sep);
      assert Join(xs, c) == xs[0] + ([c] + Join(xs[1..], c));
      TokensConcat(xs[0], [c] + Join(xs[1..], c), sep);
      TokensOfToken(xs[0], sep);
      assert Tokens([c] + Join(xs[1..], c), sep) == Tokens(Join(xs[1..], c), sep);
      assert xs == [xs[0]] + xs[1..];
    }
  }
}
