/** The editors of a reprepro `conf/distributions` file: adding a component to the
    `Components:` line, and removing one from every such line. The file is its list of
    lines, each with its line break, as `readlines` returns them. */
module Distributions {
  import opened Strings

  const Key: string := "Components:"

  predicate IsComponentsLine(line: string) { StartsWith(line, Key) }

  /** `line.split()[1:]`: the words after the first. */
  function Listed(line: string): seq<string> {
    var w := Words(line);
    if w == [] then [] else w[1..]
  }

  /** The index of the first `Components:` line, if there is one. */
  function FirstComponentsLine(lines: seq<string>): (r: Option<nat>)
    ensures r.Some? ==> r.value < |lines| && IsComponentsLine(lines[r.value])
    ensures r.Some? ==> forall j :: 0 <= j < r.value ==> !IsComponentsLine(lines[j])
    ensures r.None? ==> forall j :: 0 <= j < |lines| ==> !IsComponentsLine(lines[j])
  {
    if lines == [] then None
    else if IsComponentsLine(lines[0]) then Some(0)
    else match FirstComponentsLine(lines[1..])
      case None => None
      case Some(i) => Some(i + 1)
  }

  /** `line.strip() + f" {component}\n"` */
  function Appended(line: string, component: string): string {
    Strip(line) + " " + component + "\n"
  }

  /** The lines `check_and_append_component` writes back. */
  function WithComponent(lines: seq<string>, component: string): seq<string> {
    match FirstComponentsLine(lines)
    case None => lines
    case Some(i) =>
      if component in Listed(lines[i]) then lines
      else lines[i := Appended(lines[i], component)]
  }

  /** What `check_and_append_component` leaves: the `FileNotFoundError` of the first
      `open` when there is no file (nothing is written then), or the lines it writes. */
  datatype Appending = NotFound | Written(lines: seq<string>)

  /** `check_and_append_component` on a file that may be missing. */
  method CheckAndAppendComponent(file: Option<seq<string>>, component: string)
    returns (r: Appending)
    ensures r.NotFound? <==> file.None?
    ensures file.Some? ==> r == Written(WithComponent(file.value, component))
  {
    if file.None? {
      return NotFound;
    }
    var out := AppendComponent(file.value, component);
    return Written(out);
  }

  /** The loop of `check_and_append_component`: it stops at the first `Components:`
      line. */
  method AppendComponent(lines: seq<string>, component: string) returns (out: seq<string>)
    ensures out == WithComponent(lines, component)
  {
    out := lines;
    var i := 0;
    while i < |out|
      invariant 0 <= i <= |out| && out == lines
      invariant forall j :: 0 <= j < i ==> !IsComponentsLine(lines[j])
    {
      if StartsWith(out[i], Key) {
        var components := Listed(out[i]);
        if component !in components {
          out := out[i := Appended(out[i], component)];
        }
        assert FirstComponentsLine(lines) == Some(i) by { FirstIs(lines, i); }
        return;
      }
      i := i + 1;
    }
  }

  lemma FirstIs(lines: seq<string>, i: nat)
    requires i < |lines| && IsComponentsLine(lines[i])
    requires forall j :: 0 <= j < i ==> !IsComponentsLine(lines[j])
    ensures FirstComponentsLine(lines) == Some(i)
  {
  }

  // ---------------------------------------------------------------------------
  // Removing a component

  /** `list.remove(x)`: the first occurrence goes. */
  function RemoveFirst(xs: seq<string>, x: string): (r: seq<string>)
    ensures x in xs ==> |r| == |xs| - 1 && multiset(r) == multiset(xs) - multiset{x}
    ensures x !in xs ==> r == xs
  {
    if xs == [] then []
    else if xs[0] == x then
      assert xs == [x] + xs[1..];
      xs[1..]
    else
      var rest := RemoveFirst(xs[1..], x);
      assert xs == [xs[0]] + xs[1..];
      [xs[0]] + rest
  }

  /** `"Components: " + " ".join(components) + "\n"` after the removal. */
  function Rebuilt(line: string, component: string): string {
    Key + " " + Join(RemoveFirst(Listed(line), component), ' ') + "\n"
  }

  /** `updated_lines`: other lines kept, `Components:` lines with the component
      rebuilt without it, `Components:` lines without it dropped. */
  function Removed(lines: seq<string>, component: string): seq<string>
    decreases |lines|
  {
    if lines == [] then []
    else
      var line := lines[|lines| - 1];
      Removed(lines[..|lines| - 1], component) +
        (if !IsComponentsLine(line) then [line]
         else if component in Listed(line) then [Rebuilt(line, component)]
         else [])
  }

  /** A `Components:` line that lists the component. */
  predicate Lists(line: string, component: string) {
    IsComponentsLine(line) && component in Listed(line)
  }

  /** Some `Components:` line lists the component. */
  predicate Mentions(lines: seq<string>, component: string)
    decreases |lines|
  {
    lines != [] &&
      (Mentions(lines[..|lines| - 1], component) || Lists(lines[|lines| - 1], component))
  }

  /** `Mentions` holds exactly when some line of the file is a `Components:` line
      that lists the component: the `found` flag of the loop. */
  lemma {:induction false} MentionsExactly(lines: seq<string>, component: string)
    ensures Mentions(lines, component) <==>
      exists i :: 0 <= i < |lines| && Lists(lines[i], component)
    decreases |lines|
  {
    if lines != [] {
      var init := lines[..|lines| - 1];
      MentionsExactly(init, component);
      if Mentions(init, component) {
        var i :| 0 <= i < |init| && Lists(init[i], component);
        assert lines[i] == init[i];
      }
      forall i | 0 <= i < |init| && Lists(lines[i], component)
        ensures Mentions(init, component)
      {
        assert init[i] == lines[i];
      }
    }
  }

  /** What `remove_component_from_config` returns, and the file afterwards (`None`:
      there is no file). */
  datatype Removal = Removal(removed: bool, file: Option<seq<string>>)

  function RemoveComponentFrom(file: Option<seq<string>>, component: string): Removal {
    match file
    case None => Removal(false, None)
    case Some(lines) =>
      if Mentions(lines, component) then Removal(true, Some(Removed(lines, component)))
      else Removal(false, file)
  }

  /** `remove_component_from_config`. */
  method RemoveComponent(file: Option<seq<string>>, component: string)
    returns (removed: bool, after: Option<seq<string>>)
    ensures Removal(removed, after) == RemoveComponentFrom(file, component)
  {
    if file.None? {
      return false, None;
    }
    var lines := file.value;
    var updated: seq<string> := [];
    var found := false;
    var i := 0;
    while i < |lines|
      invariant 0 <= i <= |lines|
      invariant updated == Removed(lines[..i], component)
      invariant found == Mentions(lines[..i], component)
    {
      var line := lines[i];
      RemovedStep(lines, i, component);
      MentionsStep(lines, i, component);
      if StartsWith(line, Key) {
        var components := Listed(line);
        if component in components {
          components := RemoveFirst(components, component);
          found := true;
          updated := updated + [Key + " " + Join(components, ' ') + "\n"];
        }
      } else {
        updated := updated + [line];
      }
      i := i + 1;
    }
    assert lines[..i] == lines;
    if !found {
      return false, file;
    }
    return true, Some(updated);
  }

  lemma MentionsStep(lines: seq<string>, i: nat, component: string)
    requires i < |lines|
    ensures Mentions(lines[..i + 1], component) <==>
      Mentions(lines[..i], component) || Lists(lines[i], component)
  {
    assert lines[..i + 1][..i] == lines[..i];
  }

  /** One more line of the loop in `remove_component_from_config`. */
  lemma RemovedStep(lines: seq<string>, i: nat, component: string)
    requires i < |lines|
    ensures Removed(lines[..i + 1], component) ==
      Removed(lines[..i], component) +
        (if !IsComponentsLine(lines[i]) then [lines[i]]
         else if component in Listed(lines[i]) then [Rebuilt(lines[i], component)]
         else [])
  {
    assert lines[..i + 1][..i] == lines[..i];
  }

  // ---------------------------------------------------------------------------
  // Lemmas about the words of a line

  /** Every word of `s.split()` is a nonempty run without whitespace. */
  lemma {:induction false} TokensAreTokens(s: string, sep: char -> bool)
    ensures forall i :: 0 <= i < |Tokens(s, sep)| ==> IsToken(Tokens(s, sep)[i], sep)
    decreases |s|
  {
    if s == [] {
    } else if sep(s[0]) {
      TokensAreTokens(s[1..], sep);
    } else {
      var n := RunLength(s, sep);
      TokensAreTokens(s[n..], sep);
    }
  }

  lemma ListedAreTokens(line: string)
    ensures forall i :: 0 <= i < |Listed(line)| ==> IsToken(Listed(line)[i], IsSpace)
  {
    TokensAreTokens(line, IsSpace);
  }

  lemma KeyIsToken()
    ensures Tokens(Key, IsSpace) == [Key]
  {
    assert NoSeparator(Key, IsSpace) by {
      forall i | 0 <= i < |Key| ensures !IsSpace(Key[i]) {
        assert Key[i] in "Components:";
      }
    }
    TokensOfToken(Key, IsSpace);
  }

  /** Stripping a `Components:` line keeps it a `Components:` line. */
  lemma StripKeepsKey(line: string)
    requires IsComponentsLine(line)
    ensures IsComponentsLine(Strip(line))
  {
    assert line[0] == Key[0] && line[10] == Key[10];
    assert !IsSpace(line[0]) && !IsSpace(line[10]);
    var a := TrimStart(line, IsSpace);
    assert a == line;
    TrimEndKeeps(a, |Key|, IsSpace);
    var b := TrimEnd(a, IsSpace);
    assert b[..|Key|] == a[..|Key|];
  }

  /** Trimming the end stops at the last non-separator. */
  lemma {:induction false} TrimEndKeeps(s: string, n: nat, sep: char -> bool)
    requires 0 < n <= |s| && !sep(s[n - 1])
    ensures n <= |TrimEnd(s, sep)|
    decreases |s|
  {
    if sep(s[|s| - 1]) {
      TrimEndKeeps(s[..|s| - 1], n, sep);
    }
  }

  /** A line that starts with a word has words. */
  lemma ComponentsLineHasWords(line: string)
    requires IsComponentsLine(line)
    ensures Words(line) != []
  {
    assert line[0] == 'C';
    TokensOfSeparators(line, IsSpace);
  }

  /** The words of `" " + w + "\n"` for a word `w`. */
  lemma WordsOfTail(w: string)
    requires IsToken(w, IsSpace)
    ensures Words(" " + w + "\n") == [w]
  {
    assert (" " + w + "\n")[1..] == w + "\n";
    TokensTrailingSeparator(w, '\n', IsSpace);
    TokensOfToken(w, IsSpace);
  }

  lemma KeepsKey(a: string, b: string)
    requires IsComponentsLine(a)
    ensures IsComponentsLine(a + b)
  {
    assert (a + b)[..|Key|] == a[..|Key|];
  }

  /** Appending a whitespace-free component adds exactly that word at the end. */
  lemma AppendedListing(line: string, component: string)
    requires IsComponentsLine(line)
    requires IsToken(component, IsSpace)
    ensures IsComponentsLine(Appended(line, component))
    ensures Listed(Appended(line, component)) == Listed(line) + [component]
  {
    var st := Strip(line);
    var tail := " " + component + "\n";
    StripKeepsKey(line);
    KeepsKey(st, tail);
    WordsOfTail(component);
    WordsStrip(line);
    ComponentsLineHasWords(line);
    AppendedSplit(line, component);
    ListedAfterSpace(line, st, tail, component);
  }

  lemma AppendedSplit(line: string, component: string)
    ensures Appended(line, component) == Strip(line) + (" " + component + "\n")
    ensures (" " + component + "\n")[0] == ' '
  {
  }

  /** Words on both sides of a space: one more word listed. */
  lemma ListedAfterSpace(line: string, st: string, tail: string, component: string)
    requires Words(st) == Words(line) && Words(line) != []
    requires tail != [] && IsSpace(tail[0]) && Words(tail) == [component]
    ensures Listed(st + tail) == Listed(line) + [component]
  {
    TokensConcat(st, tail, IsSpace);
    var w := Words(line);
    assert (w + [component])[1..] == w[1..] + [component];
  }

  /** A rebuilt line is a `Components:` line listing the old components with the
      first occurrence of the removed one gone. */
  lemma RebuiltListing(line: string, component: string)
    ensures IsComponentsLine(Rebuilt(line, component))
    ensures Listed(Rebuilt(line, component)) == RemoveFirst(Listed(line), component)
  {
    var xs := RemoveFirst(Listed(line), component);
    var tail := " " + Join(xs, ' ') + "\n";
    RebuiltSplit(line, component);
    KeepsKey(Key, tail) by { assert Key[..|Key|] == Key; }
    RemainingAreTokens(line, component);
    WordsOfJoinedTail(xs);
    KeyIsToken();
    ListedAfterKey(Key, tail, xs);
  }

  lemma RebuiltSplit(line: string, component: string)
    ensures var tail := " " + Join(RemoveFirst(Listed(line), component), ' ') + "\n";
      Rebuilt(line, component) == Key + tail && tail[0] == ' '
  {
  }

  /** What is left after the removal is still made of words. */
  lemma RemainingAreTokens(line: string, component: string)
    ensures var xs := RemoveFirst(Listed(line), component);
      forall i :: 0 <= i < |xs| ==> IsToken(xs[i], IsSpace)
  {
    var xs := RemoveFirst(Listed(line), component);
    ListedAreTokens(line);
    forall i | 0 <= i < |xs| ensures IsToken(xs[i], IsSpace) {
      if component in Listed(line) {
        assert xs[i] in multiset(xs);
      }
      assert xs[i] in Listed(line);
    }
  }

  /** A first word followed by a space and the listed words. */
  lemma ListedAfterKey(key: string, tail: string, xs: seq<string>)
    requires Words(key) == [key] && tail != [] && IsSpace(tail[0]) && Words(tail) == xs
    ensures Listed(key + tail) == xs
  {
    TokensConcat(key, tail, IsSpace);
  }

  lemma WordsOfJoinedTail(xs: seq<string>)
    requires forall i :: 0 <= i < |xs| ==> IsToken(xs[i], IsSpace)
    ensures Words(" " + Join(xs, ' ') + "\n") == xs
  {
    var j := Join(xs, ' ');
    TokensOfJoin(xs, ' ', IsSpace);
    assert (" " + j + "\n")[1..] == j + "\n";
    TokensTrailingSeparator(j, '\n', IsSpace);
  }

  // ---------------------------------------------------------------------------
  // Properties of adding a component

  /** Only the first `Components:` line can change; it then lists the component after
      the ones it had. Without such a line, or with the component already listed,
      nothing changes. */
  lemma AppendEffect(lines: seq<string>, component: string)
    requires IsToken(component, IsSpace)
    ensures var out := WithComponent(lines, component);
      && |out| == |lines|
      && (FirstComponentsLine(lines).None? ==> out == lines)
      && (FirstComponentsLine(lines).Some? ==>
            var i := FirstComponentsLine(lines).value;
            && (forall j :: 0 <= j < |lines| && j != i ==> out[j] == lines[j])
            && IsComponentsLine(out[i])
            && Listed(out[i]) ==
                 (if component in Listed(lines[i]) then Listed(lines[i])
                  else Listed(lines[i]) + [component]))
  {
    if FirstComponentsLine(lines).Some? {
      var i := FirstComponentsLine(lines).value;
      AppendedListing(lines[i], component);
    }
  }

  /** Adding the same whitespace-free component twice is adding it once. */
  lemma AppendIdempotent(lines: seq<string>, component: string)
    requires IsToken(component, IsSpace)
    ensures WithComponent(WithComponent(lines, component), component) ==
            WithComponent(lines, component)
  {
    var out := WithComponent(lines, component);
    if FirstComponentsLine(lines).Some? {
      var i := FirstComponentsLine(lines).value;
      AppendEffect(lines, component);
      FirstIs(out, i);
    }
  }

  // ---------------------------------------------------------------------------
  // Properties of removing a component

  /** The lines that are not `Components:` lines, in order. */
  function OtherLines(lines: seq<string>): (r: seq<string>)
    ensures forall i :: 0 <= i < |r| ==> !IsComponentsLine(r[i])
    decreases |lines|
  {
    if lines == [] then []
    else
      var line := lines[|lines| - 1];
      OtherLines(lines[..|lines| - 1]) + (if IsComponentsLine(line) then [] else [line])
  }

  /** Every line that is not a `Components:` line survives, in order, and no other
      line takes its place. */
  lemma {:induction false} RemovedKeepsOtherLines(lines: seq<string>, component: string)
    ensures OtherLines(Removed(lines, component)) == OtherLines(lines)
    decreases |lines|
  {
    if lines != [] {
      var init, line := lines[..|lines| - 1], lines[|lines| - 1];
      var prev := Removed(init, component);
      RemovedKeepsOtherLines(init, component);
      var added := if !IsComponentsLine(line) then [line]
                   else if component in Listed(line) then [Rebuilt(line, component)]
                   else [];
      assert Removed(lines, component) == prev + added;
      OtherLinesAppend(prev, added);
      if added != [] && IsComponentsLine(line) {
        RebuiltListing(line, component);
        assert OtherLines(added) == [] by { assert added[..0] == []; }
      } else if added != [] {
        assert OtherLines(added) == [line] by { assert added[..0] == []; }
      }
    }
  }

  lemma {:induction false} OtherLinesAppend(a: seq<string>, b: seq<string>)
    ensures OtherLines(a + b) == OtherLines(a) + OtherLines(b)
    decreases |b|
  {
    if b != [] {
      var b0 := b[..|b| - 1];
      assert (a + b)[..|a + b| - 1] == a + b0;
      var x := b[|b| - 1];
      assert (a + b)[|a + b| - 1] == x;
      OtherLinesAppend(a, b0);
      var extra := if IsComponentsLine(x) then [] else [x];
      assert OtherLines(a + b) == OtherLines(a + b0) + extra;
      assert OtherLines(b) == OtherLines(b0) + extra;
    } else {
      assert a + b == a;
    }
  }

  /** A line of the result is an old line that is not a `Components:` line, or the
      rebuilding of a `Components:` line that listed the component. */
  lemma {:induction false} RemovedLineOrigin(lines: seq<string>, component: string, k: nat)
    requires k < |Removed(lines, component)|
    ensures var out := Removed(lines, component)[k];
      || (!IsComponentsLine(out) && out in lines)
      || exists j :: 0 <= j < |lines| && IsComponentsLine(lines[j])
                     && component in Listed(lines[j]) && out == Rebuilt(lines[j], component)
    decreases |lines|
  {
    var init, line := lines[..|lines| - 1], lines[|lines| - 1];
    var prev := Removed(init, component);
    if k < |prev| {
      RemovedLineOrigin(init, component, k);
      var out := prev[k];
      assert Removed(lines, component)[k] == out;
      if !(!IsComponentsLine(out) && out in init) {
        var j :| 0 <= j < |init| && IsComponentsLine(init[j])
                 && component in Listed(init[j]) && out == Rebuilt(init[j], component);
        assert init[j] == lines[j];
      }
    } else {
      assert IsComponentsLine(line) ==> lines[|lines| - 1] == line;
    }
  }

  /** Removing a component that every `Components:` line lists at most once leaves
      no line listing it: a second removal finds nothing and writes nothing. */
  lemma RemoveTwice(lines: seq<string>, component: string)
    requires forall i :: 0 <= i < |lines| && IsComponentsLine(lines[i]) ==>
               multiset(Listed(lines[i]))[component] <= 1
    ensures var first := RemoveComponentFrom(Some(lines), component);
      RemoveComponentFrom(first.file, component) == Removal(false, first.file)
  {
    var out := Removed(lines, component);
    forall k | 0 <= k < |out| && IsComponentsLine(out[k])
      ensures component !in Listed(out[k])
    {
      RemovedLineOrigin(lines, component, k);
      var j :| 0 <= j < |lines| && IsComponentsLine(lines[j])
               && component in Listed(lines[j]) && out[k] == Rebuilt(lines[j], component);
      RebuiltListing(lines[j], component);
      assert multiset(Listed(out[k]))[component] == 0;
    }
    MentionsExactly(out, component);
  }

  /** Adding a component to a `Components:` line that lacks it and removing it again
      gives back the same list of components. */
  lemma AppendThenRemove(line: string, component: string)
    requires IsComponentsLine(line)
    requires IsToken(component, IsSpace)
    requires component !in Listed(line)
    ensures Listed(Rebuilt(Appended(line, component), component)) == Listed(line)
  {
    AppendedListing(line, component);
    RebuiltListing(Appended(line, component), component);
    RemoveFirstLast(Listed(line), component);
  }

  lemma {:induction false} RemoveFirstLast(xs: seq<string>, x: string)
    requires x !in xs
    ensures RemoveFirst(xs + [x], x) == xs
    decreases |xs|
  {
    if xs != [] {
      assert (xs + [x])[1..] == xs[1..] + [x];
      RemoveFirstLast(xs[1..], x);
    }
  }
}
