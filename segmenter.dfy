/**
 The requirement segmenter (`getAnnualReportRequirements`): splits the section
 text into groups at list-item delimiters that open a line, cleans every group
 and drops the stop groups.

 The split pattern `\n\s*\([^()]*\) |\n\d\. ` is scanned by hand. Its first
 alternative cannot backtrack into a second match: the greedy `\s*` must be
 followed by `(`, which is not whitespace, and `[^()]*` must be followed by `)`,
 which it cannot match. `DelimiterAtFindsMatch` proves the scanner finds every
 match and that a match starting at a given index is unique.
 */
module Segmenter {
  import opened Wrappers
  import opened Text
  import StopGroups

  predicate IsParen(c: char) {
    c == '(' || c == ')'
  }

  /** `\n\s*\([^()]*\) ` matches `s[p..e]`. */
  predicate LabelDelimiter(s: string, p: nat, e: nat) {
    p + 4 <= e <= |s| && s[p] == '\n' && s[e - 2] == ')' && s[e - 1] == ' ' &&
    exists k :: p + 1 <= k < e - 2 && s[k] == '(' &&
      (forall j :: p + 1 <= j < k ==> IsSpace(s[j])) &&
      (forall j :: k < j < e - 2 ==> !IsParen(s[j]))
  }

  /** `\n\d\. ` matches `s[p..e]`. */
  predicate NumberDelimiter(s: string, p: nat, e: nat) {
    e == p + 4 <= |s| && s[p] == '\n' && IsDigit(s[p + 1]) && s[p + 2] == '.' && s[p + 3] == ' '
  }

  /** The split pattern matches `s[p..e]`. */
  predicate Delimiter(s: string, p: nat, e: nat) {
    LabelDelimiter(s, p, e) || NumberDelimiter(s, p, e)
  }

  /** End of the run of non-parentheses starting at `i`: the greedy `[^()]*`. */
  function LabelRunEnd(s: string, i: nat): (k: nat)
    requires i <= |s|
    ensures i <= k <= |s|
    ensures forall j :: i <= j < k ==> !IsParen(s[j])
    ensures k == |s| || IsParen(s[k])
    decreases |s| - i
  {
    if i < |s| && !IsParen(s[i]) then LabelRunEnd(s, i + 1) else i
  }

  /** Where the match of the split pattern that starts at `p` ends, trying the
      parenthesised label first and the numeral label second. */
  function DelimiterAt(s: string, p: nat): (r: Option<nat>)
    requires p <= |s|
    ensures r.Some? ==> p + 4 <= r.value <= |s|
  {
    if p < |s| && s[p] == '\n' then
      var k := SpaceRunEnd(s, p + 1);
      if k < |s| && s[k] == '(' && LabelRunEnd(s, k + 1) + 1 < |s|
         && s[LabelRunEnd(s, k + 1)] == ')' && s[LabelRunEnd(s, k + 1) + 1] == ' ' then
        Some(LabelRunEnd(s, k + 1) + 2)
      else if p + 3 < |s| && IsDigit(s[p + 1]) && s[p + 2] == '.' && s[p + 3] == ' ' then
        Some(p + 4)
      else
        None
    else
      None
  }

  /** Any match of the label alternative at `p` is the one the greedy scan finds. */
  lemma LabelDelimiterIsGreedy(s: string, p: nat, e: nat)
    requires LabelDelimiter(s, p, e)
    ensures var k := SpaceRunEnd(s, p + 1);
      k < |s| && s[k] == '(' && LabelRunEnd(s, k + 1) == e - 2
  {
    var k' :| p + 1 <= k' < e - 2 && s[k'] == '(' &&
      (forall j :: p + 1 <= j < k' ==> IsSpace(s[j])) &&
      (forall j :: k' < j < e - 2 ==> !IsParen(s[j]));
    var k := SpaceRunEnd(s, p + 1);
    assert !IsSpace(s[k']);
    assert k == k';
    var m := LabelRunEnd(s, k + 1);
    assert IsParen(s[e - 2]);
    assert m == e - 2;
  }

  /** The scanner finds a match at `p` exactly when the split pattern matches
      there, and it finds the only one. */
  lemma DelimiterAtFindsMatch(s: string, p: nat)
    requires p <= |s|
    ensures forall e: nat :: Delimiter(s, p, e) <==> DelimiterAt(s, p) == Some(e)
  {
    forall e: nat ensures Delimiter(s, p, e) <==> DelimiterAt(s, p) == Some(e) {
      if LabelDelimiter(s, p, e) {
        LabelDelimiterIsGreedy(s, p, e);
      }
      if DelimiterAt(s, p) == Some(e) {
        var k := SpaceRunEnd(s, p + 1);
        if k < |s| && s[k] == '(' && LabelRunEnd(s, k + 1) + 1 < |s|
           && s[LabelRunEnd(s, k + 1)] == ')' && s[LabelRunEnd(s, k + 1) + 1] == ' ' {
          assert LabelDelimiter(s, p, e);
        } else {
          assert NumberDelimiter(s, p, e);
        }
      }
    }
  }

  /** The leftmost delimiter starting at or after `p`, as `(start, end)`. */
  function NextDelimiter(s: string, p: nat): (r: Option<(nat, nat)>)
    requires p <= |s|
    ensures r.Some? ==> p <= r.value.0 <= |s| && DelimiterAt(s, r.value.0) == Some(r.value.1)
    ensures forall x :: p <= x <= |s| && (r.None? || x < r.value.0) ==> DelimiterAt(s, x).None?
    decreases |s| - p
  {
    match DelimiterAt(s, p)
    case Some(e) => Some((p, e))
    case None => if p == |s| then None else NextDelimiter(s, p + 1)
  }

  /** The pieces `re.split` produces after a delimiter that ends at `p`. */
  function GroupsFrom(s: string, p: nat): seq<string>
    requires p <= |s|
    decreases |s| - p
  {
    match NextDelimiter(s, p)
    case None => [s[p..]]
    case Some((q, e)) => [s[p..q]] + GroupsFrom(s, e)
  }

  /** The delimiters `re.split` cuts at, from `p` on: the leftmost match, then
      the leftmost match after it, and so on. */
  ghost function DelimitersFrom(s: string, p: nat): seq<(nat, nat)>
    requires p <= |s|
    decreases |s| - p
  {
    match NextDelimiter(s, p)
    case None => []
    case Some((q, e)) => [(q, e)] + DelimitersFrom(s, e)
  }

  /** Every cut in `d` is a match of the split pattern at or after `p`, and the
      cuts come in order without overlapping. */
  ghost predicate SoundCuts(s: string, p: nat, d: seq<(nat, nat)>) {
    && (forall i :: 0 <= i < |d| ==> p <= d[i].0 < d[i].1 <= |s| && DelimiterAt(s, d[i].0) == Some(d[i].1))
    && (forall i :: 0 <= i < |d| - 1 ==> d[i].1 <= d[i + 1].0)
  }

  lemma {:induction false} DelimitersFromSound(s: string, p: nat)
    requires p <= |s|
    ensures SoundCuts(s, p, DelimitersFrom(s, p))
    decreases |s| - p
  {
    match NextDelimiter(s, p)
    case None =>
    case Some((q, e)) =>
      DelimitersFromSound(s, e);
      var d, rest := DelimitersFrom(s, p), DelimitersFrom(s, e);
      assert SoundCuts(s, e, rest);
      assert d == [(q, e)] + rest;
      assert DelimiterAt(s, q) == Some(e);
      forall i | 0 <= i < |d|
        ensures p <= d[i].0 < d[i].1 <= |s| && DelimiterAt(s, d[i].0) == Some(d[i].1)
      {
        if i > 0 { assert d[i] == rest[i - 1]; }
      }
      forall i | 0 <= i < |d| - 1 ensures d[i].1 <= d[i + 1].0 {
        assert d[i + 1] == rest[i];
        if i > 0 { assert d[i] == rest[i - 1]; }
      }
  }

  /** A match of the split pattern starting at `x` lies inside a cut of `d`. */
  ghost predicate Covered(d: seq<(nat, nat)>, x: nat) {
    exists i :: 0 <= i < |d| && d[i].0 <= x < d[i].1
  }

  /** No match of the split pattern from `p` on is skipped: each one starts
      inside some cut, so it is either a cut itself or overlaps one. */
  lemma {:induction false} DelimitersFromComplete(s: string, p: nat, x: nat)
    requires p <= x <= |s| && DelimiterAt(s, x).Some?
    ensures Covered(DelimitersFrom(s, p), x)
    decreases |s| - p
  {
    match NextDelimiter(s, p)
    case None =>
      assert false;
    case Some((q, e)) =>
      var d, rest := DelimitersFrom(s, p), DelimitersFrom(s, e);
      assert d == [(q, e)] + rest;
      if x < e {
        assert q <= x;
        assert d[0] == (q, e);
      } else {
        DelimitersFromComplete(s, e, x);
        var i :| 0 <= i < |rest| && rest[i].0 <= x < rest[i].1;
        assert d[i + 1] == rest[i];
      }
  }

  ghost function Delimiters(s: string): seq<(nat, nat)> {
    DelimitersFrom(s, 0)
  }

  /** Where the group after delimiter `i` ends: at the next delimiter or at the end. */
  ghost function GroupEnd(s: string, d: seq<(nat, nat)>, i: nat): nat {
    if i + 1 < |d| then d[i + 1].0 else |s|
  }

  /** `g` holds, for each cut of `d`, the text from the end of that cut to the
      start of the next one (or to the end of `s`). */
  ghost predicate GroupsBetweenCuts(s: string, g: seq<string>, d: seq<(nat, nat)>) {
    |g| == |d| &&
    forall i :: 0 <= i < |d| ==>
      d[i].1 <= GroupEnd(s, d, i) <= |s| && g[i] == s[d[i].1..GroupEnd(s, d, i)]
  }

  lemma {:induction false} GroupsFromBetweenDelimiters(s: string, p: nat)
    requires p <= |s|
    ensures |GroupsFrom(s, p)| == |DelimitersFrom(s, p)| + 1
    ensures GroupsBetweenCuts(s, GroupsFrom(s, p)[1..], DelimitersFrom(s, p))
    decreases |s| - p
  {
    match NextDelimiter(s, p)
    case None =>
    case Some((q, e)) =>
      GroupsFromBetweenDelimiters(s, e);
      DelimitersFromSound(s, e);
      var g, d := GroupsFrom(s, p), DelimitersFrom(s, p);
      assert g == [s[p..q]] + GroupsFrom(s, e) && d == [(q, e)] + DelimitersFrom(s, e);
      assert g[1..] == GroupsFrom(s, e);
      CutsAfterFirst(s, q, e, GroupsFrom(s, e), DelimitersFrom(s, e));
  }

  /** Prepending the cut `(q, e)` to the cuts after it: the group after it is
      the text up to the next cut, the head of the groups from `e`. */
  lemma CutsAfterFirst(s: string, q: nat, e: nat, g: seq<string>, d: seq<(nat, nat)>)
    requires q < e <= |s|
    requires |g| == |d| + 1
    requires GroupsBetweenCuts(s, g[1..], d) && SoundCuts(s, e, d)
    requires g[0] == s[e..if d == [] then |s| else d[0].0]
    ensures GroupsBetweenCuts(s, g, [(q, e)] + d)
  {
    var d1 := [(q, e)] + d;
    forall i | 0 <= i < |d1|
      ensures d1[i].1 <= GroupEnd(s, d1, i) <= |s| && g[i] == s[d1[i].1..GroupEnd(s, d1, i)]
    {
      if i > 0 {
        assert g[i] == g[1..][i - 1] && d1[i] == d[i - 1];
        assert GroupEnd(s, d1, i) == GroupEnd(s, d, i - 1);
      }
    }
  }

  /** The groups after the first cut `(q, e)` lie between the cuts. */
  lemma FirstCutGroups(s: string, q: nat, e: nat)
    requires NextDelimiter(s, 0) == Some((q, e))
    ensures GroupsBetweenCuts(s, GroupsFrom(s, e), Delimiters(s))
  {
    GroupsFromBetweenDelimiters(s, e);
    DelimitersFromSound(s, e);
    var g, d := GroupsFrom(s, e), Delimiters(s);
    var d' := DelimitersFrom(s, e);
    assert d == [(q, e)] + d';
    assert GroupsBetweenCuts(s, g[1..], d') && SoundCuts(s, e, d');
    forall i | 0 <= i < |d|
      ensures d[i].1 <= GroupEnd(s, d, i) <= |s| && g[i] == s[d[i].1..GroupEnd(s, d, i)]
    {
      if i > 0 {
        assert g[i] == g[1..][i - 1] && d[i] == d'[i - 1];
        assert GroupEnd(s, d, i) == GroupEnd(s, d', i - 1);
      }
    }
  }

  /** `re.split(pattern, s)[1:]`: the groups are exactly the texts between
      consecutive delimiter matches, one per match, in document order; the text
      before the first match never belongs to a group. */
  function Groups(s: string): (r: seq<string>)
    ensures GroupsBetweenCuts(s, r, Delimiters(s))
  {
    match NextDelimiter(s, 0)
    case None => []
    case Some((q, e)) =>
      FirstCutGroups(s, q, e);
      GroupsFrom(s, e)
  }

  /** `re.sub("\n", ' ', s)`. */
  function ReplaceNewlines(s: string): (r: string)
    ensures |r| == |s|
    ensures forall i :: 0 <= i < |s| ==> r[i] == if s[i] == '\n' then ' ' else s[i]
  {
    if s == [] then [] else [if s[0] == '\n' then ' ' else s[0]] + ReplaceNewlines(s[1..])
  }

  function Spaces(n: nat): (r: string)
    ensures |r| == n
  {
    if n == 0 then [] else [' '] + Spaces(n - 1)
  }

  /** The pass turns the first two spaces of a run into one. */
  lemma PairPassLeadingPair(n: nat, rest: string)
    requires n >= 2
    ensures PairPass(Spaces(n) + rest) == " " + PairPass(Spaces(n - 2) + rest)
  {
    assert Spaces(n) == "  " + Spaces(n - 2);
    assert Spaces(n) + rest == "  " + (Spaces(n - 2) + rest);
  }

  /** No space or a single space before a non-space passes through unchanged. */
  lemma CollapseShortRun(n: nat, rest: string)
    requires n < 2
    requires rest == [] || rest[0] != ' '
    ensures PairPass(Spaces(n) + rest) == Spaces((n + 1) / 2) + PairPass(rest)
  {
    if n == 1 {
      assert Spaces(1) == " ";
      assert (Spaces(1) + rest)[1..] == rest;
    } else {
      assert Spaces(0) + rest == rest;
    }
  }

  /** A run of `n` spaces followed by something else comes out of the pass as
      `(n + 1) / 2` spaces: the pass halves a run, rounding up, rather than
      collapsing it to one space. */
  lemma {:induction false} CollapseSpaceRun(n: nat, rest: string)
    requires rest == [] || rest[0] != ' '
    ensures PairPass(Spaces(n) + rest) == Spaces((n + 1) / 2) + PairPass(rest)
    decreases n
  {
    if n >= 2 {
      var half := (n - 2 + 1) / 2;
      assert (n + 1) / 2 == half + 1;
      PairPassLeadingPair(n, rest);
      CollapseSpaceRun(n - 2, rest);
      assert Spaces(half + 1) + PairPass(rest) == " " + (Spaces(half) + PairPass(rest));
    } else {
      CollapseShortRun(n, rest);
    }
  }

  /** Three spaces in a row become two, which a second pass would make one:
      the cleanup is not idempotent. */
  lemma CollapseIsSinglePass()
    ensures CollapseDoubleSpaces("a   b") == "a  b"
    ensures CollapseDoubleSpaces(CollapseDoubleSpaces("a   b")) == "a b"
  {
    CollapseSpaceRun(3, "b");
    assert Spaces(3) + "b" == "   b";
    assert Spaces(2) == "  ";
    assert "a   b"[1..] == "   b";
    CollapseSpaceRun(2, "b");
    assert Spaces(1) == " ";
    assert Spaces(2) + "b" == "  b";
    assert "a  b"[1..] == "  b";
  }

  /** `s` without its spaces: what the collapse must leave alone. */
  function WithoutSpaces(s: string): (r: string)
    ensures forall i :: 0 <= i < |r| ==> r[i] != ' '
  {
    if s == [] then [] else (if s[0] == ' ' then [] else [s[0]]) + WithoutSpaces(s[1..])
  }

  lemma {:induction false} WithoutSpacesAppend(a: string, b: string)
    ensures WithoutSpaces(a + b) == WithoutSpaces(a) + WithoutSpaces(b)
  {
    if a == [] {
      assert a + b == b;
    } else {
      assert (a + b)[1..] == a[1..] + b;
      WithoutSpacesAppend(a[1..], b);
    }
  }

  /** The left-to-right pass of `re.sub("  ", " ", s)`: each non-overlapping
      pair of spaces, taken from the left, is replaced by one space. */
  function PairPass(s: string): string {
    if |s| >= 2 && s[0] == ' ' && s[1] == ' ' then " " + PairPass(s[2..])
    else if s == [] then []
    else [s[0]] + PairPass(s[1..])
  }

  lemma {:induction false} PairPassKeepsNonSpaces(s: string)
    ensures WithoutSpaces(PairPass(s)) == WithoutSpaces(s)
    decreases |s|
  {
    if |s| >= 2 && s[0] == ' ' && s[1] == ' ' {
      PairPassKeepsNonSpaces(s[2..]);
      WithoutSpacesAppend(" ", PairPass(s[2..]));
      assert s[1..][1..] == s[2..];
    } else if s != [] {
      PairPassKeepsNonSpaces(s[1..]);
      WithoutSpacesAppend([s[0]], PairPass(s[1..]));
    }
  }

  /** `re.sub("  ", " ", s)`. It removes spaces only: every other character
      survives, in order. */
  function CollapseDoubleSpaces(s: string): (r: string)
    ensures WithoutSpaces(r) == WithoutSpaces(s)
  {
    PairPassKeepsNonSpaces(s);
    PairPass(s)
  }

  /** The characters `[a-zA-Z0-9 ]` that survive the cleanup. */
  predicate IsKept(c: char) {
    IsLetter(c) || IsDigit(c) || c == ' '
  }

  /** `re.sub("[^a-zA-Z0-9 ]", '', s)`. */
  function KeepAllowed(s: string): (r: string)
    ensures |r| <= |s|
    ensures forall i :: 0 <= i < |r| ==> IsKept(r[i])
  {
    if s == [] then [] else (if IsKept(s[0]) then [s[0]] else []) + KeepAllowed(s[1..])
  }

  /** A single character survives exactly when it is a letter, digit or space. */
  lemma KeepAllowedChar(c: char)
    ensures KeepAllowed([c]) == if IsKept(c) then [c] else []
  {
    assert [c][1..] == [];
  }

  /** The filter works character by character: it distributes over
      concatenation, so the kept characters survive in order. */
  lemma {:induction false} KeepAllowedAppend(a: string, b: string)
    ensures KeepAllowed(a + b) == KeepAllowed(a) + KeepAllowed(b)
  {
    if a == [] {
      assert a + b == b;
    } else {
      assert (a + b)[1..] == a[1..] + b;
      KeepAllowedAppend(a[1..], b);
    }
  }

  /** The filter runs after the collapse, so a dropped character between two
      spaces leaves a double space in the cleaned text. */
  lemma FilterCanPairSpaces()
    ensures KeepAllowed("a - b") == "a  b"
  {
    KeepAllowedAppend("a ", "- b");
    KeepAllowedAppend("-", " b");
    assert "a - b" == "a " + "- b" && "- b" == "-" + " b";
  }

  /** Stripping the other characters a second time changes nothing. */
  lemma {:induction false} KeepAllowedIdempotent(s: string)
    ensures KeepAllowed(KeepAllowed(s)) == KeepAllowed(s)
  {
    KeepAllowedFixesClean(KeepAllowed(s));
  }

  lemma {:induction false} KeepAllowedFixesClean(s: string)
    requires forall i :: 0 <= i < |s| ==> IsKept(s[i])
    ensures KeepAllowed(s) == s
  {
    if s != [] {
      KeepAllowedFixesClean(s[1..]);
    }
  }

  /** A group after cleanup: only letters, digits and spaces, and no space at
      either end. */
  predicate IsCleanRequirement(r: string) {
    (forall i :: 0 <= i < |r| ==> IsKept(r[i])) && (r == [] || (r[0] != ' ' && r[|r| - 1] != ' '))
  }

  /** The cleanup of one group, in the source's order of substitutions. */
  function Clean(group: string): (r: string)
    ensures IsCleanRequirement(r)
  {
    var kept := KeepAllowed(CollapseDoubleSpaces(ReplaceNewlines(group)));
    var r := Strip(kept);
    assert forall j :: 0 <= j < |r| ==> r[j] in kept;
    r
  }

  /** The groups mapped through `clean`, dropping every result `isStop` accepts;
      written over the two steps as parameters so that reasoning about the order
      of the output never looks inside them. */
  function CleanAndFilter(groups: seq<string>, clean: string -> string, isStop: string -> bool): (reqs: seq<string>)
    ensures |reqs| <= |groups|
  {
    if groups == [] then []
    else
      var n := |groups| - 1;
      var group := clean(groups[n]);
      CleanAndFilter(groups[..n], clean, isStop) + (if isStop(group) then [] else [group])
  }

  /** One more group adds its cleanup at the end, unless that is a stop group. */
  lemma CleanAndFilterSnoc(groups: seq<string>, g: string, clean: string -> string, isStop: string -> bool)
    ensures CleanAndFilter(groups + [g], clean, isStop) ==
      CleanAndFilter(groups, clean, isStop) + (if isStop(clean(g)) then [] else [clean(g)])
  {
    assert (groups + [g])[..|groups|] == groups;
  }

  /** The indices of the groups whose cleanup is kept. */
  ghost function KeptIndices(groups: seq<string>, clean: string -> string, isStop: string -> bool): seq<nat> {
    if groups == [] then []
    else
      var n := |groups| - 1;
      KeptIndices(groups[..n], clean, isStop) + (if isStop(clean(groups[n])) then [] else [n])
  }

  lemma {:induction false} CleanAndFilterInOrder(groups: seq<string>, clean: string -> string, isStop: string -> bool)
    ensures var idx, reqs := KeptIndices(groups, clean, isStop), CleanAndFilter(groups, clean, isStop);
      && |idx| == |reqs|
      && (forall i :: 0 <= i < |idx| ==> idx[i] < |groups| && reqs[i] == clean(groups[idx[i]]))
      && (forall i, j :: 0 <= i < j < |idx| ==> idx[i] < idx[j])
      && (forall j :: 0 <= j < |groups| && j !in idx ==> isStop(clean(groups[j])))
  {
    if groups != [] {
      var n := |groups| - 1;
      var init := groups[..n];
      CleanAndFilterInOrder(init, clean, isStop);
      var front, frontReqs := KeptIndices(init, clean, isStop), CleanAndFilter(init, clean, isStop);
      var idx, reqs := KeptIndices(groups, clean, isStop), CleanAndFilter(groups, clean, isStop);
      var last := clean(groups[n]);
      var stop := isStop(last);
      assert reqs == frontReqs + (if stop then [] else [last]);
      assert idx == front + (if stop then [] else [n]);
      if !stop {
        assert idx[|front|] == n;
      }
      forall i | 0 <= i < |idx| ensures idx[i] < |groups| && reqs[i] == clean(groups[idx[i]]) {
        if i < |front| {
          assert idx[i] == front[i] && reqs[i] == frontReqs[i];
          assert init[front[i]] == groups[front[i]];
        } else {
          assert idx[i] == n && reqs[i] == last;
        }
      }
      forall i, j | 0 <= i < j < |idx| ensures idx[i] < idx[j] {
        assert idx[i] == front[i];
        if j < |front| { assert idx[j] == front[j]; } else { assert idx[j] == n; }
      }
      forall j | 0 <= j < |groups| && j !in idx ensures isStop(clean(groups[j])) {
        if j < n {
          assert j !in front;
          assert init[j] == groups[j];
        }
      }
    }
  }

  lemma {:induction false} CleanAndFilterDropsStops(groups: seq<string>, clean: string -> string, isStop: string -> bool)
    ensures forall r :: r in CleanAndFilter(groups, clean, isStop) ==> !isStop(r) && exists g :: g in groups && r == clean(g)
  {
    if groups != [] {
      var n := |groups| - 1;
      CleanAndFilterDropsStops(groups[..n], clean, isStop);
      var last := clean(groups[n]);
      var tail := if isStop(last) then [] else [last];
      assert CleanAndFilter(groups, clean, isStop) == CleanAndFilter(groups[..n], clean, isStop) + tail;
      forall r | r in CleanAndFilter(groups, clean, isStop) ensures !isStop(r) && exists g :: g in groups && r == clean(g) {
        if r in CleanAndFilter(groups[..n], clean, isStop) {
          var g :| g in groups[..n] && r == clean(g);
          assert g in groups;
        } else {
          assert r in tail && r == clean(groups[n]);
        }
      }
    }
  }

  /** The requirements the groups yield: each group cleaned, stop groups dropped. */
  function RequirementsOf(groups: seq<string>): seq<string> {
    CleanAndFilter(groups, Clean, StopGroups.IsStopGroup)
  }

  /** Every requirement is the cleanup of some group, is clean, and is not a stop group. */
  lemma RequirementsAreClean(groups: seq<string>)
    ensures forall r :: r in RequirementsOf(groups) ==>
      IsCleanRequirement(r) && !StopGroups.IsStopGroup(r) && exists g :: g in groups && r == Clean(g)
  {
    CleanAndFilterDropsStops(groups, Clean, StopGroups.IsStopGroup);
  }

  /** The indices of the groups that yield the requirements. */
  ghost function KeptGroups(groups: seq<string>): seq<nat> {
    KeptIndices(groups, Clean, StopGroups.IsStopGroup)
  }

  /** The requirements come from increasing group indices, each requirement is
      the cleanup of its group, and every group left out is a stop group: the
      output keeps the document order of the groups. */
  lemma KeptGroupsInOrder(groups: seq<string>)
    ensures var idx, reqs := KeptGroups(groups), RequirementsOf(groups);
      && |idx| == |reqs|
      && (forall i :: 0 <= i < |idx| ==> idx[i] < |groups| && reqs[i] == Clean(groups[idx[i]]))
      && (forall i, j :: 0 <= i < j < |idx| ==> idx[i] < idx[j])
      && (forall j :: 0 <= j < |groups| && j !in idx ==> StopGroups.IsStopGroup(Clean(groups[j])))
  {
    CleanAndFilterInOrder(groups, Clean, StopGroups.IsStopGroup);
  }

  /** What `getAnnualReportRequirements` returns for a section text. */
  function Requirements(section: string): seq<string> {
    RequirementsOf(Groups("\n" + section))
  }

  /** There are never more requirements than delimiter matches. */
  lemma RequirementsBoundedByDelimiters(section: string)
    ensures |Requirements(section)| <= |Delimiters("\n" + section)|
  {
  }

  /** The loop of `getAnnualReportRequirements`, over its two steps: clean each
      group in turn, keep the ones that are not stop groups. */
  method CleanGroups(groups: seq<string>, clean: string -> string, isStop: string -> bool) returns (reqs: seq<string>)
    ensures reqs == CleanAndFilter(groups, clean, isStop)
  {
    reqs := [];
    for i := 0 to |groups|
      invariant reqs == CleanAndFilter(groups[..i], clean, isStop)
    {
      assert groups[..i + 1] == groups[..i] + [groups[i]];
      CleanAndFilterSnoc(groups[..i], groups[i], clean, isStop);
      var group := clean(groups[i]);
      if !isStop(group) {
        reqs := reqs + [group];
      }
    }
    assert groups[..|groups|] == groups;
  }

  /** `getAnnualReportRequirements`: split the section, prefixed by a line feed,
      at the delimiters and run the loop over the groups with the source's
      cleanup and stop-group test. */
  method AnnualReportRequirements(section: string) returns (reqs: seq<string>)
    ensures reqs == Requirements(section)
  {
    var groups := Groups("\n" + section);
    reqs := CleanGroups(groups, Clean, StopGroups.IsStopGroup);
  }
}
