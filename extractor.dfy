/**
 The section extractor (`getContentOfAnnualReports`): scans the lines of an
 official statement and returns the text of the section titled "Content of
 Annual Reports", from its heading up to the next numbered section heading.
 Headings are recognised on the line with all whitespace removed, ignoring case.
 */
module SectionExtractor {
  import opened Wrappers
  import opened Text

  const SectionWord := "section"
  const TargetTitle := "contentofannualreports."

  /** `t` (lower-cased, whitespace removed) starts with `section`, one or two
      digits and a full stop ending at index `e`: the text `Section\d{1,2}\.` matches. */
  predicate NumberedPrefix(t: string, e: nat) {
    OccursAt(t, SectionWord, 0) && (e == 9 || e == 10) && e <= |t| && t[e - 1] == '.' &&
    forall k :: 7 <= k < e - 1 ==> IsDigit(t[k])
  }

  /** Where the match of `Section\d{1,2}\.` at the start of `t` ends: `\d{1,2}`
      first tries two digits, then one. */
  function NumberedPrefixEnd(t: string): Option<nat> {
    if |t| < 9 || !OccursAt(t, SectionWord, 0) || !IsDigit(t[7]) then None
    else if |t| >= 10 && IsDigit(t[8]) && t[9] == '.' then Some(10)
    else if t[8] == '.' then Some(9)
    else None
  }

  /** The scanner finds the match of `Section\d{1,2}\.` exactly when there is
      one, and there is never more than one. */
  lemma NumberedPrefixEndFindsMatch(t: string)
    ensures forall e: nat :: NumberedPrefix(t, e) <==> NumberedPrefixEnd(t) == Some(e)
  {
  }

  /** `t` starts with `Section\d{1,2}\.ContentOfAnnualReports.` (lower-cased),
      the numbered part ending at `e`. */
  predicate TargetPrefix(t: string, e: nat) {
    NumberedPrefix(t, e) && OccursAt(t, TargetTitle, e)
  }

  /** The end the scanner reports is a match, so it witnesses both prefixes. */
  lemma NumberedPrefixEndIsMatch(t: string)
    ensures NumberedPrefixEnd(t).Some? ==> NumberedPrefix(t, NumberedPrefixEnd(t).value)
    ensures NumberedPrefixEnd(t).Some? && OccursAt(t, TargetTitle, NumberedPrefixEnd(t).value) ==>
      TargetPrefix(t, NumberedPrefixEnd(t).value)
  {
    NumberedPrefixEndFindsMatch(t);
  }

  /** `re.match("(?i)Section\d{1,2}\.", squashed)`. */
  predicate StartsNumberedSection(squashed: string) {
    NumberedPrefixEnd(LowerStr(squashed)).Some?
  }

  /** `re.match("(?i)Section\d{1,2}\.ContentOfAnnualReports\.", squashed)`. */
  predicate StartsTargetSection(squashed: string) {
    var t := LowerStr(squashed);
    match NumberedPrefixEnd(t)
    case None => false
    case Some(e) => OccursAt(t, TargetTitle, e)
  }

  /** The line, once its whitespace is removed, opens some numbered section:
      `Section\d{1,2}\.` matches at its start, ignoring case. */
  predicate IsHeadingLine(line: string): (b: bool)
    ensures b ==> exists e: nat :: NumberedPrefix(LowerStr(RemoveWhitespace(line)), e)
    ensures (exists e: nat :: NumberedPrefix(LowerStr(RemoveWhitespace(line)), e)) ==> b
  {
    NumberedPrefixEndFindsMatch(LowerStr(RemoveWhitespace(line)));
    NumberedPrefixEndIsMatch(LowerStr(RemoveWhitespace(line)));
    StartsNumberedSection(RemoveWhitespace(line))
  }

  /** The line, once its whitespace is removed, opens "Content of Annual Reports":
      `Section\d{1,2}\.` matches at its start and `ContentOfAnnualReports.`
      follows it, ignoring case. */
  predicate IsTargetLine(line: string): (b: bool)
    ensures b ==> exists e: nat :: TargetPrefix(LowerStr(RemoveWhitespace(line)), e)
    ensures (exists e: nat :: TargetPrefix(LowerStr(RemoveWhitespace(line)), e)) ==> b
  {
    NumberedPrefixEndFindsMatch(LowerStr(RemoveWhitespace(line)));
    NumberedPrefixEndIsMatch(LowerStr(RemoveWhitespace(line)));
    StartsTargetSection(RemoveWhitespace(line))
  }

  /** The squashed target heading `section6.contentofannualreports.`. */
  const SquashedTarget := "section6." + TargetTitle

  lemma SquashedTargetIsLower()
    ensures LowerStr(SquashedTarget) == SquashedTarget
  {
    assert forall i :: 0 <= i < |SquashedTarget| ==> !('A' <= SquashedTarget[i] <= 'Z');
    LowerStrFixesLower(SquashedTarget);
  }

  lemma SquashedTargetPrefix()
    ensures NumberedPrefixEnd(SquashedTarget) == Some(9)
    ensures OccursAt(SquashedTarget, TargetTitle, 9)
  {
    assert SquashedTarget[..7] == SectionWord;
    assert SquashedTarget[9..9 + |TargetTitle|] == TargetTitle;
  }

  /** The squashed target heading matches the target pattern. */
  lemma TargetTitleMatches()
    ensures StartsTargetSection(SquashedTarget)
  {
    SquashedTargetIsLower();
    SquashedTargetPrefix();
  }

  /** A real target heading passes the target test: the test is not empty. */
  lemma TargetHeadingRecognised()
    ensures IsTargetLine(SquashedTarget)
  {
    assert forall i :: 0 <= i < |SquashedTarget| ==> !IsSpace(SquashedTarget[i]);
    RemoveWhitespaceFixesSquashed(SquashedTarget);
    TargetTitleMatches();
  }

  /** The target heading is itself a numbered heading, so the extractor must not
      test it for the end of the section on the line that opens it. */
  lemma TargetLineIsHeadingLine(line: string)
    ensures IsTargetLine(line) ==> IsHeadingLine(line)
  {
  }

  /** Inserting a whitespace character anywhere in a line never changes whether
      it is a heading or the target heading. */
  lemma HeadingIgnoresSpacing(before: string, after: string, w: char)
    requires IsSpace(w)
    ensures IsHeadingLine(before + [w] + after) == IsHeadingLine(before + after)
    ensures IsTargetLine(before + [w] + after) == IsTargetLine(before + after)
  {
    RemoveWhitespaceAppend(before + [w], after);
    RemoveWhitespaceAppend(before, [w]);
    RemoveWhitespaceAppend(before, after);
    assert RemoveWhitespace([w]) == [];
    assert RemoveWhitespace(before + [w] + after) == RemoveWhitespace(before + after);
  }

  /** Lines that agree up to the case of their letters are headings alike. */
  lemma HeadingIgnoresCase(a: string, b: string)
    requires LowerStr(a) == LowerStr(b)
    ensures IsHeadingLine(a) == IsHeadingLine(b)
    ensures IsTargetLine(a) == IsTargetLine(b)
  {
    LowerRemoveWhitespace(a);
    LowerRemoveWhitespace(b);
  }

  /** The first index at or after `from` whose line satisfies `p`. */
  function FirstWhere(lines: seq<string>, from: nat, p: string -> bool): (r: Option<nat>)
    ensures r.Some? ==> from <= r.value < |lines| && p(lines[r.value])
    ensures forall k :: from <= k < |lines| && (r.None? || k < r.value) ==> !p(lines[k])
    decreases |lines| - from
  {
    if from >= |lines| then None
    else if p(lines[from]) then Some(from)
    else FirstWhere(lines, from + 1, p)
  }

  /** Where the section runs, as `(start, stop)`: from the first line satisfying
      `opens` up to the first later line satisfying `closes`; absent when no line
      opens or the opened section is never closed. */
  function SectionBounds(lines: seq<string>, opens: string -> bool, closes: string -> bool): (r: Option<(nat, nat)>)
    ensures r.Some? ==> r.value.0 < r.value.1 < |lines|
  {
    match FirstWhere(lines, 0, opens)
    case None => None
    case Some(start) =>
      match FirstWhere(lines, start + 1, closes)
      case None => None
      case Some(stop) => Some((start, stop))
  }

  /** The lines within the bounds. */
  function SectionLines(lines: seq<string>, opens: string -> bool, closes: string -> bool): Option<seq<string>> {
    match SectionBounds(lines, opens, closes)
    case None => None
    case Some((start, stop)) => Some(lines[start..stop])
  }

  /** The section's lines, joined and stripped. */
  function SectionOf(lines: seq<string>, opens: string -> bool, closes: string -> bool): Option<string> {
    match SectionLines(lines, opens, closes)
    case None => None
    case Some(part) => Some(Strip(Join(part)))
  }

  /** The section as the source defines it: the lines from the first target
      heading up to the first later numbered heading, joined and stripped. */
  function ExtractedSection(lines: seq<string>): Option<string> {
    SectionOf(lines, IsTargetLine, IsHeadingLine)
  }

  lemma SectionBoundsFound(lines: seq<string>, opens: string -> bool, closes: string -> bool)
    ensures SectionBounds(lines, opens, closes).Some? <==>
            exists i, j :: 0 <= i < j < |lines| && opens(lines[i]) && closes(lines[j])
  {
    match FirstWhere(lines, 0, opens)
    case None =>
      assert forall i :: 0 <= i < |lines| ==> !opens(lines[i]);
    case Some(start) =>
      match FirstWhere(lines, start + 1, closes)
      case None =>
        forall i, j | 0 <= i < j < |lines|
          ensures !(opens(lines[i]) && closes(lines[j]))
        {
          if i < start { assert !opens(lines[i]); }
          else { assert start + 1 <= j; }
        }
      case Some(stop) =>
        assert opens(lines[start]) && closes(lines[stop]);
  }

  /** A section is found exactly when a target heading is followed, on some
      later line, by a numbered heading. */
  lemma ExtractedSectionFound(lines: seq<string>)
    ensures ExtractedSection(lines).Some? <==>
            exists i, j :: 0 <= i < j < |lines| && IsTargetLine(lines[i]) && IsHeadingLine(lines[j])
  {
    SectionBoundsFound(lines, IsTargetLine, IsHeadingLine);
  }

  /** The bounds are the first opening line and the first closing line after it. */
  lemma SectionBoundsAt(lines: seq<string>, opens: string -> bool, closes: string -> bool, start: nat, stop: nat)
    requires start < stop < |lines|
    requires opens(lines[start]) && forall k :: 0 <= k < start ==> !opens(lines[k])
    requires closes(lines[stop]) && forall k :: start < k < stop ==> !closes(lines[k])
    ensures SectionBounds(lines, opens, closes) == Some((start, stop))
  {
    assert FirstWhere(lines, 0, opens) == Some(start);
    assert FirstWhere(lines, start + 1, closes) == Some(stop);
  }

  /** When the section is found, its text is built from the first target heading
      line (included) up to the first later numbered heading (excluded); lines
      before the target heading never contribute. */
  lemma ExtractedSectionText(lines: seq<string>, start: nat, stop: nat)
    requires start < stop < |lines|
    requires IsTargetLine(lines[start]) && forall k :: 0 <= k < start ==> !IsTargetLine(lines[k])
    requires IsHeadingLine(lines[stop]) && forall k :: start < k < stop ==> !IsHeadingLine(lines[k])
    ensures ExtractedSection(lines) == Some(Strip(Join(lines[start..stop])))
  {
    SectionBoundsAt(lines, IsTargetLine, IsHeadingLine, start, stop);
  }

  /** Lines in front that never open a section shift the bounds and nothing else. */
  lemma {:induction false} SectionBoundsPrefix(prefix: seq<string>, lines: seq<string>, opens: string -> bool, closes: string -> bool)
    requires forall k :: 0 <= k < |prefix| ==> !opens(prefix[k])
    ensures SectionBounds(prefix + lines, opens, closes) ==
            match SectionBounds(lines, opens, closes)
            case None => None
            case Some((start, stop)) => Some((|prefix| + start, |prefix| + stop))
  {
    var all := prefix + lines;
    var n := |prefix|;
    FirstWhereShift(prefix, lines, 0, opens);
    FirstWhereSkip(all, 0, n, opens);
    match FirstWhere(lines, 0, opens)
    case None =>
      assert FirstWhere(all, 0, opens) == None;
    case Some(start) =>
      assert FirstWhere(all, 0, opens) == Some(n + start);
      FirstWhereShift(prefix, lines, start + 1, closes);
  }

  lemma SectionLinesPrefix(prefix: seq<string>, lines: seq<string>, opens: string -> bool, closes: string -> bool)
    requires forall k :: 0 <= k < |prefix| ==> !opens(prefix[k])
    ensures SectionLines(prefix + lines, opens, closes) == SectionLines(lines, opens, closes)
  {
    SectionBoundsPrefix(prefix, lines, opens, closes);
    match SectionBounds(lines, opens, closes)
    case None =>
    case Some((start, stop)) =>
      assert (prefix + lines)[|prefix| + start..|prefix| + stop] == lines[start..stop];
  }

  /** Lines without a target heading in front of the document change nothing. */
  lemma LeadingLinesIgnored(prefix: seq<string>, lines: seq<string>)
    requires forall k :: 0 <= k < |prefix| ==> !IsTargetLine(prefix[k])
    ensures ExtractedSection(prefix + lines) == ExtractedSection(lines)
  {
    SectionLinesPrefix(prefix, lines, IsTargetLine, IsHeadingLine);
  }

  /** Searching `prefix + lines` from inside `lines` finds the same line, shifted. */
  lemma {:induction false} FirstWhereShift(prefix: seq<string>, lines: seq<string>, from: nat, p: string -> bool)
    ensures FirstWhere(prefix + lines, |prefix| + from, p) ==
            match FirstWhere(lines, from, p)
            case None => None
            case Some(k) => Some(|prefix| + k)
    decreases |lines| - from
  {
    if from < |lines| {
      assert (prefix + lines)[|prefix| + from] == lines[from];
      if !p(lines[from]) { FirstWhereShift(prefix, lines, from + 1, p); }
    }
  }

  /** A search that meets no match before `to` may as well start there. */
  lemma {:induction false} FirstWhereSkip(lines: seq<string>, from: nat, to: nat, p: string -> bool)
    requires from <= to <= |lines|
    requires forall k :: from <= k < to ==> !p(lines[k])
    ensures FirstWhere(lines, from, p) == FirstWhere(lines, to, p)
    decreases |lines| - from
  {
    if from < to { FirstWhereSkip(lines, from + 1, to, p); }
  }

  /** One step of the search: the line at `from` either matches or is skipped. */
  lemma FirstWhereStep(lines: seq<string>, from: nat, p: string -> bool)
    requires from < |lines|
    ensures FirstWhere(lines, from, p) == if p(lines[from]) then Some(from) else FirstWhere(lines, from + 1, p)
  {
  }

  lemma SliceExtend<T>(s: seq<T>, a: nat, b: nat)
    requires a <= b < |s|
    ensures s[a..b + 1] == s[a..b] + [s[b]]
  {
  }

  /** The section found once the first opening line at `start` is closed at `stop`. */
  lemma SectionOfClosed(lines: seq<string>, opens: string -> bool, closes: string -> bool, start: nat, stop: nat)
    requires FirstWhere(lines, 0, opens) == Some(start)
    requires FirstWhere(lines, start + 1, closes) == Some(stop)
    ensures SectionOf(lines, opens, closes) == Some(Strip(Join(lines[start..stop])))
  {
  }

  /** No section when no line opens one, or when the opened one is never closed. */
  lemma SectionOfMissing(lines: seq<string>, opens: string -> bool, closes: string -> bool, start: nat)
    requires FirstWhere(lines, 0, opens).None? ||
      (FirstWhere(lines, 0, opens) == Some(start) && FirstWhere(lines, start + 1, closes).None?)
    ensures SectionOf(lines, opens, closes).None?
  {
  }

  /** The loop of `getContentOfAnnualReports`, over its two line tests: once a
      line passes `opens`, every line is collected until one passes `closes`. */
  method ScanSection(lines: seq<string>, opens: string -> bool, closes: string -> bool) returns (section: Option<string>)
    ensures section == SectionOf(lines, opens, closes)
  {
    var collected: seq<string> := [];
    var inSection := false;
    ghost var start: nat := 0;
    for i := 0 to |lines|
      invariant !inSection ==> collected == [] && FirstWhere(lines, 0, opens) == FirstWhere(lines, i, opens)
      invariant inSection ==> start < i && FirstWhere(lines, 0, opens) == Some(start)
      invariant inSection ==> collected == lines[start..i]
      invariant inSection ==> FirstWhere(lines, start + 1, closes) == FirstWhere(lines, i, closes)
    {
      FirstWhereStep(lines, i, opens);
      FirstWhereStep(lines, i, closes);
      if inSection && closes(lines[i]) {
        SectionOfClosed(lines, opens, closes, start, i);
        return Some(Strip(Join(collected)));
      }
      if !inSection && opens(lines[i]) {
        inSection := true;
        start := i;
      }
      if inSection {
        SliceExtend(lines, start, i);
        collected := collected + [lines[i]];
      }
    }
    SectionOfMissing(lines, opens, closes, start);
    section := None;
  }

  /** `getContentOfAnnualReports`: the scan with the two heading tests, each made
      on the line with its whitespace removed. */
  method ContentOfAnnualReports(lines: seq<string>) returns (section: Option<string>)
    ensures section == ExtractedSection(lines)
  {
    section := ScanSection(lines, IsTargetLine, IsHeadingLine);
  }
}
