/**
 The character classes and string operations the pipeline borrows from Python's
 `str` and `re`, restricted to ASCII: `\s` and `str.strip()` both use `IsSpace`,
 `(?i)` compares lower-cased text against lower-case literals.
 */
module Text {

  /** Python's `str.isspace()` on ASCII: tab, line feed, vertical tab, form feed,
      carriage return, the four separators 0x1C-0x1F and the space. */
  predicate IsSpace(c: char) {
    c == ' ' || '\t' <= c <= '\r' || '\U{1C}' <= c <= '\U{1F}'
  }

  predicate IsDigit(c: char) {
    '0' <= c <= '9'
  }

  predicate IsLetter(c: char) {
    'a' <= c <= 'z' || 'A' <= c <= 'Z'
  }

  /** True if every character of `s` is whitespace (also of the empty string). */
  predicate Blank(s: string) {
    forall k :: 0 <= k < |s| ==> IsSpace(s[k])
  }

  function Lower(c: char): (d: char)
    ensures !('A' <= d <= 'Z')
    ensures IsLetter(d) == IsLetter(c)
    ensures !IsLetter(c) ==> d == c
  {
    if 'A' <= c <= 'Z' then (c as int + 32) as char else c
  }

  function LowerStr(s: string): (r: string)
    ensures |r| == |s|
    ensures forall i :: 0 <= i < |s| ==> r[i] == Lower(s[i])
  {
    if s == [] then [] else [Lower(s[0])] + LowerStr(s[1..])
  }

  /** `re.sub('\s+', '', s)`: `s` with every whitespace character removed. */
  function RemoveWhitespace(s: string): (r: string)
    ensures |r| <= |s|
    ensures forall i :: 0 <= i < |r| ==> !IsSpace(r[i])
  {
    if s == [] then []
    else (if IsSpace(s[0]) then [] else [s[0]]) + RemoveWhitespace(s[1..])
  }

  lemma {:induction false} RemoveWhitespaceAppend(a: string, b: string)
    ensures RemoveWhitespace(a + b) == RemoveWhitespace(a) + RemoveWhitespace(b)
  {
    if a != [] {
      assert (a + b)[1..] == a[1..] + b;
      RemoveWhitespaceAppend(a[1..], b);
    } else {
      assert a + b == b;
    }
  }

  /** A single character is dropped if it is whitespace and kept otherwise;
      with `RemoveWhitespaceAppend` this fixes the result for every string. */
  lemma RemoveWhitespaceChar(c: char)
    ensures RemoveWhitespace([c]) == if IsSpace(c) then [] else [c]
  {
    assert [c][1..] == [];
  }

  /** Text without whitespace is left as it is. */
  lemma {:induction false} RemoveWhitespaceFixesSquashed(s: string)
    requires forall i :: 0 <= i < |s| ==> !IsSpace(s[i])
    ensures RemoveWhitespace(s) == s
  {
    if s != [] {
      RemoveWhitespaceFixesSquashed(s[1..]);
    }
  }

  /** Lower-casing and removing whitespace commute, since no letter is whitespace. */
  lemma {:induction false} LowerRemoveWhitespace(s: string)
    ensures LowerStr(RemoveWhitespace(s)) == RemoveWhitespace(LowerStr(s))
  {
    if s != [] {
      LowerRemoveWhitespace(s[1..]);
      assert LowerStr(s)[1..] == LowerStr(s[1..]);
      var head := if IsSpace(s[0]) then [] else [s[0]];
      LowerAppend(head, RemoveWhitespace(s[1..]));
    }
  }

  lemma {:induction false} LowerAppend(a: string, b: string)
    ensures LowerStr(a + b) == LowerStr(a) + LowerStr(b)
  {
    assert |LowerStr(a + b)| == |LowerStr(a) + LowerStr(b)|;
    forall i | 0 <= i < |a| + |b|
      ensures LowerStr(a + b)[i] == (LowerStr(a) + LowerStr(b))[i]
    {
      if i < |a| { assert (a + b)[i] == a[i]; } else { assert (a + b)[i] == b[i - |a|]; }
    }
  }

  /** Text without upper-case letters is its own lower-case form. */
  lemma LowerStrFixesLower(s: string)
    requires forall i :: 0 <= i < |s| ==> !('A' <= s[i] <= 'Z')
    ensures LowerStr(s) == s
  {
  }

  /** `''.join(parts)`. */
  function Join(parts: seq<string>): string {
    if parts == [] then "" else parts[0] + Join(parts[1..])
  }

  /** Joining two lists of parts is joining each and concatenating the results. */
  lemma {:induction false} JoinAppend(a: seq<string>, b: seq<string>)
    ensures Join(a + b) == Join(a) + Join(b)
  {
    if a == [] {
      assert a + b == b;
    } else {
      assert (a + b)[1..] == a[1..] + b;
      JoinAppend(a[1..], b);
    }
  }

  /** End of the whitespace run starting at `i`: the greedy `\s*`. */
  function SpaceRunEnd(s: string, i: nat): (k: nat)
    requires i <= |s|
    ensures i <= k <= |s|
    ensures forall j :: i <= j < k ==> IsSpace(s[j])
    ensures k == |s| || !IsSpace(s[k])
    decreases |s| - i
  {
    if i < |s| && IsSpace(s[i]) then SpaceRunEnd(s, i + 1) else i
  }

  /** Start of the whitespace run ending at `j`, going no further left than `lo`. */
  function SpaceRunStart(s: string, lo: nat, j: nat): (k: nat)
    requires lo <= j <= |s|
    ensures lo <= k <= j
    ensures forall m :: k <= m < j ==> IsSpace(s[m])
    ensures k == lo || !IsSpace(s[k - 1])
    decreases j
  {
    if lo < j && IsSpace(s[j - 1]) then SpaceRunStart(s, lo, j - 1) else j
  }

  /** `r` is a slice of `s` with only whitespace before and after it. */
  ghost predicate TrimmedFrom(s: string, r: string) {
    exists i :: 0 <= i <= |s| - |r| && Blank(s[..i]) && r == s[i..i + |r|] && Blank(s[i + |r|..])
  }

  /** `s.strip()`: `s` without its leading and trailing whitespace. */
  function Strip(s: string): (r: string)
    ensures r == [] || (!IsSpace(r[0]) && !IsSpace(r[|r| - 1]))
    ensures TrimmedFrom(s, r)
    ensures r == [] <==> Blank(s)
    ensures forall c :: c in r ==> c in s
  {
    var i := SpaceRunEnd(s, 0);
    var j := SpaceRunStart(s, i, |s|);
    StripSlice(s, i, j);
    s[i..j]
  }

  lemma StripSlice(s: string, i: nat, j: nat)
    requires i <= j <= |s|
    requires forall m :: 0 <= m < i ==> IsSpace(s[m])
    requires i == |s| || !IsSpace(s[i])
    requires forall m :: j <= m < |s| ==> IsSpace(s[m])
    requires j == i || !IsSpace(s[j - 1])
    ensures var r := s[i..j]; r == [] || (!IsSpace(r[0]) && !IsSpace(r[|r| - 1]))
    ensures TrimmedFrom(s, s[i..j])
    ensures s[i..j] == [] <==> Blank(s)
    ensures forall c :: c in s[i..j] ==> c in s
  {
    var r := s[i..j];
    assert Blank(s[..i]) && Blank(s[j..]);
    assert r == s[i..i + |r|];
    forall c | c in r ensures c in s {
      var k :| 0 <= k < |r| && r[k] == c;
      assert s[i + k] == c;
    }
    if r == [] {
      assert i == |s|;
    }
  }

  /** `pat` occurs in `text` at index `i`. */
  predicate OccursAt(text: string, pat: string, i: nat) {
    i + |pat| <= |text| && text[i..i + |pat|] == pat
  }

  lemma OccursAtShift(text: string, pat: string, i: nat)
    requires text != []
    ensures OccursAt(text[1..], pat, i) <==> OccursAt(text, pat, i + 1)
  {
    if i + 1 + |pat| <= |text| {
      assert text[1..][i..i + |pat|] == text[i + 1..i + 1 + |pat|];
    }
  }

  /** `pat` occurs somewhere in `text`. */
  ghost predicate Occurs(text: string, pat: string) {
    exists i: nat :: OccursAt(text, pat, i)
  }

  /** `re.search(pat, text)` for a literal `pat`: scans `text` left to right. */
  function Contains(text: string, pat: string): (b: bool)
    ensures b <==> Occurs(text, pat)
    decreases |text|
  {
    if |pat| > |text| then
      assert forall i: nat :: !OccursAt(text, pat, i);
      false
    else if text[..|pat|] == pat then
      assert OccursAt(text, pat, 0);
      true
    else
      assert |text| > 0;
      var b := Contains(text[1..], pat);
      assert b <==> exists i: nat :: OccursAt(text, pat, i) by {
        forall i: nat ensures OccursAt(text[1..], pat, i) <==> OccursAt(text, pat, i + 1) {
          OccursAtShift(text, pat, i);
        }
        if !b {
          forall i: nat ensures !OccursAt(text, pat, i) {
            if i > 0 { assert !OccursAt(text[1..], pat, i - 1); }
          }
        }
      }
      b
  }

  /** `re.search("(?i)" + pat, text)` for a literal `pat` written in lower case,
      as every case-insensitive literal of the pipeline is here. */
  predicate ContainsIgnoreCase(text: string, pat: string) {
    Contains(LowerStr(text), pat)
  }
}
