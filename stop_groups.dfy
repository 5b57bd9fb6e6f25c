/**
 The stop-group test (`isStopGroup`): a group of the "Content of Annual
 Reports" section that is boilerplate about the other groups rather than a
 requirement of its own. All three tests ignore case.
 */
module StopGroups {
  import opened Text

  const AdditionalInformation := "in addition to any of the information expressly required"
  const ItemsListedAbove := "any or all of the items listed above"
  const ExtentLead := "to the extent not "
  const ExtentTail := " in the audited financial statements"

  /** `to the extent not .{n} in the audited financial statements` occurs in
      `t` at index `i`; the `n` characters in between are anything but a line feed
      (what `.` matches). */
  predicate ExtentClauseAt(t: string, i: nat, n: nat) {
    OccursAt(t, ExtentLead, i) &&
    (forall k :: i + |ExtentLead| <= k < i + |ExtentLead| + n <= |t| ==> t[k] != '\n') &&
    OccursAt(t, ExtentTail, i + |ExtentLead| + n)
  }

  lemma ExtentClauseShift(t: string, i: nat, n: nat)
    requires t != []
    ensures ExtentClauseAt(t[1..], i, n) <==> ExtentClauseAt(t, i + 1, n)
  {
    OccursAtShift(t, ExtentLead, i);
    OccursAtShift(t, ExtentTail, i + |ExtentLead| + n);
    if OccursAt(t, ExtentTail, i + 1 + |ExtentLead| + n) {
      forall k | i + |ExtentLead| <= k < i + |ExtentLead| + n
        ensures t[1..][k] == t[k + 1]
      {
      }
    }
  }

  /** `re.search("to the extent not .{2,10} in the audited financial statements", t)`:
      scans `t` left to right, trying every gap width at each position. */
  function HasExtentClause(t: string): (b: bool)
    ensures b <==> exists i: nat, n: nat :: 2 <= n <= 10 && ExtentClauseAt(t, i, n)
    decreases |t|
  {
    if exists n: nat | 2 <= n <= 10 :: ExtentClauseAt(t, 0, n) then
      true
    else if t == [] then
      assert forall i: nat, n: nat :: !ExtentClauseAt(t, i, n);
      false
    else
      var b := HasExtentClause(t[1..]);
      assert b <==> exists i: nat, n: nat :: 2 <= n <= 10 && ExtentClauseAt(t, i, n) by {
        forall i: nat, n: nat ensures ExtentClauseAt(t[1..], i, n) <==> ExtentClauseAt(t, i + 1, n) {
          ExtentClauseShift(t, i, n);
        }
        if !b {
          forall i: nat, n: nat | 2 <= n <= 10 ensures !ExtentClauseAt(t, i, n) {
            if i > 0 { assert !ExtentClauseAt(t[1..], i - 1, n); }
          }
        }
      }
      b
  }

  /** `isStopGroup`: the three case-insensitive searches, in the source's order.
      A group is a stop group exactly when, ignoring case, it contains one of the
      two boilerplate sentences or the "to the extent not ... in the audited
      financial statements" clause with 2 to 10 characters in its gap. */
  predicate IsStopGroup(group: string): (b: bool)
    ensures b <==> StopGroupText(LowerStr(group))
  {
    var t := LowerStr(group);
    if Contains(t, AdditionalInformation) then true
    else if Contains(t, ItemsListedAbove) then true
    else if HasExtentClause(t) then true
    else false
  }

  /** The lower-cased text `t` holds one of the three stop phrases somewhere. */
  ghost predicate StopGroupText(t: string) {
    || (exists i: nat :: OccursAt(t, AdditionalInformation, i))
    || (exists i: nat :: OccursAt(t, ItemsListedAbove, i))
    || (exists i: nat, n: nat :: 2 <= n <= 10 && ExtentClauseAt(t, i, n))
  }
}
