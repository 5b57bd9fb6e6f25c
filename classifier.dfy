/**
 The requirement classifier (`classifyRequirements`): five yes/no flags, one per
 kind of annual-report requirement, each raised when some requirement mentions
 one of that kind's keywords, ignoring case.
 */
module Classifier {
  import opened Text

  datatype Category = Budget | Attendance | AuditedFinancials | AssessedValuation | TopTaxpayers

  /** The dictionary key reporting each category. */
  function Key(c: Category): string {
    match c
    case Budget => "budget"
    case Attendance => "attendance"
    case AuditedFinancials => "audited financial statements"
    case AssessedValuation => "assessed valuation"
    case TopTaxpayers => "top taxpayers"
  }

  /** Distinct categories are reported under distinct keys. */
  lemma KeysAreDistinct(c: Category, d: Category)
    ensures Key(c) == Key(d) <==> c == d
  {
    if c != d {
      assert |Key(c)| != |Key(d)|;
    }
  }

  /** The dictionary `classifyRequirements` builds: its five keys are fixed, so
      it is a record with one flag per key. */
  datatype Flags = Flags(budget: bool, attendance: bool, auditedFinancials: bool,
                         assessedValuation: bool, topTaxpayers: bool)
  {
    /** The entry under `Key(c)`. */
    function Get(c: Category): bool {
      match c
      case Budget => budget
      case Attendance => attendance
      case AuditedFinancials => auditedFinancials
      case AssessedValuation => assessedValuation
      case TopTaxpayers => topTaxpayers
    }
  }

  /** The words searched for each category, in lower case: an alternation
      `a|b` lists both of its words. */
  function Keywords(c: Category): seq<string> {
    match c
    case Budget => ["budget"]
    case Attendance => ["attendance", "enrollment"]
    case AuditedFinancials => ["audited financial statements"]
    case AssessedValuation => ["assessed valuation"]
    case TopTaxpayers => ["tax payers", "taxpayers"]
  }

  /** The requirement mentions the category: the case-insensitive search of the
      category's pattern, an alternation being a search for either word. */
  predicate Mentions(req: string, c: Category): (b: bool)
    ensures b <==> exists w :: w in Keywords(c) && Occurs(LowerStr(req), w)
  {
    match c
    case Budget => ContainsIgnoreCase(req, "budget")
    case Attendance => ContainsIgnoreCase(req, "attendance") || ContainsIgnoreCase(req, "enrollment")
    case AuditedFinancials => ContainsIgnoreCase(req, "audited financial statements")
    case AssessedValuation => ContainsIgnoreCase(req, "assessed valuation")
    case TopTaxpayers => ContainsIgnoreCase(req, "tax payers") || ContainsIgnoreCase(req, "taxpayers")
  }

  /** The flag for `c` after the first `n` requirements have been seen in order,
      with `mentions` deciding whether a requirement mentions a category: raised by
      the first requirement that mentions it, never lowered again. */
  function FlagAfter(reqs: seq<string>, n: nat, c: Category, mentions: (string, Category) -> bool): bool
    requires n <= |reqs|
  {
    if n == 0 then false else FlagAfter(reqs, n - 1, c, mentions) || mentions(reqs[n - 1], c)
  }

  /** The flag is raised exactly when one of the first `n` requirements mentions
      the category. */
  lemma {:induction false} FlagMeaning(reqs: seq<string>, n: nat, c: Category, mentions: (string, Category) -> bool)
    requires n <= |reqs|
    ensures FlagAfter(reqs, n, c, mentions) <==> exists k :: 0 <= k < n && mentions(reqs[k], c)
  {
    if n > 0 {
      FlagMeaning(reqs, n - 1, c, mentions);
    }
  }

  /** A flag once raised stays raised whatever requirements follow. */
  lemma {:induction false} FlagMonotone(reqs: seq<string>, m: nat, n: nat, c: Category, mentions: (string, Category) -> bool)
    requires m <= n <= |reqs|
    ensures FlagAfter(reqs, m, c, mentions) ==> FlagAfter(reqs, n, c, mentions)
    decreases n - m
  {
    if m < n {
      FlagMonotone(reqs, m, n - 1, c, mentions);
    }
  }

  /** The dictionary after the first `n` requirements. */
  function FlagsAfter(reqs: seq<string>, n: nat, mentions: (string, Category) -> bool): Flags
    requires n <= |reqs|
  {
    Flags(FlagAfter(reqs, n, Budget, mentions), FlagAfter(reqs, n, Attendance, mentions),
          FlagAfter(reqs, n, AuditedFinancials, mentions), FlagAfter(reqs, n, AssessedValuation, mentions),
          FlagAfter(reqs, n, TopTaxpayers, mentions))
  }

  /** The dictionary `classifyRequirements` returns. */
  function Classification(reqs: seq<string>): Flags {
    FlagsAfter(reqs, |reqs|, Mentions)
  }

  /** Each entry of the result reports whether some requirement mentions its
      category. */
  lemma ClassificationReports(reqs: seq<string>, c: Category)
    ensures Classification(reqs).Get(c) <==> exists r :: r in reqs && Mentions(r, c)
  {
    FlagMeaning(reqs, |reqs|, c, Mentions);
    if exists r :: r in reqs && Mentions(r, c) {
      var r :| r in reqs && Mentions(r, c);
      var k :| 0 <= k < |reqs| && reqs[k] == r;
    }
  }

  /** With no requirements every flag is false. */
  lemma NoRequirementsNoFlags(c: Category)
    ensures !Classification([]).Get(c)
  {
  }

  /** Only which requirements occur matters: not their order, not repetitions. */
  lemma ClassificationIgnoresOrder(a: seq<string>, b: seq<string>, c: Category)
    requires forall r :: r in a <==> r in b
    ensures Classification(a).Get(c) == Classification(b).Get(c)
  {
    ClassificationReports(a, c);
    ClassificationReports(b, c);
  }

  /** The loop of `classifyRequirements`: start with every flag false and, for
      each requirement in turn, raise the flags of the categories it mentions. */
  method RaiseFlags(reqs: seq<string>, mentions: (string, Category) -> bool) returns (flags: Flags)
    ensures flags == FlagsAfter(reqs, |reqs|, mentions)
  {
    flags := Flags(false, false, false, false, false);
    for i := 0 to |reqs|
      invariant flags == FlagsAfter(reqs, i, mentions)
    {
      var req := reqs[i];
      if mentions(req, Budget) {
        flags := flags.(budget := true);
      }
      if mentions(req, Attendance) {
        flags := flags.(attendance := true);
      }
      if mentions(req, AuditedFinancials) {
        flags := flags.(auditedFinancials := true);
      }
      if mentions(req, AssessedValuation) {
        flags := flags.(assessedValuation := true);
      }
      if mentions(req, TopTaxpayers) {
        flags := flags.(topTaxpayers := true);
      }
    }
  }

  /** `classifyRequirements`: the loop with the five case-insensitive searches. */
  method ClassifyRequirements(reqs: seq<string>) returns (flags: Flags)
    ensures flags == Classification(reqs)
  {
    flags := RaiseFlags(reqs, Mentions);
  }
}
