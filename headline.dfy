/** Stage 2 of the company extractor: guess the company from the headline
    text ("Software Engineer at Acme || ..."), exactly as the scraper's
    string splitting does it, quirks included. */
module Headline {
  import opened Text

  /** Keeps only the first employer of a multi-employer headline: the text
      before the first " || ", else before the first " | ". */
  function TruncateHeadline(h: string): (t: string)
    ensures StartsWith(h, t)
  {
    if Contains(h, " || ") then
      SplitFirstPiece(h, " || ");
      Split(h, " || ")[0]
    else if Contains(h, " | ") then
      SplitFirstPiece(h, " | ");
      Split(h, " | ")[0]
    else h
  }

  /** The suffix clean-up of the " at " and " @ " branches: a company ending
      in " ||" or " |" loses its last three characters (also for the
      two-character " |") and is trimmed again. */
  function CleanSuffix(c: string): (r: string)
    ensures |r| <= |c|
    ensures !(EndsWith(c, " ||") || EndsWith(c, " |")) ==> r == c
    ensures IsStripped(c) ==> IsStripped(r)
  {
    if EndsWith(c, " ||") || EndsWith(c, " |") then Strip(DropLast(c, 3)) else c
  }

  /** The company of the " at " and " @ " branches: the last piece of the
      split, trimmed and cleaned. */
  function CompanyAfterSeparator(t: string, sep: string): (c: string)
    requires |sep| > 0
    ensures IsStripped(c)
  {
    CleanSuffix(Strip(Last(Split(t, sep))))
  }

  /** The separators the job-title branch tries, in order. */
  const JobTitleSeparators: seq<string> := [" @ ", " at ", " - "]

  /** The job-title test is case-sensitive: each keyword starts with a
      capital, so a headline written all in small letters never passes it. */
  predicate MentionsJobTitle(t: string)
    ensures MentionsJobTitle(t) ==> |t| >= 6
    ensures Lower(t) == t ==> !MentionsJobTitle(t)
  {
    NoCapitalKeywords(t);
    Contains(t, "Intern") || Contains(t, "Developer") || Contains(t, "Engineer")
  }

  lemma NoCapitalKeywords(t: string)
    ensures Lower(t) == t ==>
      !Contains(t, "Intern") && !Contains(t, "Developer") && !Contains(t, "Engineer")
  {
    if Lower(t) == t {
      forall c | c in t ensures !IsAsciiUpper(c) {
        var k :| 0 <= k < |t| && t[k] == c;
        assert Lower(t)[k] == c;
      }
      NoneByChar(t, "Intern", 0);
      NoneByChar(t, "Developer", 0);
      NoneByChar(t, "Engineer", 0);
    }
  }

  /** The text after a separator, cut at the first " ||", then at the first
      " |", trimmed. */
  function LeadingCompany(rest: string): (c: string)
    ensures IsStripped(c)
  {
    Strip(Split(Split(rest, " ||")[0], " |")[0])
  }

  /** The job-title branch's loop over the separators from index `i` on: the
      first separator that occurs and leaves a non-empty company wins. */
  function SeparatorCompany(t: string, i: nat): (c: string)
    decreases |JobTitleSeparators| - i
    ensures IsStripped(c)
    ensures c != "" ==>
      exists j | i <= j < |JobTitleSeparators| :: Contains(t, JobTitleSeparators[j])
  {
    if i >= |JobTitleSeparators| then ""
    else
      var sep := JobTitleSeparators[i];
      if Contains(t, sep) then
        var c := LeadingCompany(SplitOnce(t, sep)[1]);
        if c != "" then c else SeparatorCompany(t, i + 1)
      else SeparatorCompany(t, i + 1)
  }

  /** The headline fallback: the company named by the (non-empty) headline,
      or "" when none can be found. */
  function CompanyFromHeadline(h: string): (c: string)
    ensures IsStripped(c)
    ensures c != "" ==>
      exists j | 0 <= j < |JobTitleSeparators| ::
        Contains(TruncateHeadline(h), JobTitleSeparators[j])
  {
    var t := TruncateHeadline(h);
    if Contains(t, " at ") then
      assert JobTitleSeparators[1] == " at ";
      CompanyAfterSeparator(t, " at ")
    else if Contains(t, " @ ") then
      assert JobTitleSeparators[0] == " @ ";
      CompanyAfterSeparator(t, " @ ")
    else if MentionsJobTitle(t) then SeparatorCompany(t, 0)
    else ""
  }

  // ---------------------------------------------------------------------
  // Truncation

  /** The truncated headline is the prefix before the first " || " when
      there is one, else the prefix before the first " | ", else the whole
      headline. */
  lemma TruncateKeepsFirstPart(h: string)
    ensures var t := TruncateHeadline(h);
      && StartsWith(h, t)
      && (Contains(h, " || ") ==> Find(h, " || ") == Some(|t|))
      && (!Contains(h, " || ") && Contains(h, " | ") ==> Find(h, " | ") == Some(|t|))
      && (!Contains(h, " || ") && !Contains(h, " | ") ==> t == h)
  {
    if Contains(h, " || ") {
      SplitFirstPiece(h, " || ");
    } else if Contains(h, " | ") {
      SplitFirstPiece(h, " | ");
    }
  }

  // ---------------------------------------------------------------------
  // The " at " and " @ " branches

  /** With " at " in the truncated headline, the company is the cleaned text
      after its last occurrence (when that occurrence does not overlap an
      earlier one). */
  lemma AtTakesTextAfterLastOccurrence(h: string, k: nat)
    requires OccursAt(TruncateHeadline(h), " at ", k)
    requires forall j | k < j :: !OccursAt(TruncateHeadline(h), " at ", j)
    requires forall j | k - 4 < j < k :: !OccursAt(TruncateHeadline(h), " at ", j)
    ensures CompanyFromHeadline(h) == CleanSuffix(Strip(TruncateHeadline(h)[k + 4..]))
  {
    var t := TruncateHeadline(h);
    assert Contains(t, " at ");
    SplitLastAfterLastOccurrence(t, " at ", k);
  }

  /** " @ " is consulted only when " at " is absent, with the same rule. */
  lemma AtSignOnlyWithoutAt(h: string, k: nat)
    requires !Contains(TruncateHeadline(h), " at ")
    requires OccursAt(TruncateHeadline(h), " @ ", k)
    requires forall j | k < j :: !OccursAt(TruncateHeadline(h), " @ ", j)
    requires forall j | k - 3 < j < k :: !OccursAt(TruncateHeadline(h), " @ ", j)
    ensures CompanyFromHeadline(h) == CleanSuffix(Strip(TruncateHeadline(h)[k + 3..]))
  {
    var t := TruncateHeadline(h);
    assert Contains(t, " @ ");
    SplitLastAfterLastOccurrence(t, " @ ", k);
  }

  /** The clean-up removes exactly three characters whenever it fires, and
      what it returns is a piece of its input. */
  lemma CleanSuffixDropsThree(c: string)
    ensures (EndsWith(c, " |") || EndsWith(c, " ||")) && |c| >= 3 ==>
      CleanSuffix(c) == Strip(c[..|c| - 3])
    ensures (EndsWith(c, " |") || EndsWith(c, " ||")) && |c| < 3 ==> CleanSuffix(c) == ""
    ensures Contains(c, CleanSuffix(c))
  {
    if EndsWith(c, " ||") || EndsWith(c, " |") {
      var d := DropLast(c, 3);
      StripContained(d);
      assert OccursAt(c, d, 0);
      ContainsTrans(c, d, Strip(d));
    } else {
      assert OccursAt(c, c, 0);
    }
  }

  // ---------------------------------------------------------------------
  // The job-title branch

  /** Without " at " and " @ ", a company is found only when the headline
      names a job title and has a " - "; it is then the text after the first
      " - ", cut at " ||" and " |" and trimmed. Otherwise there is none. */
  lemma {:induction false} JobTitleBranch(h: string)
    requires !Contains(TruncateHeadline(h), " at ")
    requires !Contains(TruncateHeadline(h), " @ ")
    ensures var t := TruncateHeadline(h);
      CompanyFromHeadline(h) ==
        if MentionsJobTitle(t) && Contains(t, " - ")
        then LeadingCompany(SplitOnce(t, " - ")[1])
        else ""
  {
    var t := TruncateHeadline(h);
    if MentionsJobTitle(t) {
      assert SeparatorCompany(t, 0) == SeparatorCompany(t, 1) == SeparatorCompany(t, 2);
      assert SeparatorCompany(t, 3) == "";
    }
  }

  /** What the job-title branch returns contains no " |" and comes from the
      text after the separator. */
  lemma LeadingCompanyShape(rest: string)
    ensures !Contains(LeadingCompany(rest), " |")
    ensures Contains(rest, LeadingCompany(rest))
  {
    var p1 := Split(rest, " ||")[0];
    var p2 := Split(p1, " |")[0];
    var c := Strip(p2);
    SplitPiecesContained(rest, " ||");
    SplitPiecesContained(p1, " |");
    SplitPiecesFree(p1, " |");
    StripContained(p2);
    ContainsTrans(rest, p1, p2);
    ContainsTrans(rest, p2, c);
    if Contains(c, " |") {
      ContainsTrans(p2, c, " |");
      assert false;
    }
  }

  /** The company named by a headline is always a piece of that headline. */
  lemma CompanyIsPieceOfHeadline(h: string)
    ensures Contains(h, CompanyFromHeadline(h))
  {
    var t := TruncateHeadline(h);
    assert OccursAt(h, t, 0);
    var r := CompanyFromHeadline(h);
    if Contains(t, " at ") || Contains(t, " @ ") {
      var sep := if Contains(t, " at ") then " at " else " @ ";
      var parts := Split(t, sep);
      var c := Strip(Last(parts));
      SplitPiecesContained(t, sep);
      StripContained(Last(parts));
      CleanSuffixDropsThree(c);
      ContainsTrans(t, Last(parts), c);
      ContainsTrans(t, c, r);
    } else if MentionsJobTitle(t) && Contains(t, " - ") {
      JobTitleBranch(h);
      var i := Find(t, " - ").value;
      var rest := SplitOnce(t, " - ")[1];
      assert rest == t[i + 3..];
      ContainsSuffix(t, i + 3);
      LeadingCompanyShape(rest);
      ContainsTrans(t, rest, r);
    } else {
      if MentionsJobTitle(t) {
        JobTitleBranch(h);
      }
      ContainsEmpty(t);
    }
    ContainsTrans(h, t, r);
  }
}
