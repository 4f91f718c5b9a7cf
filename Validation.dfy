/** The Q/A validator `is_valid_qa` (main.py:81-97): two length minimums, the
    moderation markers, and a question indicator in the title. */
module Validation {
  import opened Text

  const MinTitleLength: nat := 20
  const MinCommentLength: nat := 50

  /** The substrings searched for in the lower-cased title, in the source's order. */
  const QuestionIndicators: seq<string> := ["?", "how", "what", "why", "can", "should", "help", "advice"]

  /** Reddit's placeholder for a post or comment that moderators or its author took down. */
  predicate IsRemovedOrDeleted(s: string) {
    Contains(s, "[removed]") || Contains(s, "[deleted]")
  }

  /** Some question indicator occurs, at some position, in the lower-cased title. */
  ghost predicate HasQuestionIndicator(title: string) {
    exists k, i :: 0 <= k < |QuestionIndicators| && OccursAt(Lower(title), QuestionIndicators[k], i)
  }

  function IsValidQa(title: string, selftext: string, commentBody: string): (r: bool)
    ensures |title| < MinTitleLength ==> !r
    ensures |commentBody| < MinCommentLength ==> !r
    ensures IsRemovedOrDeleted(selftext) || IsRemovedOrDeleted(commentBody) ==> !r
  {
    if |title| < MinTitleLength || |commentBody| < MinCommentLength then false
    else if IsRemovedOrDeleted(selftext) then false
    else if IsRemovedOrDeleted(commentBody) then false
    else ContainsAny(Lower(title), QuestionIndicators)
  }

  /** The validator accepts exactly the pairs that pass all three guards, the
      third read as an occurrence of an indicator at some position. */
  lemma IsValidQaIff(title: string, selftext: string, commentBody: string)
    ensures IsValidQa(title, selftext, commentBody) <==>
      |title| >= MinTitleLength && |commentBody| >= MinCommentLength
      && !IsRemovedOrDeleted(selftext) && !IsRemovedOrDeleted(commentBody)
      && HasQuestionIndicator(title)
  {
    var lowered := Lower(title);
    if ContainsAny(lowered, QuestionIndicators) {
      var k :| 0 <= k < |QuestionIndicators| && Contains(lowered, QuestionIndicators[k]);
      ContainsIff(lowered, QuestionIndicators[k]);
      var i :| OccursAt(lowered, QuestionIndicators[k], i);
      assert HasQuestionIndicator(title);
    }
    if HasQuestionIndicator(title) {
      var k, i :| 0 <= k < |QuestionIndicators| && OccursAt(lowered, QuestionIndicators[k], i);
      OccursContains(lowered, QuestionIndicators[k], i);
      assert ContainsAny(lowered, QuestionIndicators);
    }
  }

  /** Lower-casing leaves lower-cased text as it is. */
  lemma LowerIdempotent(s: string)
    ensures Lower(Lower(s)) == Lower(s)
  {
    var l := Lower(s);
    forall i | 0 <= i < |s| ensures Lower(l)[i] == l[i] {
      assert l[i] == LowerChar(s[i]);
    }
  }

  /** The title is searched case-insensitively, so its case never matters. */
  lemma TitleCaseIgnored(title: string, selftext: string, commentBody: string)
    ensures IsValidQa(Lower(title), selftext, commentBody) == IsValidQa(title, selftext, commentBody)
  {
    LowerIdempotent(title);
  }

  /** A question mark anywhere in a long enough title makes it a question. */
  lemma QuestionMarkSuffices(title: string, selftext: string, commentBody: string, i: int)
    requires 0 <= i < |title| && title[i] == '?'
    requires |title| >= MinTitleLength && |commentBody| >= MinCommentLength
    requires !IsRemovedOrDeleted(selftext) && !IsRemovedOrDeleted(commentBody)
    ensures IsValidQa(title, selftext, commentBody)
  {
    var lowered := Lower(title);
    assert lowered[i..i + 1] == QuestionIndicators[0];
    assert OccursAt(lowered, QuestionIndicators[0], i);
    IsValidQaIff(title, selftext, commentBody);
  }
}
