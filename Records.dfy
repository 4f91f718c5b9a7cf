/** Posts, comments and the record `extract_qa_pair` builds from them (main.py:118-149). */
module Records {
  import opened Wrappers
  import opened Text
  import opened Cleaning
  import opened Classification

  /** The fields of a Reddit submission that the scraper reads. `subreddit` and
      `createdUtc` are the strings that `str(post.subreddit)` and the ISO-8601
      rendering of `post.created_utc` give. */
  datatype Post = Post(
    id: string,
    title: string,
    selftext: string,
    stickied: bool,
    numComments: int,
    subreddit: string,
    createdUtc: string,
    permalink: string)

  /** A comment; `body` is absent for the "load more comments" placeholder,
      which has no `body` attribute. */
  datatype Comment = Comment(id: string, body: Option<string>, score: int)

  datatype Metadata = Metadata(topicOrIssue: string, complexityLevel: Complexity, modalitySpecificTag: Tag)

  datatype More = More(subreddit: string, source: string, createdUtc: string, url: string)

  datatype QaRecord = QaRecord(
    questionId: string,
    therapeuticModality: Modality,
    questionText: string,
    answerText: string,
    metadata: Metadata,
    more: More)

  /** `f"{post_id}_{comment_id}"`. */
  function QuestionId(postId: string, commentId: string): (r: string)
    ensures |r| == |postId| + 1 + |commentId|
    ensures r[..|postId|] == postId && r[|postId|] == '_' && r[|postId| + 1..] == commentId
  {
    postId + "_" + commentId
  }

  /** The position of the first `_` in `s`. */
  function FirstUnderscore(s: string): (r: Option<nat>)
    ensures r.Some? ==> r.value < |s| && s[r.value] == '_' && '_' !in s[..r.value]
    ensures r.None? ==> '_' !in s
  {
    if |s| == 0 then None
    else if s[0] == '_' then Some(0)
    else
      match FirstUnderscore(s[1..])
      case None => None
      case Some(k) => Some(k + 1)
  }

  /** Splits an identifier at its first `_`. */
  function SplitQuestionId(id: string): (r: Option<(string, string)>)
    ensures r.Some? ==> QuestionId(r.value.0, r.value.1) == id && '_' !in r.value.0
  {
    match FirstUnderscore(id)
    case None => None
    case Some(k) =>
      assert id == id[..k] + "_" + id[k + 1..];
      Some((id[..k], id[k + 1..]))
  }

  /** Reddit's base-36 post ids hold no `_`, so the identifier gives back both ids. */
  lemma SplitQuestionIdRoundTrip(postId: string, commentId: string)
    requires '_' !in postId
    ensures SplitQuestionId(QuestionId(postId, commentId)) == Some((postId, commentId))
  {
    var id := QuestionId(postId, commentId);
    var k := FirstUnderscore(id);
    assert id[..|postId|] == postId;
    assert k.Some? && k.value == |postId| by {
      assert id[|postId|] == '_';
    }
  }

  /** Different pairs of ids give different identifiers. */
  lemma QuestionIdInjective(p: string, c: string, p': string, c': string)
    requires '_' !in p && '_' !in p'
    requires QuestionId(p, c) == QuestionId(p', c')
    ensures p == p' && c == c'
  {
    SplitQuestionIdRoundTrip(p, c);
    SplitQuestionIdRoundTrip(p', c');
  }

  /** The question before cleaning: the title, and the self text after a blank line when there is one. */
  function QuestionSource(post: Post): (r: string)
    ensures post.selftext == [] ==> r == post.title
    ensures post.selftext != [] ==>
      |r| == |post.title| + 2 + |post.selftext| && r[..|post.title|] == post.title
      && r[|post.title|..|post.title| + 2] == "\n\n" && r[|post.title| + 2..] == post.selftext
  {
    if post.selftext != [] then post.title + "\n\n" + post.selftext else post.title
  }

  /** The blank line keeps the last word of the title apart from the first word
      of the self text: the question's words are the title's, then the self text's. */
  lemma QuestionSourceWords(post: Post)
    ensures Words(QuestionSource(post)) == Words(post.title) + Words(post.selftext)
  {
    if post.selftext != [] {
      var rest := "\n" + post.selftext;
      assert QuestionSource(post) == post.title + ['\n'] + rest;
      WordsSplitAtSpace(post.title, '\n', rest);
      assert rest[1..] == post.selftext;
    } else {
      assert Words(post.title) + [] == Words(post.title);
    }
  }

  const SourceName: string := "reddit"
  const PermalinkBase: string := "https://reddit.com"

  function ExtractQaPair(post: Post, comment: Comment): (r: QaRecord)
    requires comment.body.Some?
    ensures r.questionId == QuestionId(post.id, comment.id)
    ensures r.questionText == CleanText(QuestionSource(post)) && r.answerText == CleanText(comment.body.value)
    ensures IsClean(r.questionText) && IsClean(r.answerText)
    ensures |r.questionText| <= |QuestionSource(post)| && |r.answerText| <= |comment.body.value|
    ensures r.therapeuticModality == TherapeuticModality(r.questionText, r.answerText)
    ensures r.metadata.complexityLevel == AssessComplexity(r.questionText, r.answerText)
    ensures r.metadata.modalitySpecificTag == ModalitySpecificTag(r.questionText, r.answerText)
    ensures r.metadata.topicOrIssue == post.subreddit && r.more.subreddit == post.subreddit
    ensures r.more.source == "reddit" && r.more.createdUtc == post.createdUtc
    ensures r.more.url == "https://reddit.com" + post.permalink
  {
    var questionText := CleanText(QuestionSource(post));
    var answerText := CleanText(comment.body.value);
    QaRecord(
      QuestionId(post.id, comment.id),
      TherapeuticModality(questionText, answerText),
      questionText,
      answerText,
      Metadata(post.subreddit, AssessComplexity(questionText, answerText), ModalitySpecificTag(questionText, answerText)),
      More(post.subreddit, SourceName, post.createdUtc, PermalinkBase + post.permalink))
  }

  /** The stored texts carry no URL scheme and no markdown link syntax. */
  lemma RecordTextsHaveNoUrl(post: Post, comment: Comment)
    requires comment.body.Some?
    ensures !Contains(ExtractQaPair(post, comment).questionText, "://")
    ensures !Contains(ExtractQaPair(post, comment).questionText, "](")
    ensures !Contains(ExtractQaPair(post, comment).answerText, "://")
    ensures !Contains(ExtractQaPair(post, comment).answerText, "](")
  {
    var r := ExtractQaPair(post, comment);
    CleanHasNoUrl(r.questionText);
    CleanHasNoUrl(r.answerText);
  }

  /** A record with a recognised modality would also be categorized under
      `therapy_types`; the categories are computed but not stored. */
  lemma RecordModalityImpliesTherapyCategory(post: Post, comment: Comment)
    requires comment.body.Some?
    requires ExtractQaPair(post, comment).therapeuticModality != Unknown
    ensures "therapy_types" in MatchingCategories(CategoryTable,
      Lower(ExtractQaPair(post, comment).questionText + " " + ExtractQaPair(post, comment).answerText))
  {
    var r := ExtractQaPair(post, comment);
    ModalityImpliesTherapyCategory(r.questionText, r.answerText);
  }
}
