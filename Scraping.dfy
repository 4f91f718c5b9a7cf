/** The collection driver: `scrape_subreddit` and `scrape_all_subreddits`
    (main.py:178-249). Reddit is replaced by the listings it would serve. */
module Scraping {
  import opened Text
  import opened Validation
  import opened Records
  import opened Storage

  /** The forums the scraper visits, in order (main.py:50-53). */
  const SubredditNames: seq<string> := [
    "therapy", "mentalhealth", "TalkTherapy", "psychotherapy",
    "CBT", "DBT", "askatherapist", "therapeuticquestions"
  ]

  /** A comment must score strictly above this. */
  const MinCommentScore: int := 3

  /** A post and its top-level comments in score order, as served after
      `replace_more(limit=0)`. */
  datatype Thread = Thread(post: Post, comments: seq<Comment>)

  /** What one subreddit serves: its hot listing, its top listing of the past
      year and its new listing. */
  datatype Feed = Feed(hot: seq<Thread>, top: seq<Thread>, newest: seq<Thread>)

  datatype ListingKind = Hot | Top | New

  /** The order in which the listings are read. */
  const ListingKinds: seq<ListingKind> := [Hot, Top, New]

  function Listing(feed: Feed, kind: ListingKind): seq<Thread> {
    match kind
    case Hot => feed.hot
    case Top => feed.top
    case New => feed.newest
  }

  /** `post_limit // 3`: Python's floor division. */
  function ListingLimit(postLimit: int): (n: int)
    ensures 3 * n <= postLimit < 3 * n + 3
  {
    postLimit / 3
  }

  /** `target_count // len(self.subreddits)`. */
  function PairsPerSubreddit(targetCount: int): (n: int)
    ensures |SubredditNames| * n <= targetCount < |SubredditNames| * n + |SubredditNames|
  {
    targetCount / |SubredditNames|
  }

  /** A listing requested with `limit=n` serves its first `n` entries, and
      nothing when `n` is not positive. */
  function Take(threads: seq<Thread>, limit: int): (r: seq<Thread>)
    ensures limit <= 0 ==> r == []
    ensures 0 < limit ==> |r| == if limit < |threads| then limit else |threads|
    ensures r == threads[..|r|]
  {
    if limit <= 0 then [] else if limit < |threads| then threads[..limit] else threads
  }

  /** Posts whose comments are read: neither pinned nor without comments. */
  predicate Eligible(post: Post) {
    !post.stickied && post.numComments > 0
  }

  /** Comments that become records. */
  predicate Admitted(post: Post, comment: Comment) {
    comment.body.Some? && comment.score > MinCommentScore && |comment.body.value| >= MinCommentLength
    && IsValidQa(post.title, post.selftext, comment.body.value)
  }

  /** The records built from the admitted comments of `post`, in comment order. */
  function CommentPairs(post: Post, comments: seq<Comment>): seq<QaRecord>
    decreases |comments|
  {
    if comments == [] then []
    else
      var last := comments[|comments| - 1];
      CommentPairs(post, comments[..|comments| - 1])
        + (if Admitted(post, last) then [ExtractQaPair(post, last)] else [])
  }

  function ThreadPairs(thread: Thread): seq<QaRecord> {
    if Eligible(thread.post) then CommentPairs(thread.post, thread.comments) else []
  }

  /** The records built from a listing, thread after thread. */
  function ListingPairs(threads: seq<Thread>): seq<QaRecord>
    decreases |threads|
  {
    if threads == [] then []
    else ListingPairs(threads[..|threads| - 1]) + ThreadPairs(threads[|threads| - 1])
  }

  /** The records built from the first `k` listings, each cut to `limit` entries. */
  function KindsPairs(feed: Feed, limit: int, k: nat): seq<QaRecord>
    requires k <= |ListingKinds|
  {
    if k == 0 then []
    else KindsPairs(feed, limit, k - 1) + ListingPairs(Take(Listing(feed, ListingKinds[k - 1]), limit))
  }

  /** Everything `scrape_subreddit(name, post_limit)` returns when Reddit
      serves `feed`: the records of the hot, top and new listings, each cut to
      `post_limit // 3`, in that order. */
  function SubredditPairs(feed: Feed, postLimit: int): seq<QaRecord> {
    var limit := ListingLimit(postLimit);
    ListingPairs(Take(feed.hot, limit)) + ListingPairs(Take(feed.top, limit))
      + ListingPairs(Take(feed.newest, limit))
  }

  /** The records of the first `k` subreddits, each scraped with `postLimit`. */
  function RunPairs(feedOf: string -> Feed, postLimit: int, k: nat): seq<QaRecord>
    requires k <= |SubredditNames|
  {
    if k == 0 then []
    else RunPairs(feedOf, postLimit, k - 1) + SubredditPairs(feedOf(SubredditNames[k - 1]), postLimit)
  }

  // ---------------------------------------------------------------------------
  // One step of each loop.

  lemma CommentPairsStep(post: Post, comments: seq<Comment>, k: nat)
    requires k < |comments|
    ensures CommentPairs(post, comments[..k + 1]) == CommentPairs(post, comments[..k])
      + (if Admitted(post, comments[k]) then [ExtractQaPair(post, comments[k])] else [])
  {
    assert comments[..k + 1][..k] == comments[..k];
  }

  lemma KindsPairsStep(feed: Feed, limit: int, c: nat)
    requires c < |ListingKinds|
    ensures KindsPairs(feed, limit, c + 1)
      == KindsPairs(feed, limit, c) + ListingPairs(Take(Listing(feed, ListingKinds[c]), limit))
  {
  }

  lemma ListingPairsStep(threads: seq<Thread>, p: nat)
    requires p < |threads|
    ensures ListingPairs(threads[..p + 1]) == ListingPairs(threads[..p]) + ThreadPairs(threads[p])
  {
    assert threads[..p + 1][..p] == threads[..p];
  }

  /** One more subreddit, unfolded once; the callers' proofs stay cheaper with it. */
  lemma RunPairsStep(feedOf: string -> Feed, postLimit: int, i: nat)
    requires i < |SubredditNames|
    ensures RunPairs(feedOf, postLimit, i + 1)
      == RunPairs(feedOf, postLimit, i) + SubredditPairs(feedOf(SubredditNames[i]), postLimit)
  {
  }

  /** Regrouping the records appended in one step of a loop. Dafny knows this,
      but `ScrapeSubreddit` runs out of resource without the explicit step. */
  lemma AppendAssoc(a: seq<QaRecord>, b: seq<QaRecord>, c: seq<QaRecord>)
    ensures (a + b) + c == a + (b + c)
  {
  }

  // ---------------------------------------------------------------------------
  // What the driver admits.

  /** `comment` under `post` passes every filter and gives the record `r`. */
  predicate Yields(post: Post, comment: Comment, r: QaRecord) {
    Admitted(post, comment) && r == ExtractQaPair(post, comment)
  }

  /** Each record in the list was built from an admitted comment. */
  lemma {:induction false} CommentPairsSource(post: Post, comments: seq<Comment>, r: QaRecord) returns (k: nat)
    requires r in CommentPairs(post, comments)
    ensures k < |comments| && Yields(post, comments[k], r)
    decreases |comments|
  {
    var n := |comments| - 1;
    CommentPairsStep(post, comments, n);
    assert comments[..n + 1] == comments;
    if r in CommentPairs(post, comments[..n]) {
      k := CommentPairsSource(post, comments[..n], r);
      assert comments[..n][k] == comments[k];
    } else {
      k := n;
    }
  }

  /** Each admitted comment gives its record. */
  lemma {:induction false} CommentPairsComplete(post: Post, comments: seq<Comment>, k: nat)
    requires k < |comments| && Admitted(post, comments[k])
    ensures ExtractQaPair(post, comments[k]) in CommentPairs(post, comments)
    decreases |comments|
  {
    var n := |comments| - 1;
    CommentPairsStep(post, comments, n);
    assert comments[..n + 1] == comments;
    if k < n {
      assert comments[..n][k] == comments[k];
      CommentPairsComplete(post, comments[..n], k);
      assert ExtractQaPair(post, comments[k]) in CommentPairs(post, comments[..n]);
      assert ExtractQaPair(post, comments[k]) in CommentPairs(post, comments[..n + 1]);
    } else {
      var tail := if Admitted(post, comments[n]) then [ExtractQaPair(post, comments[n])] else [];
      assert tail == [ExtractQaPair(post, comments[n])];
      assert ExtractQaPair(post, comments[n]) in tail;
      assert ExtractQaPair(post, comments[n]) in CommentPairs(post, comments[..n + 1]);
    }
  }

  /** A comment gives a record exactly when it is admitted, and the record is
      the one built from it. */
  lemma CommentPairsIff(post: Post, comments: seq<Comment>, r: QaRecord)
    ensures r in CommentPairs(post, comments) <==> exists k :: 0 <= k < |comments| && Yields(post, comments[k], r)
  {
    if r in CommentPairs(post, comments) {
      var k := CommentPairsSource(post, comments, r);
    }
    if exists k :: 0 <= k < |comments| && Yields(post, comments[k], r) {
      var k :| 0 <= k < |comments| && Yields(post, comments[k], r);
      CommentPairsComplete(post, comments, k);
    }
  }

  /** Each record of a listing was built from an admitted comment of an
      eligible post of that listing. */
  lemma {:induction false} ListingPairsSource(threads: seq<Thread>, r: QaRecord) returns (i: nat, k: nat)
    requires r in ListingPairs(threads)
    ensures i < |threads| && k < |threads[i].comments|
    ensures Eligible(threads[i].post) && Yields(threads[i].post, threads[i].comments[k], r)
    decreases |threads|
  {
    var n := |threads| - 1;
    ListingPairsStep(threads, n);
    assert threads[..n + 1] == threads;
    if r in ListingPairs(threads[..n]) {
      i, k := ListingPairsSource(threads[..n], r);
      assert threads[..n][i] == threads[i];
    } else {
      i := n;
      assert r in ThreadPairs(threads[n]);
      k := CommentPairsSource(threads[n].post, threads[n].comments, r);
    }
  }

  /** Every record of a listing comes from an admitted comment of an eligible post
      of that listing, and carries `post.id + "_" + comment.id` as its id. */
  lemma ListingPairsProvenance(threads: seq<Thread>, r: QaRecord)
    requires r in ListingPairs(threads)
    ensures exists i, k :: (0 <= i < |threads| && 0 <= k < |threads[i].comments|
      && Eligible(threads[i].post) && Yields(threads[i].post, threads[i].comments[k], r)
      && r.questionId == QuestionId(threads[i].post.id, threads[i].comments[k].id))
  {
    var i, k := ListingPairsSource(threads, r);
  }

  /** Every record of a thread of the listing is among the listing's records. */
  lemma {:induction false} ThreadPairsInListing(threads: seq<Thread>, i: nat, r: QaRecord)
    requires i < |threads| && r in ThreadPairs(threads[i])
    ensures r in ListingPairs(threads)
    decreases |threads|
  {
    var n := |threads| - 1;
    var init := threads[..n];
    assert ListingPairs(threads) == ListingPairs(init) + ThreadPairs(threads[n]);
    if i < n {
      assert init[i] == threads[i];
      ThreadPairsInListing(init, i, r);
    }
  }

  /** Each admitted comment of an eligible post of a listing gives its record. */
  lemma ListingPairsComplete(threads: seq<Thread>, i: nat, k: nat)
    requires i < |threads| && k < |threads[i].comments|
    requires Eligible(threads[i].post) && Admitted(threads[i].post, threads[i].comments[k])
    ensures ExtractQaPair(threads[i].post, threads[i].comments[k]) in ListingPairs(threads)
  {
    CommentPairsComplete(threads[i].post, threads[i].comments, k);
    ThreadPairsInListing(threads, i, ExtractQaPair(threads[i].post, threads[i].comments[k]));
  }

  /** A listing returns exactly the records of the admitted comments of its
      eligible posts. */
  lemma ListingPairsIff(threads: seq<Thread>, r: QaRecord)
    ensures r in ListingPairs(threads) <==> exists i, k :: (0 <= i < |threads| && 0 <= k < |threads[i].comments|
      && Eligible(threads[i].post) && Yields(threads[i].post, threads[i].comments[k], r))
  {
    if r in ListingPairs(threads) {
      var i, k := ListingPairsSource(threads, r);
    }
    if exists i, k :: (0 <= i < |threads| && 0 <= k < |threads[i].comments|
      && Eligible(threads[i].post) && Yields(threads[i].post, threads[i].comments[k], r))
    {
      var i, k :| 0 <= i < |threads| && 0 <= k < |threads[i].comments|
        && Eligible(threads[i].post) && Yields(threads[i].post, threads[i].comments[k], r);
      ListingPairsComplete(threads, i, k);
    }
  }

  /** The records of fewer subreddits are a prefix of those of more. */
  lemma {:induction false} RunPairsPrefix(feedOf: string -> Feed, postLimit: int, k: nat, m: nat)
    requires k <= m <= |SubredditNames|
    ensures |RunPairs(feedOf, postLimit, k)| <= |RunPairs(feedOf, postLimit, m)|
    ensures RunPairs(feedOf, postLimit, m)[..|RunPairs(feedOf, postLimit, k)|] == RunPairs(feedOf, postLimit, k)
    decreases m - k
  {
    if k < m {
      RunPairsPrefix(feedOf, postLimit, k, m - 1);
      RunPairsStep(feedOf, postLimit, m - 1);
      PrefixOfAppend(RunPairs(feedOf, postLimit, m - 1), SubredditPairs(feedOf(SubredditNames[m - 1]), postLimit),
                     |RunPairs(feedOf, postLimit, k)|);
    }
  }

  /** When the total before the last scraped subreddit is below the target, so is
      every earlier total: the driver stops at the first subreddit whose running
      total reaches the target. */
  lemma EarlierTotalsBelowTarget(feedOf: string -> Feed, postLimit: int, targetCount: int, scraped: nat)
    requires 1 <= scraped <= |SubredditNames|
    requires scraped == 1 || |RunPairs(feedOf, postLimit, scraped - 1)| < targetCount
    ensures forall k :: 1 <= k < scraped ==> |RunPairs(feedOf, postLimit, k)| < targetCount
  {
    forall k | 1 <= k < scraped
      ensures |RunPairs(feedOf, postLimit, k)| < targetCount
    {
      RunPairsPrefix(feedOf, postLimit, k, scraped - 1);
    }
  }

  /** A pinned post, or one without comments, yields nothing. This is the
      eligibility test of `ThreadPairs` read off at the end of a listing. */
  lemma IneligibleThreadYieldsNothing(thread: Thread, threads: seq<Thread>)
    requires !Eligible(thread.post)
    ensures ListingPairs(threads + [thread]) == ListingPairs(threads)
  {
    assert (threads + [thread])[..|threads|] == threads;
  }

  /** No listing contributes more posts than its limit, so a subreddit scraped
      with `post_limit` shows the driver at most `post_limit` posts. */
  lemma PostsPerSubredditBound(feed: Feed, postLimit: int)
    requires postLimit >= 0
    ensures |Take(feed.hot, ListingLimit(postLimit))| + |Take(feed.top, ListingLimit(postLimit))|
      + |Take(feed.newest, ListingLimit(postLimit))| <= postLimit
  {
  }

  // ---------------------------------------------------------------------------
  // How many records are returned.

  /** The records of a listing are those of its parts, in order. */
  lemma {:induction false} ListingPairsConcat(a: seq<Thread>, b: seq<Thread>)
    ensures ListingPairs(a + b) == ListingPairs(a) + ListingPairs(b)
    decreases |b|
  {
    if b == [] {
      assert a + b == a;
    } else {
      var b' := b[..|b| - 1];
      InitOfAppend(a, b);
      ListingPairsConcat(a, b');
      AppendAssoc(ListingPairs(a), ListingPairs(b'), ThreadPairs(b[|b| - 1]));
    }
  }

  /** The positions of the admitted comments. */
  function AdmittedPositions(post: Post, comments: seq<Comment>): set<nat> {
    set k: nat | k < |comments| && Admitted(post, comments[k])
  }

  /** One record per admitted comment: the list of a post holds as many
      records as the post has admitted comments. */
  lemma {:induction false} CommentPairsCount(post: Post, comments: seq<Comment>)
    ensures |CommentPairs(post, comments)| == |AdmittedPositions(post, comments)|
    decreases |comments|
  {
    if comments != [] {
      var n := |comments| - 1;
      var init := comments[..n];
      CommentPairsCount(post, init);
      CommentPairsStep(post, comments, n);
      assert comments[..n + 1] == comments;
      AdmittedPositionsStep(post, comments);
      var before := AdmittedPositions(post, init);
      if Admitted(post, comments[n]) {
        assert |before + {n}| == |before| + 1;
      } else {
        assert before + {} == before;
      }
    }
  }

  /** One more comment adds its position when it is admitted, and no other. */
  lemma AdmittedPositionsStep(post: Post, comments: seq<Comment>)
    requires comments != []
    ensures var n := |comments| - 1;
      n !in AdmittedPositions(post, comments[..n])
      && AdmittedPositions(post, comments)
        == AdmittedPositions(post, comments[..n]) + (if Admitted(post, comments[n]) then {n} else {})
  {
    var n := |comments| - 1;
    var init := comments[..n];
    assert forall k: nat :: k < n ==> init[k] == comments[k];
  }

  /** The records of a subreddit are those of its hot, top and new listings,
      each cut to `post_limit // 3`, in that order. */
  lemma SubredditPairsSplit(feed: Feed, postLimit: int)
    ensures KindsPairs(feed, ListingLimit(postLimit), |ListingKinds|) == SubredditPairs(feed, postLimit)
  {
    var limit := ListingLimit(postLimit);
    assert KindsPairs(feed, limit, 0) == [];
    assert KindsPairs(feed, limit, 1) == [] + ListingPairs(Take(feed.hot, limit));
    assert [] + ListingPairs(Take(feed.hot, limit)) == ListingPairs(Take(feed.hot, limit));
    assert ListingKinds[1] == Top && ListingKinds[2] == New;
    assert KindsPairs(feed, limit, 2) == KindsPairs(feed, limit, 1) + ListingPairs(Take(feed.top, limit));
  }

  /** The returned list counts duplicates: a thread served within the limit in
      both the hot and the top listing has its records returned once for each
      listing, so every one of them occurs at least twice in what
      `scrape_subreddit` returns. */
  lemma RepeatedThreadCountedTwice(feed: Feed, postLimit: int, thread: Thread,
                                   a: seq<Thread>, b: seq<Thread>, c: seq<Thread>, d: seq<Thread>)
    requires Take(feed.hot, ListingLimit(postLimit)) == a + [thread] + b
    requires Take(feed.top, ListingLimit(postLimit)) == c + [thread] + d
    ensures SubredditPairs(feed, postLimit)
      == ListingPairs(a) + ThreadPairs(thread) + ListingPairs(b)
        + (ListingPairs(c) + ThreadPairs(thread) + ListingPairs(d))
        + ListingPairs(Take(feed.newest, ListingLimit(postLimit)))
    ensures forall r :: r in ThreadPairs(thread) ==> multiset(SubredditPairs(feed, postLimit))[r] >= 2
  {
    ThreadInListing(a, thread, b);
    ThreadInListing(c, thread, d);
    var once := ThreadPairs(thread);
    var n := ListingPairs(Take(feed.newest, ListingLimit(postLimit)));
    forall r | r in once ensures multiset(SubredditPairs(feed, postLimit))[r] >= 2 {
      TwiceCounted(ListingPairs(a), once, ListingPairs(b), ListingPairs(c), ListingPairs(d), n, r);
    }
  }

  /** What a list holds twice, it counts twice. */
  lemma TwiceCounted(a: seq<QaRecord>, once: seq<QaRecord>, b: seq<QaRecord>,
                     c: seq<QaRecord>, d: seq<QaRecord>, n: seq<QaRecord>, r: QaRecord)
    requires r in once
    ensures multiset(a + once + b + (c + once + d) + n)[r] >= 2
  {
    assert multiset(a + once + b + (c + once + d) + n)
      == multiset(a) + multiset(once) + multiset(b) + multiset(c) + multiset(once) + multiset(d) + multiset(n);
  }

  /** A thread inside a listing contributes its records at its place. */
  lemma ThreadInListing(a: seq<Thread>, thread: Thread, b: seq<Thread>)
    ensures ListingPairs(a + [thread] + b) == ListingPairs(a) + ThreadPairs(thread) + ListingPairs(b)
  {
    ListingPairsConcat(a + [thread], b);
    assert (a + [thread])[..|a|] == a;
  }

  /** The store keeps the records of a thread served twice only once: whatever
      else the listings serve, a post served within the limit in both the hot
      and the top listing leaves each of its records' ids stored exactly once. */
  lemma RepeatedThreadStoredOnce(feed: Feed, postLimit: int, thread: Thread, docs: seq<QaRecord>,
                                 a: seq<Thread>, b: seq<Thread>, c: seq<Thread>, d: seq<Thread>)
    requires UniqueIds(docs)
    requires Take(feed.hot, ListingLimit(postLimit)) == a + [thread] + b
    requires Take(feed.top, ListingLimit(postLimit)) == c + [thread] + d
    ensures forall r :: r in ThreadPairs(thread) ==>
      CountWithId(SaveAll(docs, SubredditPairs(feed, postLimit)), r.questionId) == 1
  {
    var all := SubredditPairs(feed, postLimit);
    var stored := SaveAll(docs, all);
    RepeatedThreadCountedTwice(feed, postLimit, thread, a, b, c, d);
    SaveAllKeepsUniqueAndPrefix(docs, all);
    forall r | r in ThreadPairs(thread) ensures CountWithId(stored, r.questionId) == 1 {
      assert multiset(all)[r] >= 2;
      var i :| 0 <= i < |all| && all[i] == r;
      assert Ids(all)[i] == r.questionId;
      SaveAllIds(docs, all, r.questionId);
      UniqueCountAtMostOne(stored, r.questionId);
    }
  }

  // ---------------------------------------------------------------------------
  // The scraper.

  class TherapyDataScraper {
    const subreddits: seq<string> := SubredditNames
    const qaCollection: QaCollection

    constructor ()
      ensures fresh(qaCollection) && qaCollection.documents == []
    {
      qaCollection := new QaCollection();
    }

    /** `scrape_subreddit`: the listings in order, each cut to `post_limit // 3`
        posts; every admitted comment becomes a record that is returned, and is
        inserted when no stored record has its id. */
    method ScrapeSubreddit(feed: Feed, postLimit: int) returns (qaPairs: seq<QaRecord>)
      modifies qaCollection
      ensures qaPairs == SubredditPairs(feed, postLimit)
      ensures qaCollection.documents == SaveAll(old(qaCollection.documents), qaPairs)
    {
      qaPairs := [];
      ghost var docs0 := qaCollection.documents;
      var limit := postLimit / 3;
      for c := 0 to |ListingKinds|
        invariant qaPairs == KindsPairs(feed, limit, c)
        invariant qaCollection.documents == SaveAll(docs0, qaPairs)
      {
        var posts := Take(Listing(feed, ListingKinds[c]), limit);
        var listingPairs := ScrapeListing(posts);
        SaveAllConcat(docs0, qaPairs, listingPairs);
        KindsPairsStep(feed, limit, c);
        qaPairs := qaPairs + listingPairs;
      }
      SubredditPairsSplit(feed, postLimit);
    }

    /** The post loop of `scrape_subreddit` for one listing: the comments of
        each eligible post in turn. */
    method ScrapeListing(posts: seq<Thread>) returns (pairs: seq<QaRecord>)
      modifies qaCollection
      ensures pairs == ListingPairs(posts)
      ensures qaCollection.documents == SaveAll(old(qaCollection.documents), pairs)
    {
      pairs := [];
      ghost var docs0 := qaCollection.documents;
      for p := 0 to |posts|
        invariant pairs == ListingPairs(posts[..p])
        invariant qaCollection.documents == SaveAll(docs0, pairs)
      {
        var thread := posts[p];
        var post := thread.post;
        if !post.stickied && post.numComments > 0 {
          var threadPairs := ScrapeComments(post, thread.comments);
          SaveAllConcat(docs0, pairs, threadPairs);
          pairs := pairs + threadPairs;
        } else {
          assert pairs + [] == pairs;
        }
        ListingPairsStep(posts, p);
      }
      assert posts[..|posts|] == posts;
    }

    /** The comment loop of `scrape_subreddit` for one eligible post: every
        admitted comment becomes a record that is returned, and is inserted
        when no stored record has its id. */
    method ScrapeComments(post: Post, comments: seq<Comment>) returns (pairs: seq<QaRecord>)
      modifies qaCollection
      ensures pairs == CommentPairs(post, comments)
      ensures qaCollection.documents == SaveAll(old(qaCollection.documents), pairs)
    {
      pairs := [];
      ghost var docs0 := qaCollection.documents;
      for k := 0 to |comments|
        invariant pairs == CommentPairs(post, comments[..k])
        invariant qaCollection.documents == SaveAll(docs0, pairs)
      {
        var comment := comments[k];
        CommentPairsStep(post, comments, k);
        if comment.body.Some? && comment.score > MinCommentScore
          && |comment.body.value| >= MinCommentLength
          && IsValidQa(post.title, post.selftext, comment.body.value)
        {
          var qaPair := ExtractQaPair(post, comment);
          SaveAllSnoc(docs0, pairs, qaPair);
          ghost var stored := qaCollection.documents;
          pairs := pairs + [qaPair];
          if qaCollection.CountDocuments(qaPair.questionId) == 0 {
            qaCollection.InsertOne(qaPair);
          }
          assert qaCollection.documents == SaveIfAbsent(stored, qaPair);
        } else {
          assert pairs + [] == pairs;
        }
      }
      assert comments[..|comments|] == comments;
    }

    /** `scrape_all_subreddits`: each subreddit in turn with `post_limit`
        `target_count // 8`, stopping after the first subreddit at which the
        running total reaches the target. Returns the logged total and, as a
        ghost, how many subreddits were scraped. */
    method ScrapeAllSubreddits(targetCount: int, feedOf: string -> Feed)
      returns (totalPairs: int, ghost scraped: nat)
      modifies qaCollection
      ensures 1 <= scraped <= |SubredditNames|
      ensures totalPairs == |RunPairs(feedOf, PairsPerSubreddit(targetCount), scraped)|
      ensures scraped == 1 || |RunPairs(feedOf, PairsPerSubreddit(targetCount), scraped - 1)| < targetCount
      ensures scraped == |SubredditNames| || totalPairs >= targetCount
      ensures qaCollection.documents
        == SaveAll(old(qaCollection.documents), RunPairs(feedOf, PairsPerSubreddit(targetCount), scraped))
    {
      totalPairs := 0;
      var pairsPerSubreddit := targetCount / |subreddits|;
      ghost var docs0 := qaCollection.documents;
      var i := 0;
      while i < |subreddits|
        invariant 0 <= i <= |subreddits|
        invariant totalPairs == |RunPairs(feedOf, pairsPerSubreddit, i)|
        invariant 0 < i ==> totalPairs < targetCount
        invariant 1 < i ==> |RunPairs(feedOf, pairsPerSubreddit, i - 1)| < targetCount
        invariant qaCollection.documents == SaveAll(docs0, RunPairs(feedOf, pairsPerSubreddit, i))
      {
        ghost var previous := RunPairs(feedOf, pairsPerSubreddit, i);
        var qaPairs := ScrapeSubreddit(feedOf(subreddits[i]), pairsPerSubreddit);
        SaveAllConcat(docs0, previous, qaPairs);
        RunPairsStep(feedOf, pairsPerSubreddit, i);
        totalPairs := totalPairs + |qaPairs|;
        i := i + 1;
        if totalPairs >= targetCount {
          break;
        }
      }
      scraped := i;
    }
  }
}
