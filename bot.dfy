/** One scanning cycle of the bot: fetch the newest submissions, keep those not yet
    handled, compose a reply for each whose title names a subreddit, and remember every
    one of them in the sorted database, saving it after each post. */
module TrendingRedditBot {
  import opened Results
  import opened HandledPosts
  import opened RememberedPosts
  import opened TrendingRedditUtils

  /** Seconds of slack allowed between a post's creation time and the entries stored
      before it. */
  const Leeway: real := 60.0

  /** The comment format used when no comment_format.txt exists. */
  const DefaultCommentFormat: string := "Subreddit: /r/" + Placeholder

  /** What the bot reads of a Reddit submission: its full name, its title (which the
      client may return as null) and its creation time (createdUTC). */
  datatype Submission = Submission(fullName: string, title: Option<string>, createdUtc: real)

  /** A reply the bot composes: the post it answers and the comment text. */
  datatype Reply = Reply(fullName: string, text: string)

  /** The entries recorded for a work-list, in its order. */
  function Entries(posts: seq<Submission>): (es: seq<HandledPost>)
    ensures |es| == |posts| && forall i :: 0 <= i < |posts| ==> es[i] == EntryFor(posts[i])
  {
    seq(|posts|, i requires 0 <= i < |posts| => EntryFor(posts[i]))
  }

  /** The database entry recorded for a submission. */
  function EntryFor(sm: Submission): (hp: HandledPost)
    ensures hp.fullId == sm.fullName && hp.timestamp == sm.createdUtc
  {
    HandledPost(sm.fullName, sm.createdUtc)
  }

  // ---------------------------------------------------------------------------
  // Which submissions are new
  // ---------------------------------------------------------------------------

  /** The backward scan's verdict: an entry with the id lies after every entry created
      more than Leeway seconds before the submission. The scan meets, from the newest
      end, either that entry or an old entry, and stops there. */
  ghost predicate Handled(l: seq<HandledPost>, id: string, created: real)
    ensures l == [] ==> !Handled(l, id, created)
  {
    exists i :: 0 <= i < |l| && l[i].fullId == id &&
      forall j :: i < j < |l| ==> l[j].timestamp >= created - Leeway
  }

  /** The work-list of a cycle: the fetched submissions not yet handled, in feed order. */
  ghost function Unhandled(l: seq<HandledPost>, subs: seq<Submission>): (r: seq<Submission>)
    ensures forall s :: s in r <==> s in subs && !Handled(l, s.fullName, s.createdUtc)
  {
    if subs == [] then []
    else
      var init, s := subs[..|subs| - 1], subs[|subs| - 1];
      assert subs == init + [s];
      Unhandled(l, init) + (if Handled(l, s.fullName, s.createdUtc) then [] else [s])
  }

  /** The database after recording each post of the work-list in turn: append, then sort. */
  function RecordAll(l: seq<HandledPost>, posts: seq<Submission>): (r: seq<HandledPost>)
    ensures |r| == |l| + |posts|
  {
    if posts == [] then l
    else SortByTimestamp(RecordAll(l, posts[..|posts| - 1]) + [EntryFor(posts[|posts| - 1])])
  }

  /** The replies composed for a work-list: one per post whose title names a subreddit,
      in order, with that name filled into the format. */
  function Replies(format: string, posts: seq<Submission>): (r: seq<Reply>)
    ensures |r| <= |posts|
  {
    if posts == [] then []
    else
      var init, p := posts[..|posts| - 1], posts[|posts| - 1];
      var sub := Subreddit(p.title);
      Replies(format, init) + (if sub.Some? then [Reply(p.fullName, GetCommentString(format, sub.value))] else [])
  }

  // ---------------------------------------------------------------------------
  // The bot
  // ---------------------------------------------------------------------------

  class Bot {
    /** alreadyHandledPosts, kept sorted by creation time. */
    var handled: seq<HandledPost>
    /** The contents of remembered_posts.json. */
    var store: StoredFile
    /** The comment format loaded at start-up. */
    const commentFormat: string

    ghost predicate Valid()
      reads this
    {
      Sorted(handled)
    }

    constructor (commentFormat: string, store: StoredFile)
      ensures this.commentFormat == commentFormat && this.store == store && handled == []
      ensures Valid()
    {
      this.commentFormat := commentFormat;
      this.store := store;
      handled := [];
    }

    /** loadRememberedPosts: the database becomes the decoded records, sorted. The error
        result stands for the process exiting. */
    method LoadRememberedPosts() returns (r: Result<nat, LoadError>)
      modifies this`handled
      ensures Load(store).Ok? ==> r == Ok(|handled|) && handled == Load(store).value
      ensures Load(store).Err? ==> r == Err(Load(store).error) && handled == []
      ensures Valid()
    {
      handled := [];
      match store
      case Missing =>
        return Ok(0);
      case Unparsable =>
        return Err(Unreadable);
      case Stored(j) =>
        if !j.JArray? {
          return Err(NotAnArray);
        }
        var items := j.items;
        var posts: seq<HandledPost> := [];
        for k := 0 to |items|
          invariant DecodeAll(items[..k]) == Ok(posts)
        {
          var decoded := DecodeRecord(items[k]);
          if decoded.Err? {
            FirstFailureIsTheError(items, k);
            return Err(decoded.error);
          }
          assert items[..k + 1][..k] == items[..k];
          posts := posts + [decoded.value];
        }
        assert items[..|items|] == items;
        handled := SortByTimestamp(posts);
        SortedPermutation(posts);
        return Ok(|handled|);
    }

    /** saveRememberedPosts: the file receives every entry's record, in database order. */
    method SaveRememberedPosts()
      modifies this`store
      ensures store == Stored(Encode(handled))
    {
      var arr: seq<Json> := [];
      for k := 0 to |handled|
        invariant |arr| == k
        invariant forall i :: 0 <= i < k ==> arr[i] == AsObject(handled[i])
      {
        arr := arr + [AsObject(handled[k])];
      }
      assert arr == Encode(handled).items;
      store := Stored(JArray(arr));
    }

    /** The inner loop of the filter: scans the database from its newest entry back,
        stopping at the submission's id or at the first entry older than the leeway. */
    method IsHandled(id: string, created: real) returns (found: bool)
      ensures found == Handled(handled, id, created)
    {
      found := false;
      var i: int := |handled| - 1;
      while i >= 0
        invariant -1 <= i < |handled| && !found
        invariant forall j :: i < j < |handled| ==> handled[j].fullId != id && handled[j].timestamp >= created - Leeway
      {
        if handled[i].fullId == id {
          found := true;
          break;
        } else if handled[i].timestamp < created - Leeway {
          break;
        }
        i := i - 1;
      }
      if !found {
        NotHandledPastCutoff(handled, id, created, i);
      }
    }

    /** The filter of a cycle: the fetched submissions the database does not show as
        handled, in feed order, in a work-list that starts empty. */
    method FindNewPosts(submissions: seq<Submission>) returns (toHandle: seq<Submission>)
      ensures toHandle == Unhandled(handled, submissions)
    {
      toHandle := [];
      for k := 0 to |submissions|
        invariant toHandle == Unhandled(handled, submissions[..k])
      {
        var sm := submissions[k];
        var isHandled := IsHandled(sm.fullName, sm.createdUtc);
        assert submissions[..k + 1][..k] == submissions[..k];
        if !isHandled {
          toHandle := toHandle + [sm];
        }
      }
      assert submissions[..|submissions|] == submissions;
    }

    /** Recording one post: its entry is appended and the database sorted again, which
        puts the entry after every entry not later than it and changes nothing else. */
    method RecordPost(sm: Submission)
      requires Valid()
      modifies this`handled
      ensures Valid()
      ensures handled == SortByTimestamp(old(handled) + [EntryFor(sm)])
      ensures var k := InsertionPoint(old(handled), EntryFor(sm));
        handled == old(handled)[..k] + [EntryFor(sm)] + old(handled)[k..]
    {
      AppendThenSortInserts(handled, EntryFor(sm));
      SortedPermutation(handled + [EntryFor(sm)]);
      handled := SortByTimestamp(handled + [EntryFor(sm)]);
    }

    /** The handling loop: a reply for each post whose title names a subreddit (the
        comment itself is not sent), then the post is recorded and the database saved,
        whether or not a reply was composed. */
    method HandleNewPosts(toHandle: seq<Submission>) returns (replies: seq<Reply>)
      requires Valid()
      modifies this
      ensures Valid()
      ensures handled == RecordAll(old(handled), toHandle)
      ensures replies == Replies(commentFormat, toHandle)
      ensures toHandle != [] ==> store == Stored(Encode(handled))
      ensures toHandle == [] ==> store == old(store)
    {
      replies := [];
      for k := 0 to |toHandle|
        invariant Valid()
        invariant handled == RecordAll(old(handled), toHandle[..k])
        invariant replies == Replies(commentFormat, toHandle[..k])
        invariant k > 0 ==> store == Stored(Encode(handled))
        invariant k == 0 ==> store == old(store)
      {
        var sm := toHandle[k];
        RecordAllStep(old(handled), toHandle, k);
        RepliesStep(commentFormat, toHandle, k);
        var subreddit := GetSubredditFromTitle(sm.title);
        if subreddit.Some? {
          var text := GetCommentString(commentFormat, subreddit.value);
          replies := replies + [Reply(sm.fullName, text)];
        }
        RecordPost(sm);
        SaveRememberedPosts();
      }
      assert toHandle[..|toHandle|] == toHandle;
    }

    /** One pass of the main loop. A failed fetch changes nothing (the bot sleeps and
        tries again); otherwise the new posts are found and handled. */
    method RunCycle(fetched: Option<seq<Submission>>) returns (replies: seq<Reply>)
      requires Valid()
      modifies this
      ensures Valid()
      ensures fetched.None? ==> handled == old(handled) && store == old(store) && replies == []
      ensures fetched.Some? ==>
        var toHandle := Unhandled(old(handled), fetched.value);
        && handled == RecordAll(old(handled), toHandle)
        && replies == Replies(commentFormat, toHandle)
        && (toHandle != [] ==> store == Stored(Encode(handled)))
        && (toHandle == [] ==> store == old(store))
    {
      if fetched.None? {
        return [];
      }
      var toHandle := FindNewPosts(fetched.value);
      replies := HandleNewPosts(toHandle);
    }
  }

  // ---------------------------------------------------------------------------
  // Proof steps of the methods
  // ---------------------------------------------------------------------------

  /** One more post of the work-list recorded. */
  lemma RecordAllStep(l: seq<HandledPost>, posts: seq<Submission>, k: nat)
    requires k < |posts|
    ensures RecordAll(l, posts[..k + 1]) == SortByTimestamp(RecordAll(l, posts[..k]) + [EntryFor(posts[k])])
  {
    assert posts[..k + 1][..k] == posts[..k];
  }

  /** One more post of the work-list answered. */
  lemma RepliesStep(format: string, posts: seq<Submission>, k: nat)
    requires k < |posts|
    ensures Replies(format, posts[..k + 1]) == Replies(format, posts[..k]) +
      (if Subreddit(posts[k].title).Some?
       then [Reply(posts[k].fullName, GetCommentString(format, Subreddit(posts[k].title).value))]
       else [])
  {
    assert posts[..k + 1][..k] == posts[..k];
  }

  /** Decoding stops at the first record that fails, and loading reports its error. */
  lemma FirstFailureIsTheError(items: seq<Json>, k: nat)
    requires k < |items| && DecodeAll(items[..k]).Ok? && DecodeRecord(items[k]).Err?
    ensures Load(Stored(JArray(items))) == Err(DecodeRecord(items[k]).error)
  {
    assert forall m :: 0 <= m < k ==> DecodeRecord(items[m]).Ok? by {
      DecodeAllSucceeds(items[..k]);
      assert forall m :: 0 <= m < k ==> items[..k][m] == items[m];
    }
    assert DecodeAll(items).Err? by {
      DecodeAllSucceeds(items);
    }
    DecodeAllFails(items);
    var d := DecodeAll(items);
    var i :| 0 <= i < |items| && DecodeRecord(items[i]) == Err(d.error) &&
      forall m :: 0 <= m < i ==> DecodeRecord(items[m]).Ok?;
    assert i == k;
  }

  /** The scan stopped without a match at position i (or ran off the oldest end, i = -1):
      all later entries were recent and bore other ids, and the entry at i is old. */
  lemma NotHandledPastCutoff(l: seq<HandledPost>, id: string, created: real, i: int)
    requires -1 <= i < |l|
    requires forall j :: i < j < |l| ==> l[j].fullId != id && l[j].timestamp >= created - Leeway
    requires i >= 0 ==> l[i].fullId != id && l[i].timestamp < created - Leeway
    ensures !Handled(l, id, created)
  {
  }

  // ---------------------------------------------------------------------------
  // What the filter and the database promise
  // ---------------------------------------------------------------------------

  /** The work-list keeps feed order: filtering a batch is filtering its parts. */
  lemma {:induction false} UnhandledKeepsFeedOrder(l: seq<HandledPost>, a: seq<Submission>, b: seq<Submission>)
    ensures Unhandled(l, a + b) == Unhandled(l, a) + Unhandled(l, b)
    decreases |b|
  {
    if b == [] {
      assert a + b == a;
    } else {
      var init, s := b[..|b| - 1], b[|b| - 1];
      assert (a + b)[..|a + b| - 1] == a + init;
      assert (a + b)[|a + b| - 1] == s;
      UnhandledKeepsFeedOrder(l, a, init);
    }
  }

  /** When no fetched submission is handled, the work-list is the whole fetch. */
  lemma {:induction false} NoneHandledAllQueued(l: seq<HandledPost>, subs: seq<Submission>)
    requires forall s :: s in subs ==> !Handled(l, s.fullName, s.createdUtc)
    ensures Unhandled(l, subs) == subs
    decreases |subs|
  {
    if subs != [] {
      var init, s := subs[..|subs| - 1], subs[|subs| - 1];
      assert s in subs;
      assert init + [s] == subs;
      NoneHandledAllQueued(l, init);
    }
  }

  /** A submission whose id no entry bears is always put on the work-list. */
  lemma UnknownPostQueued(l: seq<HandledPost>, subs: seq<Submission>, s: Submission)
    requires s in subs
    requires forall i :: 0 <= i < |l| ==> l[i].fullId != s.fullName
    ensures s in Unhandled(l, subs)
  {
  }

  /** In a sorted database, an entry with the id created no more than Leeway seconds
      before the submission is always found. */
  lemma RecentEntryFound(l: seq<HandledPost>, id: string, created: real, i: nat)
    requires Sorted(l) && i < |l|
    requires l[i].fullId == id && l[i].timestamp >= created - Leeway
    ensures Handled(l, id, created)
  {
    assert forall j :: i < j < |l| ==> l[i].timestamp <= l[j].timestamp;
  }

  /** When the newest entry bears the id, the scan stops there with a match, whatever
      the times. */
  lemma NewestEntryFound(l: seq<HandledPost>, id: string, created: real)
    requires l != [] && l[|l| - 1].fullId == id
    ensures Handled(l, id, created)
  {
  }

  /** When the newest entry bears another id and is older than the leeway, the scan stops
      at once: an entry with the id stored before it is not detected. */
  lemma OldNewestEntryHidesTheRest(l: seq<HandledPost>, id: string, created: real)
    requires l != [] && l[|l| - 1].fullId != id && l[|l| - 1].timestamp < created - Leeway
    ensures !Handled(l, id, created)
  {
  }

  /** A concrete instance: t3_a is in the database, but the newer entry t3_b is more
      than a minute older than the submission, so t3_a is taken as new. */
  lemma DuplicateBeforeCutoffMissed()
    ensures !Handled([HandledPost("t3_a", 100.0), HandledPost("t3_b", 200.0)], "t3_a", 300.0)
  {
    OldNewestEntryHidesTheRest([HandledPost("t3_a", 100.0), HandledPost("t3_b", 200.0)], "t3_a", 300.0);
  }

  /** Recording keeps every earlier entry, adds the post's entry, and keeps the database
      sorted. */
  lemma {:induction false} RecordAllKeeps(l: seq<HandledPost>, posts: seq<Submission>)
    requires Sorted(l)
    ensures Sorted(RecordAll(l, posts))
    ensures multiset(RecordAll(l, posts)) == multiset(l) + multiset(Entries(posts))
    decreases |posts|
  {
    if posts != [] {
      var init, p := posts[..|posts| - 1], posts[|posts| - 1];
      RecordAllKeeps(l, init);
      var before := RecordAll(l, init);
      SortedPermutation(before + [EntryFor(p)]);
      var es := Entries(posts);
      assert es == Entries(init) + [EntryFor(p)];
    }
  }

  /** Every post of the work-list is remembered, whether or not its title named a
      subreddit, and so is every earlier entry. */
  lemma EveryPostRemembered(l: seq<HandledPost>, posts: seq<Submission>)
    requires Sorted(l)
    ensures forall p :: p in posts ==> EntryFor(p) in RecordAll(l, posts)
    ensures forall e :: e in l ==> e in RecordAll(l, posts)
  {
    RecordAllKeeps(l, posts);
    var es := Entries(posts);
    var r := RecordAll(l, posts);
    forall p | p in posts
      ensures EntryFor(p) in r
    {
      var i :| 0 <= i < |posts| && posts[i] == p;
      assert es[i] == EntryFor(p);
      assert EntryFor(p) in multiset(es);
      assert EntryFor(p) in multiset(r);
    }
    forall e | e in l
      ensures e in r
    {
      assert e in multiset(l);
      assert e in multiset(r);
    }
  }

  /** A post just recorded is found by the next scan for it. */
  lemma RecordedPostIsHandled(l: seq<HandledPost>, sm: Submission)
    requires Sorted(l)
    ensures Handled(RecordAll(l, [sm]), sm.fullName, sm.createdUtc)
  {
    EveryPostRemembered(l, [sm]);
    RecordAllKeeps(l, [sm]);
    var r := RecordAll(l, [sm]);
    var i :| 0 <= i < |r| && r[i] == EntryFor(sm);
    RecentEntryFound(r, sm.fullName, sm.createdUtc, i);
  }

  /** The database entries for the posts of a batch carry those posts' creation times,
      as they do when Reddit reports a post's createdUTC the same way each time. */
  predicate Consistent(l: seq<HandledPost>, subs: seq<Submission>) {
    forall i, s :: 0 <= i < |l| && s in subs && l[i].fullId == s.fullName ==> l[i].timestamp == s.createdUtc
  }

  /** No post is handled twice: when the same batch is fetched again after a cycle, the
      new work-list is empty. */
  lemma NextCycleFindsNothing(l: seq<HandledPost>, subs: seq<Submission>)
    requires Sorted(l) && Consistent(l, subs)
    ensures Unhandled(RecordAll(l, Unhandled(l, subs)), subs) == []
  {
    forall s | s in subs
      ensures Handled(RecordAll(l, Unhandled(l, subs)), s.fullName, s.createdUtc)
    {
      HandledAfterCycle(l, subs, s);
    }
    AllHandledNoneLeft(RecordAll(l, Unhandled(l, subs)), subs);
  }

  /** After a cycle, each fetched post is handled: either it was already, and the entry
      that showed it is still there, or it was recorded in the cycle. */
  lemma HandledAfterCycle(l: seq<HandledPost>, subs: seq<Submission>, s: Submission)
    requires Sorted(l) && Consistent(l, subs) && s in subs
    ensures Handled(RecordAll(l, Unhandled(l, subs)), s.fullName, s.createdUtc)
  {
    var toHandle := Unhandled(l, subs);
    if s in toHandle {
      EntryStaysFound(l, toHandle, EntryFor(s), s.createdUtc);
    } else {
      var i :| 0 <= i < |l| && l[i].fullId == s.fullName &&
        forall j :: i < j < |l| ==> l[j].timestamp >= s.createdUtc - Leeway;
      EntryStaysFound(l, toHandle, l[i], s.createdUtc);
    }
  }

  /** An entry of the database, or of the work-list, created at the submission's time is
      found in the database after the cycle. */
  lemma EntryStaysFound(l: seq<HandledPost>, posts: seq<Submission>, e: HandledPost, created: real)
    requires Sorted(l) && (e in l || exists p :: p in posts && e == EntryFor(p))
    requires e.timestamp == created
    ensures Handled(RecordAll(l, posts), e.fullId, created)
  {
    var r := RecordAll(l, posts);
    RecordAllKeeps(l, posts);
    EveryPostRemembered(l, posts);
    assert e in r;
    var m :| 0 <= m < |r| && r[m] == e;
    RecentEntryFound(r, e.fullId, created, m);
  }

  /** A batch whose every post is handled leaves an empty work-list. */
  lemma AllHandledNoneLeft(l: seq<HandledPost>, subs: seq<Submission>)
    requires forall s :: s in subs ==> Handled(l, s.fullName, s.createdUtc)
    ensures Unhandled(l, subs) == []
  {
  }

  /** Every reply answers a post of the work-list whose title names a subreddit, and
      carries the format with that name filled in. */
  lemma {:induction false} EveryReplyAnswersAPost(format: string, posts: seq<Submission>)
    ensures forall rp :: rp in Replies(format, posts) ==>
      exists p :: && p in posts
                  && Subreddit(p.title).Some?
                  && rp == Reply(p.fullName, GetCommentString(format, Subreddit(p.title).value))
    decreases |posts|
  {
    if posts != [] {
      var init, p := posts[..|posts| - 1], posts[|posts| - 1];
      assert posts == init + [p];
      EveryReplyAnswersAPost(format, init);
      forall rp | rp in Replies(format, posts)
        ensures exists q :: && q in posts
                            && Subreddit(q.title).Some?
                            && rp == Reply(q.fullName, GetCommentString(format, Subreddit(q.title).value))
      {
        if rp in Replies(format, init) {
          var q :| && q in init
                   && Subreddit(q.title).Some?
                   && rp == Reply(q.fullName, GetCommentString(format, Subreddit(q.title).value));
          assert q in posts;
        } else {
          assert p in posts;
        }
      }
    }
  }

  /** Every post of the work-list whose title names a subreddit gets its reply. */
  lemma {:induction false} RepliesAnswerEveryPost(format: string, posts: seq<Submission>)
    ensures forall p :: p in posts && Subreddit(p.title).Some? ==>
      Reply(p.fullName, GetCommentString(format, Subreddit(p.title).value)) in Replies(format, posts)
    decreases |posts|
  {
    if posts != [] {
      var init, last := posts[..|posts| - 1], posts[|posts| - 1];
      assert posts == init + [last];
      RepliesAnswerEveryPost(format, init);
      forall p | p in posts && Subreddit(p.title).Some?
        ensures Reply(p.fullName, GetCommentString(format, Subreddit(p.title).value)) in Replies(format, posts)
      {
        if p != last {
          assert p in init;
        }
      }
    }
  }

  /** Replies are composed only for posts whose title names a subreddit: a work-list of
      titles without one gets no reply at all. */
  lemma NoSubredditNoReply(format: string, posts: seq<Submission>)
    requires forall p :: p in posts ==> Subreddit(p.title).None?
    ensures Replies(format, posts) == []
  {
    EveryReplyAnswersAPost(format, posts);
  }
}
