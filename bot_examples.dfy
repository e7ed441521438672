/** A first cycle of a freshly started bot, worked through end to end. */
module TrendingRedditBotExamples {
  import opened Results
  import opened HandledPosts
  import opened RememberedPosts
  import opened TrendingRedditUtils
  import opened TrendingRedditUtilsExamples
  import opened TrendingRedditBot

  /** The default format with "banana" filled in. */
  lemma ExampleDefaultComment()
    ensures GetCommentString(DefaultCommentFormat, "banana") == "Subreddit: /r/banana"
  {
    PlainTextCopied("Subreddit: /r/", Placeholder, "banana");
    LeadingPlaceholderFilled([], "banana");
    assert Placeholder + [] == Placeholder;
  }

  /** With an empty database every fetched post is new. */
  lemma EmptyDatabaseAllNew(subs: seq<Submission>)
    ensures Unhandled([], subs) == subs
  {
    NoneHandledAllQueued([], subs);
  }

  /** The reply for a single post whose title names a subreddit. */
  lemma SingleReply(format: string, p: Submission, name: string)
    requires Subreddit(p.title) == Some(name)
    ensures Replies(format, [p]) == [Reply(p.fullName, GetCommentString(format, name))]
  {
    assert [p][..0] == [];
  }

  /** The first cycle in terms of the specification. */
  lemma FirstCycleWorkList(post: Submission)
    requires post == Submission("t3_x", Some("/r/" + "banana"), 1000.0)
    ensures Unhandled([], [post]) == [post]
    ensures Replies(DefaultCommentFormat, [post]) == [Reply("t3_x", "Subreddit: /r/banana")]
  {
    EmptyDatabaseAllNew([post]);
    PlainThenNamed(post.title.value, "", "banana", "");
    SingleReply(DefaultCommentFormat, post, "banana");
    ExampleDefaultComment();
  }

  /** The first cycle from an empty database, in terms of the specification: the one
      post is new, it gets one reply, and once it is recorded it is no longer new. */
  lemma FirstCycleFromEmpty(format: string, post: Submission)
    requires Subreddit(post.title).Some?
    ensures Unhandled([], [post]) == [post]
    ensures Replies(format, [post]) == [Reply(post.fullName, GetCommentString(format, Subreddit(post.title).value))]
    ensures RecordAll([], [post]) == [EntryFor(post)]
    ensures Unhandled(RecordAll([], [post]), [post]) == []
  {
    assert [post][..0] == [];
    EmptyDatabaseAllNew([post]);
    SingleReply(format, post, Subreddit(post.title).value);
    NextCycleFindsNothing([], [post]);
  }

  /** A bot started without a database file loads an empty memory. */
  method FreshBot(format: string) returns (bot: Bot)
    ensures fresh(bot) && bot.Valid()
    ensures bot.commentFormat == format && bot.handled == [] && bot.store == Missing
  {
    bot := new Bot(format, Missing);
    var loaded := bot.LoadRememberedPosts();
    assert Load(Missing) == Ok([]);
  }

  /** A bot with an empty memory given one post whose title names a subreddit
      composes one reply to it and remembers the post. */
  method FirstCycle(bot: Bot, post: Submission) returns (replies: seq<Reply>)
    requires bot.Valid() && bot.handled == []
    requires Subreddit(post.title).Some?
    modifies bot
    ensures replies == [Reply(post.fullName, GetCommentString(bot.commentFormat, Subreddit(post.title).value))]
    ensures bot.Valid() && bot.handled == RecordAll([], [post])
  {
    FirstCycleFromEmpty(bot.commentFormat, post);
    replies := bot.RunCycle(Some([post]));
  }

  /** A bot started with the default format and no database file, fetching one post
      titled "/r/banana", replies "Subreddit: /r/banana" and remembers that one post;
      the same fetch again then finds nothing new. */
  method ExampleFirstCycle() returns (replies: seq<Reply>, remembered: seq<HandledPost>, again: seq<Submission>)
    ensures replies == [Reply("t3_x", "Subreddit: /r/banana")]
    ensures remembered == [HandledPost("t3_x", 1000.0)]
    ensures again == []
  {
    var bot := FreshBot(DefaultCommentFormat);
    var post := Submission("t3_x", Some("/r/" + "banana"), 1000.0);
    FirstCycleWorkList(post);
    replies := FirstCycle(bot, post);
    FirstCycleFromEmpty(DefaultCommentFormat, post);
    remembered := bot.handled;
    again := bot.FindNewPosts([post]);
  }
}
