# TrendingReddits bot — a Dafny model of its core

The bot watches the newest submissions of a subreddit. When a submission's title names
another subreddit (`/r/name`), it composes a reply from a comment format in which
`%subreddit%` stands for that name. It remembers every submission it has dealt with in
a database of handled posts. Each entry is a full name and a creation time, and the
entries are kept sorted by creation time and saved to `remembered_posts.json` after
each post.

The model covers four parts of the bot:

- **Title extraction and reply text** (module `TrendingRedditUtils`,
  `reddit_utils.dfy`).
  - `GetSubredditFromTitle` is the matcher loop over the pattern `/r/[^\s]+`, written
    as a scan. It uses Java's `\s` (space, tab, line feed, vertical tab, form feed and
    carriage return) and `String.trim` (which strips every character up to U+0020).
  - The loop is proved equal to `Subreddit`, the name after the first qualifying
    marker.
  - `GetCommentString` is `String.replace` of the placeholder, read left to right
    without overlaps.
  - Worked versions of the unit tests' titles are in `reddit_utils_examples.dfy`.
- **The stored record** (module `HandledPosts`, `handled_post.dfy`). It holds the JSON
  values of json-simple, the `HandledPost` record and its `AsObject` encoding.
- **The database** (module `RememberedPosts`, `remembered_posts.dfy`).
  - The three-way comparator.
  - `Collections.sort`, modelled as a stable insertion sort (`SortByTimestamp`). A
    uniqueness lemma shows that every stable sort by the comparator gives the same
    list.
  - Record decoding, loading and encoding, with the save/load round trip.
- **The bot** (module `TrendingRedditBot`, `bot.dfy`).
  - A class `Bot` whose fields are the database (`handled`) and the database file's
    contents (`store`). Its methods mirror the source's steps:
    - the backward duplicate scan (`IsHandled`);
    - the filter that builds the work-list (`FindNewPosts`);
    - append-and-sort (`RecordPost`);
    - the handling loop (`HandleNewPosts`);
    - one pass of the main loop (`RunCycle`);
    - loading and saving.
  - Each method is proved against the spec functions `Handled`, `Unhandled`,
    `RecordAll` and `Replies`, and facts about those functions are proved as lemmas.
  - `bot_examples.dfy` steps the first cycle of a fresh bot through the methods and
    proves the outcome.

Timestamps are `real`: the source's `double` is taken as exact. A failed fetch is an
absent batch (`Option`). The database file is a value of type `StoredFile`:

- missing;
- unparsable, which stands for an I/O error or text that is not JSON;
- a JSON value.

Replies are returned as values instead of being posted, because posting is disabled in
the source.

The model departs from the code in one place. At TrendingRedditBot.java:253,
`(String) jObj.get("full_id")` lets a record without `full_id` through, while every
other malformed record is fatal: a non-object element through the check at 245-248,
a bad field through the catch at 262-265. The model's main path rejects such a record
(see Findings).

The code does not keep names unique in the database. The scan stops at the first entry
created more than 60 seconds before the submission (119). A post whose earlier entry
lies behind such an entry is therefore taken as new and recorded again
(`OldNewestEntryHidesTheRest` and `DuplicateBeforeCutoffMissed`).

## Model

| member | source | states |
|---|---|---|
| TrendingRedditUtils.GetSubredditFromTitle | src/me/timothy/trendingreddit/TrendingRedditUtils.java:22-32 | A null title gives null. The match loop, which resumes after each rejected match, returns exactly the name at the first qualifying `/r/` marker (`Subreddit`), or null when none qualifies |
| TrendingRedditUtils.Trim | src/me/timothy/trendingreddit/TrendingRedditUtils.java:28 | `String.trim` gives the contiguous middle of its input: every character stripped before or after it is at or below U+0020, and its first and last characters lie above U+0020 |
| TrendingRedditUtils.Find | src/me/timothy/trendingreddit/TrendingRedditUtils.java:25-26 | `Matcher.find` from a position gives a match of `/r/[^\s]+` at or after it that runs greedily to the next `\s` or the end. It is the leftmost such match, and there is none when no match exists |
| TrendingRedditUtils.PassesTrimTest | src/me/timothy/trendingreddit/TrendingRedditUtils.java:28 | On a match starting with `/r/`, `trim().length() > 3` holds exactly when a character above U+0020 follows the marker |
| TrendingRedditUtils.SubredditFoundInTitle | src/me/timothy/trendingreddit/TrendingRedditUtils.java:13-32 | No name is found exactly when no marker qualifies. A found name is non-empty, holds a visible character and no `\s`, follows `/r/` in the title, and runs up to the next `\s` or the end of the title |
| TrendingRedditUtils.FirstQualifyingMarkerWins | src/me/timothy/trendingreddit/TrendingRedditUtils.java:26-29 | The name at the first qualifying marker is the result, whatever markers follow |
| TrendingRedditUtils.NoMarkerNoSubreddit | src/me/timothy/trendingreddit/TrendingRedditUtils.java:30-31 | A title without `/r/` names no subreddit |
| TrendingRedditUtils.BareMarkerSkipped | src/me/timothy/trendingreddit/TrendingRedditUtils.java:13 | A `/r/` followed by `\s` or by the end of the title never qualifies |
| TrendingRedditUtils.GetCommentString | src/me/timothy/trendingreddit/TrendingRedditUtils.java:40-42 | `String.replace` of `%subreddit%` by the name, leftmost occurrence first and without overlap. Its properties are stated by the lemmas in the rows below: `NoPlaceholderUnchanged`, `FillWithPlaceholderIsIdentity`, `PlainTextCopied`, `LeadingPlaceholderFilled` and `CommentLength` |
| TrendingRedditUtils.NoPlaceholderUnchanged | src/me/timothy/trendingreddit/TrendingRedditUtils.java:40-42 | A format without `%subreddit%` is returned unchanged |
| TrendingRedditUtils.FillWithPlaceholderIsIdentity | src/me/timothy/trendingreddit/TrendingRedditUtils.java:41 | Filling in the placeholder text itself gives the format back |
| TrendingRedditUtils.PlainTextCopied | src/me/timothy/trendingreddit/TrendingRedditUtils.java:41 | Text without `%` in front of a format is copied through, and the rest is replaced independently |
| TrendingRedditUtils.LeadingPlaceholderFilled | src/me/timothy/trendingreddit/TrendingRedditUtils.java:41 | A placeholder at the front of the format becomes the name, and the rest is replaced independently |
| TrendingRedditUtils.PlaceholderCount | src/me/timothy/trendingreddit/TrendingRedditUtils.java:41 | The count of non-overlapping occurrences found left to right is zero exactly when the placeholder occurs nowhere |
| TrendingRedditUtils.CommentLength | src/me/timothy/trendingreddit/TrendingRedditUtils.java:41 | The reply's length is the format's length plus, per occurrence, the name's length minus 11 |
| TrendingRedditUtils.ExampleCommentText | src/me/timothy/trendingreddit/tests/TrendingRedditUtilsTest.java:62-77 | `"Link: /r/%subreddit%"` with `"banana"` gives `"Link: /r/banana"` |
| TrendingRedditUtilsExamples.PlainThenNamed | src/me/timothy/trendingreddit/TrendingRedditUtils.java:26-29 | Text without `/`, then `/r/` and a well-formed name: that name is found |
| TrendingRedditUtilsExamples.PlainBareThenNamed | src/me/timothy/trendingreddit/TrendingRedditUtils.java:26-29 | A bare `/r/` before a named one is skipped, and the second name is found |
| TrendingRedditUtilsExamples.PlainOnly | src/me/timothy/trendingreddit/TrendingRedditUtils.java:30-31 | A title without `/` names no subreddit |
| TrendingRedditUtilsExamples.PlainThenBare | src/me/timothy/trendingreddit/TrendingRedditUtils.java:26-31 | A title ending in a bare `/r/` names no subreddit |
| TrendingRedditUtilsExamples.ExampleJustTheSubreddit | src/me/timothy/trendingreddit/tests/TrendingRedditUtilsTest.java:14-18 | `"/r/happycrowds"` gives `"happycrowds"` |
| TrendingRedditUtilsExamples.ExampleSomethingBefore | src/me/timothy/trendingreddit/tests/TrendingRedditUtilsTest.java:19-23 | `"[TRENDING] /r/happycrowds"` gives `"happycrowds"` |
| TrendingRedditUtilsExamples.ExampleSomethingAfter | src/me/timothy/trendingreddit/tests/TrendingRedditUtilsTest.java:24-28 | `"/r/banana is getting pretty popular"` gives `"banana"` |
| TrendingRedditUtilsExamples.ExampleMultipleSubreddits | src/me/timothy/trendingreddit/tests/TrendingRedditUtilsTest.java:29-33 | `"Today, /r/alakazam and /r/wtf have a contest"` gives `"alakazam"` |
| TrendingRedditUtilsExamples.ExampleEmptyThenReal | src/me/timothy/trendingreddit/tests/TrendingRedditUtilsTest.java:34-38 | `"Today, /r/ and /r/archers did well."` gives `"archers"` |
| TrendingRedditUtilsExamples.ExampleNullTitle | src/me/timothy/trendingreddit/tests/TrendingRedditUtilsTest.java:39-43 | A null title gives null |
| TrendingRedditUtilsExamples.ExampleNothingToSee | src/me/timothy/trendingreddit/tests/TrendingRedditUtilsTest.java:44-48 | `"[META] Nothing to see here"` gives null |
| TrendingRedditUtilsExamples.ExampleMissingName | src/me/timothy/trendingreddit/tests/TrendingRedditUtilsTest.java:49-53 | `"[META] Please prefix with /r/"` gives null |
| HandledPosts.AsObject | src/me/timothy/trendingreddit/HandledPost.java:10-15 | The record is an object with exactly the keys `full_id` and `timestamp`, holding the post's name as a string and its time as a number. `RememberedPosts.DecodeAsObject` is its inverse |
| RememberedPosts.Compare | src/me/timothy/trendingreddit/TrendingRedditBot.java:44-55 | The comparator gives 0 exactly for equal times, 1 exactly when the first is later, and -1 exactly when it is earlier |
| RememberedPosts.CompareIsTotalPreorder | src/me/timothy/trendingreddit/TrendingRedditBot.java:44-55 | The comparator is antisymmetric in sign and transitive, and equal elements compare alike, as `Comparator` requires |
| RememberedPosts.SortedByComparator | src/me/timothy/trendingreddit/TrendingRedditBot.java:167 | The database order, with times never decreasing, is exactly "no entry compares above a later one" |
| RememberedPosts.SortByTimestamp | src/me/timothy/trendingreddit/TrendingRedditBot.java:167 | `Collections.sort`, here and at line 268, keeps the length of the list. `SortByTimestampSpec`, `StableSortAgrees` and `SortOfSorted` state what it computes |
| RememberedPosts.SortByTimestampSpec | src/me/timothy/trendingreddit/TrendingRedditBot.java:167 | The sort gives a sorted permutation of its input that keeps the relative order of entries with equal times, so it is stable |
| RememberedPosts.SortedUnique | src/me/timothy/trendingreddit/TrendingRedditBot.java:167 | Two sorted lists with the same entries of each time, in the same order, are equal |
| RememberedPosts.StableSortAgrees | src/me/timothy/trendingreddit/TrendingRedditBot.java:167 | Every stable sort by the comparator gives the same list as `SortByTimestamp` |
| RememberedPosts.SortOfSorted | src/me/timothy/trendingreddit/TrendingRedditBot.java:268 | Sorting an already sorted database changes nothing |
| RememberedPosts.InsertionPointSpec | src/me/timothy/trendingreddit/TrendingRedditBot.java:166-167 | Entries before the insertion point are not later than the new entry, and the entry at the point is later |
| RememberedPosts.InsertKeepsTimeOrder | src/me/timothy/trendingreddit/TrendingRedditBot.java:166-167 | Inserting into a sorted list puts the new entry last among the entries of its time, and leaves the other times' order alone |
| RememberedPosts.AppendThenSortInserts | src/me/timothy/trendingreddit/TrendingRedditBot.java:166-167 | Appending to the sorted database and sorting splices the entry in after the entries not later than it and before every later entry, and keeps every other entry in place |
| RememberedPosts.DecodeRecord | src/me/timothy/trendingreddit/TrendingRedditBot.java:245-254 | A non-object is rejected exactly as such. A missing or non-string `full_id` is rejected, and so is a missing or non-numeric `timestamp`. An object with a string `full_id` and a numeric `timestamp` decodes to that name and time, whatever other keys it carries. A decoded post's record fields are present in the object |
| RememberedPosts.DecodeAll | src/me/timothy/trendingreddit/TrendingRedditBot.java:244-257 | The decoding loop gives one post per element when it succeeds. `DecodeAllSpec` states which elements decide it |
| RememberedPosts.DecodeAllSpec | src/me/timothy/trendingreddit/TrendingRedditBot.java:244-257 | Decoding succeeds exactly when every element decodes, and then gives each element's post in place. Otherwise it fails with the error of the first failing element |
| RememberedPosts.Load | src/me/timothy/trendingreddit/TrendingRedditBot.java:235-269 | A database loaded without error is sorted |
| RememberedPosts.LoadKeepsEveryRecord | src/me/timothy/trendingreddit/TrendingRedditBot.java:244-268 | A database loaded without error holds exactly the decoded records, each once |
| RememberedPosts.Encode | src/me/timothy/trendingreddit/TrendingRedditBot.java:274-277 | The saved array holds one record per entry, each entry's `asObject`, in database order. `DecodeEncoded` is its inverse |
| RememberedPosts.DecodeAsObject | src/me/timothy/trendingreddit/HandledPost.java:10-15 | A post's record decodes back to the same name and time |
| RememberedPosts.DecodeEncoded | src/me/timothy/trendingreddit/TrendingRedditBot.java:272-277 | The saved array decodes to the saved posts, in order |
| RememberedPosts.SaveLoadRoundTrip | src/me/timothy/trendingreddit/TrendingRedditBot.java:272-285 | Loading what was saved gives the same posts sorted. A sorted database loads back unchanged |
| RememberedPosts.DecodeRecordAsWritten | src/me/timothy/trendingreddit/TrendingRedditBot.java:250-254 | As written, an object with a numeric `timestamp` and a missing or null `full_id` decodes to a null name instead of an error. With a string `full_id` it decodes to that name, and a decoded name is null exactly when the field is missing or null. A `full_id` of any other type is rejected, as the cast's `ClassCastException` is (262) |
| RememberedPosts.RecordWithoutFullIdAccepted | src/me/timothy/trendingreddit/TrendingRedditBot.java:253 | A record holding only a timestamp is accepted as written, with a null name, and rejected by the corrected decoding |
| RememberedPosts.DecodingsAgreeOnNamedRecords | src/me/timothy/trendingreddit/TrendingRedditBot.java:253-254 | Where `full_id` is a string, the as-written and the corrected decodings agree |
| TrendingRedditBot.EntryFor | src/me/timothy/trendingreddit/TrendingRedditBot.java:163-165 | The entry recorded for a submission carries its full name and its creation time |
| TrendingRedditBot.Handled | src/me/timothy/trendingreddit/TrendingRedditBot.java:115-121 | An empty database shows nothing as handled. `Bot.IsHandled` is proved equal to it, and `NewestEntryFound`, `RecentEntryFound` and `OldNewestEntryHidesTheRest` state where the scan stops |
| TrendingRedditBot.NewestEntryFound | src/me/timothy/trendingreddit/TrendingRedditBot.java:115-118 | When the newest entry bears the id, it is found, whatever the times |
| TrendingRedditBot.Unhandled | src/me/timothy/trendingreddit/TrendingRedditBot.java:112-127 | A fetched submission is on the work-list exactly when the scan does not show it handled |
| TrendingRedditBot.Bot.IsHandled | src/me/timothy/trendingreddit/TrendingRedditBot.java:114-122 | The backward scan with its two breaks says handled exactly when an entry with the id lies after every entry older than `createdUTC - 60` |
| TrendingRedditBot.Bot.FindNewPosts | src/me/timothy/trendingreddit/TrendingRedditBot.java:112-127 | The work-list starts empty and is the unhandled submissions, in feed order |
| TrendingRedditBot.Bot.RecordPost | src/me/timothy/trendingreddit/TrendingRedditBot.java:163-167 | Recording keeps the database sorted. It appends the post's name and time and sorts, which is the same as splicing the entry in at its insertion point |
| TrendingRedditBot.Bot.HandleNewPosts | src/me/timothy/trendingreddit/TrendingRedditBot.java:130-170 | One reply per post whose title names a subreddit, in order. Every post is recorded whether or not it got a reply, the file holds the final database, and the database stays sorted |
| TrendingRedditBot.Bot.RunCycle | src/me/timothy/trendingreddit/TrendingRedditBot.java:101-177 | A failed fetch changes nothing. Otherwise the unhandled submissions are handled as above |
| TrendingRedditBot.Bot.LoadRememberedPosts | src/me/timothy/trendingreddit/TrendingRedditBot.java:235-269 | No file gives an empty database. Otherwise the database becomes the decoded records, sorted, or an error is reported for an unreadable file, a non-array or the first bad record |
| TrendingRedditBot.Bot.SaveRememberedPosts | src/me/timothy/trendingreddit/TrendingRedditBot.java:272-285 | The file receives every entry's record, in database order |
| TrendingRedditBot.Bot.constructor | src/me/timothy/trendingreddit/TrendingRedditBot.java:235-236 | A bot starts with an empty database |
| TrendingRedditBot.FirstFailureIsTheError | src/me/timothy/trendingreddit/TrendingRedditBot.java:244-265 | Loading reports the error of the first record that fails to decode |
| TrendingRedditBot.NotHandledPastCutoff | src/me/timothy/trendingreddit/TrendingRedditBot.java:119-120 | A scan that stops at an old entry, or runs off the oldest end, without a match means not handled |
| TrendingRedditBot.UnhandledKeepsFeedOrder | src/me/timothy/trendingreddit/TrendingRedditBot.java:113-127 | Filtering a concatenated batch is filtering each part, so the work-list is a subsequence of the batch in feed order |
| TrendingRedditBot.NoneHandledAllQueued | src/me/timothy/trendingreddit/TrendingRedditBot.java:113-127 | When no fetched submission is handled, the work-list is the whole batch |
| TrendingRedditBot.UnknownPostQueued | src/me/timothy/trendingreddit/TrendingRedditBot.java:113-126 | A submission whose name no entry bears is always put on the work-list |
| TrendingRedditBot.RecentEntryFound | src/me/timothy/trendingreddit/TrendingRedditBot.java:115-121 | In a sorted database, an entry with the id created no more than 60 seconds before the submission is always found |
| TrendingRedditBot.OldNewestEntryHidesTheRest | src/me/timothy/trendingreddit/TrendingRedditBot.java:115-121 | When the newest entry bears another id and is older than the cutoff, nothing behind it is detected |
| TrendingRedditBot.DuplicateBeforeCutoffMissed | src/me/timothy/trendingreddit/TrendingRedditBot.java:115-121 | A concrete duplicate stored behind an old entry is taken as new |
| TrendingRedditBot.RecordAll | src/me/timothy/trendingreddit/TrendingRedditBot.java:163-167 | Recording a work-list adds one entry per post. `RecordAllKeeps` and `EveryPostRemembered` state which entries |
| TrendingRedditBot.RecordAllKeeps | src/me/timothy/trendingreddit/TrendingRedditBot.java:163-167 | Recording a work-list keeps the database sorted, and its entries are the earlier ones plus one per post |
| TrendingRedditBot.EveryPostRemembered | src/me/timothy/trendingreddit/TrendingRedditBot.java:140-168 | Every post of the work-list is remembered whether or not a subreddit was found, and every earlier entry is kept |
| TrendingRedditBot.RecordedPostIsHandled | src/me/timothy/trendingreddit/TrendingRedditBot.java:115-121 | A post just recorded is found by the next scan for it |
| TrendingRedditBot.NextCycleFindsNothing | src/me/timothy/trendingreddit/TrendingRedditBot.java:112-167 | When each stored entry bearing a fetched post's name carries that post's creation time, fetching the same batch again after a cycle finds nothing new |
| TrendingRedditBot.HandledAfterCycle | src/me/timothy/trendingreddit/TrendingRedditBot.java:112-167 | When each stored entry bearing a fetched post's name carries that post's creation time, every fetched post is handled after the cycle |
| TrendingRedditBot.EntryStaysFound | src/me/timothy/trendingreddit/TrendingRedditBot.java:115-121 | An entry of the sorted database, or of the work-list, is found after recording by a scan at its own creation time |
| TrendingRedditBot.AllHandledNoneLeft | src/me/timothy/trendingreddit/TrendingRedditBot.java:124-126 | A batch whose every post is handled leaves an empty work-list |
| TrendingRedditBot.Replies | src/me/timothy/trendingreddit/TrendingRedditBot.java:140-144 | A work-list gets at most one reply per post. `EveryReplyAnswersAPost` and `RepliesAnswerEveryPost` state which replies |
| TrendingRedditBot.EveryReplyAnswersAPost | src/me/timothy/trendingreddit/TrendingRedditBot.java:140-144 | Every reply answers a work-list post whose title names a subreddit, and carries the format with that name filled in |
| TrendingRedditBot.RepliesAnswerEveryPost | src/me/timothy/trendingreddit/TrendingRedditBot.java:140-144 | Every work-list post whose title names a subreddit gets a reply carrying the format with that name filled in |
| TrendingRedditBot.NoSubredditNoReply | src/me/timothy/trendingreddit/TrendingRedditBot.java:140-141 | Posts without a subreddit in the title get no reply |
| TrendingRedditBotExamples.ExampleDefaultComment | src/me/timothy/trendingreddit/TrendingRedditBot.java:215 | The default format with `"banana"` gives `"Subreddit: /r/banana"` |
| TrendingRedditBotExamples.SingleReply | src/me/timothy/trendingreddit/TrendingRedditBot.java:140-144 | A single post with a subreddit in the title gets exactly one reply |
| TrendingRedditBotExamples.FirstCycleFromEmpty | src/me/timothy/trendingreddit/TrendingRedditBot.java:112-167 | From an empty database, one post with a subreddit is new and gets one reply. The database becomes that post's entry alone, and then the post is no longer new |
| TrendingRedditBotExamples.FirstCycle | src/me/timothy/trendingreddit/TrendingRedditBot.java:101-170 | A bot with an empty database, given one post with a subreddit, replies once and remembers the post |
| TrendingRedditBotExamples.ExampleFirstCycle | src/me/timothy/trendingreddit/TrendingRedditBot.java:101-170 | A fresh bot using the default format, given `"/r/banana"`, replies `"Subreddit: /r/banana"`, remembers exactly `("t3_x", 1000)`, and then finds nothing new in the same batch |

## Left out

- The Reddit client is left out: the user agent, authentication, `getSubmissions`, `setRestClient` and `getTitle` (TrendingRedditBot.java:84-99, 106, 134-139). These are network calls. The fetched batch is an input, and a failed fetch is `None`.
- Posting the comment, and its retry with exponential back-off, are left out (TrendingRedditBot.java:146-160). They are disabled in the source, so replies are returned as values.
- `sleepFor`, the endless `while (true)` loop and the cooldowns are left out. They are timing only, so one pass is `RunCycle`.
- Logging is left out. This includes the warning for a format without the placeholder.
- `loadConfiguration` is left out, because it reads files. The user name and password play no part in the model. The comment format is a constructor parameter, and `DefaultCommentFormat` is its value when no format file exists.
- JSON text parsing and writing, and the file system, are left out. The file is a `StoredFile`, and an I/O error or unparsable text is `Unparsable`. A failing write, which the source follows with an exit, is not modelled.
- Timestamps are `real`. The model has no `double` rounding, NaN or infinities, and `createdUTC - 60` is exact.
- Java's general regex engine is left out. Only the one pattern, `/r/[^\s]+`, is modelled, as a direct scan.
- TrendingRedditBot.Bot.LoadRememberedPosts: on an error it leaves `handled` empty and returns the error. The source instead exits the process, with the records read so far in memory.
- RememberedPosts.DecodeRecord: a `full_id` that is present but not a string is a `ClassCastException` in the source, so the process exits. The model rejects it with `BadFullId`. A missing or null `full_id` is rejected too, which departs from the code (see Findings).
- `asObject` cannot change the record's fields, because `HandledPost` is a value.

## Findings

| source | as written | input that shows it | evidently intended | confidence | as-written member | corrected member |
|---|---|---|---|---|---|---|
| src/me/timothy/trendingreddit/TrendingRedditBot.java:253 | `(String) jObj.get("full_id")` yields null for a missing or JSON-null field and does not throw. The record is accepted with a null name, and the duplicate scan at line 116 then dereferences it | a database file holding `[{"timestamp": 1000}]` | a record without a string `full_id` is a fatal load error, like the other malformed records | not executed | RememberedPosts.RecordWithoutFullIdAccepted | RememberedPosts.DecodeRecord |
