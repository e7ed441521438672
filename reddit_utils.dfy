/** Title extraction and reply composition: the two string helpers of the bot.
    The single pattern `/r/[^\s]+` is modelled as a direct scan, not a regex engine. */
module TrendingRedditUtils {
  import opened Results

  /** The token a comment format uses for the subreddit's name. */
  const Placeholder: string := "%subreddit%"

  // ---------------------------------------------------------------------------
  // Character classes
  // ---------------------------------------------------------------------------

  /** Java's regular-expression class `\s` without UNICODE_CHARACTER_CLASS:
      space, tab, line feed, vertical tab, form feed and carriage return. */
  predicate IsRegexSpace(c: char) {
    c == ' ' || c == '\t' || c == '\n' || c == '\U{000B}' || c == '\U{000C}' || c == '\r'
  }

  /** String.trim removes leading and trailing characters at or below U+0020. */
  predicate IsTrimmable(c: char) {
    c <= ' '
  }

  // ---------------------------------------------------------------------------
  // String.trim
  // ---------------------------------------------------------------------------

  function TrimStart(s: string): (r: string)
    ensures |r| <= |s|
    ensures forall i :: 0 <= i < |s| - |r| ==> IsTrimmable(s[i])
    ensures r != [] ==> !IsTrimmable(r[0])
  {
    if s != [] && IsTrimmable(s[0]) then TrimStart(s[1..]) else s
  }

  function TrimEnd(s: string): (r: string)
    ensures |r| <= |s|
    ensures forall i :: |r| <= i < |s| ==> IsTrimmable(s[i])
    ensures r != [] ==> !IsTrimmable(r[|r| - 1])
  {
    if s != [] && IsTrimmable(s[|s| - 1]) then TrimEnd(s[..|s| - 1]) else s
  }

  lemma {:induction false} TrimEndIsPrefix(s: string)
    ensures TrimEnd(s) == s[..|TrimEnd(s)|]
  {
    if s != [] && IsTrimmable(s[|s| - 1]) {
      TrimEndIsPrefix(s[..|s| - 1]);
    }
  }

  lemma {:induction false} TrimStartIsSuffix(s: string)
    ensures TrimStart(s) == s[|s| - |TrimStart(s)|..]
  {
    if s != [] && IsTrimmable(s[0]) {
      TrimStartIsSuffix(s[1..]);
    }
  }

  /** String.trim: the input with the characters at or below U+0020 stripped from both
      ends; what is left starts and ends with a character above U+0020. */
  function Trim(s: string): (r: string)
    ensures var lo := |s| - |TrimStart(s)|;
      && lo + |r| <= |s|
      && r == s[lo .. lo + |r|]
      && (forall i :: 0 <= i < lo ==> IsTrimmable(s[i]))
      && (forall i :: lo + |r| <= i < |s| ==> IsTrimmable(s[i]))
    ensures r != [] ==> !IsTrimmable(r[0]) && !IsTrimmable(r[|r| - 1])
  {
    TrimStartIsSuffix(s);
    TrimEndIsPrefix(TrimStart(s));
    TrimEnd(TrimStart(s))
  }

  // ---------------------------------------------------------------------------
  // The pattern /r/[^\s]+
  // ---------------------------------------------------------------------------

  /** The greedy extent of `[^\s]+` from j: the first `\s` at or after j, or the end. */
  function RunEnd(s: string, j: nat): (e: nat)
    requires j <= |s|
    ensures j <= e <= |s|
    ensures forall k :: j <= k < e ==> !IsRegexSpace(s[k])
    ensures e == |s| || IsRegexSpace(s[e])
    decreases |s| - j
  {
    if j == |s| || IsRegexSpace(s[j]) then j else RunEnd(s, j + 1)
  }

  /** The literal marker `/r/` starts at i. */
  predicate MarkerAt(s: string, i: nat) {
    i + 3 <= |s| && s[i] == '/' && s[i + 1] == 'r' && s[i + 2] == '/'
  }

  /** The pattern `/r/[^\s]+` matches at i: a marker followed by at least one non-`\s`. */
  predicate MatchAt(s: string, i: nat) {
    MarkerAt(s, i) && i + 3 < |s| && !IsRegexSpace(s[i + 3])
  }

  /** The text after a marker at i, up to the next `\s` or the end of s. */
  function NameAt(s: string, i: nat): (name: string)
    requires MarkerAt(s, i)
  {
    s[i + 3 .. RunEnd(s, i + 3)]
  }

  /** Some character survives String.trim. */
  predicate HasVisible(name: string) {
    exists k :: 0 <= k < |name| && !IsTrimmable(name[k])
  }

  /** A match at i that passes the `trim().length() > 3` test. */
  predicate Qualifies(s: string, i: nat) {
    MatchAt(s, i) && HasVisible(NameAt(s, i))
  }

  /** One match: the half-open range [start, end) of s that the pattern covers. */
  datatype Match = Match(start: nat, end: nat)

  /** Matcher.find from position `from`: the leftmost match at or after `from`, taken greedily. */
  function Find(s: string, from: nat): (m: Option<Match>)
    requires from <= |s|
    ensures m.Some? ==> from <= m.value.start && MatchAt(s, m.value.start)
    ensures m.Some? ==> m.value.end == RunEnd(s, m.value.start + 3)
    ensures forall i :: from <= i < |s| && (m.None? || i < m.value.start) ==> !MatchAt(s, i)
    decreases |s| - from
  {
    if from == |s| then None
    else if MatchAt(s, from) then Some(Match(from, RunEnd(s, from + 3)))
    else Find(s, from + 1)
  }

  /** The least position at or after `from` that qualifies. */
  function FirstQualifying(s: string, from: nat): (r: Option<nat>)
    requires from <= |s|
    ensures r.Some? ==> from <= r.value < |s| && Qualifies(s, r.value)
    ensures forall i :: from <= i < |s| && (r.None? || i < r.value) ==> !Qualifies(s, i)
    decreases |s| - from
  {
    if from == |s| then None
    else if Qualifies(s, from) then Some(from)
    else FirstQualifying(s, from + 1)
  }

  /** No position below `pos` qualifies. */
  ghost predicate NoneQualifyBelow(t: string, pos: nat) {
    forall i :: 0 <= i < pos ==> !Qualifies(t, i)
  }

  /** What getSubredditFromTitle computes: the name after the first qualifying marker
      of the title, or null. */
  function Subreddit(title: Option<string>): (r: Option<string>) {
    match title
    case None => None
    case Some(t) =>
      match FirstQualifying(t, 0)
      case None => None
      case Some(i) => Some(NameAt(t, i))
  }

  // ---------------------------------------------------------------------------
  // getSubredditFromTitle
  // ---------------------------------------------------------------------------

  /** The match loop: each match found is tested with trim; a rejected match resumes
      the search at its end; the first accepted match gives the name after `/r/`. */
  method GetSubredditFromTitle(title: Option<string>) returns (r: Option<string>)
    ensures title.None? ==> r.None?
    ensures r == Subreddit(title)
  {
    if title.None? {
      return None;
    }
    var t := title.value;
    var pos := 0;
    var m := Find(t, pos);
    while m.Some?
      invariant pos <= |t| && m == Find(t, pos)
      invariant NoneQualifyBelow(t, pos)
      decreases |t| - pos
    {
      var sub := t[m.value.start .. m.value.end];
      assert sub[3..] == NameAt(t, m.value.start);
      var accepted := PassesTrimTest(sub);
      if accepted {
        AcceptedMatch(t, pos, m.value.start);
        return Some(sub[3..]);
      }
      RejectedMatch(t, pos, m.value.start);
      pos := m.value.end;
      m := Find(t, pos);
    }
    NoMatchLeft(t, pos);
    return None;
  }

  /** The test `sub.trim().length() > 3` on a matched text, which starts with `/r/`:
      it passes exactly when something after the marker survives trimming. */
  method PassesTrimTest(sub: string) returns (ok: bool)
    requires |sub| >= 3 && !IsTrimmable(sub[0])
    ensures ok <==> HasVisible(sub[3..])
  {
    ok := |Trim(sub)| > 3;
    TrimKeepsVisibleTail(sub);
  }

  /** Trimming a text whose first character is visible leaves more than three
      characters exactly when a visible character lies beyond the first three. */
  lemma TrimKeepsVisibleTail(m: string)
    requires |m| >= 3 && !IsTrimmable(m[0])
    ensures |Trim(m)| > 3 <==> HasVisible(m[3..])
  {
    assert TrimStart(m) == m;
    var r := TrimEnd(m);
    TrimEndIsPrefix(m);
    var name := m[3..];
    if |r| > 3 {
      assert !IsTrimmable(name[|r| - 1 - 3]);
    }
    if HasVisible(name) {
      var k :| 0 <= k < |name| && !IsTrimmable(name[k]);
      assert !IsTrimmable(m[k + 3]);
    }
  }

  /** A match whose name holds a visible character, with no qualifying position
      before `pos`, is the one Subreddit names. */
  lemma AcceptedMatch(t: string, pos: nat, start: nat)
    requires pos <= |t| && Find(t, pos).Some? && Find(t, pos).value.start == start
    requires NoneQualifyBelow(t, pos)
    requires HasVisible(NameAt(t, start))
    ensures Subreddit(Some(t)) == Some(NameAt(t, start))
  {
    NoMatchNoQualify(t, pos, start);
    FirstQualifyingIs(t, 0, start);
  }

  /** After a match the trim test rejects, nothing qualifies before the match's end. */
  lemma RejectedMatch(t: string, pos: nat, start: nat)
    requires pos <= |t| && Find(t, pos).Some? && Find(t, pos).value.start == start
    requires NoneQualifyBelow(t, pos)
    requires !HasVisible(NameAt(t, start))
    ensures pos < RunEnd(t, start + 3)
    ensures NoneQualifyBelow(t, RunEnd(t, start + 3))
  {
    RejectedMatchHidesMarkers(t, start);
    NoMatchNoQualify(t, pos, start);
  }

  /** When no match is left after `pos`, the title names no subreddit. */
  lemma NoMatchLeft(t: string, pos: nat)
    requires pos <= |t| && Find(t, pos).None?
    requires NoneQualifyBelow(t, pos)
    ensures Subreddit(Some(t)).None?
  {
    NoMatchNoQualify(t, pos, |t|);
  }

  /** No marker starts inside a match that the trim test rejects. */
  lemma RejectedMatchHidesMarkers(s: string, i: nat)
    requires MatchAt(s, i) && !HasVisible(NameAt(s, i))
    ensures forall k :: i <= k < RunEnd(s, i + 3) ==> !Qualifies(s, k)
  {
    var e := RunEnd(s, i + 3);
    var name := NameAt(s, i);
    forall k | i + 3 <= k < e
      ensures IsTrimmable(s[k])
    {
      assert s[k] == name[k - (i + 3)];
    }
    forall k | i < k < e
      ensures !MarkerAt(s, k)
    {
      if k == i + 2 {
        assert IsTrimmable(s[i + 3]);
      }
    }
  }

  /** Positions the pattern does not match at cannot qualify. */
  lemma NoMatchNoQualify(s: string, lo: nat, hi: nat)
    requires lo <= hi <= |s|
    requires forall i :: lo <= i < hi ==> !MatchAt(s, i)
    ensures forall i :: lo <= i < hi ==> !Qualifies(s, i)
  {
  }

  /** A qualifying position with none before it is the one FirstQualifying finds. */
  lemma FirstQualifyingIs(s: string, from: nat, k: nat)
    requires from <= k < |s| && Qualifies(s, k)
    requires forall i :: from <= i < k ==> !Qualifies(s, i)
    ensures FirstQualifying(s, from) == Some(k)
  {
  }

  // ---------------------------------------------------------------------------
  // What getSubredditFromTitle promises
  // ---------------------------------------------------------------------------

  /** `"/r/" + name` occurs in t at i. */
  predicate MentionAt(t: string, i: nat, name: string) {
    i + 3 + |name| <= |t| && t[i .. i + 3 + |name|] == "/r/" + name
  }

  /** A name found in a title is non-empty, holds a visible character and no `\s`,
      follows a `/r/` in the title, and runs up to the next `\s` or the end of the title.
      No name is found exactly when no marker qualifies. */
  lemma SubredditFoundInTitle(t: string)
    ensures Subreddit(Some(t)).None? <==> forall i :: 0 <= i < |t| ==> !Qualifies(t, i)
    ensures Subreddit(Some(t)).Some? ==>
      var name := Subreddit(Some(t)).value;
      && name != []
      && HasVisible(name)
      && (forall k :: 0 <= k < |name| ==> !IsRegexSpace(name[k]))
      && exists i: nat :: MentionAt(t, i, name) && (i + 3 + |name| == |t| || IsRegexSpace(t[i + 3 + |name|]))
  {
    var r := FirstQualifying(t, 0);
    if r.Some? {
      var i := r.value;
      var name := NameAt(t, i);
      var e := RunEnd(t, i + 3);
      assert e == i + 3 + |name|;
      forall k | 0 <= k < |name|
        ensures !IsRegexSpace(name[k])
      {
        assert name[k] == t[i + 3 + k];
      }
      assert t[i .. e] == "/r/" + name;
      assert MentionAt(t, i, name);
    }
  }

  /** The first qualifying marker wins, whatever markers follow it. */
  lemma FirstQualifyingMarkerWins(t: string, i: nat)
    requires Qualifies(t, i)
    requires forall k :: 0 <= k < i ==> !Qualifies(t, k)
    ensures Subreddit(Some(t)) == Some(NameAt(t, i))
  {
    FirstQualifyingIs(t, 0, i);
  }

  /** A title without the marker names no subreddit. */
  lemma NoMarkerNoSubreddit(t: string)
    requires forall i :: 0 <= i < |t| ==> !MarkerAt(t, i)
    ensures Subreddit(Some(t)) == None
  {
    NoMatchNoQualify(t, 0, |t|);
  }

  /** A marker followed by `\s`, or by the end of the title, is skipped. */
  lemma BareMarkerSkipped(t: string, i: nat)
    requires MarkerAt(t, i) && (i + 3 == |t| || IsRegexSpace(t[i + 3]))
    ensures !Qualifies(t, i)
  {
  }

  // ---------------------------------------------------------------------------
  // getCommentString
  // ---------------------------------------------------------------------------

  /** The placeholder occurs in s at i. */
  predicate PlaceholderAt(s: string, i: nat) {
    i + |Placeholder| <= |s| && s[i .. i + |Placeholder|] == Placeholder
  }

  /** String.replace with a literal target: every occurrence of the placeholder, found
      left to right and without overlaps, becomes the subreddit's name. */
  function GetCommentString(format: string, subreddit: string): (r: string)
    decreases |format|
  {
    if |format| < |Placeholder| then format
    else if format[..|Placeholder|] == Placeholder then
      subreddit + GetCommentString(format[|Placeholder|..], subreddit)
    else
      [format[0]] + GetCommentString(format[1..], subreddit)
  }

  /** A format without the placeholder comes back unchanged. */
  lemma {:induction false} NoPlaceholderUnchanged(format: string, subreddit: string)
    requires forall i :: 0 <= i < |format| ==> !PlaceholderAt(format, i)
    ensures GetCommentString(format, subreddit) == format
    decreases |format|
  {
    if |format| >= |Placeholder| {
      assert !PlaceholderAt(format, 0);
      forall i | 0 <= i < |format| - 1
        ensures !PlaceholderAt(format[1..], i)
      {
        assert !PlaceholderAt(format, i + 1);
        if i + |Placeholder| <= |format| - 1 {
          assert format[1..][i .. i + |Placeholder|] == format[i + 1 .. i + 1 + |Placeholder|];
        }
      }
      NoPlaceholderUnchanged(format[1..], subreddit);
      assert format == [format[0]] + format[1..];
    }
  }

  /** Filling in the placeholder itself gives the format back. */
  lemma {:induction false} FillWithPlaceholderIsIdentity(format: string)
    ensures GetCommentString(format, Placeholder) == format
    decreases |format|
  {
    if |format| < |Placeholder| {
    } else if format[..|Placeholder|] == Placeholder {
      FillWithPlaceholderIsIdentity(format[|Placeholder|..]);
      assert format == format[..|Placeholder|] + format[|Placeholder|..];
    } else {
      FillWithPlaceholderIsIdentity(format[1..]);
      assert format == [format[0]] + format[1..];
    }
  }

  /** Text without `%` in front of the rest of a format is copied through as it is. */
  lemma {:induction false} PlainTextCopied(a: string, b: string, subreddit: string)
    requires '%' !in a
    ensures GetCommentString(a + b, subreddit) == a + GetCommentString(b, subreddit)
    decreases |a|
  {
    if a == [] {
      assert a + b == b;
    } else {
      SplitFirst(a, b);
      OmittedFromTail(a, '%');
      OtherCharacterCopied(a + b, subreddit);
      PlainTextCopied(a[1..], b, subreddit);
    }
  }

  /** A concatenation starts with its left part's first character. */
  lemma SplitFirst(a: string, b: string)
    requires a != []
    ensures (a + b)[0] == a[0] && (a + b)[1..] == a[1..] + b && a == [a[0]] + a[1..]
  {
  }

  /** A character a string lacks its rest lacks too. */
  lemma OmittedFromTail(a: string, c: char)
    requires a != [] && c !in a
    ensures c !in a[1..]
  {
    assert forall k :: 0 <= k < |a| - 1 ==> a[1..][k] == a[k + 1];
  }

  /** A character other than `%` at the front of a format is copied through. */
  lemma OtherCharacterCopied(s: string, subreddit: string)
    requires s != [] && s[0] != '%'
    ensures GetCommentString(s, subreddit) == [s[0]] + GetCommentString(s[1..], subreddit)
  {
    if |s| >= |Placeholder| {
      assert s[..|Placeholder|][0] != Placeholder[0];
    } else {
      assert |s[1..]| < |Placeholder|;
      assert s == [s[0]] + s[1..];
    }
  }

  /** A placeholder at the front of a format becomes the subreddit's name. */
  lemma LeadingPlaceholderFilled(b: string, subreddit: string)
    ensures GetCommentString(Placeholder + b, subreddit) == subreddit + GetCommentString(b, subreddit)
  {
    var s := Placeholder + b;
    assert s[..|Placeholder|] == Placeholder;
    assert s[|Placeholder|..] == b;
  }

  /** The number of placeholders String.replace finds, left to right and without
      overlaps. None are found exactly when the placeholder does not occur. */
  function PlaceholderCount(format: string): (k: nat)
    ensures k == 0 <==> forall i :: 0 <= i < |format| ==> !PlaceholderAt(format, i)
    decreases |format|
  {
    if |format| < |Placeholder| then 0
    else if format[..|Placeholder|] == Placeholder then
      assert PlaceholderAt(format, 0);
      1 + PlaceholderCount(format[|Placeholder|..])
    else
      assert forall j :: 1 <= j < |format| ==> (PlaceholderAt(format, j) <==> PlaceholderAt(format[1..], j - 1)) by {
        forall j | 1 <= j < |format|
          ensures PlaceholderAt(format, j) <==> PlaceholderAt(format[1..], j - 1)
        {
          if j + |Placeholder| <= |format| {
            assert format[1..][j - 1 .. j - 1 + |Placeholder|] == format[j .. j + |Placeholder|];
          }
        }
      }
      assert forall i :: 0 <= i < |format| - 1 ==> (PlaceholderAt(format[1..], i) <==> PlaceholderAt(format, i + 1));
      assert !PlaceholderAt(format, 0);
      PlaceholderCount(format[1..])
  }

  /** Each placeholder found is replaced by the name: the reply is longer than the format
      by the difference in length, once per placeholder. */
  lemma {:induction false} CommentLength(format: string, subreddit: string)
    ensures |GetCommentString(format, subreddit)| ==
      |format| + PlaceholderCount(format) * (|subreddit| - |Placeholder|)
    decreases |format|
  {
    if |format| >= |Placeholder| {
      var d := |subreddit| - |Placeholder|;
      if format[..|Placeholder|] == Placeholder {
        var rest := format[|Placeholder|..];
        CommentLength(rest, subreddit);
        PlaceholderStep(format, subreddit);
        LengthArithmetic(|GetCommentString(format, subreddit)|, |GetCommentString(rest, subreddit)|,
          |format|, |subreddit|, PlaceholderCount(rest));
      } else {
        CommentLength(format[1..], subreddit);
        OtherStep(format, subreddit);
      }
    }
  }

  lemma LengthArithmetic(whole: int, tail: int, n: int, s: int, k: int)
    requires whole == s + tail && tail == (n - 11) + k * (s - 11)
    ensures whole == n + (k + 1) * (s - 11)
  {
  }

  lemma PlaceholderStep(format: string, subreddit: string)
    requires |format| >= |Placeholder| && format[..|Placeholder|] == Placeholder
    ensures |GetCommentString(format, subreddit)| == |subreddit| + |GetCommentString(format[|Placeholder|..], subreddit)|
    ensures PlaceholderCount(format) == PlaceholderCount(format[|Placeholder|..]) + 1
    ensures |format[|Placeholder|..]| == |format| - |Placeholder|
  {
  }

  lemma OtherStep(format: string, subreddit: string)
    requires |format| >= |Placeholder| && format[..|Placeholder|] != Placeholder
    ensures |GetCommentString(format, subreddit)| == 1 + |GetCommentString(format[1..], subreddit)|
    ensures PlaceholderCount(format) == PlaceholderCount(format[1..])
  {
  }

  /** The one case of the utility's unit test: "Link: /r/%subreddit%" with "banana". */
  lemma ExampleCommentText(format: string)
    requires format == "Link: /r/" + "%subreddit%"
    ensures GetCommentString(format, "banana") == "Link: /r/banana"
  {
    PlainTextCopied("Link: /r/", Placeholder, "banana");
    LeadingPlaceholderFilled([], "banana");
    assert Placeholder + [] == Placeholder;
  }
}
