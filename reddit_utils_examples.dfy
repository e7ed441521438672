/** The titles of the utility's unit tests, worked through the model of getSubredditFromTitle.
    Each title is split into pieces, and each piece says which of its positions qualify. */
module TrendingRedditUtilsExamples {
  import opened Results
  import opened TrendingRedditUtils

  predicate NoRegexSpace(s: string) {
    forall k :: 0 <= k < |s| ==> !IsRegexSpace(s[k])
  }

  /** A stretch without `/` holds no qualifying position. */
  lemma PlainStretch(t: string, p: string, s: string, r: string)
    requires t == p + s + r && '/' !in s
    ensures forall i :: |p| <= i < |p| + |s| ==> !Qualifies(t, i)
  {
    forall i | |p| <= i < |p| + |s|
      ensures !MarkerAt(t, i)
    {
      assert t[i] == s[i - |p|] && s[i - |p|] in s;
    }
  }

  /** A marker followed by `\s` or by the end holds no qualifying position. */
  lemma BareStretch(t: string, p: string, r: string)
    requires t == p + "/r/" + r && (r == [] || IsRegexSpace(r[0]))
    ensures forall i :: |p| <= i < |p| + 3 ==> !Qualifies(t, i)
  {
    assert t[|p| + 1] == 'r';
    if r != [] {
      assert t[|p| + 3] == r[0];
    }
  }

  /** A marker followed by a visible, `\s`-free name and then `\s` or the end qualifies,
      and carries that name. */
  lemma NamedStretch(t: string, p: string, name: string, r: string)
    requires t == p + "/r/" + name + r
    requires name != [] && !IsTrimmable(name[0]) && NoRegexSpace(name)
    requires r == [] || IsRegexSpace(r[0])
    ensures Qualifies(t, |p|)
    ensures NameAt(t, |p|) == name
  {
    var j := |p| + 3;
    forall k | j <= k < j + |name|
      ensures !IsRegexSpace(t[k])
    {
      assert t[k] == name[k - j];
    }
    if r != [] {
      assert t[j + |name|] == r[0];
    }
    RunEndIs(t, j, j + |name|);
    assert t[j .. j + |name|] == name;
    assert !IsTrimmable(NameAt(t, |p|)[0]);
  }

  lemma RunEndIs(s: string, j: nat, e: nat)
    requires j <= e <= |s|
    requires forall k :: j <= k < e ==> !IsRegexSpace(s[k])
    requires e == |s| || IsRegexSpace(s[e])
    ensures RunEnd(s, j) == e
  {
  }

  /** The first qualifying marker's name is the subreddit, whatever its spelling. */
  lemma FirstQualifyingNameWins(t: string, i: nat, name: string)
    requires Qualifies(t, i) && NameAt(t, i) == name
    requires forall k :: 0 <= k < i ==> !Qualifies(t, k)
    ensures Subreddit(Some(t)) == Some(name)
  {
    FirstQualifyingMarkerWins(t, i);
  }

  /** A name is well formed when it is non-empty, starts visibly and holds no `\s`;
      the text after it must start with `\s` or be empty. */
  predicate WellFormedName(name: string, r: string) {
    name != [] && !IsTrimmable(name[0]) && NoRegexSpace(name) && (r == [] || IsRegexSpace(r[0]))
  }

  // Title shapes. Each shape is proved once for all its pieces; the concrete
  // titles below only check that their pieces fit the shape.

  /** Text without `/`, then a named marker: the name is found. */
  lemma PlainThenNamed(t: string, p: string, name: string, r: string)
    requires t == p + "/r/" + name + r && '/' !in p && WellFormedName(name, r)
    ensures Subreddit(Some(t)) == Some(name)
  {
    PlainStretch(t, "", p, "/r/" + name + r);
    NamedStretch(t, p, name, r);
    FirstQualifyingNameWins(t, |p|, name);
  }

  /** Text without `/`, a bare marker, more text without `/`, then a named marker:
      the bare marker is skipped and the second name is found. */
  lemma PlainBareThenNamed(t: string, p: string, q: string, name: string, r: string)
    requires t == p + "/r/" + q + "/r/" + name + r
    requires '/' !in p && '/' !in q && q != [] && IsRegexSpace(q[0]) && WellFormedName(name, r)
    ensures Subreddit(Some(t)) == Some(name)
  {
    var p2 := p + "/r/" + q;
    assert t == p2 + "/r/" + name + r;
    PlainStretch(t, "", p, "/r/" + q + "/r/" + name + r);
    BareStretch(t, p, q + "/r/" + name + r);
    PlainStretch(t, p + "/r/", q, "/r/" + name + r);
    NamedStretch(t, p2, name, r);
    FirstQualifyingNameWins(t, |p2|, name);
  }

  /** A title without `/` names no subreddit. */
  lemma PlainOnly(t: string)
    requires '/' !in t
    ensures Subreddit(Some(t)) == None
  {
    PlainStretch(t, "", t, "");
    NoMatchNoQualify(t, 0, 0);
  }

  /** Text without `/` ending in a bare marker names no subreddit. */
  lemma PlainThenBare(t: string, p: string)
    requires t == p + "/r/" && '/' !in p
    ensures Subreddit(Some(t)) == None
  {
    PlainStretch(t, "", p, "/r/");
    BareStretch(t, p, "");
  }

  // ---------------------------------------------------------------------------
  // The titles of TrendingRedditUtilsTest, each written as the pieces of its shape
  // ---------------------------------------------------------------------------

  lemma ExampleJustTheSubreddit(t: string)
    requires t == "/r/" + "happycrowds"
    ensures Subreddit(Some(t)) == Some("happycrowds")
  {
    PlainThenNamed(t, "", "happycrowds", "");
  }

  lemma ExampleSomethingBefore(t: string)
    requires t == "[TRENDING] " + "/r/" + "happycrowds"
    ensures Subreddit(Some(t)) == Some("happycrowds")
  {
    PlainThenNamed(t, "[TRENDING] ", "happycrowds", "");
  }

  lemma ExampleSomethingAfter(t: string)
    requires t == "/r/" + "banana" + " is getting pretty popular"
    ensures Subreddit(Some(t)) == Some("banana")
  {
    PlainThenNamed(t, "", "banana", " is getting pretty popular");
  }

  lemma ExampleMultipleSubreddits(t: string)
    requires t == "Today, " + "/r/" + "alakazam" + " and /r/wtf have a contest"
    ensures Subreddit(Some(t)) == Some("alakazam")
  {
    PlainThenNamed(t, "Today, ", "alakazam", " and /r/wtf have a contest");
  }

  lemma ExampleEmptyThenReal(t: string)
    requires t == "Today, " + "/r/" + " and " + "/r/" + "archers" + " did well."
    ensures Subreddit(Some(t)) == Some("archers")
  {
    PlainBareThenNamed(t, "Today, ", " and ", "archers", " did well.");
  }

  lemma ExampleNullTitle()
    ensures Subreddit(None) == None
  {
  }

  lemma ExampleNothingToSee(t: string)
    requires t == "[META] Nothing to see here"
    ensures Subreddit(Some(t)) == None
  {
    PlainOnly(t);
  }

  lemma ExampleMissingName(t: string)
    requires t == "[META] Please prefix with " + "/r/"
    ensures Subreddit(Some(t)) == None
  {
    PlainThenBare(t, "[META] Please prefix with ");
  }
}
