/** The remembered-posts database: the comparator that orders it, the stable sort that
    keeps it ordered, and its JSON form on disk with the decoding done at start-up. */
module RememberedPosts {
  import opened Results
  import opened HandledPosts

  // ---------------------------------------------------------------------------
  // HANDLED_POSTS_COMPARATOR
  // ---------------------------------------------------------------------------

  /** Orders posts by creation time: 0 for equal times, 1 when a is later, -1 otherwise. */
  function Compare(a: HandledPost, b: HandledPost): (c: int)
    ensures c == 0 <==> a.timestamp == b.timestamp
    ensures c == 1 <==> a.timestamp > b.timestamp
    ensures c == -1 <==> a.timestamp < b.timestamp
  {
    if a.timestamp == b.timestamp then 0
    else if a.timestamp > b.timestamp then 1
    else -1
  }

  /** The comparator is a total preorder, as Comparator's contract demands:
      swapping the arguments flips the sign, and "not after" is transitive. */
  lemma CompareIsTotalPreorder(a: HandledPost, b: HandledPost, c: HandledPost)
    ensures Compare(a, b) == -Compare(b, a)
    ensures Compare(a, b) <= 0 && Compare(b, c) <= 0 ==> Compare(a, c) <= 0
    ensures Compare(a, b) == 0 ==> Compare(a, c) == Compare(b, c)
  {
  }

  /** The database order: creation times never decrease. */
  predicate Sorted(l: seq<HandledPost>) {
    forall i, j :: 0 <= i < j < |l| ==> l[i].timestamp <= l[j].timestamp
  }

  /** Sorted is the order the comparator asks for: no post compares above a later one. */
  lemma SortedByComparator(l: seq<HandledPost>)
    ensures Sorted(l) <==> forall i, j :: 0 <= i < j < |l| ==> Compare(l[i], l[j]) <= 0
  {
  }

  // ---------------------------------------------------------------------------
  // Collections.sort: a stable sort by the comparator
  // ---------------------------------------------------------------------------

  /** The posts of l created at time t, in their order in l. Two orders of the same posts
      that agree on every such list differ only in how they interleave different times. */
  function WithTimestamp(l: seq<HandledPost>, t: real): (r: seq<HandledPost>)
    ensures |r| <= |l|
    ensures forall e :: e in r ==> e in l && e.timestamp == t
  {
    if l == [] then []
    else (if l[0].timestamp == t then [l[0]] else []) + WithTimestamp(l[1..], t)
  }

  lemma {:induction false} WithTimestampAppend(a: seq<HandledPost>, b: seq<HandledPost>, t: real)
    ensures WithTimestamp(a + b, t) == WithTimestamp(a, t) + WithTimestamp(b, t)
    decreases |a|
  {
    if a == [] {
      assert a + b == b;
    } else {
      assert (a + b)[0] == a[0];
      assert (a + b)[1..] == a[1..] + b;
      WithTimestampAppend(a[1..], b, t);
    }
  }

  /** Puts x into a sorted list after every post that is not later than it. */
  function Insert(l: seq<HandledPost>, x: HandledPost): (r: seq<HandledPost>)
    ensures |r| == |l| + 1
  {
    if l == [] then [x]
    else if x.timestamp < l[0].timestamp then [x] + l
    else [l[0]] + Insert(l[1..], x)
  }

  /** Takes the posts one at a time, from the first, and inserts each after its equals:
      an insertion sort, stable like the merge sort of Collections.sort. */
  function SortByTimestamp(l: seq<HandledPost>): (r: seq<HandledPost>)
    ensures |r| == |l|
  {
    if l == [] then [] else Insert(SortByTimestamp(l[..|l| - 1]), l[|l| - 1])
  }

  /** Where Insert puts x: the number of leading posts not later than x. */
  function InsertionPoint(l: seq<HandledPost>, x: HandledPost): (k: nat)
    ensures k <= |l|
  {
    if l == [] || l[0].timestamp > x.timestamp then 0 else 1 + InsertionPoint(l[1..], x)
  }

  /** Every post before the insertion point is not later than x, and the one at it is
      later. */
  lemma {:induction false} InsertionPointSpec(l: seq<HandledPost>, x: HandledPost)
    ensures forall i :: 0 <= i < InsertionPoint(l, x) ==> l[i].timestamp <= x.timestamp
    ensures InsertionPoint(l, x) < |l| ==> l[InsertionPoint(l, x)].timestamp > x.timestamp
    decreases |l|
  {
    if l != [] && l[0].timestamp <= x.timestamp {
      var tail := l[1..];
      InsertionPointSpec(tail, x);
      assert forall i :: 1 <= i < |l| ==> l[i] == tail[i - 1];
    }
  }

  /** Insert splices x in after the leading posts not later than it. */
  lemma {:induction false} InsertSplices(l: seq<HandledPost>, x: HandledPost)
    ensures Insert(l, x) == l[..InsertionPoint(l, x)] + [x] + l[InsertionPoint(l, x)..]
    decreases |l|
  {
    if l != [] && x.timestamp >= l[0].timestamp {
      var tail, k := l[1..], InsertionPoint(l, x);
      InsertSplices(tail, x);
      assert l[..k] == [l[0]] + tail[..k - 1];
      assert l[k..] == tail[k - 1..];
    }
  }

  /** In a sorted list, every post from the insertion point on is later than x. */
  lemma LaterAfterInsertionPoint(l: seq<HandledPost>, x: HandledPost)
    requires Sorted(l)
    ensures forall i :: InsertionPoint(l, x) <= i < |l| ==> l[i].timestamp > x.timestamp
  {
    var k := InsertionPoint(l, x);
    InsertionPointSpec(l, x);
    if k < |l| {
      assert forall i :: k <= i < |l| ==> l[k].timestamp <= l[i].timestamp;
    }
  }

  /** A post put between the posts not later than it and the posts later than it keeps
      a sorted list sorted. */
  lemma SortedSplice(front: seq<HandledPost>, x: HandledPost, back: seq<HandledPost>)
    requires Sorted(front + back)
    requires forall i :: 0 <= i < |front| ==> front[i].timestamp <= x.timestamp
    requires forall i :: 0 <= i < |back| ==> x.timestamp < back[i].timestamp
    ensures Sorted(front + [x] + back)
  {
    var l, r, n := front + back, front + [x] + back, |front|;
    forall i, j | 0 <= i < j < |r|
      ensures r[i].timestamp <= r[j].timestamp
    {
      if j < n {
        assert r[i] == l[i] && r[j] == l[j];
      } else if i > n {
        assert r[i] == l[i - 1] && r[j] == l[j - 1];
      } else if i == n {
        assert r[i] == x && r[j] == back[j - n - 1];
      } else if j == n {
        assert r[i] == front[i] && r[j] == x;
      } else {
        assert r[i] == front[i] && r[j] == back[j - n - 1];
      }
    }
  }

  /** Inserting into a sorted list gives a sorted list. */
  lemma InsertSorted(l: seq<HandledPost>, x: HandledPost)
    requires Sorted(l)
    ensures Sorted(Insert(l, x))
  {
    var k := InsertionPoint(l, x);
    var front, back := l[..k], l[k..];
    assert Sorted(front + back) by {
      assert l == front + back;
    }
    assert forall i :: 0 <= i < |front| ==> front[i].timestamp <= x.timestamp by {
      InsertionPointSpec(l, x);
      assert forall i :: 0 <= i < |front| ==> front[i] == l[i];
    }
    assert forall i :: 0 <= i < |back| ==> x.timestamp < back[i].timestamp by {
      LaterAfterInsertionPoint(l, x);
      assert forall i :: 0 <= i < |back| ==> back[i] == l[k + i];
    }
    SortedSplice(front, x, back);
    InsertSplices(l, x);
  }

  /** Insertion keeps the posts and adds x. */
  lemma InsertKeepsPosts(l: seq<HandledPost>, x: HandledPost)
    ensures multiset(Insert(l, x)) == multiset(l) + multiset{x}
  {
    var k := InsertionPoint(l, x);
    var front, back := l[..k], l[k..];
    InsertSplices(l, x);
    assert l == front + back;
    calc {
      multiset(Insert(l, x));
      multiset(front + [x] + back);
      multiset(front) + multiset{x} + multiset(back);
    }
  }

  /** The posts of one time in a list of one post. */
  lemma WithTimestampSingle(x: HandledPost, t: real)
    ensures WithTimestamp([x], t) == (if x.timestamp == t then [x] else [])
  {
    assert [x][1..] == [];
  }

  /** The posts of one time in a list with x spliced into it. */
  lemma WithTimestampSplice(front: seq<HandledPost>, x: HandledPost, back: seq<HandledPost>, t: real)
    ensures WithTimestamp(front + [x] + back, t)
         == WithTimestamp(front, t) + WithTimestamp([x], t) + WithTimestamp(back, t)
  {
    WithTimestampAppend(front + [x], back, t);
    WithTimestampAppend(front, [x], t);
  }

  /** The posts of one time after inserting x, in terms of the two sides of the
      insertion point. */
  lemma InsertByTime(l: seq<HandledPost>, x: HandledPost, t: real)
    ensures var k := InsertionPoint(l, x);
      && WithTimestamp(l, t) == WithTimestamp(l[..k], t) + WithTimestamp(l[k..], t)
      && WithTimestamp(Insert(l, x), t)
         == WithTimestamp(l[..k], t) + WithTimestamp([x], t) + WithTimestamp(l[k..], t)
  {
    var k := InsertionPoint(l, x);
    assert l == l[..k] + l[k..];
    WithTimestampAppend(l[..k], l[k..], t);
    InsertSplices(l, x);
    WithTimestampSplice(l[..k], x, l[k..], t);
  }

  /** In a sorted list, no post after the insertion point of x has x's time. */
  lemma NoneOfTimeAfterInsertionPoint(l: seq<HandledPost>, x: HandledPost)
    requires Sorted(l)
    ensures WithTimestamp(l[InsertionPoint(l, x)..], x.timestamp) == []
  {
    LaterAfterInsertionPoint(l, x);
    NoneOfTime(l[InsertionPoint(l, x)..], x.timestamp);
  }

  /** Inserting x leaves the posts of every other time as they were. */
  lemma InsertOtherTime(l: seq<HandledPost>, x: HandledPost, t: real)
    requires x.timestamp != t
    ensures WithTimestamp(Insert(l, x), t) == WithTimestamp(l, t)
  {
    var k := InsertionPoint(l, x);
    InsertByTime(l, x, t);
    WithTimestampSingle(x, t);
    assert WithTimestamp(l[..k], t) + [] == WithTimestamp(l[..k], t);
  }

  /** Inserting x into a sorted list puts it last among the posts of its time. */
  lemma InsertSameTime(l: seq<HandledPost>, x: HandledPost)
    requires Sorted(l)
    ensures WithTimestamp(Insert(l, x), x.timestamp) == WithTimestamp(l, x.timestamp) + [x]
  {
    var k := InsertionPoint(l, x);
    InsertByTime(l, x, x.timestamp);
    WithTimestampSingle(x, x.timestamp);
    NoneOfTimeAfterInsertionPoint(l, x);
    assert WithTimestamp(l[..k], x.timestamp) + [] == WithTimestamp(l[..k], x.timestamp);
  }

  /** Insertion into a sorted list adds x last among the posts of its time. */
  lemma InsertKeepsTimeOrder(l: seq<HandledPost>, x: HandledPost, t: real)
    requires Sorted(l)
    ensures WithTimestamp(Insert(l, x), t) == WithTimestamp(l, t) + (if x.timestamp == t then [x] else [])
  {
    if x.timestamp == t {
      InsertSameTime(l, x);
    } else {
      InsertOtherTime(l, x, t);
      assert WithTimestamp(l, t) + [] == WithTimestamp(l, t);
    }
  }

  /** A list without posts of time t has an empty list for t. */
  lemma NoneOfTime(l: seq<HandledPost>, t: real)
    requires forall i :: 0 <= i < |l| ==> l[i].timestamp != t
    ensures WithTimestamp(l, t) == []
  {
  }

  /** The sort is sorted, keeps every post, and keeps the order of the posts of each time. */
  lemma {:induction false} SortByTimestampSpec(l: seq<HandledPost>)
    ensures Sorted(SortByTimestamp(l))
    ensures multiset(SortByTimestamp(l)) == multiset(l)
    ensures forall t :: WithTimestamp(SortByTimestamp(l), t) == WithTimestamp(l, t)
    decreases |l|
  {
    if l != [] {
      var init, x := l[..|l| - 1], l[|l| - 1];
      assert l == init + [x];
      SortByTimestampSpec(init);
      InsertSorted(SortByTimestamp(init), x);
      forall t ensures WithTimestamp(SortByTimestamp(l), t) == WithTimestamp(l, t) {
        InsertKeepsTimeOrder(SortByTimestamp(init), x, t);
        WithTimestampAppend(init, [x], t);
        assert WithTimestamp([x], t) == (if x.timestamp == t then [x] else []) by {
          assert [x][1..] == [];
        }
      }
      InsertKeepsPosts(SortByTimestamp(init), x);
    }
  }

  /** The sort is sorted and keeps every post. */
  lemma SortedPermutation(l: seq<HandledPost>)
    ensures Sorted(SortByTimestamp(l))
    ensures multiset(SortByTimestamp(l)) == multiset(l)
  {
    SortByTimestampSpec(l);
  }

  /** The rest of a sorted list is sorted, and its head is its earliest post. */
  lemma SortedTail(l: seq<HandledPost>)
    requires Sorted(l) && l != []
    ensures Sorted(l[1..])
    ensures forall i :: 0 <= i < |l| ==> l[0].timestamp <= l[i].timestamp
  {
    var tail := l[1..];
    assert forall i :: 0 <= i < |tail| ==> tail[i] == l[i + 1];
  }

  /** Two sorted lists that agree on the posts of every time are the same list: the
      order a stable sort produces is determined by its input. */
  lemma {:induction false} SortedUnique(a: seq<HandledPost>, b: seq<HandledPost>)
    requires Sorted(a) && Sorted(b)
    requires forall t :: WithTimestamp(a, t) == WithTimestamp(b, t)
    ensures a == b
    decreases |a| + |b|
  {
    if a != [] {
      HeadsAgree(a, b);
    }
    if b != [] {
      HeadsAgree(b, a);
    }
    if a != [] {
      TailsAgree(a, b);
      SortedTail(a);
      SortedTail(b);
      SortedUnique(a[1..], b[1..]);
      assert a == [a[0]] + a[1..] && b == [b[0]] + b[1..];
    }
  }

  /** A sorted list holding a post of time t starts no later than t. */
  lemma EarliestFirst(l: seq<HandledPost>, t: real)
    requires Sorted(l) && WithTimestamp(l, t) != []
    ensures l != [] && l[0].timestamp <= t
  {
    var e := WithTimestamp(l, t)[0];
    assert e in WithTimestamp(l, t);
    SortedTail(l);
  }

  /** The posts of the head's time start with the head. */
  lemma HeadOfTime(l: seq<HandledPost>)
    requires l != []
    ensures WithTimestamp(l, l[0].timestamp) == [l[0]] + WithTimestamp(l[1..], l[0].timestamp)
  {
  }

  /** Sorted lists that agree on every time start with the same post. */
  lemma HeadsAgree(a: seq<HandledPost>, b: seq<HandledPost>)
    requires Sorted(a) && Sorted(b) && a != []
    requires forall t :: WithTimestamp(a, t) == WithTimestamp(b, t)
    ensures b != [] && a[0] == b[0]
  {
    var ta := a[0].timestamp;
    HeadOfTime(a);
    assert WithTimestamp(b, ta) == WithTimestamp(a, ta);
    EarliestFirst(b, ta);
    var tb := b[0].timestamp;
    HeadOfTime(b);
    assert WithTimestamp(a, tb) == WithTimestamp(b, tb);
    EarliestFirst(a, tb);
    assert ta == tb;
    calc {
      a[0];
      WithTimestamp(a, ta)[0];
      WithTimestamp(b, tb)[0];
      b[0];
    }
  }

  /** Lists with the same head that agree on every time agree on every time after it. */
  lemma TailsAgree(a: seq<HandledPost>, b: seq<HandledPost>)
    requires a != [] && b != [] && a[0] == b[0]
    requires forall t :: WithTimestamp(a, t) == WithTimestamp(b, t)
    ensures forall t :: WithTimestamp(a[1..], t) == WithTimestamp(b[1..], t)
  {
    forall t ensures WithTimestamp(a[1..], t) == WithTimestamp(b[1..], t) {
      var wa, wb := WithTimestamp(a, t), WithTimestamp(b, t);
      assert wa == wb;
      if t == a[0].timestamp {
        assert wa[1..] == WithTimestamp(a[1..], t);
        assert wb[1..] == WithTimestamp(b[1..], t);
      } else {
        assert wa == WithTimestamp(a[1..], t);
        assert wb == WithTimestamp(b[1..], t);
      }
    }
  }

  /** Sorting an already sorted list changes nothing. */
  lemma SortOfSorted(l: seq<HandledPost>)
    requires Sorted(l)
    ensures SortByTimestamp(l) == l
  {
    SortByTimestampSpec(l);
    SortedUnique(SortByTimestamp(l), l);
  }

  /** Any sorted order that keeps the order of the posts of each time is the one
      SortByTimestamp gives, so any stable sort by the comparator agrees with it. */
  lemma StableSortAgrees(l: seq<HandledPost>, r: seq<HandledPost>)
    requires Sorted(r)
    requires forall t :: WithTimestamp(r, t) == WithTimestamp(l, t)
    ensures r == SortByTimestamp(l)
  {
    SortByTimestampSpec(l);
    SortedUnique(r, SortByTimestamp(l));
  }

  /** Adding a post to the sorted database and sorting again puts the post right after
      the posts not later than it, before the posts later than it, and leaves the rest
      in place. */
  lemma AppendThenSortInserts(l: seq<HandledPost>, x: HandledPost)
    requires Sorted(l)
    ensures SortByTimestamp(l + [x]) == l[..InsertionPoint(l, x)] + [x] + l[InsertionPoint(l, x)..]
    ensures forall i :: 0 <= i < InsertionPoint(l, x) ==> l[i].timestamp <= x.timestamp
    ensures forall i :: InsertionPoint(l, x) <= i < |l| ==> l[i].timestamp > x.timestamp
  {
    assert (l + [x])[..|l|] == l;
    SortOfSorted(l);
    InsertSplices(l, x);
    InsertionPointSpec(l, x);
    LaterAfterInsertionPoint(l, x);
  }

  // ---------------------------------------------------------------------------
  // The database file: remembered_posts.json
  // ---------------------------------------------------------------------------

  /** Why start-up gives up on the database (the process then exits). */
  datatype LoadError =
    | Unreadable   // an I/O error, or text that is not JSON
    | NotAnArray   // the top-level value is not an array
    | NotAnObject  // an element of the array is not an object
    | BadFullId    // full_id is not a string
    | BadTimestamp // timestamp is missing or not a number

  /** The database file as start-up finds it: absent, not parsable as JSON, or holding
      a JSON value. */
  datatype StoredFile = Missing | Unparsable | Stored(content: Json)

  /** The record a post is stored as, decoded back. The object may carry other fields;
      the two it must carry are those AsObject writes. */
  function DecodeRecord(j: Json): (r: Result<HandledPost, LoadError>)
    ensures r == Err(NotAnObject) <==> !j.JObject?
    ensures r.Ok? ==> j.JObject? && AsObject(r.value).fields.Items <= j.fields.Items
    ensures r.Err? && j.JObject? ==>
      (r.error == BadFullId <==> !(FullIdKey in j.fields && j.fields[FullIdKey].JString?))
    ensures (&& j.JObject? && FullIdKey in j.fields && j.fields[FullIdKey].JString?
             && TimestampKey in j.fields && j.fields[TimestampKey].JNumber?) ==>
      r == Ok(HandledPost(j.fields[FullIdKey].s, j.fields[TimestampKey].n))
  {
    if !j.JObject? then Err(NotAnObject)
    else if FullIdKey !in j.fields || !j.fields[FullIdKey].JString? then Err(BadFullId)
    else if TimestampKey !in j.fields || !j.fields[TimestampKey].JNumber? then Err(BadTimestamp)
    else Ok(HandledPost(j.fields[FullIdKey].s, j.fields[TimestampKey].n))
  }

  /** Decodes the elements in order and stops at the first that fails, with its error. */
  function DecodeAll(items: seq<Json>): (r: Result<seq<HandledPost>, LoadError>)
    ensures r.Ok? ==> |r.value| == |items|
  {
    if items == [] then Ok([])
    else
      match DecodeAll(items[..|items| - 1])
      case Err(e) => Err(e)
      case Ok(posts) =>
        match DecodeRecord(items[|items| - 1])
        case Err(e) => Err(e)
        case Ok(hp) => Ok(posts + [hp])
  }

  /** Decoding succeeds exactly when every element decodes, and then gives each element's
      post in place; otherwise the error is that of the first element that fails. */
  lemma DecodeAllSpec(items: seq<Json>)
    ensures DecodeAll(items).Ok? <==> forall i :: 0 <= i < |items| ==> DecodeRecord(items[i]).Ok?
    ensures DecodeAll(items).Ok? ==>
      forall i :: 0 <= i < |items| ==> DecodeRecord(items[i]) == Ok(DecodeAll(items).value[i])
    ensures DecodeAll(items).Err? ==>
      exists i :: && 0 <= i < |items|
                  && DecodeRecord(items[i]) == Err(DecodeAll(items).error)
                  && forall k :: 0 <= k < i ==> DecodeRecord(items[k]).Ok?
  {
    DecodeAllSucceeds(items);
    DecodeAllFails(items);
  }

  lemma {:induction false} DecodeAllSucceeds(items: seq<Json>)
    ensures DecodeAll(items).Ok? <==> forall i :: 0 <= i < |items| ==> DecodeRecord(items[i]).Ok?
    ensures DecodeAll(items).Ok? ==>
      forall i :: 0 <= i < |items| ==> DecodeRecord(items[i]) == Ok(DecodeAll(items).value[i])
    decreases |items|
  {
    if items != [] {
      var n := |items| - 1;
      var init := items[..n];
      DecodeAllSucceeds(init);
      assert forall i :: 0 <= i < n ==> init[i] == items[i];
      if DecodeAll(init).Ok? && DecodeRecord(items[n]).Ok? {
        assert DecodeAll(items).value == DecodeAll(init).value + [DecodeRecord(items[n]).value];
      }
    }
  }

  lemma {:induction false} DecodeAllFails(items: seq<Json>)
    ensures DecodeAll(items).Err? ==>
      exists i :: && 0 <= i < |items|
                  && DecodeRecord(items[i]) == Err(DecodeAll(items).error)
                  && forall k :: 0 <= k < i ==> DecodeRecord(items[k]).Ok?
    decreases |items|
  {
    if items != [] {
      var n := |items| - 1;
      var init := items[..n];
      DecodeAllFails(init);
      assert forall i :: 0 <= i < n ==> init[i] == items[i];
      if DecodeAll(init).Err? {
        var i :| && 0 <= i < n
                 && DecodeRecord(init[i]) == Err(DecodeAll(init).error)
                 && forall k :: 0 <= k < i ==> DecodeRecord(init[k]).Ok?;
        assert DecodeRecord(items[i]) == Err(DecodeAll(items).error);
      } else if DecodeRecord(items[n]).Err? {
        DecodeAllSucceeds(init);
        assert DecodeRecord(items[n]) == Err(DecodeAll(items).error);
      }
    }
  }

  /** loadRememberedPosts: no file means no remembered posts; otherwise the file must hold
      an array of records, which are decoded and sorted. */
  function Load(f: StoredFile): (r: Result<seq<HandledPost>, LoadError>)
    ensures r.Ok? ==> Sorted(r.value)
  {
    match f
    case Missing => Ok([])
    case Unparsable => Err(Unreadable)
    case Stored(j) =>
      if !j.JArray? then Err(NotAnArray)
      else
        match DecodeAll(j.items)
        case Err(e) => Err(e)
        case Ok(posts) => SortedPermutation(posts); Ok(SortByTimestamp(posts))
  }

  /** saveRememberedPosts: the posts as an array of records, in database order. */
  function Encode(l: seq<HandledPost>): (j: Json)
    ensures j.JArray? && |j.items| == |l|
    ensures forall i :: 0 <= i < |l| ==> j.items[i] == AsObject(l[i])
  {
    JArray(seq(|l|, i requires 0 <= i < |l| => AsObject(l[i])))
  }

  /** A post's record decodes to the post. */
  lemma DecodeAsObject(hp: HandledPost)
    ensures DecodeRecord(AsObject(hp)) == Ok(hp)
  {
  }

  /** The saved records decode to the posts they were written from, in order. */
  lemma DecodeEncoded(l: seq<HandledPost>)
    ensures DecodeAll(Encode(l).items) == Ok(l)
  {
    var items := Encode(l).items;
    forall i | 0 <= i < |items|
      ensures DecodeRecord(items[i]) == Ok(l[i])
    {
      DecodeAsObject(l[i]);
    }
    DecodeAllSpec(items);
    var d := DecodeAll(items);
    assert d.Ok?;
    assert d.value == l;
  }

  /** Whatever is saved loads back as the same posts, sorted; the database itself,
      which is kept sorted, loads back unchanged. */
  lemma SaveLoadRoundTrip(l: seq<HandledPost>)
    ensures Load(Stored(Encode(l))) == Ok(SortByTimestamp(l))
    ensures Sorted(l) ==> Load(Stored(Encode(l))) == Ok(l)
  {
    DecodeEncoded(l);
    if Sorted(l) {
      SortOfSorted(l);
    }
  }

  /** A database that loads holds every record of the file once, whatever their order. */
  lemma LoadKeepsEveryRecord(items: seq<Json>)
    requires Load(Stored(JArray(items))).Ok?
    ensures DecodeAll(items).Ok?
    ensures multiset(Load(Stored(JArray(items))).value) == multiset(DecodeAll(items).value)
  {
    SortedPermutation(DecodeAll(items).value);
  }

  // ---------------------------------------------------------------------------
  // As written, a record without full_id is accepted
  // ---------------------------------------------------------------------------

  /** A record as the source decodes it: `(String) jObj.get("full_id")` yields null, not an
      error, when the field is missing or JSON null. */
  datatype LoadedRecord = LoadedRecord(fullId: Option<string>, timestamp: real)

  function DecodeRecordAsWritten(j: Json): (r: Result<LoadedRecord, LoadError>)
    ensures r.Ok? ==> j.JObject? && TimestampKey in j.fields && j.fields[TimestampKey] == JNumber(r.value.timestamp)
    ensures r.Ok? ==> (r.value.fullId.None? <==> FullIdKey !in j.fields || j.fields[FullIdKey] == JNull)
    ensures (&& j.JObject? && (FullIdKey !in j.fields || j.fields[FullIdKey].JNull?)
             && TimestampKey in j.fields && j.fields[TimestampKey].JNumber?) ==>
      r == Ok(LoadedRecord(None, j.fields[TimestampKey].n))
    ensures (&& j.JObject? && FullIdKey in j.fields && j.fields[FullIdKey].JString?
             && TimestampKey in j.fields && j.fields[TimestampKey].JNumber?) ==>
      r == Ok(LoadedRecord(Some(j.fields[FullIdKey].s), j.fields[TimestampKey].n))
    ensures (&& j.JObject? && FullIdKey in j.fields
             && !j.fields[FullIdKey].JString? && !j.fields[FullIdKey].JNull?) ==>
      r == Err(BadFullId)
  {
    if !j.JObject? then Err(NotAnObject)
    else
      var id :=
        if FullIdKey !in j.fields || j.fields[FullIdKey].JNull? then Ok(None)
        else if j.fields[FullIdKey].JString? then Ok(Some(j.fields[FullIdKey].s))
        else Err(BadFullId);
      if id.Err? then Err(BadFullId)
      else if TimestampKey !in j.fields || !j.fields[TimestampKey].JNumber? then Err(BadTimestamp)
      else Ok(LoadedRecord(id.value, j.fields[TimestampKey].n))
  }

  /** A record with only a timestamp: the source takes it in with a null name, which the
      next scan for handled posts dereferences; the corrected decoding rejects it. */
  lemma RecordWithoutFullIdAccepted(j: Json)
    requires j == JObject(map[TimestampKey := JNumber(1000.0)])
    ensures DecodeRecordAsWritten(j) == Ok(LoadedRecord(None, 1000.0))
    ensures DecodeRecord(j) == Err(BadFullId)
  {
    assert FullIdKey !in j.fields;
  }

  /** Where the field is a string, both decodings agree. */
  lemma DecodingsAgreeOnNamedRecords(j: Json)
    requires j.JObject? && FullIdKey in j.fields && j.fields[FullIdKey].JString?
    ensures DecodeRecord(j).Ok? <==> DecodeRecordAsWritten(j).Ok?
    ensures DecodeRecord(j).Ok? ==>
      DecodeRecordAsWritten(j).value == LoadedRecord(Some(DecodeRecord(j).value.fullId), DecodeRecord(j).value.timestamp)
  {
  }
}
