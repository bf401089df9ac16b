/**
  The read-only feeds of the post controller: every post, and one user's
  posts, newest first. Posts with the same creation time may come in any
  order, as the repository's sort leaves them.
 */
module Feed {
  import opened Store

  /** Newest first. */
  predicate NewestFirst(feed: seq<Entry>) {
    forall i, j :: 0 <= i < j < |feed| ==> feed[i].post.createdAt >= feed[j].post.createdAt
  }

  /** No post appears twice. */
  predicate DistinctIds(feed: seq<Entry>) {
    forall i, j :: 0 <= i < j < |feed| ==> feed[i].id != feed[j].id
  }

  /** Every item is a post of `posts`, as stored. */
  predicate FromStore(posts: map<PostId, Post>, feed: seq<Entry>) {
    forall e :: e in feed ==> e.id in posts && posts[e.id] == e.post
  }

  function Ids(feed: seq<Entry>): set<PostId> {
    set e | e in feed :: e.id
  }

  /** `feed` lists every post of `posts` once, as stored, newest first. */
  predicate IsFeed(posts: map<PostId, Post>, feed: seq<Entry>) {
    && NewestFirst(feed)
    && DistinctIds(feed)
    && FromStore(posts, feed)
    && Ids(feed) == posts.Keys
  }

  /** The posts of one owner, the `{ user: user._id }` query. */
  function PostsOf(posts: map<PostId, Post>, owner: UserId): (m: map<PostId, Post>)
    ensures forall id :: id in m <==> id in posts && posts[id].user == owner
    ensures forall id :: id in m ==> m[id] == posts[id]
  {
    map id | id in posts && posts[id].user == owner :: posts[id]
  }

  /** Puts `e` in front of the first item that is not newer than it. */
  function Insert(feed: seq<Entry>, e: Entry): (r: seq<Entry>)
    requires NewestFirst(feed)
    ensures NewestFirst(r)
    ensures multiset(r) == multiset(feed) + multiset{e}
  {
    if |feed| == 0 || feed[0].post.createdAt <= e.post.createdAt then [e] + feed
    else
      var rest := Insert(feed[1..], e);
      assert feed == [feed[0]] + feed[1..];
      forall x | x in rest ensures x.post.createdAt <= feed[0].post.createdAt {
        assert x in multiset(rest);
        if x != e {
          assert x in multiset(feed[1..]);
          assert x in feed[1..];
        }
      }
      [feed[0]] + rest
  }

  lemma InsertMembers(feed: seq<Entry>, e: Entry)
    requires NewestFirst(feed)
    ensures forall x :: x in Insert(feed, e) <==> x == e || x in feed
    ensures Ids(Insert(feed, e)) == Ids(feed) + {e.id}
  {
  }

  lemma {:induction false} InsertKeepsDistinct(feed: seq<Entry>, e: Entry)
    requires NewestFirst(feed) && DistinctIds(feed)
    requires e.id !in Ids(feed)
    ensures DistinctIds(Insert(feed, e))
    decreases |feed|
  {
    var r := Insert(feed, e);
    if |feed| == 0 || feed[0].post.createdAt <= e.post.createdAt {
      forall j | 0 < j < |r| ensures r[0].id != r[j].id {
        assert r[j] == feed[j - 1];
        assert r[j] in feed;
      }
    } else {
      var tail := feed[1..];
      assert Ids(tail) <= Ids(feed) by {
        assert forall x :: x in tail ==> x in feed;
      }
      InsertKeepsDistinct(tail, e);
      InsertMembers(tail, e);
      var rest := Insert(tail, e);
      assert r == [feed[0]] + rest;
      forall j | 0 < j < |r| ensures r[0].id != r[j].id {
        assert r[j] == rest[j - 1];
        assert r[j] in rest;
        if r[j] != e {
          assert r[j] in tail;
          var k :| 0 <= k < |tail| && tail[k] == r[j];
          assert feed[k + 1] == r[j];
        } else {
          assert feed[0] in feed;
        }
      }
    }
  }

  /** Sorts the posts of `posts` newest first. */
  method SortedFeed(posts: map<PostId, Post>) returns (feed: seq<Entry>)
    ensures IsFeed(posts, feed)
  {
    feed := [];
    var rest := posts.Keys;
    while rest != {}
      invariant rest <= posts.Keys
      invariant Ids(feed) == posts.Keys - rest
      invariant NewestFirst(feed)
      invariant DistinctIds(feed)
      invariant FromStore(posts, feed)
      decreases rest
    {
      var id :| id in rest;
      var e := Entry(id, posts[id]);
      InsertMembers(feed, e);
      InsertKeepsDistinct(feed, e);
      feed := Insert(feed, e);
      rest := rest - {id};
    }
  }

  /** `getAllPosts`: the whole collection, newest first; an empty collection
      gives an empty list, not an error. */
  method AllPosts(st: State) returns (r: Response)
    ensures r.Listed?
    ensures IsFeed(st.posts, r.feed)
    ensures st.posts == map[] ==> r.feed == []
  {
    var feed := SortedFeed(st.posts);
    EmptyStoreEmptyFeed(st.posts, feed);
    r := Listed(feed);
  }

  /** `getUserPosts`: an unknown username is NotFound; otherwise that
      user's posts, newest first. */
  method UserPosts(st: State, username: string) returns (r: Response)
    ensures username !in st.usernames <==> r == NotFound
    ensures username in st.usernames ==>
      r.Listed? && IsFeed(PostsOf(st.posts, st.usernames[username]), r.feed)
  {
    if username !in st.usernames {
      return NotFound;
    }
    var feed := SortedFeed(PostsOf(st.posts, st.usernames[username]));
    r := Listed(feed);
  }

  // -----------------------------------------------------------------------
  // Properties of feeds

  lemma EmptyStoreEmptyFeed(posts: map<PostId, Post>, feed: seq<Entry>)
    requires IsFeed(posts, feed)
    ensures posts == map[] <==> feed == []
  {
    if feed != [] {
      assert feed[0].id in Ids(feed);
    }
  }

  lemma {:induction false} DistinctIdsCount(feed: seq<Entry>)
    requires DistinctIds(feed)
    ensures |Ids(feed)| == |feed|
    decreases |feed|
  {
    if |feed| > 0 {
      var tail := feed[1..];
      DistinctIdsCount(tail);
      assert Ids(feed) == Ids(tail) + {feed[0].id} by {
        assert forall x :: x in feed <==> x == feed[0] || x in tail;
      }
      assert feed[0].id !in Ids(tail);
    }
  }

  /** A feed is a permutation of the collection: as many items as posts. */
  lemma FeedIsPermutation(posts: map<PostId, Post>, feed: seq<Entry>)
    requires IsFeed(posts, feed)
    ensures |feed| == |posts|
    ensures forall id :: id in posts ==> Entry(id, posts[id]) in feed
  {
    DistinctIdsCount(feed);
    assert |posts.Keys| == |posts|;
    forall id | id in posts ensures Entry(id, posts[id]) in feed {
      assert id in Ids(feed);
      var x :| x in feed && x.id == id;
    }
  }

  /** The items of `feed` owned by `owner`, in feed order. */
  function OwnedBy(feed: seq<Entry>, owner: UserId): (r: seq<Entry>)
    ensures forall x :: x in r ==> x in feed && x.post.user == owner
    ensures NewestFirst(feed) ==> NewestFirst(r)
  {
    if |feed| == 0 then []
    else
      var rest := OwnedBy(feed[1..], owner);
      assert forall x :: x in feed[1..] ==> x in feed;
      if feed[0].post.user == owner then [feed[0]] + rest else rest
  }

  lemma {:induction false} OwnedByKeepsAll(feed: seq<Entry>, owner: UserId)
    ensures forall x :: x in feed && x.post.user == owner ==> x in OwnedBy(feed, owner)
    decreases |feed|
  {
    if |feed| > 0 {
      OwnedByKeepsAll(feed[1..], owner);
      assert forall x :: x in feed ==> x == feed[0] || x in feed[1..];
    }
  }

  lemma {:induction false} OwnedByKeepsDistinct(feed: seq<Entry>, owner: UserId)
    requires DistinctIds(feed)
    ensures DistinctIds(OwnedBy(feed, owner))
    decreases |feed|
  {
    if |feed| > 0 {
      var tail := feed[1..];
      OwnedByKeepsDistinct(tail, owner);
      var rest := OwnedBy(tail, owner);
      if feed[0].post.user == owner {
        var r := [feed[0]] + rest;
        forall j | 0 < j < |r| ensures r[0].id != r[j].id {
          assert r[j] == rest[j - 1];
          assert r[j] in rest;
          assert r[j] in tail;
          var k :| 0 <= k < |tail| && tail[k] == r[j];
          assert feed[k + 1] == r[j];
        }
      }
    }
  }

  /** Taking everyone else's posts out of a full feed, order kept, leaves a
      feed of one user's posts: each of theirs once, as stored, newest first. */
  lemma UserFeedIsFilteredFeed(posts: map<PostId, Post>, feed: seq<Entry>, owner: UserId)
    requires IsFeed(posts, feed)
    ensures IsFeed(PostsOf(posts, owner), OwnedBy(feed, owner))
  {
    var r := OwnedBy(feed, owner);
    var m := PostsOf(posts, owner);
    OwnedByKeepsAll(feed, owner);
    OwnedByKeepsDistinct(feed, owner);
    forall id | id in m ensures id in Ids(r) {
      assert id in Ids(feed);
      var x :| x in feed && x.id == id;
    }
  }
}
