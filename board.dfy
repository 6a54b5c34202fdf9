/** The board's in-memory post store (lib/board.ts): an array of posts and the
    next id to hand out, with add, find, update, delete, clear, the listing
    sorted newest first, and per-user like toggling. */
module Board {
  import opened Records
  import opened Text

  /** A board post. Timestamps are opaque ordered values; `updatedAt` is
      absent until the first update. */
  datatype Post = Post(
    id: int,
    title: string,
    content: string,
    likeCount: int,
    likedBy: seq<string>,
    createdAt: int,
    updatedAt: Option<int>)

  function PostId(p: Post): int { p.id }

  function PostCreated(p: Post): int { p.createdAt }

  /** The like bookkeeping agrees: each user likes a post at most once and
      `likeCount` counts exactly the users in `likedBy`. */
  ghost predicate LikesConsistent(p: Post) {
    NoDuplicates(p.likedBy) && p.likeCount == |p.likedBy|
  }

  /** The post after `user` toggles a like on it: appended to `likedBy` with
      the count raised when absent, otherwise its occurrence spliced out with
      the count lowered. */
  function Toggled(p: Post, user: string): (q: Post)
    ensures q == p.(likedBy := q.likedBy, likeCount := q.likeCount)
    ensures user !in p.likedBy ==>
      q.likedBy == p.likedBy + [user] && q.likeCount == p.likeCount + 1
    ensures user in p.likedBy ==>
      multiset(q.likedBy) == multiset(p.likedBy) - multiset{user} && q.likeCount == p.likeCount - 1
  {
    var k := IndexOf(p.likedBy, user);
    if k == -1 then
      p.(likedBy := p.likedBy + [user], likeCount := p.likeCount + 1)
    else
      p.(likedBy := RemoveAt(p.likedBy, k), likeCount := p.likeCount - 1)
  }

  /** Toggling keeps the like bookkeeping consistent, so the count never goes
      negative, and afterwards `user` likes the post exactly when it did not
      before; every other user's like is untouched. */
  lemma ToggledConsistent(p: Post, user: string)
    requires LikesConsistent(p)
    ensures LikesConsistent(Toggled(p, user))
    ensures Toggled(p, user).likeCount >= 0
    ensures user in Toggled(p, user).likedBy <==> user !in p.likedBy
    ensures forall v :: v != user ==> (v in Toggled(p, user).likedBy <==> v in p.likedBy)
  {
    var q := Toggled(p, user);
    var k := IndexOf(p.likedBy, user);
    if k == -1 {
      forall i, j | 0 <= i < j < |q.likedBy| ensures q.likedBy[i] != q.likedBy[j] {
        if j == |p.likedBy| {
          assert q.likedBy[i] == p.likedBy[i];
        }
      }
    } else {
      RemoveAtNoDuplicates(p.likedBy, k);
      forall v | v != user ensures v in q.likedBy <==> v in p.likedBy {
        assert v in multiset(q.likedBy) <==> v in multiset(p.likedBy);
      }
    }
  }

  /** Two toggles by the same user restore the count and the set of users who
      like the post (and the post itself when the user had not liked it), and
      the reported like state alternates. */
  lemma ToggledTwice(p: Post, user: string)
    requires LikesConsistent(p)
    ensures Toggled(Toggled(p, user), user).likeCount == p.likeCount
    ensures multiset(Toggled(Toggled(p, user), user).likedBy) == multiset(p.likedBy)
    ensures user !in p.likedBy ==> Toggled(Toggled(p, user), user) == p
    ensures (user !in Toggled(p, user).likedBy) == !(user !in p.likedBy)
  {
    ToggledConsistent(p, user);
    if user !in p.likedBy {
      UnlikeAfterLike(p, user);
    } else {
      var q := Toggled(p, user);
      assert Toggled(q, user).likedBy == q.likedBy + [user];
    }
  }

  /** Helper for ToggledTwice: a like followed by an unlike gives back the
      very same post. */
  lemma UnlikeAfterLike(p: Post, user: string)
    requires user !in p.likedBy
    ensures Toggled(Toggled(p, user), user) == p
  {
    var q := Toggled(p, user);
    var n := |p.likedBy|;
    assert q.likedBy[n] == user && q.likedBy[..n] == p.likedBy;
    assert IndexOf(q.likedBy, user) == n;
    assert RemoveAt(q.likedBy, n) == p.likedBy;
  }

  /** The likes scenario: on a fresh post, alice likes, bob likes, alice
      unlikes. */
  lemma LikeScenario(p: Post)
    requires p.likeCount == 0 && p.likedBy == []
    ensures Toggled(p, "alice").likedBy == ["alice"] && Toggled(p, "alice").likeCount == 1
    ensures Toggled(Toggled(p, "alice"), "bob").likedBy == ["alice", "bob"]
    ensures Toggled(Toggled(p, "alice"), "bob").likeCount == 2
    ensures Toggled(Toggled(Toggled(p, "alice"), "bob"), "alice").likedBy == ["bob"]
    ensures Toggled(Toggled(Toggled(p, "alice"), "bob"), "alice").likeCount == 1
  {
    var p1 := Toggled(p, "alice");
    var p2 := Toggled(p1, "bob");
    assert "bob" != "alice";
    assert p2.likedBy == ["alice", "bob"];
    assert IndexOf(p2.likedBy, "alice") == 0;
  }

  /** What the store keeps true: ids are distinct, positive and below
      `nextId`, and every post's like bookkeeping is consistent. */
  ghost predicate StoreInvariant(posts: seq<Post>, nextId: int) {
    && 1 <= nextId
    && KeysDistinct(posts, PostId)
    && KeysInRange(posts, PostId, nextId)
    && forall p :: p in posts ==> LikesConsistent(p)
  }

  /** Appending a post with id `nextId` and consistent likes keeps the store
      invariant once `nextId` moves past it. */
  lemma AppendKeepsInvariant(posts: seq<Post>, nextId: int, p: Post)
    requires StoreInvariant(posts, nextId) && p.id == nextId && LikesConsistent(p)
    ensures StoreInvariant(posts + [p], nextId + 1)
  {
    AppendFreshKey(posts, PostId, p, nextId);
    assert forall q :: q in posts + [p] ==> q in posts || q == p;
  }

  /** Replacing a post by one with the same id, creation time and consistent
      likes keeps the store invariant and the newest-first order. */
  lemma ReplaceKeepsInvariant(posts: seq<Post>, nextId: int, i: nat, q: Post)
    requires StoreInvariant(posts, nextId) && i < |posts|
    requires q.id == posts[i].id && q.createdAt == posts[i].createdAt && LikesConsistent(q)
    ensures StoreInvariant(posts[i := q], nextId)
    ensures SortedDesc(posts, PostCreated) ==> SortedDesc(posts[i := q], PostCreated)
  {
    var r := posts[i := q];
    forall a, b | 0 <= a < b < |r| ensures PostId(r[a]) != PostId(r[b]) {
      assert PostId(r[a]) == PostId(posts[a]) && PostId(r[b]) == PostId(posts[b]);
    }
    forall a, b | 0 <= a < b < |r| && SortedDesc(posts, PostCreated)
      ensures PostCreated(r[a]) >= PostCreated(r[b])
    {
      assert PostCreated(r[a]) == PostCreated(posts[a]) && PostCreated(r[b]) == PostCreated(posts[b]);
    }
    forall p | p in r ensures LikesConsistent(p) && 1 <= p.id < nextId {
      var j :| 0 <= j < |r| && r[j] == p;
      if j != i {
        assert p == posts[j];
      } else {
        assert posts[i] in posts;
      }
    }
  }

  /** The post as `updatePost` leaves it: trimmed title and content and
      `updatedAt = now`, with its id, likes and creation time kept. */
  function Edited(p: Post, title: string, content: string, now: int): (q: Post)
    ensures q.id == p.id && q.createdAt == p.createdAt
    ensures q.likeCount == p.likeCount && q.likedBy == p.likedBy
    ensures q.title == Trim(title) && q.content == Trim(content) && q.updatedAt == Some(now)
  {
    p.(title := Trim(title), content := Trim(content), updatedAt := Some(now))
  }

  /** Editing one post keeps the store invariant. */
  lemma EditKeepsInvariant(posts: seq<Post>, nextId: int, i: nat, title: string, content: string, now: int)
    requires StoreInvariant(posts, nextId) && i < |posts|
    ensures StoreInvariant(posts[i := Edited(posts[i], title, content, now)], nextId)
  {
    assert posts[i] in posts;
    ReplaceKeepsInvariant(posts, nextId, i, Edited(posts[i], title, content, now));
  }

  /** The posts (`boardPosts`) and the id counter (`nextId`). */
  class PostStore {
    var posts: seq<Post>
    var nextId: int

    ghost predicate Valid()
      reads this
    {
      StoreInvariant(posts, nextId)
    }

    /** The module's initial state: no posts, first id 1. */
    constructor ()
      ensures Valid() && posts == [] && nextId == 1
    {
      posts := [];
      nextId := 1;
    }

    /** `getAllPosts`: sorts the store in place, newest first, and returns it. */
    method GetAllPosts() returns (all: seq<Post>)
      requires Valid()
      modifies this
      ensures Valid() && nextId == old(nextId)
      ensures multiset(posts) == multiset(old(posts))
      ensures SortedDesc(posts, PostCreated)
      ensures all == posts
    {
      var sorted := SortDesc(posts, PostCreated);
      PermutationKeepsKeysDistinct(posts, sorted, PostId);
      forall p | p in sorted ensures p in posts {
        assert p in multiset(sorted);
      }
      posts := sorted;
      all := posts;
    }

    /** `getPostById`: the post with that id, if there is one. */
    method GetPostById(id: int) returns (post: Option<Post>)
      requires Valid()
      ensures post.Some? <==> exists p :: p in posts && p.id == id
      ensures post.Some? ==> post.value in posts && post.value.id == id
      ensures forall p :: p in posts && p.id == id ==> post == Some(p)
    {
      var i := FindIndex(posts, PostId, id);
      post := if i < 0 then None else Some(posts[i]);
      forall p | p in posts && p.id == id ensures post == Some(p) {
        var j :| 0 <= j < |posts| && posts[j] == p;
        assert PostId(posts[j]) == id;
      }
    }

    /** `addPost`: a new post with the next id, trimmed text, no likes and
        creation time `now`, appended to the store. */
    method AddPost(title: string, content: string, now: int) returns (post: Post)
      requires Valid()
      modifies this
      ensures Valid()
      ensures post.id == old(nextId) && nextId == old(nextId) + 1
      ensures post.title == Trim(title) && post.content == Trim(content)
      ensures post.likeCount == 0 && post.likedBy == []
      ensures post.createdAt == now && post.updatedAt == None
      ensures posts == old(posts) + [post]
    {
      post := Post(nextId, Trim(title), Trim(content), 0, [], now, None);
      AppendKeepsInvariant(posts, nextId, post);
      posts := posts + [post];
      nextId := nextId + 1;
    }

    /** `updatePost`: nothing when the id is unknown; otherwise that post gets
        trimmed title and content and `updatedAt = now`, keeping its id, likes
        and creation time, and every other post stays as it was. */
    method UpdatePost(id: int, title: string, content: string, now: int) returns (post: Option<Post>)
      requires Valid()
      modifies this
      ensures Valid() && nextId == old(nextId)
      ensures IndexOfKey(old(posts), PostId, id) < 0 ==> post == None && posts == old(posts)
      ensures 0 <= IndexOfKey(old(posts), PostId, id) ==>
        var i := IndexOfKey(old(posts), PostId, id);
        post == Some(Edited(old(posts)[i], title, content, now)) && posts == old(posts)[i := post.value]
    {
      var i := FindIndex(posts, PostId, id);
      if 0 <= i {
        EditKeepsInvariant(posts, nextId, i, title, content, now);
        post := Some(Edited(posts[i], title, content, now));
        posts := posts[i := post.value];
      } else {
        post := None;
      }
    }

    /** `deletePost`: true exactly when a post with that id existed, which is
        then spliced out; no post with that id remains. */
    method DeletePost(id: int) returns (deleted: bool)
      requires Valid()
      modifies this
      ensures Valid() && nextId == old(nextId)
      ensures deleted <==> exists p :: p in old(posts) && p.id == id
      ensures var i := IndexOfKey(old(posts), PostId, id);
        posts == if i < 0 then old(posts) else RemoveAt(old(posts), i)
      ensures forall p :: p in posts ==> p.id != id
    {
      var i := FindIndex(posts, PostId, id);
      if i == -1 {
        return false;
      }
      RemoveAtKeysDistinct(posts, PostId, i);
      posts := RemoveAt(posts, i);
      deleted := true;
    }

    /** `toggleLike`: after `getAllPosts` has re-sorted the store, an unknown id
        gives no post and `isLiked = false` with every post unchanged;
        otherwise the post with that id is replaced by its toggled form, which
        is returned with `isLiked` telling whether the user now likes it. */
    method ToggleLike(id: int, user: string) returns (post: Option<Post>, isLiked: bool)
      requires Valid()
      modifies this
      ensures Valid() && nextId == old(nextId)
      ensures SortedDesc(posts, PostCreated)
      ensures old(FindByKey(posts, PostId, id)).None? ==>
        post == None && !isLiked && multiset(posts) == multiset(old(posts))
      ensures old(FindByKey(posts, PostId, id)).Some? ==>
        var p := old(FindByKey(posts, PostId, id)).value;
        && post == Some(Toggled(p, user))
        && isLiked == (user !in p.likedBy)
        && multiset(posts) == multiset(old(posts)) - multiset{p} + multiset{Toggled(p, user)}
    {
      ghost var before := posts;
      var _ := GetAllPosts();
      FindByKeyPermutation(before, posts, PostId, id);
      var i := FindIndex(posts, PostId, id);
      if i == -1 {
        return None, false;
      }
      var p := posts[i];
      ToggledConsistent(p, user);
      var k := IndexOf(p.likedBy, user);
      if k == -1 {
        p := p.(likedBy := p.likedBy + [user], likeCount := p.likeCount + 1);
        isLiked := true;
      } else {
        p := p.(likedBy := RemoveAt(p.likedBy, k), likeCount := p.likeCount - 1);
        isLiked := false;
      }
      ReplaceKeepsInvariant(posts, nextId, i, p);
      posts := posts[i := p];
      post := Some(p);
    }

    /** `isLikedByUser`: whether a post with that id exists and `user` is
        among those who like it. */
    method IsLikedByUser(id: int, user: string) returns (liked: bool)
      requires Valid()
      ensures liked <==> exists p :: p in posts && p.id == id && user in p.likedBy
    {
      var post := GetPostById(id);
      liked := post.Some? && user in post.value.likedBy;
    }

    /** `clearAllPosts`: empties the store and restarts ids at 1. */
    method ClearAllPosts() returns (ok: bool)
      modifies this
      ensures Valid() && posts == [] && nextId == 1 && ok
    {
      posts := [];
      nextId := 1;
      ok := true;
    }
  }

  /** Two consecutive `toggleLike(id, user)` calls: for a known post the
      reported like states alternate and the post ends with its original like
      count and the same users liking it; for an unknown id neither call
      reports a like and the posts are the same. */
  method ToggleLikeTwice(store: PostStore, id: int, user: string) returns (first: bool, second: bool)
    requires store.Valid()
    modifies store
    ensures store.Valid() && store.nextId == old(store.nextId)
    ensures old(FindByKey(store.posts, PostId, id)).None? ==>
      !first && !second && multiset(store.posts) == multiset(old(store.posts))
    ensures old(FindByKey(store.posts, PostId, id)).Some? ==>
      var p := old(FindByKey(store.posts, PostId, id)).value;
      var q := FindByKey(store.posts, PostId, id);
      && first != second
      && q.Some? && q.value.likeCount == p.likeCount
      && multiset(q.value.likedBy) == multiset(p.likedBy)
  {
    var found := FindByKey(store.posts, PostId, id);
    var post;
    if found.None? {
      post, first := store.ToggleLike(id, user);
      post, second := store.ToggleLike(id, user);
      return;
    }
    ghost var p := found.value;
    assert p in store.posts;
    ToggledTwice(p, user);
    post, first := store.ToggleLike(id, user);
    ghost var q := Toggled(p, user);
    assert q in multiset(store.posts) && q.id == id;
    FindByKeyUnique(store.posts, PostId, q);
    post, second := store.ToggleLike(id, user);
    ghost var r := Toggled(q, user);
    assert r in multiset(store.posts) && r.id == id;
    FindByKeyUnique(store.posts, PostId, r);
  }
}
