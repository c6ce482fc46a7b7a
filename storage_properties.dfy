/**
 * Properties of the in-memory store that span several calls: what a freshly
 * constructed store answers, and what a sequence of operations on any valid
 * store leaves behind.
 */
module StorageProperties {
  import opened Wrappers
  import opened Ordering
  import opened Storage

  /** A fresh store lists its three sample posts, the most recently published first. */
  method FreshStoreListing() returns (all: seq<Post>)
    ensures |all| == 3
    ensures all[0] == SamplePosts()[0]
    ensures forall p :: p in all ==> p in SamplePosts()
  {
    var s := new MemStorage();
    all := s.GetAllPosts();
    ghost var table := s.posts;
    assert table == map[1 := SamplePosts()[0], 2 := SamplePosts()[1], 3 := SamplePosts()[2]];
    assert SortedDesc(all, EffectiveDate);
    assert forall p :: p in all ==> p.id in table && table[p.id] == p;
    assert forall k :: k in table ==> table[k] in all;
    SeededNewestFirst(table, all);
  }

  /** Any newest-first listing of the seeded posts table starts with the first sample. */
  lemma SeededNewestFirst(posts: map<int, Post>, all: seq<Post>)
    requires posts == map[1 := SamplePosts()[0], 2 := SamplePosts()[1], 3 := SamplePosts()[2]]
    requires SortedDesc(all, EffectiveDate)
    requires forall p :: p in all ==> p.id in posts && posts[p.id] == p
    requires forall k :: k in posts ==> posts[k] in all
    ensures all != [] && all[0] == SamplePosts()[0]
    ensures forall p :: p in all ==> p in SamplePosts()
  {
    var newest := SamplePosts()[0];
    assert posts[1] == newest;
    forall y | y in all && y != newest
      ensures EffectiveDate(y) < EffectiveDate(newest)
    {
      assert y.id in posts && posts[y.id] == y;
    }
    NewestIsFirst(all, EffectiveDate, newest);
  }

  /** The first post created in a fresh store gets id 4, after the three samples. */
  method FirstCreatedPostId(draft: InsertPost, now: Date) returns (p: Post)
    ensures p.id == 4
    ensures p == NewPost(4, draft, now)
  {
    var s := new MemStorage();
    p := s.CreatePost(draft, now);
  }

  /** Liking the first sample post of a fresh store takes it from 24 to 25 likes, as a later read shows. */
  method LikeSeededPost(now: Date) returns (liked: Option<Post>, stored: Option<Post>)
    ensures liked.Some? && liked.value.likes == 25 && liked.value.updatedAt == now
    ensures stored == liked
  {
    var s := new MemStorage();
    liked := s.LikePost(1, now);
    stored := s.GetPostById(1);
  }

  /** Two likes add two; on an absent id both report nothing and the table stays as it was. */
  method LikeTwice(s: MemStorage, id: int, first: Date, second: Date) returns (r1: Option<Post>, r2: Option<Post>)
    requires s.Valid()
    modifies s
    ensures s.Valid()
    ensures id in old(s.posts) ==>
              r2.Some? && r2.value.likes == old(s.posts)[id].likes + 2
              && r2.value.updatedAt == second && s.posts == old(s.posts)[id := r2.value]
    ensures id !in old(s.posts) ==> r1.None? && r2.None? && s.posts == old(s.posts)
  {
    r1 := s.LikePost(id, first);
    r2 := s.LikePost(id, second);
  }

  /**
   * Deleting twice: the first delete reports whether the post was there, the
   * second reports false, and the post can no longer be read.
   */
  method DeleteTwice(s: MemStorage, id: int) returns (d1: bool, d2: bool, after: Option<Post>)
    requires s.Valid()
    modifies s
    ensures s.Valid()
    ensures d1 <==> id in old(s.posts)
    ensures !d2
    ensures after.None?
    ensures s.posts == old(s.posts) - {id}
  {
    d1 := s.DeletePost(id);
    d2 := s.DeletePost(id);
    after := s.GetPostById(id);
  }

  /** A post created after a delete never takes the deleted post's id. */
  method DeleteThenCreate(s: MemStorage, id: int, draft: InsertPost, now: Date) returns (p: Post)
    requires s.Valid()
    modifies s
    ensures s.Valid()
    ensures p.id != id || id !in old(s.posts)
    ensures p.id !in old(s.posts)
    ensures p.id == old(s.currentPostId)
  {
    var _ := s.DeletePost(id);
    p := s.CreatePost(draft, now);
  }

  /**
   * A comment posted on the first sample post of a fresh store, later than the
   * seeded ones, is listed first among its four comments.
   */
  method NewCommentListedFirst(author: string, content: string, now: Date) returns (c: Comment, listed: seq<Comment>)
    requires now > 1710496800000
    ensures c.id == 4 && c.postId == Some(1)
    ensures |listed| == 4
    ensures listed[0] == c
  {
    var s := new MemStorage();
    c := s.CreateComment(InsertComment(Some(1), author, content), now);
    listed := s.GetCommentsByPostId(1);
    LaterCommentFirst(s.comments, c, listed);
  }

  /**
   * In a newest-first listing of post 1's comments, after a fourth comment later
   * than the seeded ones was added, the new comment comes first.
   */
  lemma LaterCommentFirst(comments: map<int, Comment>, c: Comment, listed: seq<Comment>)
    requires comments == map[1 := SampleComments()[0], 2 := SampleComments()[1], 3 := SampleComments()[2], 4 := c]
    requires c.id == 4 && c.postId == Some(1) && c.createdAt > 1710496800000
    requires SortedDesc(listed, CommentDate)
    requires forall y :: y in listed ==> y.id in comments && comments[y.id] == y
    requires forall k :: k in comments && comments[k].postId == Some(1) ==> comments[k] in listed
    ensures listed != [] && listed[0] == c
    ensures |set k | k in comments && comments[k].postId == Some(1)| == 4
  {
    assert (set k | k in comments && comments[k].postId == Some(1)) == {1, 2, 3, 4};
    assert comments[4] == c;
    forall y | y in listed && y != c
      ensures CommentDate(y) < CommentDate(c)
    {
      assert y.id in comments && comments[y.id] == y;
    }
    NewestIsFirst(listed, CommentDate, c);
  }
}
