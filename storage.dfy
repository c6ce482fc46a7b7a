/**
 * The blog's in-memory store (`MemStorage`): three id-keyed tables of posts,
 * comments and users, each with an auto-increment counter, seeded at construction
 * with three sample posts and three sample comments.
 *
 * The source's methods are `async` but never suspend; they are modelled as
 * synchronous. Every read of the wall clock (`new Date()`) is the parameter `now`.
 */
module Storage {
  import opened Wrappers
  import opened Ordering

  /** A point in time, in milliseconds since the Unix epoch (`Date.getTime()`). */
  type Date = int

  datatype Post = Post(
    id: int,
    title: string,
    excerpt: string,
    content: string,
    category: string,
    featuredImage: Option<string>,   // None is `null`
    status: string,
    publishDate: Option<Date>,       // None is `null`
    likes: nat,
    createdAt: Date,
    updatedAt: Date)

  /** The author's fields of a new post; None is a missing (or `null`) field. */
  datatype InsertPost = InsertPost(
    title: string,
    excerpt: string,
    content: string,
    category: string,
    featuredImage: Option<string>,
    status: Option<string>,
    publishDate: Option<Date>)

  /**
   * `Partial<InsertPost>`: None is a field the update does not mention. A nullable
   * field may be set to `null`, hence the nested Option.
   */
  datatype PostPatch = PostPatch(
    title: Option<string>,
    excerpt: Option<string>,
    content: Option<string>,
    category: Option<string>,
    featuredImage: Option<Option<string>>,
    status: Option<string>,
    publishDate: Option<Option<Date>>)

  datatype Comment = Comment(id: int, postId: Option<int>, author: string, content: string, createdAt: Date)

  datatype InsertComment = InsertComment(postId: Option<int>, author: string, content: string)

  /** The untyped user record, reduced to the one field the store looks at. */
  datatype User = User(id: int, username: string)

  datatype InsertUser = InsertUser(username: string)

  /** The date a post is listed under: its publish date, else its creation date. */
  function EffectiveDate(p: Post): (r: Date)
    ensures p.publishDate.Some? ==> r == p.publishDate.value
    ensures p.publishDate.None? ==> r == p.createdAt
  {
    if p.publishDate.Some? then p.publishDate.value else p.createdAt
  }

  /** The date a comment is listed under: the moment it was created. */
  function CommentDate(c: Comment): (r: Date)
    ensures r == c.createdAt
  {
    c.createdAt
  }

  /** The value of a field after a shallow merge: the patch's value when it has one. */
  function Override<T>(patched: Option<T>, current: T): (r: T)
    ensures patched.Some? ==> r == patched.value
    ensures patched.None? ==> r == current
  {
    patched.GetOr(current)
  }

  /**
   * The post `createPost` stores under `id`: the draft's fields with the defaults
   * applied (no likes, a "draft" status for a missing or empty status, `null` for a
   * missing or empty image and a missing publish date), stamped with `now`.
   */
  function NewPost(id: int, draft: InsertPost, now: Date): (p: Post)
    ensures p.id == id && p.likes == 0 && p.createdAt == now && p.updatedAt == now
    ensures p.title == draft.title && p.excerpt == draft.excerpt
    ensures p.content == draft.content && p.category == draft.category
    ensures p.status != ""
    ensures draft.status.Some? && draft.status.value != "" ==> p.status == draft.status.value
    ensures draft.status.None? || draft.status == Some("") ==> p.status == "draft"
    ensures draft.featuredImage.None? || draft.featuredImage == Some("") ==> p.featuredImage.None?
    ensures draft.featuredImage != Some("") ==> p.featuredImage == draft.featuredImage
    ensures p.publishDate == draft.publishDate
  {
    Post(
      id := id,
      title := draft.title,
      excerpt := draft.excerpt,
      content := draft.content,
      category := draft.category,
      featuredImage := if draft.featuredImage == Some("") then None else draft.featuredImage,
      status := if draft.status.None? || draft.status == Some("") then "draft" else draft.status.value,
      publishDate := draft.publishDate,
      likes := 0,
      createdAt := now,
      updatedAt := now)
  }

  /**
   * The post `updatePost` stores: every field the patch mentions takes the patch's
   * value as given (an empty string stays empty), every other field keeps its value,
   * and only `updatedAt` moves, to `now`.
   */
  function ApplyPatch(p: Post, patch: PostPatch, now: Date): (q: Post)
    ensures q.id == p.id && q.likes == p.likes && q.createdAt == p.createdAt && q.updatedAt == now
    ensures patch.title.Some? ==> q.title == patch.title.value
    ensures patch.title.None? ==> q.title == p.title
    ensures patch.excerpt.Some? ==> q.excerpt == patch.excerpt.value
    ensures patch.excerpt.None? ==> q.excerpt == p.excerpt
    ensures patch.content.Some? ==> q.content == patch.content.value
    ensures patch.content.None? ==> q.content == p.content
    ensures patch.category.Some? ==> q.category == patch.category.value
    ensures patch.category.None? ==> q.category == p.category
    ensures patch.featuredImage.Some? ==> q.featuredImage == patch.featuredImage.value
    ensures patch.featuredImage.None? ==> q.featuredImage == p.featuredImage
    ensures patch.status.Some? ==> q.status == patch.status.value
    ensures patch.status.None? ==> q.status == p.status
    ensures patch.publishDate.Some? ==> q.publishDate == patch.publishDate.value
    ensures patch.publishDate.None? ==> q.publishDate == p.publishDate
  {
    p.(
      title := Override(patch.title, p.title),
      excerpt := Override(patch.excerpt, p.excerpt),
      content := Override(patch.content, p.content),
      category := Override(patch.category, p.category),
      featuredImage := Override(patch.featuredImage, p.featuredImage),
      status := Override(patch.status, p.status),
      publishDate := Override(patch.publishDate, p.publishDate),
      updatedAt := now)
  }

  /** The patch that mentions no field. */
  const EmptyPatch := PostPatch(None, None, None, None, None, None, None)

  /** An update that mentions no field only refreshes `updatedAt`. */
  lemma EmptyPatchOnlyTouches(p: Post, now: Date)
    ensures ApplyPatch(p, EmptyPatch, now) == p.(updatedAt := now)
  {
  }

  /** Applying the same update twice is the same as applying it once, at the later time. */
  lemma ApplyPatchIdempotent(p: Post, patch: PostPatch, t1: Date, t2: Date)
    ensures ApplyPatch(ApplyPatch(p, patch, t1), patch, t2) == ApplyPatch(p, patch, t2)
  {
  }

  /**
   * Unlike `createPost`, `updatePost` does not normalise: an empty status or image
   * in an update is stored as it is.
   */
  lemma UpdateKeepsEmptyStrings(p: Post, now: Date)
    ensures var patch := EmptyPatch.(status := Some(""), featuredImage := Some(Some("")));
            ApplyPatch(p, patch, now).status == "" &&
            ApplyPatch(p, patch, now).featuredImage == Some("")
  {
  }

  /** The post `likePost` stores: one more like, `updatedAt` moved to `now`, nothing else changed. */
  function Liked(p: Post, now: Date): (q: Post)
    ensures q.likes == p.likes + 1 && q.updatedAt == now
    ensures q.(likes := p.likes, updatedAt := p.updatedAt) == p
  {
    p.(likes := p.likes + 1, updatedAt := now)
  }

  /**
   * The comment `createComment` stores under `id`: the draft's author and text, a
   * `null` post reference when the draft has none or has 0, stamped with `now`.
   */
  function NewComment(id: int, draft: InsertComment, now: Date): (c: Comment)
    ensures c.id == id && c.createdAt == now
    ensures c.author == draft.author && c.content == draft.content
    ensures c.postId != Some(0)
    ensures c.postId.None? <==> draft.postId.None? || draft.postId == Some(0)
    ensures draft.postId.Some? && draft.postId.value != 0 ==> c.postId == draft.postId
  {
    Comment(
      id := id,
      postId := if draft.postId == Some(0) then None else draft.postId,
      author := draft.author,
      content := draft.content,
      createdAt := now)
  }

  /**
   * The seeded sample posts, in the order they are stored. Titles, excerpts, Markdown
   * bodies and image addresses are abbreviated (an image keeps only its photo name);
   * nothing in the store looks inside them.
   */
  function SamplePosts(): (r: seq<Post>)
    ensures |r| == 3
    ensures forall i :: 0 <= i < |r| ==> r[i].id == i + 1 && r[i].status == "published"
    ensures forall i :: 0 < i < |r| ==> EffectiveDate(r[i]) < EffectiveDate(r[i - 1])
    ensures EffectiveDate(r[0]) == 1710460800000 && EffectiveDate(r[1]) == 1710028800000
    ensures EffectiveDate(r[2]) == 1709856000000
  {
    [ Post(1, "Building Modern Web ...",
           "...", "...", "JavaScript",
           Some("photo-1461749280684"),
           "published", Some(1710460800000), 24, 1710460800000, 1710460800000),
      Post(2, "Advanced JavaScript Patterns ...",
           "...", "...", "JavaScript",
           Some("photo-1461749280684"),
           "published", Some(1710028800000), 12, 1710028800000, 1710028800000),
      Post(3, "Design Systems ...",
           "...", "...", "Design",
           Some("photo-1561070791"),
           "published", Some(1709856000000), 18, 1709856000000, 1709856000000) ]
  }

  /** The seeded sample comments, all on post 1, two hours apart. Their texts are abbreviated. */
  function SampleComments(): (r: seq<Comment>)
    ensures |r| == 3
    ensures forall i :: 0 <= i < |r| ==> r[i].id == i + 1 && r[i].postId == Some(1)
    ensures forall i :: 0 < i < |r| ==> CommentDate(r[i - 1]) - CommentDate(r[i]) == 7200000
  {
    [ Comment(1, Some(1), "John Doe", "...", 1710496800000),
      Comment(2, Some(1), "Sarah Miller", "...", 1710489600000),
      Comment(3, Some(1), "Mike Kim", "...", 1710482400000) ]
  }

  /** The samples are numbered 1, 2, 3 in order. */
  lemma SampleIds()
    ensures |SamplePosts()| == 3 && forall i :: 0 <= i < 3 ==> SamplePosts()[i].id == i + 1
    ensures |SampleComments()| == 3 && forall i :: 0 <= i < 3 ==> SampleComments()[i].id == i + 1
  {
  }

  function Max(a: int, b: int): int {
    if a < b then b else a
  }

  /** A post's key in the posts table. */
  function PostId(p: Post): (r: int)
    ensures r == p.id
  {
    p.id
  }

  /** A comment's key in the comments table. */
  function CommentId(c: Comment): (r: int)
    ensures r == c.id
  {
    c.id
  }

  /**
   * The table after each of `xs` is stored under its key `id(x)`, in order: the
   * `set` step of the seeding `forEach`, shared by posts and comments.
   */
  function Put<V>(m: map<int, V>, xs: seq<V>, id: V -> int): (r: map<int, V>)
    ensures m.Keys <= r.Keys
    decreases |xs|
  {
    if xs == [] then m else Put(m, xs[..|xs| - 1], id)[id(xs[|xs| - 1]) := xs[|xs| - 1]]
  }

  /** The counter after it is raised past the key of each of `xs`, in order: the `Math.max` step. */
  function CounterPast<V>(c: int, xs: seq<V>, id: V -> int): (r: int)
    ensures r >= c && forall i :: 0 <= i < |xs| ==> r > id(xs[i])
    decreases |xs|
  {
    if xs == [] then c else Max(CounterPast(c, xs[..|xs| - 1], id), id(xs[|xs| - 1]) + 1)
  }

  /**
   * Key `k` after the fold: it is stored when it was before or some element of
   * `xs` has it as its key; it keeps its old value when no element has that key;
   * otherwise it holds the last element with that key.
   */
  lemma {:induction false} PutAt<V>(m: map<int, V>, xs: seq<V>, id: V -> int, k: int)
    ensures k in Put(m, xs, id) <==> k in m || exists i :: 0 <= i < |xs| && id(xs[i]) == k
    ensures k in m && (forall i :: 0 <= i < |xs| ==> id(xs[i]) != k) ==> Put(m, xs, id)[k] == m[k]
    ensures forall i :: 0 <= i < |xs| && id(xs[i]) == k && (forall j :: i < j < |xs| ==> id(xs[j]) != k) ==>
              Put(m, xs, id)[k] == xs[i]
    decreases |xs|
  {
    if xs != [] {
      var n := |xs| - 1;
      var init := xs[..n];
      PutAt(m, init, id, k);
      assert forall i :: 0 <= i < n ==> init[i] == xs[i];
      if k != id(xs[n]) {
        forall i | 0 <= i < |xs| && id(xs[i]) == k && (forall j :: i < j < |xs| ==> id(xs[j]) != k)
          ensures Put(m, xs, id)[k] == xs[i]
        {
          assert i < n && init[i] == xs[i];
          assert forall j :: i < j < n ==> init[j] == xs[j];
        }
      }
    }
  }

  /** The counter ends at its start or just past one of the keys: the maximum is attained. */
  lemma {:induction false} CounterPastReached<V>(c: int, xs: seq<V>, id: V -> int)
    ensures CounterPast(c, xs, id) == c || exists i :: 0 <= i < |xs| && CounterPast(c, xs, id) == id(xs[i]) + 1
    decreases |xs|
  {
    if xs != [] {
      var n := |xs| - 1;
      CounterPastReached(c, xs[..n], id);
      if CounterPast(c, xs, id) != id(xs[n]) + 1 && CounterPast(c, xs[..n], id) != c {
        var i :| 0 <= i < n && CounterPast(c, xs[..n], id) == id(xs[..n][i]) + 1;
        assert xs[..n][i] == xs[i];
      }
    }
  }

  /** One more element stored: the fold over the first i + 1 elements is the fold over the first i, then element i. */
  lemma SeedStep<V>(m: map<int, V>, c: int, xs: seq<V>, id: V -> int, i: nat)
    requires i < |xs|
    ensures Put(m, xs[..i + 1], id) == Put(m, xs[..i], id)[id(xs[i]) := xs[i]]
    ensures CounterPast(c, xs[..i + 1], id) == Max(CounterPast(c, xs[..i], id), id(xs[i]) + 1)
  {
    assert xs[..i + 1][..i] == xs[..i];
  }

  /** Storing three elements with keys 1, 2 and 3 into an empty table, starting the counter at 1. */
  lemma {:induction false} PutThree<V>(xs: seq<V>, id: V -> int)
    requires |xs| == 3 && id(xs[0]) == 1 && id(xs[1]) == 2 && id(xs[2]) == 3
    ensures Put(map[], xs, id) == map[1 := xs[0], 2 := xs[1], 3 := xs[2]]
    ensures CounterPast(1, xs, id) == 4
  {
    assert xs[..3] == xs && xs[..3][..2] == xs[..2] && xs[..2][..1] == xs[..1] && xs[..1][..0] == [];
    assert Put(map[], xs[..1], id) == map[1 := xs[0]];
    assert Put(map[], xs[..2], id) == map[1 := xs[0], 2 := xs[1]];
    assert CounterPast(1, xs[..1], id) == 2;
    assert CounterPast(1, xs[..2], id) == 3;
  }

  class MemStorage {
    var posts: map<int, Post>
    var comments: map<int, Comment>
    var users: map<int, User>
    var currentPostId: int
    var currentCommentId: int
    var currentUserId: int
    /** Every id the store has ever given out, deleted ones included. */
    ghost var issuedPostIds: set<int>
    ghost var issuedCommentIds: set<int>
    ghost var issuedUserIds: set<int>

    /**
     * Each record sits under its own id; every stored id has been issued; every
     * issued id is below its counter, which the next create hands out.
     */
    ghost predicate Valid()
      reads this
    {
      && 1 <= currentPostId && 1 <= currentCommentId && 1 <= currentUserId
      && (forall k :: k in posts ==> posts[k].id == k && k in issuedPostIds)
      && (forall k :: k in issuedPostIds ==> 1 <= k < currentPostId)
      && (forall k :: k in comments ==> comments[k].id == k && k in issuedCommentIds)
      && (forall k :: k in issuedCommentIds ==> 1 <= k < currentCommentId)
      && (forall k :: k in users ==> users[k].id == k && k in issuedUserIds)
      && (forall k :: k in issuedUserIds ==> 1 <= k < currentUserId)
    }

    /** Empty tables, all counters at 1, then the sample data. */
    constructor ()
      ensures Valid()
      ensures posts == map[1 := SamplePosts()[0], 2 := SamplePosts()[1], 3 := SamplePosts()[2]]
      ensures comments == map[1 := SampleComments()[0], 2 := SampleComments()[1], 3 := SampleComments()[2]]
      ensures users == map[]
      ensures currentPostId == 4 && currentCommentId == 4 && currentUserId == 1
    {
      posts := map[];
      comments := map[];
      users := map[];
      currentPostId := 1;
      currentCommentId := 1;
      currentUserId := 1;
      issuedPostIds := {};
      issuedCommentIds := {};
      issuedUserIds := {};
      new;
      InitializeSampleData();
      var samplePosts, sampleComments := SamplePosts(), SampleComments();
      SampleIds();
      PutThree(samplePosts, PostId);
      PutThree(sampleComments, CommentId);
    }

    /** Stores each sample under its id and raises each counter past the ids it stored. */
    method InitializeSampleData()
      requires Valid()
      modifies this
      ensures Valid()
      ensures posts == Put(old(posts), SamplePosts(), PostId)
      ensures currentPostId == CounterPast(old(currentPostId), SamplePosts(), PostId)
      ensures comments == Put(old(comments), SampleComments(), CommentId)
      ensures currentCommentId == CounterPast(old(currentCommentId), SampleComments(), CommentId)
      ensures users == old(users) && currentUserId == old(currentUserId)
      ensures issuedUserIds == old(issuedUserIds)
    {
      var samplePosts, sampleComments := SamplePosts(), SampleComments();
      SampleIds();
      SeedPosts(samplePosts);
      SeedComments(sampleComments);
    }

    /** The `forEach` over the sample posts. */
    method SeedPosts(samplePosts: seq<Post>)
      requires Valid()
      requires forall i :: 0 <= i < |samplePosts| ==> samplePosts[i].id >= 1
      modifies this
      ensures Valid()
      ensures posts == Put(old(posts), samplePosts, PostId)
      ensures currentPostId == CounterPast(old(currentPostId), samplePosts, PostId)
      ensures comments == old(comments) && currentCommentId == old(currentCommentId)
      ensures issuedCommentIds == old(issuedCommentIds)
      ensures users == old(users) && currentUserId == old(currentUserId)
      ensures issuedUserIds == old(issuedUserIds)
    {
      for i := 0 to |samplePosts|
        invariant Valid()
        invariant posts == Put(old(posts), samplePosts[..i], PostId)
        invariant currentPostId == CounterPast(old(currentPostId), samplePosts[..i], PostId)
        invariant comments == old(comments) && currentCommentId == old(currentCommentId)
        invariant issuedCommentIds == old(issuedCommentIds)
        invariant users == old(users) && currentUserId == old(currentUserId)
        invariant issuedUserIds == old(issuedUserIds)
      {
        var post := samplePosts[i];
        SeedStep(old(posts), old(currentPostId), samplePosts, PostId, i);
        posts := posts[post.id := post];
        issuedPostIds := issuedPostIds + {post.id};
        currentPostId := Max(currentPostId, post.id + 1);
      }
      assert samplePosts[..|samplePosts|] == samplePosts;
    }

    /** The `forEach` over the sample comments. */
    method SeedComments(sampleComments: seq<Comment>)
      requires Valid()
      requires forall i :: 0 <= i < |sampleComments| ==> sampleComments[i].id >= 1
      modifies this
      ensures Valid()
      ensures comments == Put(old(comments), sampleComments, CommentId)
      ensures currentCommentId == CounterPast(old(currentCommentId), sampleComments, CommentId)
      ensures posts == old(posts) && currentPostId == old(currentPostId)
      ensures issuedPostIds == old(issuedPostIds)
      ensures users == old(users) && currentUserId == old(currentUserId)
      ensures issuedUserIds == old(issuedUserIds)
    {
      for i := 0 to |sampleComments|
        invariant Valid()
        invariant comments == Put(old(comments), sampleComments[..i], CommentId)
        invariant currentCommentId == CounterPast(old(currentCommentId), sampleComments[..i], CommentId)
        invariant posts == old(posts) && currentPostId == old(currentPostId)
        invariant issuedPostIds == old(issuedPostIds)
        invariant users == old(users) && currentUserId == old(currentUserId)
        invariant issuedUserIds == old(issuedUserIds)
      {
        var comment := sampleComments[i];
        SeedStep(old(comments), old(currentCommentId), sampleComments, CommentId, i);
        comments := comments[comment.id := comment];
        issuedCommentIds := issuedCommentIds + {comment.id};
        currentCommentId := Max(currentCommentId, comment.id + 1);
      }
      assert sampleComments[..|sampleComments|] == sampleComments;
    }

    /**
     * `getAllPosts`: every stored post once, newest first by effective date. A
     * function of the state, so it has no effect and repeated calls agree.
     */
    function GetAllPosts(): (r: seq<Post>)
      reads this
      requires Valid()
      ensures SortedDesc(r, EffectiveDate)
      ensures |r| == |posts|
      ensures forall p :: p in r ==> p.id in posts && posts[p.id] == p
      ensures forall k :: k in posts ==> posts[k] in r
    {
      PostsNewestFirst(posts, currentPostId)
    }

    /** `getPostById`: the post stored under `id`, or nothing. */
    function GetPostById(id: int): (r: Option<Post>)
      reads this
      requires Valid()
      ensures r.Some? <==> id in posts
      ensures r.Some? ==> r.value == posts[id] && r.value.id == id
    {
      if id in posts then Some(posts[id]) else None
    }

    /**
     * `createPost`: stores the draft, with its defaults, under the counter's current
     * value, which has never been issued before, and advances the counter by one.
     */
    method CreatePost(draft: InsertPost, now: Date) returns (p: Post)
      requires Valid()
      modifies this
      ensures Valid()
      ensures p == NewPost(old(currentPostId), draft, now)
      ensures p.id !in old(issuedPostIds) && p.id !in old(posts)
      ensures forall k :: k in old(posts) ==> k < p.id
      ensures posts == old(posts)[p.id := p]
      ensures currentPostId == old(currentPostId) + 1
      ensures issuedPostIds == old(issuedPostIds) + {p.id}
      ensures comments == old(comments) && currentCommentId == old(currentCommentId)
      ensures issuedCommentIds == old(issuedCommentIds)
      ensures users == old(users) && currentUserId == old(currentUserId)
      ensures issuedUserIds == old(issuedUserIds)
    {
      var id := currentPostId;
      currentPostId := currentPostId + 1;
      p := NewPost(id, draft, now);
      posts := posts[id := p];
      issuedPostIds := issuedPostIds + {id};
    }

    /**
     * `updatePost`: for a stored id, shallow-merges the patch into the post under
     * the same key; for any other id, returns nothing and changes nothing.
     */
    method UpdatePost(id: int, patch: PostPatch, now: Date) returns (r: Option<Post>)
      requires Valid()
      modifies this
      ensures Valid()
      ensures id !in old(posts) ==> r.None? && posts == old(posts)
      ensures id in old(posts) ==>
                r == Some(ApplyPatch(old(posts)[id], patch, now)) && posts == old(posts)[id := r.value]
      ensures issuedPostIds == old(issuedPostIds) && currentPostId == old(currentPostId)
      ensures comments == old(comments) && currentCommentId == old(currentCommentId)
      ensures issuedCommentIds == old(issuedCommentIds)
      ensures users == old(users) && currentUserId == old(currentUserId)
      ensures issuedUserIds == old(issuedUserIds)
    {
      if id !in posts {
        return None;
      }
      var updated := ApplyPatch(posts[id], patch, now);
      posts := posts[id := updated];
      r := Some(updated);
    }

    /** `deletePost`: removes the post and reports whether there was one. Its id is not reused. */
    method DeletePost(id: int) returns (existed: bool)
      requires Valid()
      modifies this
      ensures Valid()
      ensures existed <==> id in old(posts)
      ensures posts == old(posts) - {id}
      ensures issuedPostIds == old(issuedPostIds) && currentPostId == old(currentPostId)
      ensures comments == old(comments) && currentCommentId == old(currentCommentId)
      ensures issuedCommentIds == old(issuedCommentIds)
      ensures users == old(users) && currentUserId == old(currentUserId)
      ensures issuedUserIds == old(issuedUserIds)
    {
      existed := id in posts;
      posts := posts - {id};
    }

    /** `likePost`: adds one like to a stored post; for any other id, returns nothing and changes nothing. */
    method LikePost(id: int, now: Date) returns (r: Option<Post>)
      requires Valid()
      modifies this
      ensures Valid()
      ensures id !in old(posts) ==> r.None? && posts == old(posts)
      ensures id in old(posts) ==>
                r == Some(Liked(old(posts)[id], now)) && posts == old(posts)[id := r.value]
      ensures issuedPostIds == old(issuedPostIds) && currentPostId == old(currentPostId)
      ensures comments == old(comments) && currentCommentId == old(currentCommentId)
      ensures issuedCommentIds == old(issuedCommentIds)
      ensures users == old(users) && currentUserId == old(currentUserId)
      ensures issuedUserIds == old(issuedUserIds)
    {
      if id !in posts {
        return None;
      }
      var updated := Liked(posts[id], now);
      posts := posts[id := updated];
      r := Some(updated);
    }

    /** The ids of the stored comments on post `postId`. */
    ghost function CommentIdsOf(postId: int): set<int>
      reads this
    {
      set k | k in comments && comments[k].postId == Some(postId)
    }

    /**
     * `getCommentsByPostId`: exactly the stored comments on post `postId`, each
     * once, newest first. Comments with a `null` post reference match no post.
     */
    function GetCommentsByPostId(postId: int): (r: seq<Comment>)
      reads this
      requires Valid()
      ensures SortedDesc(r, CommentDate)
      ensures forall c :: c in r ==> c.id in comments && comments[c.id] == c && c.postId == Some(postId)
      ensures forall k :: k in comments && comments[k].postId == Some(postId) ==> comments[k] in r
      ensures |r| == |CommentIdsOf(postId)|
    {
      CommentsNewestFirst(comments, currentCommentId, postId)
    }

    /**
     * `createComment`: stores the draft under the comment counter's current value,
     * which has never been issued before, and advances that counter only.
     */
    method CreateComment(draft: InsertComment, now: Date) returns (c: Comment)
      requires Valid()
      modifies this
      ensures Valid()
      ensures c == NewComment(old(currentCommentId), draft, now)
      ensures c.id !in old(issuedCommentIds) && c.id !in old(comments)
      ensures comments == old(comments)[c.id := c]
      ensures currentCommentId == old(currentCommentId) + 1
      ensures issuedCommentIds == old(issuedCommentIds) + {c.id}
      ensures posts == old(posts) && currentPostId == old(currentPostId)
      ensures issuedPostIds == old(issuedPostIds)
      ensures users == old(users) && currentUserId == old(currentUserId)
      ensures issuedUserIds == old(issuedUserIds)
    {
      var id := currentCommentId;
      currentCommentId := currentCommentId + 1;
      c := NewComment(id, draft, now);
      comments := comments[id := c];
      issuedCommentIds := issuedCommentIds + {id};
    }

    /** `getUser`: the user stored under `id`, or nothing. */
    function GetUser(id: int): (r: Option<User>)
      reads this
      requires Valid()
      ensures r.Some? <==> id in users
      ensures r.Some? ==> r.value == users[id] && r.value.id == id
    {
      if id in users then Some(users[id]) else None
    }

    /**
     * `getUserByUsername`: the first user, in insertion (ascending id) order, with
     * that user name, or nothing when no user has it.
     */
    function GetUserByUsername(username: string): (r: Option<User>)
      reads this
      requires Valid()
      ensures r.None? <==> forall k :: k in users ==> users[k].username != username
      ensures r.Some? ==> r.value.id in users && users[r.value.id] == r.value && r.value.username == username
      ensures r.Some? ==> forall k :: k in users && users[k].username == username ==> r.value.id <= k
    {
      FirstByUsername(users, currentUserId, username)
    }

    /** `createUser`: stores the record under the user counter's current value and advances it. */
    method CreateUser(draft: InsertUser) returns (u: User)
      requires Valid()
      modifies this
      ensures Valid()
      ensures u == User(old(currentUserId), draft.username)
      ensures u.id !in old(issuedUserIds) && u.id !in old(users)
      ensures users == old(users)[u.id := u]
      ensures currentUserId == old(currentUserId) + 1
      ensures issuedUserIds == old(issuedUserIds) + {u.id}
      ensures posts == old(posts) && currentPostId == old(currentPostId)
      ensures issuedPostIds == old(issuedPostIds)
      ensures comments == old(comments) && currentCommentId == old(currentCommentId)
      ensures issuedCommentIds == old(issuedCommentIds)
    {
      var id := currentUserId;
      currentUserId := currentUserId + 1;
      u := User(id, draft.username);
      users := users[id := u];
      issuedUserIds := issuedUserIds + {id};
    }
  }

  /**
   * The posts of a table whose keys all lie in [1, n), in insertion order, then
   * stably sorted newest first by effective date.
   */
  function PostsNewestFirst(posts: map<int, Post>, n: int): (r: seq<Post>)
    requires forall k :: k in posts ==> 1 <= k < n && posts[k].id == k
    ensures SortedDesc(r, EffectiveDate)
    ensures |r| == |posts|
    ensures forall p :: p in r ==> p.id in posts && posts[p.id] == p
    ensures forall k :: k in posts ==> posts[k] in r
  {
    var ks := TableOrder(posts.Keys, n);
    var listed := ValuesAt(posts, ks);
    Listed(posts, ks, listed, PostId);
    SortDesc(listed, EffectiveDate)
  }

  /**
   * Listing a table whose records sit under their own keys, by a list holding
   * each key: every listed record is the one stored under its key, and every
   * stored record is listed.
   */
  lemma Listed<V>(m: map<int, V>, ks: seq<int>, listed: seq<V>, id: V -> int)
    requires forall k :: k in m ==> id(m[k]) == k
    requires forall i :: 0 <= i < |ks| ==> ks[i] in m
    requires forall k :: k in m ==> k in ks
    requires |listed| == |ks| && forall i :: 0 <= i < |ks| ==> listed[i] == m[ks[i]]
    ensures forall x :: x in listed ==> id(x) in m && m[id(x)] == x
    ensures forall k :: k in m ==> m[k] in listed
  {
    forall x | x in listed ensures id(x) in m && m[id(x)] == x {
      var i :| 0 <= i < |listed| && listed[i] == x;
      assert listed[i] == m[ks[i]] && id(m[ks[i]]) == ks[i];
    }
    forall k | k in m ensures m[k] in listed {
      var i :| 0 <= i < |ks| && ks[i] == k;
      assert listed[i] == m[k];
    }
  }

  /**
   * The comments on post `postId` of a table whose keys all lie in [1, n), in
   * insertion order, then stably sorted newest first.
   */
  function CommentsNewestFirst(comments: map<int, Comment>, n: int, postId: int): (r: seq<Comment>)
    requires forall k :: k in comments ==> 1 <= k < n && comments[k].id == k
    ensures SortedDesc(r, CommentDate)
    ensures |r| == |set k | k in comments && comments[k].postId == Some(postId)|
    ensures forall c :: c in r ==> c.id in comments && comments[c.id] == c && c.postId == Some(postId)
    ensures forall k :: k in comments && comments[k].postId == Some(postId) ==> comments[k] in r
  {
    var onPost := CommentsOn(comments, postId);
    var ks := TableOrder(onPost.Keys, n);
    var listed := ValuesAt(onPost, ks);
    ListedComments(comments, postId, onPost, ks, listed);
    SortDesc(listed, CommentDate)
  }

  /** Listing the comments on one post by their keys lists each of them, and nothing else. */
  lemma ListedComments(comments: map<int, Comment>, postId: int, onPost: map<int, Comment>,
                       ks: seq<int>, listed: seq<Comment>)
    requires forall k :: k in comments ==> comments[k].id == k
    requires onPost == CommentsOn(comments, postId)
    requires forall i :: 0 <= i < |ks| ==> ks[i] in onPost
    requires forall k :: k in onPost ==> k in ks
    requires |listed| == |ks| && forall i :: 0 <= i < |ks| ==> listed[i] == onPost[ks[i]]
    ensures forall c :: c in listed ==> c.id in comments && comments[c.id] == c && c.postId == Some(postId)
    ensures forall k :: k in comments && comments[k].postId == Some(postId) ==> comments[k] in listed
  {
    Listed(onPost, ks, listed, CommentId);
    forall k | k in comments && comments[k].postId == Some(postId) ensures comments[k] in listed {
      assert k in onPost;
    }
  }

  /** The part of a comments table whose comments refer to post `postId`. */
  function CommentsOn(comments: map<int, Comment>, postId: int): (m: map<int, Comment>)
    ensures m.Keys == set k | k in comments && comments[k].postId == Some(postId)
    ensures forall k :: k in m ==> m[k] == comments[k]
  {
    map k | k in comments && comments[k].postId == Some(postId) :: comments[k]
  }

  /**
   * `Array.from(users.values()).find(...)` over a users table whose keys all lie in
   * [1, n): the user with that user name stored under the lowest key.
   */
  function FirstByUsername(users: map<int, User>, n: int, username: string): (r: Option<User>)
    requires forall k :: k in users ==> 1 <= k < n && users[k].id == k
    ensures r.None? <==> forall k :: k in users ==> users[k].username != username
    ensures r.Some? ==> r.value.id in users && users[r.value.id] == r.value && r.value.username == username
    ensures r.Some? ==> forall k :: k in users && users[k].username == username ==> r.value.id <= k
  {
    var ks := TableOrder(users.Keys, n);
    var listed := ValuesAt(users, ks);
    var r := FindFirst(listed, username);
    FirstByUsernameFacts(users, ks, listed, username, r);
    r
  }

  lemma FirstByUsernameFacts(users: map<int, User>, ks: seq<int>, listed: seq<User>, username: string, r: Option<User>)
    requires forall k :: k in users ==> users[k].id == k
    requires forall i, j :: 0 <= i < j < |ks| ==> ks[i] < ks[j]
    requires forall k :: k in ks <==> k in users
    requires forall i :: 0 <= i < |ks| ==> ks[i] in users
    requires |listed| == |ks| && forall i :: 0 <= i < |ks| ==> listed[i] == users[ks[i]]
    requires r.None? <==> forall u :: u in listed ==> u.username != username
    requires r.Some? ==> exists i :: 0 <= i < |listed| && listed[i] == r.value &&
                           forall j :: 0 <= j < i ==> listed[j].username != username
    ensures r.None? <==> forall k :: k in users ==> users[k].username != username
    ensures r.Some? ==> r.value.id in users && users[r.value.id] == r.value
    ensures r.Some? ==> forall k :: k in users && users[k].username == username ==> r.value.id <= k
  {
    if r.None? {
      forall k | k in users ensures users[k].username != username {
        var j :| 0 <= j < |ks| && ks[j] == k;
        assert listed[j] in listed;
      }
    } else {
      var i :| 0 <= i < |listed| && listed[i] == r.value &&
               forall j :: 0 <= j < i ==> listed[j].username != username;
      assert ks[i] in ks;
      forall k | k in users && users[k].username == username ensures r.value.id <= k {
        var j :| 0 <= j < |ks| && ks[j] == k;
        assert listed[j] == users[k];
        assert i <= j;
      }
    }
  }

  /** `Array.prototype.find` on user records: the first one with that user name. */
  function FindFirst(us: seq<User>, username: string): (r: Option<User>)
    ensures r.None? <==> forall u :: u in us ==> u.username != username
    ensures r.Some? ==> exists i :: 0 <= i < |us| && us[i] == r.value &&
                          forall j :: 0 <= j < i ==> us[j].username != username
    ensures r.Some? ==> r.value.username == username
    decreases |us|
  {
    if us == [] then None
    else if us[0].username == username then Some(us[0])
    else
      var r := FindFirst(us[1..], username);
      assert r.Some? ==> exists i :: 0 <= i < |us| && us[i] == r.value &&
                           forall j :: 0 <= j < i ==> us[j].username != username by {
        if r.Some? {
          var i :| 0 <= i < |us[1..]| && us[1..][i] == r.value &&
                   forall j :: 0 <= j < i ==> us[1..][j].username != username;
          assert us[i + 1] == r.value;
          assert forall j :: 0 <= j < i + 1 ==> us[j].username != username by {
            forall j | 0 <= j < i + 1 ensures us[j].username != username {
              if j > 0 { assert us[j] == us[1..][j - 1]; }
            }
          }
        }
      }
      r
  }
}
