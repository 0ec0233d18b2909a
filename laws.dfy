/**
 * What the write views do to the store, stated over the step functions of
 * `Views`: each step keeps the schema's invariants, follow and unfollow add
 * and remove exactly one pair, a like toggles, only the author may edit or
 * delete a post or comment, and a new post heads every listing it belongs to.
 */
module Laws {
  import opened Tables
  import opened Models
  import opened Pagination
  import opened Views

  // ---------------------------------------------------------------------------
  // profile_follow and profile_unfollow.
  // ---------------------------------------------------------------------------

  /** Following yourself changes nothing. */
  lemma SelfFollowIsIgnored(db: Db, actor: User)
    requires ValidDb(db) && actor in db.users
    ensures ProfileFollow(db, actor, actor.username) == Step(Ignored, db)
  {
    UserByNameFinds(db.users, actor);
  }

  /** Following another user makes the pair present, adds one row when it was absent, and touches nothing else. */
  lemma FollowAddsThePair(db: Db, actor: User, author: User)
    requires ValidDb(db) && actor in db.users && author in db.users && actor != author
    ensures var s := ProfileFollow(db, actor, author.username);
      && s.outcome == Written
      && Follow(actor.id, author.id) in s.db.follows
      && (forall f :: f != Follow(actor.id, author.id) ==> (f in s.db.follows <==> f in db.follows))
      && |s.db.follows| == |db.follows| + (if Follow(actor.id, author.id) in db.follows then 0 else 1)
      && s.db == db.(follows := s.db.follows)
  {
    UserByNameFinds(db.users, author);
    SameUsernameSameUser(db.users, actor, author);
  }

  /** get_or_create: following twice is following once. */
  lemma FollowTwiceIsFollowOnce(db: Db, actor: User, username: string)
    requires ValidDb(db)
    ensures var once := ProfileFollow(db, actor, username);
      ProfileFollow(once.db, actor, username).db == once.db
  {
  }

  /** Unfollowing removes the pair, removes exactly its one row, and touches nothing else. */
  lemma UnfollowRemovesThePair(db: Db, actor: User, author: User)
    requires ValidDb(db) && author in db.users
    ensures var s := ProfileUnfollow(db, actor, author.username);
      && Follow(actor.id, author.id) !in s.db.follows
      && (s.outcome == Written <==> Follow(actor.id, author.id) in db.follows)
      && (forall f :: f != Follow(actor.id, author.id) ==> (f in s.db.follows <==> f in db.follows))
      && |s.db.follows| == |db.follows| - (if Follow(actor.id, author.id) in db.follows then 1 else 0)
      && s.db == db.(follows := s.db.follows)
  {
    UserByNameFinds(db.users, author);
    AtMostOneFollowRow(db.follows, actor.id, author.id);
  }

  /** Unfollowing twice is unfollowing once. */
  lemma UnfollowTwiceIsUnfollowOnce(db: Db, actor: User, username: string)
    ensures var once := ProfileUnfollow(db, actor, username);
      ProfileUnfollow(once.db, actor, username) == Step(if once.outcome == ObjectNotFound then ObjectNotFound else Ignored, once.db)
  {
  }

  /** Deleting the rows of a pair that was only just appended gives back the rows before it. */
  lemma {:induction false} DeleteAppendedFollow(follows: seq<Follow>, user: UserId, author: UserId)
    requires Follow(user, author) !in follows
    ensures DeleteFollowRows(follows + [Follow(user, author)], user, author) == follows
  {
    if follows == [] {
      assert [Follow(user, author)][1..] == [];
    } else {
      assert (follows + [Follow(user, author)])[1..] == follows[1..] + [Follow(user, author)];
      DeleteAppendedFollow(follows[1..], user, author);
    }
  }

  /** Following a user you did not follow and then unfollowing them restores the store. */
  lemma FollowThenUnfollowRestores(db: Db, actor: User, author: User)
    requires ValidDb(db) && actor in db.users && author in db.users && actor != author
    requires Follow(actor.id, author.id) !in db.follows
    ensures ProfileUnfollow(ProfileFollow(db, actor, author.username).db, actor, author.username) == Step(Written, db)
  {
    UserByNameFinds(db.users, author);
    SameUsernameSameUser(db.users, actor, author);
    DeleteAppendedFollow(db.follows, actor.id, author.id);
  }

  lemma ProfileFollowKeepsValid(db: Db, actor: User, username: string)
    requires ValidDb(db) && actor in db.users
    ensures ValidDb(ProfileFollow(db, actor, username).db)
  {
  }

  lemma ProfileUnfollowKeepsValid(db: Db, actor: User, username: string)
    requires ValidDb(db)
    ensures ValidDb(ProfileUnfollow(db, actor, username).db)
  {
  }

  // ---------------------------------------------------------------------------
  // Follow feed.
  // ---------------------------------------------------------------------------

  /**
   * After `follower` follows `author`, every post of `author` is in the
   * follower's feed, and a user who follows nobody still sees an empty feed.
   */
  lemma FollowFeedScenario(db: Db, follower: User, author: User, other: User, page: PageParam)
    requires ValidDb(db) && follower in db.users && author in db.users && follower != author
    requires other.id != follower.id && forall f :: f in db.follows ==> f.user != other.id
    ensures var s := ProfileFollow(db, follower, author.username);
      && (forall p :: p in db.posts && p.author == author.id ==> p in Listing(s.db.posts, FollowedBy(follower.id, s.db.follows)))
      && FollowIndex(s.db, other.id, page).objectList == []
  {
    FollowAddsThePair(db, follower, author);
  }

  // ---------------------------------------------------------------------------
  // post_like.
  // ---------------------------------------------------------------------------

  lemma ToggleLikeTwice(p: Post, user: UserId)
    ensures ToggleLike(ToggleLike(p, user), user) == p
  {
  }

  lemma TogglePostLikeKeepsTable(posts: seq<Post>, id: PostId, user: UserId)
    ensures PostIds(TogglePostLike(posts, id, user)) == PostIds(posts)
    ensures Pairwise(posts, DistinctPostIds) ==> Pairwise(TogglePostLike(posts, id, user), DistinctPostIds)
    ensures NewestFirst(posts) ==> NewestFirst(TogglePostLike(posts, id, user))
  {
    var r := TogglePostLike(posts, id, user);
    forall x | x in PostIds(posts) ensures x in PostIds(r) {
      var i :| 0 <= i < |posts| && posts[i].id == x;
      assert r[i].id == x;
    }
    forall x | x in PostIds(r) ensures x in PostIds(posts) {
      var i :| 0 <= i < |r| && r[i].id == x;
      assert posts[i].id == x;
    }
  }

  /** After a like the table still finds the post by its key, with the like toggled. */
  lemma ToggledPostFound(posts: seq<Post>, p: Post, user: UserId)
    requires Pairwise(posts, DistinctPostIds) && p in posts
    ensures PostById(TogglePostLike(posts, p.id, user), p.id) == Some(ToggleLike(p, user))
  {
    var r := TogglePostLike(posts, p.id, user);
    TogglePostLikeKeepsTable(posts, p.id, user);
    var i :| 0 <= i < |posts| && posts[i] == p;
    assert r[i] == ToggleLike(p, user);
    PostByIdFinds(r, r[i]);
  }

  /** Liking twice restores the store. */
  lemma LikeTwiceRestores(db: Db, actor: User, id: PostId)
    ensures PostLike(PostLike(db, actor, id).db, actor, id).db == db
  {
    var once := PostLike(db, actor, id);
    if once.outcome == Written {
      TogglePostLikeKeepsTable(db.posts, id, actor.id);
      var twice := TogglePostLike(once.db.posts, id, actor.id);
      assert twice == db.posts by {
        forall i | 0 <= i < |db.posts| ensures twice[i] == db.posts[i] {
          ToggleLikeTwice(db.posts[i], actor.id);
        }
      }
    }
  }

  /** A new post table with the same keys, in order, whose rows are valid, keeps the store valid. */
  lemma ReplacePostsKeepsValid(db: Db, posts: seq<Post>)
    requires ValidDb(db)
    requires Pairwise(posts, DistinctPostIds) && NewestFirst(posts) && PostIds(posts) == PostIds(db.posts)
    requires forall q :: q in posts ==> ValidPost(db, q)
    ensures ValidDb(db.(posts := posts))
  {
    var r := db.(posts := posts);
    forall c | c in r.comments ensures ValidComment(r, c) {
      assert ValidComment(db, c);
    }
    forall q | q in r.posts ensures ValidPost(r, q) {
      assert ValidPost(db, q);
    }
  }

  lemma PostLikeKeepsValid(db: Db, actor: User, id: PostId)
    requires ValidDb(db) && actor in db.users
    ensures ValidDb(PostLike(db, actor, id).db)
  {
    if PostById(db.posts, id).Some? {
      var posts := TogglePostLike(db.posts, id, actor.id);
      TogglePostLikeKeepsTable(db.posts, id, actor.id);
      forall q | q in posts ensures ValidPost(db, q) {
        var i :| 0 <= i < |posts| && posts[i] == q;
        assert ValidPost(db, db.posts[i]);
      }
      ReplacePostsKeepsValid(db, posts);
    }
  }

  /** The detail page of a post the table finds by its key. */
  lemma DetailOfFound(db: Db, viewer: Viewer, p: Post)
    requires PostById(db.posts, p.id) == Some(p)
    ensures var d := PostDetail(db, viewer, p.id);
      && d.Found? && d.value.post == p && d.value.likesCount == |p.likes|
      && (d.value.liked <==> viewer.Some? && viewer.value in p.likes)
  {
  }

  /** A like flips the viewer's `post_is_liked` and moves `likes_count` by one in that direction. */
  lemma LikeFlipsDetail(db: Db, actor: User, p: Post)
    requires Pairwise(db.posts, DistinctPostIds) && p in db.posts
    ensures var after := PostLike(db, actor, p.id).db;
      var before := PostDetail(db, Some(actor.id), p.id);
      var now := PostDetail(after, Some(actor.id), p.id);
      && before.Found? && now.Found?
      && now.value.liked == !before.value.liked
      && now.value.likesCount == (if before.value.liked then before.value.likesCount - 1 else before.value.likesCount + 1)
      && now.value.post == ToggleLike(p, actor.id)
  {
    PostByIdFinds(db.posts, p);
    ToggledPostFound(db.posts, p, actor.id);
    DetailOfFound(db, Some(actor.id), p);
    DetailOfFound(PostLike(db, actor, p.id).db, Some(actor.id), ToggleLike(p, actor.id));
  }

  /** A like changes only the liked post's liker set. */
  lemma LikeTouchesOnlyThatPost(db: Db, actor: User, id: PostId)
    requires id in PostIds(db.posts)
    ensures var s := PostLike(db, actor, id);
      && s.outcome == Written
      && s.db == db.(posts := s.db.posts)
      && |s.db.posts| == |db.posts|
      && forall i :: 0 <= i < |db.posts| ==>
           s.db.posts[i].(likes := db.posts[i].likes) == db.posts[i]
           && (db.posts[i].id != id ==> s.db.posts[i] == db.posts[i])
  {
  }

  // ---------------------------------------------------------------------------
  // post_create, post_edit and post_delete.
  // ---------------------------------------------------------------------------

  /** An invalid form, or a GET, creates nothing. */
  lemma InvalidFormCreatesNothing(db: Db, actor: User, form: Option<PostFields>, now: nat)
    requires !PostFormValid(db, form)
    ensures PostCreate(db, actor, form, now) == Step(Ignored, db)
  {
  }

  /** A post whose key is not in a table with distinct keys can head it. */
  lemma ConsKeepsKeys(p: Post, posts: seq<Post>)
    requires Pairwise(posts, DistinctPostIds) && p.id !in PostIds(posts)
    ensures Pairwise([p] + posts, DistinctPostIds)
  {
    var r := [p] + posts;
    forall i, j | 0 <= i < j < |r| ensures DistinctPostIds(r[i], r[j]) {
      if i == 0 { assert r[j] in posts; } else { assert r[i] == posts[i - 1] && r[j] == posts[j - 1]; }
    }
  }

  /** The new post takes a fresh key, so the keys stay distinct. */
  lemma {:induction false} InsertNewestKeepsKeys(posts: seq<Post>, p: Post)
    requires Pairwise(posts, DistinctPostIds) && p.id !in PostIds(posts)
    ensures Pairwise(InsertNewest(posts, p), DistinctPostIds)
  {
    if posts == [] || posts[0].pubDate <= p.pubDate {
      ConsKeepsKeys(p, posts);
    } else {
      var rest := InsertNewest(posts[1..], p);
      PairwiseTail(posts, DistinctPostIds);
      assert posts == [posts[0]] + posts[1..];
      InsertNewestKeepsKeys(posts[1..], p);
      assert posts[0].id !in PostIds(rest) by {
        forall q | q in rest ensures q.id != posts[0].id {
          assert q in posts[1..] || q == p;
        }
      }
      ConsKeepsKeys(posts[0], rest);
    }
  }

  /** The new row goes in just before the first post that is not newer than it. */
  lemma InsertNewestHead(posts: seq<Post>, p: Post)
    requires posts == [] || posts[0].pubDate <= p.pubDate
    ensures InsertNewest(posts, p) == [p] + posts
  {
  }

  lemma InsertNewestSkip(posts: seq<Post>, p: Post)
    requires posts != [] && posts[0].pubDate > p.pubDate
    ensures InsertNewest(posts, p) == [posts[0]] + InsertNewest(posts[1..], p)
  {
  }

  lemma SpliceAfterHead(posts: seq<Post>, k: nat, p: Post)
    requires 0 < k <= |posts|
    ensures posts[..k] + [p] + posts[k..] == [posts[0]] + (posts[1..][..k - 1] + [p] + posts[1..][k - 1..])
  {
    assert posts[..k] == [posts[0]] + posts[1..][..k - 1];
    assert posts[k..] == posts[1..][k - 1..];
  }

  /** The new row goes in just before the first post that is not newer than it. */
  lemma {:induction false} InsertNewestAt(posts: seq<Post>, p: Post, k: nat)
    requires k <= |posts|
    requires forall i :: 0 <= i < k ==> posts[i].pubDate > p.pubDate
    requires k < |posts| ==> posts[k].pubDate <= p.pubDate
    ensures InsertNewest(posts, p) == posts[..k] + [p] + posts[k..]
  {
    if k == 0 {
      InsertNewestHead(posts, p);
      assert posts[..0] == [] && posts[0..] == posts;
    } else {
      var tail := posts[1..];
      forall i | 0 <= i < k - 1 ensures tail[i].pubDate > p.pubDate {
        assert tail[i] == posts[i + 1];
      }
      InsertNewestAt(tail, p, k - 1);
      InsertNewestSkip(posts, p);
      SpliceAfterHead(posts, k, p);
    }
  }

  lemma PostCreateKeepsValid(db: Db, actor: User, form: Option<PostFields>, now: nat)
    requires ValidDb(db) && actor in db.users
    ensures ValidDb(PostCreate(db, actor, form, now).db)
  {
    var s := PostCreate(db, actor, form, now);
    if s.outcome == Written {
      var p := NewPost(db, actor, form.value, now);
      InsertNewestKeepsKeys(db.posts, p);
      forall q | q in s.db.posts ensures ValidPost(s.db, q) {
        if q != p { assert q in db.posts; assert ValidPost(db, q); }
      }
      forall c | c in s.db.comments ensures ValidComment(s.db, c) {
        assert ValidComment(db, c);
        var q :| q in db.posts && q.id == c.post;
        assert q in s.db.posts;
      }
    }
  }

  /** A new post at least as recent as every other is the first row of the new table. */
  lemma NewPostIsFirstRow(db: Db, actor: User, fields: PostFields, now: nat)
    requires PostFormValid(db, Some(fields))
    requires forall q :: q in db.posts ==> q.pubDate <= now
    ensures var s := PostCreate(db, actor, Some(fields), now);
      s.outcome == Written && s.db.posts != [] && s.db.posts[0] == NewPost(db, actor, fields, now)
  {
  }

  /** `page_obj[0] == p`. */
  predicate HeadIs(list: seq<Post>, p: Post) {
    list != [] && list[0] == p
  }

  /** With no page given, the page holds the listing's first row first. */
  lemma FirstPageStartsTheListing(items: seq<Post>)
    requires items != []
    ensures HeadIs(GetPage(items, Absent).objectList, items[0])
  {
    NonIntegerGivesFirstPage(items, Absent);
  }

  /** A valid form from the newest request puts the new post first on the index, its group's page and its author's profile. */
  lemma NewPostHeadsListings(db: Db, actor: User, fields: PostFields, now: nat)
    requires PostFormValid(db, Some(fields))
    requires forall q :: q in db.posts ==> q.pubDate <= now
    ensures var s := PostCreate(db, actor, Some(fields), now);
      var p := NewPost(db, actor, fields, now);
      && s.outcome == Written
      && HeadIs(Index(s.db, Absent).objectList, p)
      && HeadIs(ListingPage(s.db.posts, ByAuthor(actor.id), Absent).objectList, p)
      && (fields.group.Some? ==> HeadIs(ListingPage(s.db.posts, InGroup(fields.group.value), Absent).objectList, p))
      && (forall g: GroupId :: Some(g) != fields.group ==> p !in Listing(s.db.posts, InGroup(g)))
  {
    var s := PostCreate(db, actor, Some(fields), now);
    NewPostIsFirstRow(db, actor, fields, now);
    HeadHeadsListings(s.db.posts, NewPost(db, actor, fields, now));
  }

  /** The first row of a table heads the index, its author's listing and its group's listing, and no other group's. */
  lemma HeadHeadsListings(posts: seq<Post>, p: Post)
    requires posts != [] && posts[0] == p
    ensures HeadIs(GetPage(posts, Absent).objectList, p)
    ensures HeadIs(ListingPage(posts, ByAuthor(p.author), Absent).objectList, p)
    ensures p.group.Some? ==> HeadIs(ListingPage(posts, InGroup(p.group.value), Absent).objectList, p)
    ensures forall g: GroupId :: Some(g) != p.group ==> p !in Listing(posts, InGroup(g))
  {
    NotInOtherGroups(posts, p);
    FirstPageStartsTheListing(posts);
    PageStartsWithHead(posts, ByAuthor(p.author));
    if p.group.Some? {
      PageStartsWithHead(posts, InGroup(p.group.value));
    }
  }

  /** A post is in no listing of a group other than its own. */
  lemma NotInOtherGroups(posts: seq<Post>, p: Post)
    ensures forall g: GroupId :: Some(g) != p.group ==> p !in Listing(posts, InGroup(g))
  {
  }

  /** When the table's first post is in scope, the listing's first page starts with it. */
  lemma PageStartsWithHead(posts: seq<Post>, sc: Scope)
    requires posts != [] && InScope(posts[0], sc)
    ensures HeadIs(ListingPage(posts, sc, Absent).objectList, posts[0])
  {
    FilterHead(posts, sc);
    FirstPageStartsTheListing(Listing(posts, sc));
  }

  /** A listing of a table whose first post is in scope starts with that post. */
  lemma FilterHead(posts: seq<Post>, sc: Scope)
    requires posts != [] && InScope(posts[0], sc)
    ensures Listing(posts, sc)[0] == posts[0]
  {
  }

  /** Someone who is not the author cannot edit the post. */
  lemma OnlyAuthorEdits(db: Db, actor: User, p: Post, form: Option<PostFields>)
    requires ValidDb(db) && p in db.posts && actor.id != p.author
    ensures PostEdit(db, actor, p.id, form) == Step(Ignored, db)
  {
    PostByIdFinds(db.posts, p);
  }

  /** After an edit the table still finds the post by its key, with the new text and group. */
  lemma EditedPostFound(posts: seq<Post>, p: Post, fields: PostFields)
    requires Pairwise(posts, DistinctPostIds) && p in posts
    ensures PostById(EditPost(posts, p.id, fields), p.id) == Some(p.(text := fields.text, group := fields.group))
  {
    var r := EditPost(posts, p.id, fields);
    EditPostKeepsTable(posts, p.id, fields);
    var i :| 0 <= i < |posts| && posts[i] == p;
    assert r[i] == p.(text := fields.text, group := fields.group);
    PostByIdFinds(r, r[i]);
  }

  /** The author's valid edit changes that post's text and group and nothing else. */
  lemma AuthorEditChangesThatPost(db: Db, actor: User, p: Post, fields: PostFields)
    requires Pairwise(db.posts, DistinctPostIds) && p in db.posts && actor.id == p.author && PostFormValid(db, Some(fields))
    ensures var s := PostEdit(db, actor, p.id, Some(fields));
      && s.outcome == Written
      && s.db == db.(posts := s.db.posts)
      && PostById(s.db.posts, p.id) == Some(p.(text := fields.text, group := fields.group))
      && forall q :: q in db.posts && q.id != p.id ==> q in s.db.posts
  {
    PostByIdFinds(db.posts, p);
    EditedPostFound(db.posts, p, fields);
    var posts := EditPost(db.posts, p.id, fields);
    forall q | q in db.posts && q.id != p.id ensures q in posts {
      var k :| 0 <= k < |db.posts| && db.posts[k] == q;
      assert posts[k] == q;
    }
  }

  lemma EditPostKeepsTable(posts: seq<Post>, id: PostId, fields: PostFields)
    ensures PostIds(EditPost(posts, id, fields)) == PostIds(posts)
    ensures Pairwise(posts, DistinctPostIds) ==> Pairwise(EditPost(posts, id, fields), DistinctPostIds)
    ensures NewestFirst(posts) ==> NewestFirst(EditPost(posts, id, fields))
  {
    var r := EditPost(posts, id, fields);
    forall x | x in PostIds(posts) ensures x in PostIds(r) {
      var i :| 0 <= i < |posts| && posts[i].id == x;
      assert r[i].id == x;
    }
    forall x | x in PostIds(r) ensures x in PostIds(posts) {
      var i :| 0 <= i < |r| && r[i].id == x;
      assert posts[i].id == x;
    }
  }

  lemma PostEditKeepsValid(db: Db, actor: User, id: PostId, form: Option<PostFields>)
    requires ValidDb(db)
    ensures ValidDb(PostEdit(db, actor, id, form).db)
  {
    var s := PostEdit(db, actor, id, form);
    if s.outcome == Written {
      var posts := EditPost(db.posts, id, form.value);
      assert s.db == db.(posts := posts);
      EditPostKeepsTable(db.posts, id, form.value);
      forall q | q in posts ensures ValidPost(db, q) {
        var i :| 0 <= i < |posts| && posts[i] == q;
        assert ValidPost(db, db.posts[i]);
      }
      ReplacePostsKeepsValid(db, posts);
    }
  }

  /** Someone who is not the author cannot delete the post. */
  lemma OnlyAuthorDeletes(db: Db, actor: User, p: Post)
    requires ValidDb(db) && p in db.posts && actor.id != p.author
    ensures PostDelete(db, actor, p.id) == Step(Ignored, db)
  {
    PostByIdFinds(db.posts, p);
  }

  /** The author's delete removes the post and its comments, after which its page is Http404. */
  lemma AuthorDeleteRemovesPost(db: Db, actor: User, p: Post, viewer: Viewer)
    requires ValidDb(db) && p in db.posts && actor.id == p.author
    ensures var s := PostDelete(db, actor, p.id);
      && s.outcome == Written
      && (forall q :: q in s.db.posts <==> q in db.posts && q.id != p.id)
      && (forall c :: c in s.db.comments <==> c in db.comments && c.post != p.id)
      && PostDetail(s.db, viewer, p.id).NotFound?
  {
    PostByIdFinds(db.posts, p);
  }

  lemma PostDeleteKeepsValid(db: Db, actor: User, id: PostId)
    requires ValidDb(db)
    ensures ValidDb(PostDelete(db, actor, id).db)
  {
    DeletePostKeepsValid(db, id);
  }

  // ---------------------------------------------------------------------------
  // add_comment and delete_comment.
  // ---------------------------------------------------------------------------

  /** A valid comment form adds exactly one comment, by the actor, to that post, and it shows on the post's page. */
  lemma AddCommentAddsOne(db: Db, actor: User, p: Post, text: string, now: nat)
    requires ValidDb(db) && p in db.posts
    ensures var s := AddComment(db, actor, p.id, Some(text), now);
      var c := Comment(db.nextCommentId, p.id, actor.id, text, now);
      && s.outcome == Written
      && s.db == db.(comments := db.comments + [c], nextCommentId := db.nextCommentId + 1)
      && c in PostDetail(s.db, None, p.id).value.comments
  {
    PostByIdFinds(db.posts, p);
  }

  /** A comment form that does not validate adds nothing. */
  lemma InvalidCommentAddsNothing(db: Db, actor: User, id: PostId, now: nat)
    ensures AddComment(db, actor, id, None, now).db == db
  {
  }

  lemma AddCommentKeepsValid(db: Db, actor: User, id: PostId, text: Option<string>, now: nat)
    requires ValidDb(db) && actor in db.users
    ensures ValidDb(AddComment(db, actor, id, text, now).db)
  {
    var s := AddComment(db, actor, id, text, now);
    if s.outcome == Written {
      forall i, j | 0 <= i < j < |s.db.comments| ensures DistinctCommentIds(s.db.comments[i], s.db.comments[j]) {
        if j == |db.comments| { assert ValidComment(db, s.db.comments[i]); }
      }
    }
  }

  lemma CommentByIdFinds(comments: seq<Comment>, c: Comment)
    requires Pairwise(comments, DistinctCommentIds) && c in comments
    ensures CommentById(comments, c.id) == Some(c)
  {
    PairwiseMembers(comments, DistinctCommentIds, c, CommentById(comments, c.id).value);
  }

  /** A comment is deleted exactly when the actor is its author (usernames are unique). */
  lemma DeleteCommentIffAuthor(db: Db, actor: User, c: Comment)
    requires ValidDb(db) && actor in db.users && c in db.comments
    ensures var s := DeleteComment(db, actor, c.id);
      && (s.outcome == Written <==> actor.id == c.author)
      && (s.outcome == Written ==> s.db == db.(comments := s.db.comments))
      && (s.outcome == Written ==> forall d :: d in s.db.comments <==> d in db.comments && d != c)
      && (s.outcome != Written ==> s.db == db)
  {
    CommentByIdFinds(db.comments, c);
    assert ValidComment(db, c);
    var author := UserById(db.users, c.author).value;
    SameUsernameSameUser(db.users, actor, author);
    forall d | d in db.comments && d.id == c.id ensures d == c {
      PairwiseMembers(db.comments, DistinctCommentIds, c, d);
    }
  }

  lemma DeleteCommentKeepsValid(db: Db, actor: User, id: CommentId)
    requires ValidDb(db)
    ensures ValidDb(DeleteComment(db, actor, id).db)
  {
    FilterKeepsPairwise(db.comments, (c: Comment) => c.id != id, DistinctCommentIds);
  }
}
