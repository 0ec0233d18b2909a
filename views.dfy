/**
 * The views of the posts app over the store. The read views (`index`,
 * `group_posts`, `profile`, `follow_index`, `post_detail`) are functions from
 * the store to the context they render. The write views (`profile_follow`,
 * `profile_unfollow`, `post_like`, `post_create`, `post_edit`, `post_delete`,
 * `add_comment`, `delete_comment`) are steps from one store to the next,
 * together with what happened: it reached its write step, the guard or the
 * form turned it away, or get_object_or_404 raised Http404.
 */
module Views {
  import opened Tables
  import opened Models
  import opened Pagination

  // ---------------------------------------------------------------------------
  // Listings.
  // ---------------------------------------------------------------------------

  /** Which posts a listing shows. */
  datatype Scope =
    | Everything
    | InGroup(group: GroupId)
    | ByAuthor(author: UserId)
    | FollowedBy(viewer: UserId, follows: seq<Follow>)

  predicate InScope(p: Post, sc: Scope) {
    match sc
    case Everything => true
    case InGroup(g) => p.group == Some(g)
    case ByAuthor(a) => p.author == a
    case FollowedBy(v, fs) => Follow(v, p.author) in fs
  }

  /** The queryset of a listing: exactly the posts in scope, in the table's newest-first order. */
  function Listing(posts: seq<Post>, sc: Scope): (r: seq<Post>)
    ensures forall p :: p in r <==> p in posts && InScope(p, sc)
    ensures NewestFirst(posts) ==> NewestFirst(r)
  {
    var r := Filter(posts, (p: Post) => InScope(p, sc));
    assert NewestFirst(posts) ==> NewestFirst(r) by {
      if NewestFirst(posts) { FilterKeepsPairwise(posts, (p: Post) => InScope(p, sc), NewerOrSame); }
    }
    r
  }

  /** `Post.objects.all()` is the whole table. */
  lemma EverythingIsTheTable(posts: seq<Post>)
    ensures Listing(posts, Everything) == posts
  {
    FilterKeepsAll(posts, (p: Post) => InScope(p, Everything));
  }

  function Repeat(p: Post, n: nat): (r: seq<Post>)
    ensures |r| == n && forall q :: q in r ==> q == p
  {
    if n == 0 then [] else [p] + Repeat(p, n - 1)
  }

  /**
   * `Post.objects.filter(author__following__user=viewer)`: a join of posts with
   * Follow rows, so a post appears once per Follow row from the viewer to its author.
   */
  function FollowJoin(posts: seq<Post>, follows: seq<Follow>, viewer: UserId): (r: seq<Post>)
    ensures forall p :: p in r <==> p in posts && Follow(viewer, p.author) in follows
  {
    if posts == [] then []
    else Repeat(posts[0], FollowRows(follows, viewer, posts[0].author)) + FollowJoin(posts[1..], follows, viewer)
  }

  /** With the unique Follow pair the join has no duplicates: it is exactly the followed-authors listing. */
  lemma {:induction false} FollowJoinIsListing(posts: seq<Post>, follows: seq<Follow>, viewer: UserId)
    requires Pairwise(follows, DistinctFollows)
    ensures FollowJoin(posts, follows, viewer) == Listing(posts, FollowedBy(viewer, follows))
  {
    if posts != [] {
      AtMostOneFollowRow(follows, viewer, posts[0].author);
      FollowJoinIsListing(posts[1..], follows, viewer);
    }
  }

  // ---------------------------------------------------------------------------
  // Read views.
  // ---------------------------------------------------------------------------

  /** A lookup that get_object_or_404 turns into Http404 when it fails. */
  datatype Lookup<T> = Found(value: T) | NotFound

  /** `index`: a page of all posts. */
  function Index(db: Db, page: PageParam): (r: Page<Post>)
    ensures r == GetPage(db.posts, page)
    ensures r.count == |db.posts|
    ensures forall p :: p in r.objectList ==> p in db.posts
    ensures NewestFirst(db.posts) ==> NewestFirst(r.objectList)
  {
    EverythingIsTheTable(db.posts);
    ListingPage(db.posts, Everything, page)
  }

  /** Any page of a newest-first list is newest first. */
  lemma PageIsNewestFirst(items: seq<Post>, page: PageParam)
    requires NewestFirst(items)
    ensures NewestFirst(GetPage(items, page).objectList)
  {
    var r := GetPage(items, page);
    SliceKeepsPairwise(items, NewerOrSame, (r.number - 1) * PAGE_SIZE, Min(r.number * PAGE_SIZE, |items|));
  }

  /** The page `get_page` serves of a listing; newest first when the table is. */
  function ListingPage(posts: seq<Post>, sc: Scope, page: PageParam): (r: Page<Post>)
    ensures r == GetPage(Listing(posts, sc), page)
    ensures r.count == |Listing(posts, sc)|
    ensures forall p :: p in r.objectList ==> p in posts && InScope(p, sc)
    ensures NewestFirst(posts) ==> NewestFirst(r.objectList)
  {
    var list := Listing(posts, sc);
    if NewestFirst(posts) then PageIsNewestFirst(list, page); GetPage(list, page)
    else GetPage(list, page)
  }

  datatype GroupContext = GroupContext(group: Group, pageObj: Page<Post>)

  /** `group_posts`: the group with that slug and a page of its posts. */
  function GroupPosts(db: Db, slug: string, page: PageParam): (r: Lookup<GroupContext>)
    ensures r.NotFound? <==> forall g :: g in db.groups ==> g.slug != slug
    ensures r.Found? ==> r.value.group in db.groups && r.value.group.slug == slug
    ensures r.Found? ==> forall p :: p in r.value.pageObj.objectList ==> p in db.posts && p.group == Some(r.value.group.id)
    ensures r.Found? ==> r.value.pageObj == GetPage(Listing(db.posts, InGroup(r.value.group.id)), page)
    ensures r.Found? ==> r.value.pageObj.count == |Listing(db.posts, InGroup(r.value.group.id))|
    ensures r.Found? && NewestFirst(db.posts) ==> NewestFirst(r.value.pageObj.objectList)
  {
    match GroupBySlug(db.groups, slug)
    case None => NotFound
    case Some(g) => Found(GroupContext(g, ListingPage(db.posts, InGroup(g.id), page)))
  }

  /** The user a request comes from, or None for an anonymous visitor. */
  type Viewer = Option<UserId>

  datatype ProfileContext = ProfileContext(author: User, pageObj: Page<Post>, postsCount: nat, following: bool)

  /** `profile`: the user with that username, a page of their posts, their post count and the following flag. */
  function Profile(db: Db, viewer: Viewer, username: string, page: PageParam): (r: Lookup<ProfileContext>)
    ensures r.NotFound? <==> forall u :: u in db.users ==> u.username != username
    ensures r.Found? ==> r.value.author in db.users && r.value.author.username == username
    ensures r.Found? ==> forall p :: p in r.value.pageObj.objectList ==> p in db.posts && p.author == r.value.author.id
    ensures r.Found? ==> r.value.pageObj == GetPage(Listing(db.posts, ByAuthor(r.value.author.id)), page)
    ensures r.Found? ==> r.value.postsCount == r.value.pageObj.count == |Listing(db.posts, ByAuthor(r.value.author.id))|
    ensures r.Found? ==> (r.value.following <==> viewer.Some? && Follow(viewer.value, r.value.author.id) in db.follows)
    ensures r.Found? && NewestFirst(db.posts) ==> NewestFirst(r.value.pageObj.objectList)
  {
    match UserByName(db.users, username)
    case None => NotFound
    case Some(a) =>
      var authorPosts := Listing(db.posts, ByAuthor(a.id));
      var following := viewer.Some? && Follow(viewer.value, a.id) in db.follows;
      Found(ProfileContext(a, ListingPage(db.posts, ByAuthor(a.id), page), |authorPosts|, following))
  }

  /** `follow_index`: a page of the posts whose authors the viewer follows. */
  function FollowIndex(db: Db, viewer: UserId, page: PageParam): (r: Page<Post>)
    ensures forall p :: p in r.objectList ==> p in db.posts && Follow(viewer, p.author) in db.follows
    ensures (forall f :: f in db.follows ==> f.user != viewer) ==> r.objectList == []
  {
    var joined := FollowJoin(db.posts, db.follows, viewer);
    JoinNeedsAFollow(db.posts, db.follows, viewer);
    PageMembers(joined, page);
    GetPage(joined, page)
  }

  /** A viewer with no Follow rows joins no posts. */
  lemma JoinNeedsAFollow(posts: seq<Post>, follows: seq<Follow>, viewer: UserId)
    ensures (forall f :: f in follows ==> f.user != viewer) ==> FollowJoin(posts, follows, viewer) == []
  {
    var joined := FollowJoin(posts, follows, viewer);
    if joined != [] { assert joined[0] in joined; }
  }

  /** A page holds only items of its list. */
  lemma PageMembers<T>(items: seq<T>, page: PageParam)
    ensures forall x :: x in GetPage(items, page).objectList ==> x in items
  {
  }

  /** In a valid store the followed-authors feed is a page of the exact followed-authors listing, newest first. */
  lemma FollowIndexIsExact(db: Db, viewer: UserId, page: PageParam)
    requires ValidDb(db)
    ensures FollowIndex(db, viewer, page) == ListingPage(db.posts, FollowedBy(viewer, db.follows), page)
    ensures NewestFirst(FollowIndex(db, viewer, page).objectList)
  {
    FollowJoinIsListing(db.posts, db.follows, viewer);
  }

  datatype PostDetailContext = PostDetailContext(
    post: Post, postsCount: nat, comments: seq<Comment>, likesCount: nat, liked: bool)

  /** `post_detail`: the post, its author's post count, its comments, its like count and whether the viewer likes it. */
  function PostDetail(db: Db, viewer: Viewer, id: PostId): (r: Lookup<PostDetailContext>)
    ensures r.NotFound? <==> id !in PostIds(db.posts)
    ensures r.Found? ==> r.value.post in db.posts && r.value.post.id == id
    ensures r.Found? ==> r.value.postsCount == |Listing(db.posts, ByAuthor(r.value.post.author))|
    ensures r.Found? ==> forall c :: c in r.value.comments <==> c in db.comments && c.post == id
    ensures r.Found? ==> r.value.likesCount == |r.value.post.likes|
    ensures r.Found? ==> (r.value.liked <==> viewer.Some? && viewer.value in r.value.post.likes)
  {
    match PostById(db.posts, id)
    case None => NotFound
    case Some(p) =>
      var comments := Filter(db.comments, (c: Comment) => c.post == id);
      var liked := viewer.Some? && viewer.value in p.likes;
      Found(PostDetailContext(p, |Listing(db.posts, ByAuthor(p.author))|, comments, LikesCount(p), liked))
  }

  // ---------------------------------------------------------------------------
  // Write views.
  // ---------------------------------------------------------------------------

  /** What a write view did: it reached its write step, it was turned away, or Http404 was raised. */
  datatype Outcome = Written | Ignored | ObjectNotFound

  datatype Step = Step(outcome: Outcome, db: Db)

  /** `Follow.objects.get_or_create(user=user, author=author)`. */
  function GetOrCreateFollow(follows: seq<Follow>, user: UserId, author: UserId): (r: seq<Follow>)
    ensures Follow(user, author) in r
    ensures forall f :: f != Follow(user, author) ==> (f in r <==> f in follows)
    ensures |r| == |follows| + (if Follow(user, author) in follows then 0 else 1)
    ensures Pairwise(follows, DistinctFollows) ==> Pairwise(r, DistinctFollows)
  {
    if Follow(user, author) in follows then follows
    else
      var r := follows + [Follow(user, author)];
      assert Pairwise(follows, DistinctFollows) ==> Pairwise(r, DistinctFollows) by {
        if Pairwise(follows, DistinctFollows) {
          forall i, j | 0 <= i < j < |r| ensures DistinctFollows(r[i], r[j]) {
            if j == |follows| { assert r[i] in follows; }
          }
        }
      }
      r
  }

  /** `Follow.objects.filter(user=user, author=author).delete()`. */
  function DeleteFollowRows(follows: seq<Follow>, user: UserId, author: UserId): (r: seq<Follow>)
    ensures Follow(user, author) !in r
    ensures forall f :: f != Follow(user, author) ==> (f in r <==> f in follows)
    ensures |r| == |follows| - FollowRows(follows, user, author)
    ensures Pairwise(follows, DistinctFollows) ==> Pairwise(r, DistinctFollows)
  {
    if follows == [] then []
    else
      var rest := DeleteFollowRows(follows[1..], user, author);
      var r := if follows[0] == Follow(user, author) then rest else [follows[0]] + rest;
      assert Pairwise(follows, DistinctFollows) ==> Pairwise(r, DistinctFollows) by {
        if Pairwise(follows, DistinctFollows) {
          PairwiseTail(follows, DistinctFollows);
          if follows[0] != Follow(user, author) {
            forall i, j | 0 <= i < j < |r| ensures DistinctFollows(r[i], r[j]) {
              assert r[j] == rest[j - 1] && r[j] in follows[1..];
              if i > 0 { assert r[i] == rest[i - 1]; }
            }
          }
        }
      }
      r
  }

  /** `profile_follow`: follow the user with that username, unless it is the actor. */
  function ProfileFollow(db: Db, actor: User, username: string): (r: Step)
    ensures r.outcome == ObjectNotFound <==> forall u :: u in db.users ==> u.username != username
    ensures r.outcome != Written ==> r.db == db
    ensures r.db == db.(follows := r.db.follows)
  {
    match UserByName(db.users, username)
    case None => Step(ObjectNotFound, db)
    case Some(following) =>
      if actor.id != following.id then
        Step(Written, db.(follows := GetOrCreateFollow(db.follows, actor.id, following.id)))
      else Step(Ignored, db)
  }

  /** `profile_unfollow`: delete the actor's Follow row for the user with that username, if there is one. */
  function ProfileUnfollow(db: Db, actor: User, username: string): (r: Step)
    ensures r.outcome == ObjectNotFound <==> forall u :: u in db.users ==> u.username != username
    ensures r.outcome != Written ==> r.db == db
    ensures r.db == db.(follows := r.db.follows)
  {
    match UserByName(db.users, username)
    case None => Step(ObjectNotFound, db)
    case Some(following) =>
      if Follow(actor.id, following.id) in db.follows then
        Step(Written, db.(follows := DeleteFollowRows(db.follows, actor.id, following.id)))
      else Step(Ignored, db)
  }

  /** `likes.remove(user)` when the user likes the post, `likes.add(user)` otherwise. */
  function ToggleLike(p: Post, user: UserId): (r: Post)
    ensures user in r.likes <==> user !in p.likes
    ensures r.likes - {user} == p.likes - {user}
    ensures r.(likes := p.likes) == p
  {
    p.(likes := if user in p.likes then p.likes - {user} else p.likes + {user})
  }

  /** The post table after toggling `user`'s like on post `id`. */
  function TogglePostLike(posts: seq<Post>, id: PostId, user: UserId): (r: seq<Post>)
    ensures |r| == |posts|
    ensures forall i :: 0 <= i < |r| && posts[i].id != id ==> r[i] == posts[i]
    ensures forall i :: 0 <= i < |r| && posts[i].id == id ==> r[i] == ToggleLike(posts[i], user)
  {
    seq(|posts|, i requires 0 <= i < |posts| => if posts[i].id == id then ToggleLike(posts[i], user) else posts[i])
  }

  /** `post_like`: toggle the actor's like on the post. */
  function PostLike(db: Db, actor: User, id: PostId): (r: Step)
    ensures r.outcome == ObjectNotFound <==> id !in PostIds(db.posts)
    ensures r.outcome != Ignored
    ensures r.outcome == ObjectNotFound ==> r.db == db
    ensures r.db == db.(posts := r.db.posts) && |r.db.posts| == |db.posts|
  {
    match PostById(db.posts, id)
    case None => Step(ObjectNotFound, db)
    case Some(_) => Step(Written, db.(posts := TogglePostLike(db.posts, id, actor.id)))
  }

  /** The cleaned data of a valid PostForm: the text and the chosen group. */
  datatype PostFields = PostFields(text: string, group: Option<GroupId>)

  /** The group field is a model choice: empty, or an existing group. */
  predicate GroupChoiceOk(db: Db, group: Option<GroupId>) {
    group.None? || group.value in GroupIds(db.groups)
  }

  /** A bound form that validates: None stands for a GET request or for input the form rejects. */
  predicate PostFormValid(db: Db, form: Option<PostFields>) {
    form.Some? && GroupChoiceOk(db, form.value.group)
  }

  /** A post no older than any of a newest-first table can head it. */
  lemma NewestFirstCons(p: Post, posts: seq<Post>)
    requires NewestFirst(posts)
    requires forall q :: q in posts ==> NewerOrSame(p, q)
    ensures NewestFirst([p] + posts)
  {
    var r := [p] + posts;
    forall i, j | 0 <= i < j < |r| ensures NewerOrSame(r[i], r[j]) {
      if i == 0 { assert r[j] in posts; } else { assert r[i] == posts[i - 1] && r[j] == posts[j - 1]; }
    }
  }

  /** Place a new post in the newest-first table: before the first post that is not newer than it. */
  function InsertNewest(posts: seq<Post>, p: Post): (r: seq<Post>)
    ensures |r| == |posts| + 1
    ensures forall q :: q in r <==> q in posts || q == p
    ensures NewestFirst(posts) ==> NewestFirst(r)
    ensures (forall q :: q in posts ==> q.pubDate <= p.pubDate) ==> r[0] == p
  {
    if posts == [] || posts[0].pubDate <= p.pubDate then
      var r := [p] + posts;
      assert NewestFirst(posts) ==> NewestFirst(r) by {
        if NewestFirst(posts) && posts != [] {
          forall q | q in posts ensures NewerOrSame(p, q) {
            PairwiseMembers(posts, NewerOrSame, posts[0], q);
          }
          NewestFirstCons(p, posts);
        }
      }
      r
    else
      var rest := InsertNewest(posts[1..], p);
      var r := [posts[0]] + rest;
      assert posts == [posts[0]] + posts[1..];
      assert NewestFirst(posts) ==> NewestFirst(r) by {
        if NewestFirst(posts) {
          PairwiseTail(posts, NewerOrSame);
          forall q | q in rest ensures NewerOrSame(posts[0], q) {
            assert q in posts[1..] || q == p;
          }
          NewestFirstCons(posts[0], rest);
        }
      }
      r
  }

  /** The new table holds the old rows and the new one, each as often as before. */
  lemma {:induction false} InsertNewestIsPermutation(posts: seq<Post>, p: Post)
    ensures multiset(InsertNewest(posts, p)) == multiset(posts) + multiset{p}
  {
    if !(posts == [] || posts[0].pubDate <= p.pubDate) {
      InsertNewestIsPermutation(posts[1..], p);
      assert posts == [posts[0]] + posts[1..];
    }
  }

  /** The post that a valid form creates: the next key, the actor as author, no likes. */
  function NewPost(db: Db, actor: User, fields: PostFields, now: nat): Post {
    Post(db.nextPostId, fields.text, now, actor.id, fields.group, {})
  }

  /** `post_create`: save the form's post with the actor as author; its key is the next primary key. */
  function PostCreate(db: Db, actor: User, form: Option<PostFields>, now: nat): (r: Step)
    ensures r.outcome != ObjectNotFound
    ensures r.outcome == Ignored <==> !PostFormValid(db, form)
    ensures r.outcome == Ignored ==> r.db == db
    ensures r.db == db.(posts := r.db.posts, nextPostId := r.db.nextPostId)
    ensures r.outcome == Written ==> |r.db.posts| == |db.posts| + 1 && r.db.nextPostId == db.nextPostId + 1
    ensures r.outcome == Written ==> multiset(r.db.posts) == multiset(db.posts) + multiset{NewPost(db, actor, form.value, now)}
  {
    if !PostFormValid(db, form) then Step(Ignored, db)
    else
      var p := NewPost(db, actor, form.value, now);
      InsertNewestIsPermutation(db.posts, p);
      Step(Written, db.(posts := InsertNewest(db.posts, p), nextPostId := db.nextPostId + 1))
  }

  /** The post table after `form.save()` on post `id`: its text and group change, nothing else. */
  function EditPost(posts: seq<Post>, id: PostId, fields: PostFields): (r: seq<Post>)
    ensures |r| == |posts|
    ensures forall i :: 0 <= i < |r| && posts[i].id != id ==> r[i] == posts[i]
    ensures forall i :: 0 <= i < |r| && posts[i].id == id ==>
      r[i].text == fields.text && r[i].group == fields.group && r[i].(text := posts[i].text, group := posts[i].group) == posts[i]
  {
    seq(|posts|, i requires 0 <= i < |posts| =>
      if posts[i].id == id then posts[i].(text := fields.text, group := fields.group) else posts[i])
  }

  /** `post_edit`: only the post's author may save the form. */
  function PostEdit(db: Db, actor: User, id: PostId, form: Option<PostFields>): (r: Step)
    ensures r.outcome == ObjectNotFound <==> id !in PostIds(db.posts)
    ensures r.outcome != Written ==> r.db == db
    ensures r.db == db.(posts := r.db.posts) && |r.db.posts| == |db.posts|
  {
    match PostById(db.posts, id)
    case None => Step(ObjectNotFound, db)
    case Some(p) =>
      if actor.id != p.author then Step(Ignored, db)
      else if !PostFormValid(db, form) then Step(Ignored, db)
      else Step(Written, db.(posts := EditPost(db.posts, id, form.value)))
  }

  /** `post_delete`: only the post's author may delete it; the delete cascades. */
  function PostDelete(db: Db, actor: User, id: PostId): (r: Step)
    ensures r.outcome == ObjectNotFound <==> id !in PostIds(db.posts)
    ensures r.outcome != Written ==> r.db == db
    ensures r.outcome == Written ==> forall p :: p in r.db.posts ==> p.id != id
    ensures r.db.users == db.users && r.db.groups == db.groups && r.db.follows == db.follows
  {
    match PostById(db.posts, id)
    case None => Step(ObjectNotFound, db)
    case Some(p) =>
      if actor.id == p.author then Step(Written, DeletePost(db, id)) else Step(Ignored, db)
  }

  /** `add_comment`: save the form's comment with the actor as author on the post. None is a form that does not validate. */
  function AddComment(db: Db, actor: User, postId: PostId, text: Option<string>, now: nat): (r: Step)
    ensures r.outcome == ObjectNotFound <==> postId !in PostIds(db.posts)
    ensures r.outcome == Ignored <==> postId in PostIds(db.posts) && text.None?
    ensures r.outcome != Written ==> r.db == db
    ensures r.db == db.(comments := r.db.comments, nextCommentId := r.db.nextCommentId)
  {
    match PostById(db.posts, postId)
    case None => Step(ObjectNotFound, db)
    case Some(_) =>
      if text.None? then Step(Ignored, db)
      else
        var c := Comment(db.nextCommentId, postId, actor.id, text.value, now);
        Step(Written, db.(comments := db.comments + [c], nextCommentId := db.nextCommentId + 1))
  }

  function CommentsWithout(comments: seq<Comment>, id: CommentId): (r: seq<Comment>)
    ensures forall c :: c in r <==> c in comments && c.id != id
  {
    Filter(comments, (c: Comment) => c.id != id)
  }

  /** `delete_comment`: the comment goes only when the actor's username is its author's username. */
  function DeleteComment(db: Db, actor: User, id: CommentId): (r: Step)
    requires ValidDb(db)
    ensures r.outcome == ObjectNotFound <==> forall c :: c in db.comments ==> c.id != id
    ensures r.outcome != Written ==> r.db == db
    ensures r.db == db.(comments := r.db.comments)
  {
    match CommentById(db.comments, id)
    case None => Step(ObjectNotFound, db)
    case Some(c) =>
      var author := UserById(db.users, c.author).value;
      if actor.username == author.username then Step(Written, db.(comments := CommentsWithout(db.comments, id)))
      else Step(Ignored, db)
  }
}
