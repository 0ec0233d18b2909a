/**
 * The schema of the posts app: the Group, Post, Comment and Follow records, the
 * auth user they point to, the whole store as one value, the invariants the
 * database enforces (unique keys, the unique Follow pair, foreign keys, the
 * newest-first ordering of posts), the cascade and set-null deletes, the like
 * count and the string forms.
 */
module Models {
  import opened Tables

  type UserId = nat
  type GroupId = nat
  type PostId = nat
  type CommentId = nat

  /** A row of the auth user table: its primary key and its unique username. */
  datatype User = User(id: UserId, username: string)

  datatype Group = Group(id: GroupId, title: string, slug: string, description: string)

  /** A post; `likes` is the many-to-many set of users who like it. */
  datatype Post = Post(
    id: PostId,
    text: string,
    pubDate: nat,
    author: UserId,
    group: Option<GroupId>,
    likes: set<UserId>)

  datatype Comment = Comment(id: CommentId, post: PostId, author: UserId, text: string, created: nat)

  /** A Follow row: `user` follows `author`. */
  datatype Follow = Follow(user: UserId, author: UserId)

  /**
   * The tables of the store. `posts` is kept in the order of `Meta.ordering`
   * (newest first); `nextPostId` and `nextCommentId` are the next primary keys
   * the database hands out.
   */
  datatype Db = Db(
    users: seq<User>,
    groups: seq<Group>,
    posts: seq<Post>,
    comments: seq<Comment>,
    follows: seq<Follow>,
    nextPostId: PostId,
    nextCommentId: CommentId)

  // ---------------------------------------------------------------------------
  // Keys and the relations the database keeps between rows.
  // ---------------------------------------------------------------------------

  function UserIds(users: seq<User>): set<UserId> { set u | u in users :: u.id }
  function GroupIds(groups: seq<Group>): set<GroupId> { set g | g in groups :: g.id }
  function PostIds(posts: seq<Post>): set<PostId> { set p | p in posts :: p.id }

  /** The primary key and the unique username of two users differ. */
  predicate DistinctUsers(a: User, b: User) { a.id != b.id && a.username != b.username }
  /** The primary key and the unique slug of two groups differ. */
  predicate DistinctGroups(a: Group, b: Group) { a.id != b.id && a.slug != b.slug }
  predicate DistinctPostIds(a: Post, b: Post) { a.id != b.id }
  predicate DistinctCommentIds(a: Comment, b: Comment) { a.id != b.id }
  /** The `unique_following` constraint on the pair (user, author). */
  predicate DistinctFollows(a: Follow, b: Follow) { a != b }
  /** `Meta.ordering = ["-pub_date"]`: an earlier row is at least as new as a later one. */
  predicate NewerOrSame(a: Post, b: Post) { a.pubDate >= b.pubDate }

  predicate NewestFirst(posts: seq<Post>) { Pairwise(posts, NewerOrSame) }

  predicate ValidPost(db: Db, p: Post) {
    && p.id < db.nextPostId
    && p.author in UserIds(db.users)
    && (p.group.Some? ==> p.group.value in GroupIds(db.groups))
    && p.likes <= UserIds(db.users)
  }

  predicate ValidComment(db: Db, c: Comment) {
    && c.id < db.nextCommentId
    && c.post in PostIds(db.posts)
    && c.author in UserIds(db.users)
  }

  predicate ValidFollow(db: Db, f: Follow) {
    f.user in UserIds(db.users) && f.author in UserIds(db.users)
  }

  /** What the schema guarantees of every state of the store. */
  predicate ValidDb(db: Db) {
    && Pairwise(db.users, DistinctUsers)
    && Pairwise(db.groups, DistinctGroups)
    && Pairwise(db.posts, DistinctPostIds)
    && NewestFirst(db.posts)
    && Pairwise(db.comments, DistinctCommentIds)
    && Pairwise(db.follows, DistinctFollows)
    && (forall p :: p in db.posts ==> ValidPost(db, p))
    && (forall c :: c in db.comments ==> ValidComment(db, c))
    && (forall f :: f in db.follows ==> ValidFollow(db, f))
  }

  /** The number of Follow rows for the pair (user, author). */
  function FollowRows(follows: seq<Follow>, user: UserId, author: UserId): (n: nat)
    ensures n > 0 <==> Follow(user, author) in follows
  {
    if follows == [] then 0
    else (if follows[0] == Follow(user, author) then 1 else 0) + FollowRows(follows[1..], user, author)
  }

  /** The unique Follow pair: a valid store holds at most one Follow row for each (user, author) pair. */
  lemma {:induction false} AtMostOneFollowRow(follows: seq<Follow>, user: UserId, author: UserId)
    requires Pairwise(follows, DistinctFollows)
    ensures FollowRows(follows, user, author) <= 1
  {
    if follows != [] {
      PairwiseTail(follows, DistinctFollows);
      AtMostOneFollowRow(follows[1..], user, author);
    }
  }

  // ---------------------------------------------------------------------------
  // Lookups by key (get_object_or_404 and the foreign-key accessors).
  // ---------------------------------------------------------------------------

  function UserById(users: seq<User>, id: UserId): (r: Option<User>)
    ensures r.Some? ==> r.value in users && r.value.id == id
    ensures r.None? <==> id !in UserIds(users)
  {
    Find(users, (u: User) => u.id == id)
  }

  function UserByName(users: seq<User>, username: string): (r: Option<User>)
    ensures r.Some? ==> r.value in users && r.value.username == username
    ensures r.None? ==> forall u :: u in users ==> u.username != username
  {
    Find(users, (u: User) => u.username == username)
  }

  function GroupBySlug(groups: seq<Group>, slug: string): (r: Option<Group>)
    ensures r.Some? ==> r.value in groups && r.value.slug == slug
    ensures r.None? ==> forall g :: g in groups ==> g.slug != slug
  {
    Find(groups, (g: Group) => g.slug == slug)
  }

  function PostById(posts: seq<Post>, id: PostId): (r: Option<Post>)
    ensures r.Some? ==> r.value in posts && r.value.id == id
    ensures r.None? <==> id !in PostIds(posts)
  {
    Find(posts, (p: Post) => p.id == id)
  }

  function CommentById(comments: seq<Comment>, id: CommentId): (r: Option<Comment>)
    ensures r.Some? ==> r.value in comments && r.value.id == id
    ensures r.None? ==> forall c :: c in comments ==> c.id != id
  {
    Find(comments, (c: Comment) => c.id == id)
  }

  /** Usernames are unique, so a username names exactly one user: the view's username comparison is a user comparison. */
  lemma SameUsernameSameUser(users: seq<User>, a: User, b: User)
    requires Pairwise(users, DistinctUsers) && a in users && b in users
    ensures a.username == b.username <==> a == b
    ensures a.id == b.id <==> a == b
  {
    PairwiseMembers(users, DistinctUsers, a, b);
  }

  /** Looking a user up by their own username finds that user. */
  lemma UserByNameFinds(users: seq<User>, u: User)
    requires Pairwise(users, DistinctUsers) && u in users
    ensures UserByName(users, u.username) == Some(u)
  {
    var r := UserByName(users, u.username);
    SameUsernameSameUser(users, r.value, u);
  }

  lemma UserByIdFinds(users: seq<User>, u: User)
    requires Pairwise(users, DistinctUsers) && u in users
    ensures UserById(users, u.id) == Some(u)
  {
    var r := UserById(users, u.id);
    SameUsernameSameUser(users, r.value, u);
  }

  lemma PostByIdFinds(posts: seq<Post>, p: Post)
    requires Pairwise(posts, DistinctPostIds) && p in posts
    ensures PostById(posts, p.id) == Some(p)
  {
    var r := PostById(posts, p.id);
    PairwiseMembers(posts, DistinctPostIds, r.value, p);
  }

  // ---------------------------------------------------------------------------
  // likes_count and the string forms.
  // ---------------------------------------------------------------------------

  /** `Post.likes_count()`: the number of users in the liker set. */
  function LikesCount(p: Post): nat { |p.likes| }

  /** How many characters of the text `str(post)` shows. */
  const POST_STR_LENGTH: nat := 15

  /** `str(post)` is `text[:15]`. */
  function PostStr(p: Post): (s: string)
    ensures |s| == Min(POST_STR_LENGTH, |p.text|)
    ensures s <= p.text
  {
    if |p.text| <= POST_STR_LENGTH then p.text else p.text[..POST_STR_LENGTH]
  }

  /** `str(group)` is the group's title. */
  function GroupStr(g: Group): string { g.title }

  /** `str(comment)` is the comment's text. */
  function CommentStr(c: Comment): string { c.text }

  /** The `__str__` forms of Group, Post and Comment. */
  lemma StringForms(p: Post, g: Group, c: Comment)
    ensures |p.text| <= POST_STR_LENGTH ==> PostStr(p) == p.text
    ensures |p.text| > POST_STR_LENGTH ==> |PostStr(p)| == POST_STR_LENGTH && PostStr(p) == p.text[..POST_STR_LENGTH]
    ensures GroupStr(g) == g.title
    ensures CommentStr(c) == c.text
  {
  }

  /** What a `__str__` method hands back to Python's `str()`: a string, or a user object. */
  datatype PyValue = PyText(s: string) | PyUser(user: User)
  datatype StrResult = Text(s: string) | TypeError

  /** Python's `str(obj)` raises TypeError when `__str__` returns something that is not a string. */
  function PyStr(returned: PyValue): (r: StrResult)
    ensures r.Text? <==> returned.PyText?
    ensures returned.PyText? ==> r.s == returned.s
  {
    match returned
    case PyText(s) => Text(s)
    case PyUser(_) => TypeError
  }

  /** `Follow.__str__` as written: it returns the author object itself. */
  function FollowDunderStrAsWritten(author: User): (r: PyValue)
    ensures r.PyUser? && r.user == author
  {
    PyUser(author)
  }

  /** As written, `str(follow)` raises TypeError for every Follow row. */
  lemma FollowStrAsWrittenRaises(author: User)
    ensures PyStr(FollowDunderStrAsWritten(author)) == TypeError
  {
  }

  /** `Follow.__str__` as intended: `str(self.author)`, the author's username. */
  function FollowDunderStr(author: User): (r: PyValue)
    ensures r.PyText?
  {
    PyText(author.username)
  }

  lemma FollowStrIsAuthorName(author: User)
    ensures PyStr(FollowDunderStr(author)) == Text(author.username)
  {
  }

  // ---------------------------------------------------------------------------
  // on_delete rules.
  // ---------------------------------------------------------------------------

  function PostsWithout(posts: seq<Post>, id: PostId): (r: seq<Post>)
    ensures forall p :: p in r <==> p in posts && p.id != id
  {
    Filter(posts, (p: Post) => p.id != id)
  }

  function CommentsNotOn(comments: seq<Comment>, id: PostId): (r: seq<Comment>)
    ensures forall c :: c in r <==> c in comments && c.post != id
  {
    Filter(comments, (c: Comment) => c.post != id)
  }

  /**
   * `post.delete()`: the post goes, its comments go with it (Comment.post is
   * CASCADE) and so do its like rows, which live in the post record here.
   */
  function DeletePost(db: Db, id: PostId): (r: Db)
    ensures r.users == db.users && r.groups == db.groups && r.follows == db.follows
    ensures r.nextPostId == db.nextPostId && r.nextCommentId == db.nextCommentId
    ensures forall p :: p in r.posts <==> p in db.posts && p.id != id
    ensures forall c :: c in r.comments <==> c in db.comments && c.post != id
  {
    db.(posts := PostsWithout(db.posts, id), comments := CommentsNotOn(db.comments, id))
  }

  lemma DeletePostKeepsValid(db: Db, id: PostId)
    requires ValidDb(db)
    ensures ValidDb(DeletePost(db, id))
  {
    var r := DeletePost(db, id);
    FilterKeepsPairwise(db.posts, (p: Post) => p.id != id, DistinctPostIds);
    FilterKeepsPairwise(db.posts, (p: Post) => p.id != id, NewerOrSame);
    FilterKeepsPairwise(db.comments, (c: Comment) => c.post != id, DistinctCommentIds);
    forall c | c in r.comments ensures ValidComment(r, c) {
      var q :| q in db.posts && q.id == c.post;
      assert q in r.posts;
    }
  }

  /** The like rows of user `uid` go: `uid` leaves every liker set. */
  function Unlike(posts: seq<Post>, uid: UserId): (r: seq<Post>)
    ensures |r| == |posts|
    ensures forall i :: 0 <= i < |r| ==> r[i] == posts[i].(likes := posts[i].likes - {uid})
  {
    seq(|posts|, i requires 0 <= i < |posts| => posts[i].(likes := posts[i].likes - {uid}))
  }

  /** The ids of the posts that user `uid` wrote. */
  function PostIdsBy(posts: seq<Post>, uid: UserId): set<PostId> {
    set p | p in posts && p.author == uid :: p.id
  }

  function UsersWithout(users: seq<User>, uid: UserId): (r: seq<User>)
    ensures forall u :: u in r <==> u in users && u.id != uid
    ensures Pairwise(users, DistinctUsers) ==> Pairwise(r, DistinctUsers)
  {
    var r := Filter(users, (u: User) => u.id != uid);
    assert Pairwise(users, DistinctUsers) ==> Pairwise(r, DistinctUsers) by {
      if Pairwise(users, DistinctUsers) { FilterKeepsPairwise(users, (u: User) => u.id != uid, DistinctUsers); }
    }
    r
  }

  /** The posts that remain when user `uid` goes: the others' posts, without `uid`'s likes, in the same order. */
  function PostsNotBy(posts: seq<Post>, uid: UserId): (r: seq<Post>)
    ensures forall p :: p in r ==> p.author != uid && uid !in p.likes
    ensures forall p :: p in posts && p.author != uid ==> p.(likes := p.likes - {uid}) in r
  {
    var kept := Filter(posts, (p: Post) => p.author != uid);
    var r := Unlike(kept, uid);
    assert forall p :: p in r ==> p.author != uid && uid !in p.likes by {
      forall p | p in r ensures p.author != uid && uid !in p.likes {
        var k :| 0 <= k < |r| && r[k] == p;
        assert kept[k] in kept;
      }
    }
    assert forall p :: p in posts && p.author != uid ==> p.(likes := p.likes - {uid}) in r by {
      forall p | p in posts && p.author != uid ensures p.(likes := p.likes - {uid}) in r {
        var k :| 0 <= k < |kept| && kept[k] == p;
        assert r[k] == p.(likes := p.likes - {uid});
      }
    }
    r
  }

  /** Every remaining post is a post of the table without `uid`'s like. */
  lemma PostsNotBySource(posts: seq<Post>, uid: UserId, p: Post) returns (q: Post)
    requires p in PostsNotBy(posts, uid)
    ensures q in posts && q.author != uid && p == q.(likes := q.likes - {uid})
  {
    var kept := Filter(posts, (p: Post) => p.author != uid);
    assert PostsNotBy(posts, uid) == Unlike(kept, uid);
    var k :| 0 <= k < |kept| && Unlike(kept, uid)[k] == p;
    q := kept[k];
    assert q in kept;
  }

  /** Removing a user's posts and likes keeps the keys unique and the order newest first. */
  lemma PostsNotByKeepsTable(posts: seq<Post>, uid: UserId)
    requires Pairwise(posts, DistinctPostIds) && NewestFirst(posts)
    ensures Pairwise(PostsNotBy(posts, uid), DistinctPostIds) && NewestFirst(PostsNotBy(posts, uid))
  {
    var kept := Filter(posts, (p: Post) => p.author != uid);
    var r := PostsNotBy(posts, uid);
    FilterKeepsPairwise(posts, (p: Post) => p.author != uid, DistinctPostIds);
    FilterKeepsPairwise(posts, (p: Post) => p.author != uid, NewerOrSame);
    assert r == Unlike(kept, uid);
    forall i, j | 0 <= i < j < |r| ensures DistinctPostIds(r[i], r[j]) && NewerOrSame(r[i], r[j]) {
      assert DistinctPostIds(kept[i], kept[j]) && NewerOrSame(kept[i], kept[j]);
    }
  }

  /** The comments that remain when user `uid` goes: neither by them nor on one of their posts. */
  function CommentsNotInvolving(comments: seq<Comment>, gone: set<PostId>, uid: UserId): (r: seq<Comment>)
    ensures forall c :: c in r <==> c in comments && c.author != uid && c.post !in gone
    ensures Pairwise(comments, DistinctCommentIds) ==> Pairwise(r, DistinctCommentIds)
  {
    var r := Filter(comments, (c: Comment) => c.author != uid && c.post !in gone);
    assert Pairwise(comments, DistinctCommentIds) ==> Pairwise(r, DistinctCommentIds) by {
      if Pairwise(comments, DistinctCommentIds) {
        FilterKeepsPairwise(comments, (c: Comment) => c.author != uid && c.post !in gone, DistinctCommentIds);
      }
    }
    r
  }

  /** The Follow rows that remain when user `uid` goes: those naming them on neither side. */
  function FollowsNotInvolving(follows: seq<Follow>, uid: UserId): (r: seq<Follow>)
    ensures forall f :: f in r <==> f in follows && f.user != uid && f.author != uid
    ensures Pairwise(follows, DistinctFollows) ==> Pairwise(r, DistinctFollows)
  {
    var r := Filter(follows, (f: Follow) => f.user != uid && f.author != uid);
    assert Pairwise(follows, DistinctFollows) ==> Pairwise(r, DistinctFollows) by {
      if Pairwise(follows, DistinctFollows) {
        FilterKeepsPairwise(follows, (f: Follow) => f.user != uid && f.author != uid, DistinctFollows);
      }
    }
    r
  }

  /**
   * Deleting a user: Post.author, Comment.author, Follow.user and Follow.author
   * are CASCADE, so the user's posts (with their comments), the user's comments
   * and every Follow row naming the user go, and the user leaves every liker set.
   */
  function DeleteUser(db: Db, uid: UserId): (r: Db)
    ensures r.groups == db.groups && r.nextPostId == db.nextPostId && r.nextCommentId == db.nextCommentId
    ensures forall u :: u in r.users <==> u in db.users && u.id != uid
    ensures forall p :: p in r.posts ==> p.author != uid && uid !in p.likes
    ensures forall p :: p in db.posts && p.author != uid ==> p.(likes := p.likes - {uid}) in r.posts
    ensures forall c :: c in r.comments <==> c in db.comments && c.author != uid && c.post !in PostIdsBy(db.posts, uid)
    ensures forall f :: f in r.follows <==> f in db.follows && f.user != uid && f.author != uid
  {
    db.(
      users := UsersWithout(db.users, uid),
      posts := PostsNotBy(db.posts, uid),
      comments := CommentsNotInvolving(db.comments, PostIdsBy(db.posts, uid), uid),
      follows := FollowsNotInvolving(db.follows, uid))
  }

  lemma DeleteUserKeepsValid(db: Db, uid: UserId)
    requires ValidDb(db)
    ensures ValidDb(DeleteUser(db, uid))
  {
    var r := DeleteUser(db, uid);
    PostsNotByKeepsTable(db.posts, uid);
    forall p | p in r.posts ensures ValidPost(r, p) {
      var q := PostsNotBySource(db.posts, uid, p);
      assert ValidPost(db, q);
      var a :| a in db.users && a.id == p.author;
      assert a in r.users;
      forall x | x in p.likes ensures x in UserIds(r.users) {
        var b :| b in db.users && b.id == x;
        assert b in r.users;
      }
    }
    forall c | c in r.comments ensures ValidComment(r, c) {
      assert ValidComment(db, c);
      var q :| q in db.posts && q.id == c.post;
      assert q.author != uid;
      assert q.(likes := q.likes - {uid}) in r.posts;
      var a :| a in db.users && a.id == c.author;
      assert a in r.users;
    }
    forall f | f in r.follows ensures ValidFollow(r, f) {
      assert ValidFollow(db, f);
      var a :| a in db.users && a.id == f.user;
      var b :| b in db.users && b.id == f.author;
      assert a in r.users && b in r.users;
    }
  }

  /** Post.group is SET_NULL: the group's posts stay, with no group. */
  function Detach(posts: seq<Post>, gid: GroupId): (r: seq<Post>)
    ensures |r| == |posts|
    ensures forall i :: 0 <= i < |r| ==> r[i].(group := posts[i].group) == posts[i]
    ensures forall i :: 0 <= i < |r| ==> r[i].group == if posts[i].group == Some(gid) then None else posts[i].group
  {
    seq(|posts|, i requires 0 <= i < |posts| => if posts[i].group == Some(gid) then posts[i].(group := None) else posts[i])
  }

  /** Deleting a group: the group goes and its posts lose their group but remain. */
  function DeleteGroup(db: Db, gid: GroupId): (r: Db)
    ensures r.users == db.users && r.comments == db.comments && r.follows == db.follows
    ensures r.nextPostId == db.nextPostId && r.nextCommentId == db.nextCommentId
    ensures forall g :: g in r.groups <==> g in db.groups && g.id != gid
    ensures r.posts == Detach(db.posts, gid)
    ensures forall p :: p in r.posts ==> p.group != Some(gid)
    ensures PostIds(r.posts) == PostIds(db.posts)
  {
    var r := db.(groups := Filter(db.groups, (g: Group) => g.id != gid), posts := Detach(db.posts, gid));
    assert PostIds(r.posts) == PostIds(db.posts) by {
      forall x | x in PostIds(db.posts) ensures x in PostIds(r.posts) {
        var k :| 0 <= k < |db.posts| && db.posts[k].id == x;
        assert r.posts[k].id == x;
      }
    }
    r
  }

  /** Detaching changes no key and no date, so the table keeps its keys distinct and its order. */
  lemma DetachKeepsTable(posts: seq<Post>, gid: GroupId)
    ensures Pairwise(posts, DistinctPostIds) ==> Pairwise(Detach(posts, gid), DistinctPostIds)
    ensures NewestFirst(posts) ==> NewestFirst(Detach(posts, gid))
  {
    var r := Detach(posts, gid);
    if Pairwise(posts, DistinctPostIds) {
      forall i, j | 0 <= i < j < |r| ensures DistinctPostIds(r[i], r[j]) {
        assert DistinctPostIds(posts[i], posts[j]);
      }
    }
    if NewestFirst(posts) {
      forall i, j | 0 <= i < j < |r| ensures NewerOrSame(r[i], r[j]) {
        assert NewerOrSame(posts[i], posts[j]);
      }
    }
  }

  lemma DeleteGroupKeepsValid(db: Db, gid: GroupId)
    requires ValidDb(db)
    ensures ValidDb(DeleteGroup(db, gid))
  {
    var r := DeleteGroup(db, gid);
    FilterKeepsPairwise(db.groups, (g: Group) => g.id != gid, DistinctGroups);
    DetachKeepsTable(db.posts, gid);
    forall p | p in r.posts ensures ValidPost(r, p) {
      var k :| 0 <= k < |r.posts| && r.posts[k] == p;
      assert ValidPost(db, db.posts[k]);
      if p.group.Some? {
        var g :| g in db.groups && g.id == p.group.value;
        assert g in r.groups;
      }
    }
    forall c | c in r.comments ensures ValidComment(r, c) {
      assert ValidComment(db, c);
    }
  }
}
