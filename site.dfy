/**
 * The store that the write views change in place: one field per table. Each
 * method is one write view (or one of the on_delete rules), proved to leave
 * the store in the state that the matching step function of `Views` (or
 * delete function of `Models`) describes, and to keep the schema's invariants.
 */
module Site {
  import opened Tables
  import opened Models
  import Views
  import Laws

  class Store {
    var users: seq<User>
    var groups: seq<Group>
    var posts: seq<Post>
    var comments: seq<Comment>
    var follows: seq<Follow>
    var nextPostId: PostId
    var nextCommentId: CommentId

    /** The tables as one value. */
    function Snapshot(): Db
      reads this
    {
      Db(users, groups, posts, comments, follows, nextPostId, nextCommentId)
    }

    ghost predicate Valid()
      reads this
    {
      ValidDb(Snapshot())
    }

    /** An empty site with its users and groups; primary keys start at 1. */
    constructor (users: seq<User>, groups: seq<Group>)
      requires Pairwise(users, DistinctUsers) && Pairwise(groups, DistinctGroups)
      ensures Valid()
      ensures Snapshot() == Db(users, groups, [], [], [], 1, 1)
    {
      this.users := users;
      this.groups := groups;
      posts := [];
      comments := [];
      follows := [];
      nextPostId := 1;
      nextCommentId := 1;
    }

    /** `profile_follow`. */
    method ProfileFollow(actor: User, username: string) returns (o: Views.Outcome)
      requires Valid() && actor in users
      modifies this
      ensures Valid()
      ensures Views.Step(o, Snapshot()) == Views.ProfileFollow(old(Snapshot()), actor, username)
    {
      Laws.ProfileFollowKeepsValid(Snapshot(), actor, username);
      var found := UserByName(users, username);
      if found.None? {
        return Views.ObjectNotFound;
      }
      var following := found.value;
      if actor.id == following.id {
        return Views.Ignored;
      }
      if Follow(actor.id, following.id) !in follows {
        follows := follows + [Follow(actor.id, following.id)];
      }
      return Views.Written;
    }

    /** `profile_unfollow`. */
    method ProfileUnfollow(actor: User, username: string) returns (o: Views.Outcome)
      requires Valid()
      modifies this
      ensures Valid()
      ensures Views.Step(o, Snapshot()) == Views.ProfileUnfollow(old(Snapshot()), actor, username)
    {
      Laws.ProfileUnfollowKeepsValid(Snapshot(), actor, username);
      var found := UserByName(users, username);
      if found.None? {
        return Views.ObjectNotFound;
      }
      var following := found.value;
      if Follow(actor.id, following.id) !in follows {
        return Views.Ignored;
      }
      follows := Views.DeleteFollowRows(follows, actor.id, following.id);
      return Views.Written;
    }

    /** The position of the post with key `id`, when there is one; keys are unique. */
    method LocatePost(id: PostId) returns (at: Option<nat>)
      requires Valid()
      ensures at.None? <==> id !in PostIds(posts)
      ensures at.Some? ==> at.value < |posts| && posts[at.value].id == id
      ensures at.Some? ==> forall j :: 0 <= j < |posts| && posts[j].id == id ==> j == at.value
    {
      at := IndexWhere(posts, (q: Post) => q.id == id);
    }

    /** `post_like`: `likes.remove` or `likes.add` on the one post row. */
    method PostLike(actor: User, id: PostId) returns (o: Views.Outcome)
      requires Valid() && actor in users
      modifies this
      ensures Valid()
      ensures Views.Step(o, Snapshot()) == Views.PostLike(old(Snapshot()), actor, id)
    {
      Laws.PostLikeKeepsValid(Snapshot(), actor, id);
      var at := LocatePost(id);
      if at.None? {
        return Views.ObjectNotFound;
      }
      var i := at.value;
      assert posts[i := Views.ToggleLike(posts[i], actor.id)] == Views.TogglePostLike(posts, id, actor.id);
      posts := posts[i := Views.ToggleLike(posts[i], actor.id)];
      return Views.Written;
    }

    /** `post_create`: the row goes in before the first post that is not newer than it. */
    method PostCreate(actor: User, form: Option<Views.PostFields>, now: nat) returns (o: Views.Outcome)
      requires Valid() && actor in users
      modifies this
      ensures Valid()
      ensures Views.Step(o, Snapshot()) == Views.PostCreate(old(Snapshot()), actor, form, now)
    {
      ghost var s := Views.PostCreate(Snapshot(), actor, form, now);
      Laws.PostCreateKeepsValid(Snapshot(), actor, form, now);
      if !Views.PostFormValid(Snapshot(), form) {
        return Views.Ignored;
      }
      var p := Views.NewPost(Snapshot(), actor, form.value, now);
      var at := IndexWhere(posts, (q: Post) => q.pubDate <= now);
      var k := if at.Some? then at.value else |posts|;
      assert forall i :: 0 <= i < k ==> posts[i].pubDate > p.pubDate;
      Laws.InsertNewestAt(posts, p, k);
      assert s.db.posts == posts[..k] + [p] + posts[k..];
      posts := posts[..k] + [p] + posts[k..];
      nextPostId := nextPostId + 1;
      assert Snapshot() == s.db;
      return Views.Written;
    }

    /** `post_edit`: `form.save()` rewrites the one post row. */
    method PostEdit(actor: User, id: PostId, form: Option<Views.PostFields>) returns (o: Views.Outcome)
      requires Valid()
      modifies this
      ensures Valid()
      ensures Views.Step(o, Snapshot()) == Views.PostEdit(old(Snapshot()), actor, id, form)
    {
      Laws.PostEditKeepsValid(Snapshot(), actor, id, form);
      var at := LocatePost(id);
      if at.None? {
        return Views.ObjectNotFound;
      }
      var i := at.value;
      assert PostById(posts, id) == Some(posts[i]) by { PostByIdFinds(posts, posts[i]); }
      if actor.id != posts[i].author || !Views.PostFormValid(Snapshot(), form) {
        return Views.Ignored;
      }
      var edited := posts[i].(text := form.value.text, group := form.value.group);
      assert posts[i := edited] == Views.EditPost(posts, id, form.value);
      posts := posts[i := edited];
      return Views.Written;
    }

    /** `post_delete`: the post and, by CASCADE, its comments. */
    method PostDelete(actor: User, id: PostId) returns (o: Views.Outcome)
      requires Valid()
      modifies this
      ensures Valid()
      ensures Views.Step(o, Snapshot()) == Views.PostDelete(old(Snapshot()), actor, id)
    {
      Laws.PostDeleteKeepsValid(Snapshot(), actor, id);
      var found := PostById(posts, id);
      if found.None? {
        return Views.ObjectNotFound;
      }
      if actor.id != found.value.author {
        return Views.Ignored;
      }
      posts := PostsWithout(posts, id);
      comments := CommentsNotOn(comments, id);
      return Views.Written;
    }

    /** `add_comment`: a comment row for the post, by the actor. */
    method AddComment(actor: User, postId: PostId, text: Option<string>, now: nat) returns (o: Views.Outcome)
      requires Valid() && actor in users
      modifies this
      ensures Valid()
      ensures Views.Step(o, Snapshot()) == Views.AddComment(old(Snapshot()), actor, postId, text, now)
    {
      Laws.AddCommentKeepsValid(Snapshot(), actor, postId, text, now);
      if PostById(posts, postId).None? {
        return Views.ObjectNotFound;
      }
      if text.None? {
        return Views.Ignored;
      }
      comments := comments + [Comment(nextCommentId, postId, actor.id, text.value, now)];
      nextCommentId := nextCommentId + 1;
      return Views.Written;
    }

    /** `delete_comment`: the comment row goes when the usernames match. */
    method DeleteComment(actor: User, id: CommentId) returns (o: Views.Outcome)
      requires Valid()
      modifies this
      ensures Valid()
      ensures Views.Step(o, Snapshot()) == Views.DeleteComment(old(Snapshot()), actor, id)
    {
      Laws.DeleteCommentKeepsValid(Snapshot(), actor, id);
      var found := CommentById(comments, id);
      if found.None? {
        return Views.ObjectNotFound;
      }
      assert ValidComment(Snapshot(), found.value);
      var author := UserById(users, found.value.author).value;
      if actor.username != author.username {
        return Views.Ignored;
      }
      comments := Views.CommentsWithout(comments, id);
      return Views.Written;
    }

    /** Deleting a user: CASCADE on their posts, comments and Follow rows, and their like rows go. */
    method DeleteUser(uid: UserId)
      requires Valid()
      modifies this
      ensures Valid()
      ensures Snapshot() == Models.DeleteUser(old(Snapshot()), uid)
    {
      ghost var r := Models.DeleteUser(Snapshot(), uid);
      DeleteUserKeepsValid(Snapshot(), uid);
      comments := CommentsNotInvolving(comments, PostIdsBy(posts, uid), uid);
      users := UsersWithout(users, uid);
      posts := PostsNotBy(posts, uid);
      follows := FollowsNotInvolving(follows, uid);
      assert Snapshot() == r;
    }

    /** Deleting a group: SET_NULL on its posts, which stay. */
    method DeleteGroup(gid: GroupId)
      requires Valid()
      modifies this
      ensures Valid()
      ensures Snapshot() == Models.DeleteGroup(old(Snapshot()), gid)
    {
      DeleteGroupKeepsValid(Snapshot(), gid);
      groups := Models.DeleteGroup(Snapshot(), gid).groups;
      posts := Detach(posts, gid);
    }
  }
}
