# yatube posts: a verified model of the blog's posts app

yatube is a small Django blog. Users write posts, optionally in a group.
Others comment on a post, like it, and follow its author. The posts app
has three parts, and this project models each of them in Dafny, together
with the properties the app and its tests rely on:

- the schema (`models.py`): the records, the unique Follow pair, the
  newest-first ordering, the CASCADE and SET_NULL deletes, `likes_count`
  and the string forms;
- the paginator helper (`utils.py`): one page of an ordered listing, with
  the behaviour of Django 2.2's `Paginator.get_page`. This includes how
  Python's `int()` reads the `?page=` parameter;
- the views (`views.py`):
  - the five read views are functions from the store to their context;
  - the eight write views are step functions from one store to the next;
  - the write views are also methods of a `Store` class whose fields are
    the tables. Each method is proved to reach the state its step function
    describes, and to keep the schema's invariants.

The modules:

- `Tables` (`tables.dfy`) holds the sequence helpers shared by the other
  modules: `Option`, `Filter`, `Find`, `IndexWhere` and `Pairwise`.
- `Models` (`models.py`) is the schema:
  - the `User`, `Group`, `Post`, `Comment` and `Follow` records;
  - the store as one value, `Db`;
  - its invariant `ValidDb`, which covers unique keys and usernames, unique
    slugs, the unique Follow pair, foreign keys and newest-first posts;
  - the lookups that `get_object_or_404` performs;
  - the on_delete rules and the string forms.
- `Pagination` (`utils.py`) has Python `int()` on the page parameter, the
  Paginator's `num_pages`, `validate_number` and `get_page`, and
  `paginator_func`.
- `Views` (`views.py`) has the read views and the write views' step
  functions. Each write view yields an outcome (`Written`, `Ignored` or
  `ObjectNotFound`, the last for Http404) and the new store.
- `Laws` holds what the write views do to the store, stated over the step
  functions.
- `Site` has the `Store` class and its methods.

An inlined documentation comment on a member says what it stands for. The
posts table is kept in `Meta.ordering` order (newest `pub_date` first). It is
the order every listing inherits.

## Model

| member | source | states |
|---|---|---|
| Models.FollowRows | yatube/posts/models.py:69-74 | the number of Follow rows for a pair is positive exactly when the pair is present |
| Models.AtMostOneFollowRow | yatube/posts/models.py:69-74 | under the unique_following constraint a pair has at most one Follow row |
| Models.ValidDb | yatube/posts/models.py:7-77 | the schema's guarantees for every state: unique user keys and usernames, unique group keys and slugs, unique post and comment keys, the unique Follow pair, newest-first posts and every foreign key present. It carries no contract of its own; every write keeps it (the `*KeepsValid` lemmas and every `Site.Store` method) |
| Models.UserById | yatube/posts/views.py:129 | the user with that key, found in the table, and None exactly when no user has it |
| Models.UserByName | yatube/posts/views.py:31 | the user with that username, or None when no user has it (Http404) |
| Models.GroupBySlug | yatube/posts/views.py:20 | the group with that slug, or None when no group has it (Http404) |
| Models.PostById | yatube/posts/views.py:49 | the post with that key, and None exactly when no post has it (Http404) |
| Models.CommentById | yatube/posts/views.py:127 | the comment with that key, or None when no comment has it (Http404) |
| Models.SameUsernameSameUser | yatube/posts/views.py:129 | in a table of unique usernames and keys, equal usernames and equal keys each mean the same user |
| Models.UserByNameFinds | yatube/posts/views.py:145 | a user of the table is found by their own username |
| Models.UserByIdFinds | yatube/posts/views.py:129 | a user of the table is found by their own key |
| Models.PostByIdFinds | yatube/posts/views.py:107 | a post of a table with unique keys is found by its own key |
| Models.PostStr | yatube/posts/models.py:39-40 | `str(post)` is a prefix of the text of length min(15, len(text)) |
| Models.StringForms | yatube/posts/models.py:12-58 | the `__str__` methods at lines 12-13, 39-40 and 57-58: `str(post)` is the whole text up to 15 characters, the first 15 beyond that; `str(group)` is the title; `str(comment)` is the text |
| Models.PyStr | yatube/posts/models.py:76-77 | Python's `str()` gives text exactly when `__str__` returned text, and raises TypeError otherwise |
| Models.FollowDunderStrAsWritten | yatube/posts/models.py:76-77 | `Follow.__str__` as written returns the author User object, not text |
| Models.FollowStrAsWrittenRaises | yatube/posts/models.py:76-77 | so `str(follow)` raises TypeError for every Follow |
| Models.FollowDunderStr | yatube/posts/models.py:76-77 | the corrected `__str__` returns text |
| Models.FollowStrIsAuthorName | yatube/posts/models.py:76-77 | the corrected `str(follow)` is the author's username |
| Models.PostsWithout | yatube/posts/views.py:109 | exactly the posts with another key remain |
| Models.CommentsNotOn | yatube/posts/models.py:44-48 | exactly the comments on other posts remain |
| Models.DeletePost | yatube/posts/models.py:44-48 | deleting a post removes it and, by CASCADE, exactly its comments; users, groups, follows and key counters stay |
| Models.DeletePostKeepsValid | yatube/posts/models.py:44-48 | deleting a post keeps every schema invariant (no comment is left pointing at it) |
| Models.Unlike | yatube/posts/models.py:31 | every post keeps its row and only loses that user from its likers |
| Models.UsersWithout | yatube/posts/models.py:19-21 | exactly the other users remain, with usernames and keys still unique |
| Models.PostsNotBy | yatube/posts/models.py:19-21 | every remaining post is by another author and not liked by the user; every post by another author remains, minus that user's like |
| Models.PostsNotBySource | yatube/posts/models.py:19-21 | each remaining post is a post of the old table by another author, with the user's like removed |
| Models.PostsNotByKeepsTable | yatube/posts/models.py:36-37 | removing a user's posts and likes keeps the post keys unique and the table newest first |
| Models.CommentsNotInvolving | yatube/posts/models.py:44-53 | exactly the comments neither by the user nor on one of their posts remain, with keys still unique |
| Models.FollowsNotInvolving | yatube/posts/models.py:62-67 | exactly the Follow rows with the user on neither side remain, and the pair stays unique |
| Models.DeleteUser | yatube/posts/models.py:19-21 | deleting a user removes the user, their posts, their comments, the comments on their posts, every Follow row on either side, and their likes; groups and other posts stay |
| Models.DeleteUserKeepsValid | yatube/posts/models.py:62-67 | deleting a user keeps every schema invariant |
| Models.Detach | yatube/posts/models.py:22-28 | SET_NULL: posts of that group get no group, every other field and post stays |
| Models.DeleteGroup | yatube/posts/models.py:22-28 | deleting a group removes it and detaches its posts, which all remain (same keys) |
| Models.DetachKeepsTable | yatube/posts/models.py:22-28 | SET_NULL changes no key and no date, so keys stay unique and the table newest first |
| Models.DeleteGroupKeepsValid | yatube/posts/models.py:22-28 | deleting a group keeps every schema invariant |
| Pagination.StripLeading | yatube/posts/utils.py:7-8 | the leading whitespace `int()` skips, and no more |
| Pagination.StripTrailing | yatube/posts/utils.py:7-8 | the trailing whitespace `int()` skips, and no more |
| Pagination.ParseDigits | yatube/posts/utils.py:7-8 | a value exactly for a digit string: digits, with single underscores only between two digits |
| Pagination.ParsePyInt | yatube/posts/utils.py:7-8 | `int()` accepts only text that, once its whitespace is skipped, is an optional sign followed by digits and underscores, and gives a negative value only after a minus sign; its values are stated by the parse lemmas below, for plain digits, a `+` or `-` sign and underscores |
| Pagination.FileSeparatorIsNotSkipped | yatube/posts/utils.py:7-8 | `int("\x1c2")` raises ValueError, because `int()` skips only ASCII and Unicode whitespace, not the separators U+001C to U+001F, so `?page=%1C2` serves page 1 |
| Pagination.UnderscoreDigits | yatube/posts/utils.py:7-8 | PEP 515: `1_0` is the digit string of 10, the underscore dropped |
| Pagination.ParseBareDigits | yatube/posts/utils.py:7-8 | `int()` of a string whose stripped form is a digit string, underscores allowed, is that string's value |
| Pagination.ParsePlusDigits | yatube/posts/utils.py:7-8 | `int()` of a string whose stripped form is `+` and a digit string is that string's value |
| Pagination.UnderscoreBetweenDigits | yatube/posts/utils.py:7-8 | `int("1_0") == 10` |
| Pagination.PlusWithUnderscore | yatube/posts/utils.py:7-8 | `int("+1_0") == 10` |
| Pagination.ParseMinusDigits | yatube/posts/utils.py:7-8 | `int()` of a string whose stripped form is `-` and a digit string, underscores allowed, is minus that string's value |
| Pagination.MinusWithUnderscore | yatube/posts/utils.py:7-8 | `int("-1_0") == -10` |
| Pagination.ParseUnsigned | yatube/posts/utils.py:7-8 | `int()` of a string whose stripped form is digits is the value of those digits |
| Pagination.ParseMinus | yatube/posts/utils.py:7-8 | `int()` of a string whose stripped form is a minus sign and digits is minus their value |
| Pagination.ParseSingleDigit | yatube/posts/utils.py:7-8 | `int()` reads a single digit as its value |
| Pagination.ParseDecimalString | yatube/posts/utils.py:7-8 | `int()` reads back the decimal form of every natural number |
| Pagination.ParseNegativeDecimalString | yatube/posts/utils.py:7-8 | `int()` reads a minus sign followed by digits as the negative number |
| Pagination.ParseIgnoresSurroundingSpace | yatube/posts/utils.py:7-8 | `int()` ignores surrounding whitespace |
| Pagination.EmptyIsNotAnInteger | yatube/posts/utils.py:7-8 | `?page=` with an empty value is not an integer |
| Pagination.WordIsNotAnInteger | yatube/posts/utils.py:7-8 | a word is not an integer |
| Pagination.FractionIsNotAnInteger | yatube/posts/utils.py:7-8 | "2.0" is not an integer |
| Pagination.DoubleUnderscoreIsNotAnInteger | yatube/posts/utils.py:7-8 | "1__0" is not an integer: underscores go singly between digits |
| Pagination.NumPages | yatube/posts/utils.py:6 | at least one page; the fewest pages of 10 that hold every item |
| Pagination.ValidateNumber | yatube/posts/utils.py:8 | PageNotAnInteger exactly for a missing or non-integer value; otherwise EmptyPage exactly for a number outside 1..num_pages, and that number itself when inside |
| Pagination.PageNumber | yatube/posts/utils.py:8 | the page served is always between 1 and num_pages |
| Pagination.PageSlice | yatube/posts/utils.py:8 | page k is the slice [(k-1)*10, min(k*10, n)) of the listing, at most 10 items, non-empty when the listing is |
| Pagination.GetPage | yatube/posts/utils.py:5-9 | at most 10 items: the contiguous slice [(k-1)*10, min(k*10, n)) of the listing for the page k served, non-empty when the listing is |
| Pagination.NonIntegerGivesFirstPage | yatube/posts/utils.py:7-8 | a missing or non-integer page number gives page 1 |
| Pagination.InRangeGivesThatPage | yatube/posts/utils.py:7-8 | a number from 1 to num_pages gives that page |
| Pagination.OutOfRangeGivesLastPage | yatube/posts/utils.py:7-8 | a number past the end, or below 1, gives the last page |
| Pagination.EmptyListing | yatube/posts/utils.py:8 | an empty listing is one empty page with no next or previous page |
| Pagination.PageSizes | yatube/posts/utils.py:6 | every page but the last holds 10; the last holds the rest, count % 10 when that is not 0 |
| Pagination.PageStartInRange | yatube/posts/utils.py:6 | page k starts inside the listing, and the last page reaches its end |
| Pagination.PagesFromIsSuffix | yatube/posts/utils.py:6-8 | pages k to the end laid end to end are the listing from item (k-1)*10 on |
| Pagination.AllPagesGiveTheListing | yatube/posts/utils.py:6-8 | all pages in order give back exactly the listing |
| Pagination.TwelveItemsFirstPage | yatube/posts/tests/test_views.py:207-219 | with 12 posts the first page holds 10 |
| Pagination.TwelveItemsSecondPage | yatube/posts/tests/test_views.py:221-236 | with 12 posts page 2 holds 12 % 10 = 2 |
| Pagination.TwelveItemsThirdPage | yatube/posts/utils.py:8 | with 12 posts asking for page 3 serves page 2 |
| Views.Listing | yatube/posts/views.py:21 | a listing holds exactly the posts in scope, newest first when the table is |
| Views.EverythingIsTheTable | yatube/posts/views.py:13 | `Post.objects.all()` is the whole table in order, so the index's listing is the table |
| Views.FollowJoin | yatube/posts/views.py:137 | the join holds exactly the posts whose author the viewer follows |
| Views.FollowJoinIsListing | yatube/posts/views.py:137 | under the unique Follow pair the join has no duplicates: it is the exact followed-authors listing |
| Views.Index | yatube/posts/views.py:11-15 | the listing page of all posts is `get_page` of the whole table: it counts them all, holds only stored posts, newest first |
| Views.ListingPage | yatube/posts/utils.py:5-9 | the page served is `get_page` of the scoped listing for the requested number, so it holds only posts in scope, counts the whole listing and is newest first |
| Views.PageIsNewestFirst | yatube/posts/utils.py:5-9 | every page of a newest-first list is newest first |
| Views.GroupPosts | yatube/posts/views.py:18-26 | Http404 exactly when no group has the slug; otherwise that group and the `get_page` page of its listing for the requested number: only its posts, newest first, counting all of them |
| Views.Profile | yatube/posts/views.py:29-44 | Http404 exactly when no user has the username; otherwise the `get_page` page of their listing for the requested number, so only their posts; posts_count is their number, and following holds iff the viewer is logged in and follows them |
| Views.FollowIndex | yatube/posts/views.py:134-139 | only posts whose author the viewer follows; none for a viewer who follows nobody |
| Views.JoinNeedsAFollow | yatube/posts/views.py:137 | a viewer with no Follow rows joins no posts |
| Views.FollowIndexIsExact | yatube/posts/views.py:137 | in a valid store the feed is a page of the exact followed-authors listing, newest first |
| Views.PostDetail | yatube/posts/views.py:47-67 | Http404 exactly when no post has the key; otherwise the post, its author's post count, exactly its comments, its like count, and liked iff the viewer likes it |
| Views.ProfileFollow | yatube/posts/views.py:142-148 | Http404 exactly when no user has the username; a step that is turned away changes nothing, and only the Follow table can change (the pair's effect is in Laws.FollowAddsThePair) |
| Views.ProfileUnfollow | yatube/posts/views.py:151-158 | Http404 exactly when no user has the username; a step that is turned away changes nothing, and only the Follow table can change (see Laws.UnfollowRemovesThePair) |
| Views.PostLike | yatube/posts/views.py:161-169 | Http404 exactly when no post has the key, never turned away, and only the post table changes, keeping its length (see Laws.LikeTouchesOnlyThatPost) |
| Views.PostCreate | yatube/posts/views.py:70-83 | never Http404; turned away exactly when the form does not validate, changing nothing; otherwise the post table gains exactly the form's post, by the actor under the next key with no likes (as a multiset: every old row stays), the next key advances, and nothing else changes (see Laws.NewPostIsFirstRow and Laws.PostCreateKeepsValid) |
| Views.PostEdit | yatube/posts/views.py:86-102 | Http404 exactly when no post has the key; a step that is turned away changes nothing, and only the post table can change, keeping its length (see Laws.AuthorEditChangesThatPost) |
| Views.PostDelete | yatube/posts/views.py:105-110 | Http404 exactly when no post has the key; a step that is turned away changes nothing; a delete leaves no post with that key and keeps users, groups and follows (see Laws.AuthorDeleteRemovesPost) |
| Views.AddComment | yatube/posts/views.py:113-122 | Http404 exactly when no post has the key, turned away exactly when the form does not validate, changing nothing then; only the comment table and its key counter can change (see Laws.AddCommentAddsOne) |
| Views.DeleteComment | yatube/posts/views.py:125-131 | Http404 exactly when no comment has the key; a step that is turned away changes nothing, and only the comment table can change (see Laws.DeleteCommentIffAuthor) |
| Views.GetOrCreateFollow | yatube/posts/views.py:147 | the pair is present afterwards, one row is added only when it was absent, no other pair changes, the pair stays unique |
| Views.DeleteFollowRows | yatube/posts/views.py:155-157 | the pair is absent afterwards, exactly its rows go, no other pair changes |
| Views.ToggleLike | yatube/posts/views.py:164-167 | the user's like flips; no other liker and no other field changes |
| Views.TogglePostLike | yatube/posts/views.py:162-167 | only the post with that key has its like toggled |
| Views.NewestFirstCons | yatube/posts/models.py:36-37 | a post no older than any of a newest-first table can head it |
| Views.InsertNewest | yatube/posts/models.py:36-37 | a new row joins the table (one more row, exactly the old rows and the new one) and newest-first order is kept; a post at least as new as all goes first |
| Views.InsertNewestIsPermutation | yatube/posts/models.py:36-37 | the new table is the old rows plus the new one, each row as often as before |
| Views.EditPost | yatube/posts/views.py:95-96 | only the edited post changes, and only its text and group |
| Views.CommentsWithout | yatube/posts/views.py:130 | exactly the comments with another key remain |
| Laws.SelfFollowIsIgnored | yatube/posts/views.py:146 | following yourself leaves the store unchanged |
| Laws.FollowAddsThePair | yatube/posts/views.py:146-147 | following another user makes the pair present, adds a row only when absent, changes no other pair or table |
| Laws.FollowTwiceIsFollowOnce | yatube/posts/views.py:147 | a second follow leaves the store as the first one left it |
| Laws.UnfollowRemovesThePair | yatube/posts/views.py:155-157 | unfollowing makes the pair absent, removes one row exactly when it was present, changes no other pair or table |
| Laws.UnfollowTwiceIsUnfollowOnce | yatube/posts/views.py:155-157 | a second unfollow changes nothing |
| Laws.DeleteAppendedFollow | yatube/posts/views.py:155-157 | deleting a just-appended pair gives back the rows before it |
| Laws.FollowThenUnfollowRestores | yatube/posts/tests/test_views.py:308-325 | follow then unfollow of a new pair restores the store |
| Laws.ProfileFollowKeepsValid | yatube/posts/views.py:142-148 | `profile_follow` keeps every schema invariant, the unique pair included |
| Laws.ProfileUnfollowKeepsValid | yatube/posts/views.py:151-158 | `profile_unfollow` keeps every schema invariant |
| Laws.FollowFeedScenario | yatube/posts/tests/test_views.py:327-355 | after a follow all posts of that author are in the follower's feed, while a user who follows nobody sees an empty feed |
| Laws.ToggleLikeTwice | yatube/posts/views.py:164-167 | toggling a like twice restores the post |
| Laws.TogglePostLikeKeepsTable | yatube/posts/views.py:164-167 | a like keeps the post keys and the order |
| Laws.ToggledPostFound | yatube/posts/views.py:163-167 | after a like the post is still found by its key, with the like toggled |
| Laws.ReplacePostsKeepsValid | yatube/posts/models.py:16-37 | a post table with the same keys, newest first, whose rows are valid keeps every schema invariant |
| Laws.LikeTwiceRestores | yatube/posts/views.py:161-169 | liking twice restores the whole store |
| Laws.PostLikeKeepsValid | yatube/posts/views.py:161-169 | `post_like` keeps every schema invariant |
| Laws.LikeFlipsDetail | yatube/posts/models.py:33-34 | a like flips `post_is_liked` and moves `likes_count` by one in that direction |
| Laws.LikeTouchesOnlyThatPost | yatube/posts/views.py:163-167 | a like changes only the liker set of that one post |
| Laws.DetailOfFound | yatube/posts/views.py:47-67 | the detail of a post found by its key shows that post, its like count, and liked iff the viewer is among its likers |
| Laws.InvalidFormCreatesNothing | yatube/posts/views.py:74 | a form that does not validate creates nothing |
| Laws.InsertNewestHead | yatube/posts/models.py:36-37 | a post no older than the first row goes in front |
| Laws.InsertNewestSkip | yatube/posts/models.py:36-37 | a post older than the first row goes after it |
| Laws.InsertNewestAt | yatube/posts/models.py:36-37 | the new row goes just before the first post that is not newer than it |
| Laws.ConsKeepsKeys | yatube/posts/views.py:77 | a row with a fresh key can head a table of unique keys |
| Laws.InsertNewestKeepsKeys | yatube/posts/views.py:77 | a new row with a fresh key keeps the post keys unique |
| Laws.PostCreateKeepsValid | yatube/posts/views.py:70-83 | `post_create` keeps every schema invariant |
| Laws.NewPostIsFirstRow | yatube/posts/views.py:75-77 | a new post at least as recent as all others is the table's first row |
| Laws.FirstPageStartsTheListing | yatube/posts/utils.py:7-8 | with no page given, the page starts with the listing's first row |
| Laws.NewPostHeadsListings | yatube/posts/tests/test_views.py:145-161 | a newest post heads the index, its author's profile and its group's page, and is in no other group's listing |
| Laws.PageStartsWithHead | yatube/posts/utils.py:7-8 | when the table's first post is in scope, the first page of the listing starts with it |
| Laws.FilterHead | yatube/posts/views.py:21 | a listing of a table whose first post is in scope starts with that post |
| Laws.OnlyAuthorEdits | yatube/posts/views.py:93-94 | someone who is not the author cannot change the store by editing |
| Laws.AuthorEditChangesThatPost | yatube/posts/views.py:95-96 | the author's valid edit gives that post the form's text and group, and leaves every other post |
| Laws.EditedPostFound | yatube/posts/views.py:95-96 | after an edit the post is still found by its key, with the form's text and group |
| Laws.EditPostKeepsTable | yatube/posts/views.py:95-96 | an edit keeps the post keys and the order |
| Laws.PostEditKeepsValid | yatube/posts/views.py:86-102 | `post_edit` keeps every schema invariant |
| Laws.OnlyAuthorDeletes | yatube/posts/views.py:108 | someone who is not the author cannot change the store by deleting |
| Laws.AuthorDeleteRemovesPost | yatube/posts/views.py:108-109 | the author's delete removes exactly that post and its comments, and its page is then Http404 |
| Laws.PostDeleteKeepsValid | yatube/posts/views.py:105-110 | `post_delete` keeps every schema invariant |
| Laws.AddCommentAddsOne | yatube/posts/views.py:117-121 | a valid comment adds exactly one comment, by the actor on that post, shown on the post's page |
| Laws.InvalidCommentAddsNothing | yatube/posts/views.py:117 | a comment form that does not validate adds nothing |
| Laws.AddCommentKeepsValid | yatube/posts/views.py:113-122 | `add_comment` keeps every schema invariant |
| Laws.CommentByIdFinds | yatube/posts/views.py:127 | a comment of a table with unique keys is found by its own key |
| Laws.DeleteCommentIffAuthor | yatube/posts/views.py:129-130 | the comment goes exactly when the actor is its author; then only it goes, otherwise nothing changes |
| Laws.DeleteCommentKeepsValid | yatube/posts/views.py:125-131 | `delete_comment` keeps every schema invariant |
| Site.Store.constructor | yatube/posts/models.py:7-77 | a store with its users and groups and no posts, comments or follows, satisfying the invariants |
| Site.Store.ProfileFollow | yatube/posts/views.py:142-148 | the store reaches the state `profile_follow`'s step gives, and stays valid |
| Site.Store.ProfileUnfollow | yatube/posts/views.py:151-158 | the store reaches the state `profile_unfollow`'s step gives, and stays valid |
| Site.Store.LocatePost | yatube/posts/views.py:163 | the position of the one post with that key, or none exactly when no post has it |
| Site.Store.PostLike | yatube/posts/views.py:161-169 | toggling the like in place on the one row reaches the state `post_like`'s step gives |
| Site.Store.PostCreate | yatube/posts/views.py:70-83 | inserting the row before the first post not newer than it reaches the state `post_create`'s step gives |
| Site.Store.PostEdit | yatube/posts/views.py:86-102 | rewriting the one row in place reaches the state `post_edit`'s step gives |
| Site.Store.PostDelete | yatube/posts/views.py:105-110 | the store reaches the state `post_delete`'s step gives, CASCADE included |
| Site.Store.AddComment | yatube/posts/views.py:113-122 | the store reaches the state `add_comment`'s step gives |
| Site.Store.DeleteComment | yatube/posts/views.py:125-131 | the store reaches the state `delete_comment`'s step gives |
| Site.Store.DeleteUser | yatube/posts/models.py:19-21 | the store reaches the state the user-delete rules give, and stays valid |
| Site.Store.DeleteGroup | yatube/posts/models.py:22-28 | the store reaches the state SET_NULL gives, and stays valid |

## Left out

- The `cache_page(5, ...)` cache on the index is left out. It is a wall-clock cache over rendered HTML, kept by middleware that is not part of this model. The model's index is always fresh; the real index can be up to 5 seconds stale until the cache is cleared.
- Templates, `render`, the redirect targets and HTTP status codes are presentation. Only Http404 appears, as the `ObjectNotFound` outcome.
- `login_required` and its `?next=` redirect are left out. Every write is made by a logged-in actor who is a user of the store. The read views take an optional viewer, where None stands for an anonymous visitor.
- `PostForm` and `CommentForm` are not part of this model, and neither is text validation. A form is an `Option` input, where None means a GET or a form that fails. The one form rule the model keeps is that a chosen group must exist.
- Image upload and storage are file I/O and are left out.
- The ORM is replaced by sequences. Each view is one atomic step, so the concurrency behind `get_or_create` is not modelled.
- `auto_now_add` timestamps are given as natural-number parameters (`now`).
- `settings.py` is not part of this model. `PAGE_NUMBER_CONST` is taken as 10. That is a choice, which the test name `test_first_page_10` suggests. The pagination tests compare against the setting itself with 12 posts, so they hold for any page size from 7 to 11, where page 2 holds 12 minus the page size, which is 12 % size.
- `LikesCount`, `GroupStr` and `CommentStr` carry no contract of their own. `GroupStr` and `CommentStr` are stated by `Models.StringForms`. The detail page's like count is stated by `Laws.DetailOfFound` and `Laws.LikeFlipsDetail`.
- Views.InsertNewest: places a new post before existing posts with the same `pub_date`, whereas the database leaves the order among equal `pub_date` values undefined.
- Pagination.ParsePyInt: accepts only ASCII digits, while Python `int()` also accepts other Unicode decimal digits; the page parameter of the app's own links is always ASCII.
- Pagination.ParsePyInt: has no limit on the number of digits. Python 3.11 and later, and the security releases of September 2022, raise ValueError for `int()` of more than 4300 digits. There Django serves page 1 for such a `?page=`, while the model reads the number and serves the last page.
- The user model's fields other than the key and `username` (password, e-mail, names, flags), and the models of the `users` and `about` apps, are left out. The migrations are left out too, except for the constraint they repeat.
- The source differs from a plain reading of its purpose in two places:
  - `profile`'s `following` flag is also true for a user viewing their own profile if such a Follow row existed. Such a row cannot be created through `profile_follow`.
  - `delete_comment` compares usernames, not users. With unique usernames the two agree (`Laws.DeleteCommentIffAuthor`).

## Findings

| source | as written | input that shows it | evidently intended | confidence | as-written member | corrected member |
|---|---|---|---|---|---|---|
| yatube/posts/models.py:76-77 | `Follow.__str__` returns `self.author`, a User object | `str(follow)` for any Follow row: Python's `str()` raises TypeError because `__str__` returned a non-string | return the author's username as text | not executed | Models.FollowStrAsWrittenRaises | Models.FollowStrIsAuthorName |
