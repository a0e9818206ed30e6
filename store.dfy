/** The database seen by the services: five tables, and one method per
    service operation that changes a table. A new row takes the id the
    engine hands out (`RowIds.NextRowId`). Each call is one atomic step.
    A call either commits, or raises an error and leaves every table as it
    was, with one exception: `UpdateComment` commits the new content before
    it looks up the author, so its "Author Not Found" error leaves the
    change in place. */
module Database {
  import opened Schema
  import opened Keys
  import Accounts
  import Likes
  import Follows
  import CommentQueries
  import opened RowIds

  /** The contents of all five tables. */
  datatype Tables = Tables(
    users: map<string, User>,
    feeds: map<int, Feed>,
    comments: map<int, Comment>,
    likes: map<int, Like>,
    follows: set<Follow>)

  const AuthorNotFound := HttpError(NotFound, "Author Not Found")
  const FeedNotFound := HttpError(NotFound, "Feed Not Found")
  const CommentNotFound := HttpError(NotFound, "Comment Not Found")
  const PermissionDenied := HttpError(Forbidden, "Permission Denied")
  const LikeTargetRequired := HttpError(BadRequest, "Either feed_id or comment_id must be provided.")
  const CannotFollowSelf := HttpError(BadRequest, "You cannot follow yourself")
  const UserNotFound := HttpError(NotFound, "User not found")
  const EmailTaken := ValueError("Email already registered")

  /** Every id the engine has handed out is at least 1. */
  predicate Positive(ids: set<int>) {
    forall id :: id in ids ==> 1 <= id
  }

  /** Users sit under their e-mail, and their ids are distinct and
      positive. */
  ghost predicate UsersWellFormed(users: map<string, User>) {
    && UsersKeyed(users)
    && Positive(UserIds(users))
    && (forall a, b :: a in users && b in users && users[a].id == users[b].id ==> a == b)
  }

  /** Follow edges join two different registered users. */
  ghost predicate FollowsWellFormed(follows: set<Follow>, users: map<string, User>) {
    && Follows.NoSelfFollow(follows)
    && (forall f :: f in follows ==> f.followerId in UserIds(users) && f.followingId in UserIds(users))
  }

  /** Registering a new e-mail under the next user id keeps the user
      invariant, and every follow edge still joins registered users. */
  lemma AddUserKeepsWellFormed(users: map<string, User>, follows: set<Follow>, u: User)
    requires UsersWellFormed(users) && FollowsWellFormed(follows, users)
    requires u.email !in users && u.id == NextRowId(UserIds(users))
    ensures UsersWellFormed(users[u.email := u])
    ensures FollowsWellFormed(follows, users[u.email := u])
  {
    var users' := users[u.email := u];
    forall e | e in users
      ensures users[e].id != u.id
    {
    }
    forall e | e in users
      ensures users[e].id in UserIds(users')
    {
      assert users'[e] == users[e];
    }
  }

  class Store {
    var users: map<string, User>
    var feeds: map<int, Feed>
    var comments: map<int, Comment>
    var likes: map<int, Like>
    var follows: set<Follow>

    ghost function Contents(): Tables
      reads this
    {
      Tables(users, feeds, comments, likes, follows)
    }

    /** Keys match row ids, ids are positive, user ids are distinct,
        likes are well formed, and follow edges join two different
        registered users. */
    ghost predicate Valid()
      reads this
    {
      && UsersWellFormed(users)
      && FeedsKeyed(feeds) && Positive(feeds.Keys)
      && CommentsKeyed(comments) && Positive(comments.Keys)
      && Likes.WellFormed(likes) && Positive(likes.Keys)
      && FollowsWellFormed(follows, users)
    }

    constructor ()
      ensures Valid()
      ensures Contents() == Tables(map[], map[], map[], map[], {})
    {
      users, feeds, comments, likes, follows := map[], map[], map[], map[], {};
    }

    /** `create_user`: refuse a registered e-mail; otherwise store the user
        with the hash of the password. The e-mail format is not checked
        here. */
    method CreateUser(email: string, password: string, nickname: string, crypt: Accounts.Crypt)
      returns (r: Result<User>)
      requires Valid()
      modifies this
      ensures Valid()
      ensures email in old(users) ==> r == Err(EmailTaken) && Contents() == old(Contents())
      ensures email !in old(users) ==>
        && r == Ok(Accounts.NewUser(NextRowId(UserIds(old(users))), email, password, nickname, crypt))
        && Contents() == old(Contents()).(users := old(users)[email := r.value])
      ensures r.Ok? && Accounts.Sound(crypt) ==>
        Accounts.AuthenticateUser(users, email, password, crypt) == Some(r.value)
    {
      var existing := Accounts.GetUserByEmail(users, email);
      if existing.Some? {
        r := Err(EmailTaken);
        return;
      }
      var id := NextRowId(UserIds(users));
      var user := Accounts.NewUser(id, email, password, nickname, crypt);
      if Accounts.Sound(crypt) {
        Accounts.SignupThenLogin(users, id, email, password, nickname, crypt);
      }
      AddUserKeepsWellFormed(users, follows, user);
      users := users[email := user];
      r := Ok(user);
    }

    /** `create_feed`: store a feed written by the caller, and return it
        with the author's nickname. The author must be registered (the
        source reads the nickname without a null check). */
    method CreateFeed(payload: FeedCreate, authorEmail: string) returns (r: FeedResponse)
      requires Valid() && authorEmail in users
      modifies this
      ensures Valid()
      ensures r.feed == Feed(NextRowId(old(feeds).Keys), payload.title, payload.content, authorEmail)
      ensures r.feed.id !in old(feeds) && forall id :: id in old(feeds) ==> id < r.feed.id
      ensures r.authorNickname == old(users)[authorEmail].nickname
      ensures Contents() == old(Contents()).(feeds := old(feeds)[r.feed.id := r.feed])
    {
      var feed := Feed(NextRowId(feeds.Keys), payload.title, payload.content, authorEmail);
      var author := users[authorEmail];
      feeds := feeds[feed.id := feed];
      r := FeedResponse(feed, author.nickname);
    }

    /** `update_feed`: 404 for a missing feed, 403 for a caller who is not
        its author; otherwise title and content are replaced by the
        supplied values, unconditionally. */
    method UpdateFeed(feedId: int, update: FeedUpdate, email: string) returns (r: Result<FeedResponse>)
      requires Valid()
      requires feedId in feeds && feeds[feedId].authorEmail == email ==> email in users
      modifies this
      ensures Valid()
      ensures feedId !in old(feeds) ==> r == Err(FeedNotFound) && Contents() == old(Contents())
      ensures feedId in old(feeds) && old(feeds)[feedId].authorEmail != email ==>
        r == Err(PermissionDenied) && Contents() == old(Contents())
      ensures feedId in old(feeds) && old(feeds)[feedId].authorEmail == email ==>
        && Contents() == old(Contents()).(feeds := old(feeds)[feedId := Feed(feedId, update.title, update.content, email)])
        && r == Ok(FeedResponse(feeds[feedId], users[email].nickname))
    {
      if feedId !in feeds {
        r := Err(FeedNotFound);
        return;
      }
      var feed := feeds[feedId];
      if feed.authorEmail != email {
        r := Err(PermissionDenied);
        return;
      }
      var author := users[email];
      feed := feed.(title := update.title, content := update.content);
      feeds := feeds[feedId := feed];
      r := Ok(FeedResponse(feed, author.nickname));
    }

    /** `delete_feed`: the same two checks, then exactly that feed goes.
        Comments and likes on it are left in place. */
    method DeleteFeed(feedId: int, email: string) returns (r: Result<()>)
      requires Valid()
      modifies this
      ensures Valid()
      ensures feedId !in old(feeds) ==> r == Err(FeedNotFound) && Contents() == old(Contents())
      ensures feedId in old(feeds) && old(feeds)[feedId].authorEmail != email ==>
        r == Err(PermissionDenied) && Contents() == old(Contents())
      ensures feedId in old(feeds) && old(feeds)[feedId].authorEmail == email ==>
        r == Ok(()) && Contents() == old(Contents()).(feeds := old(feeds) - {feedId})
    {
      if feedId !in feeds {
        r := Err(FeedNotFound);
        return;
      }
      if feeds[feedId].authorEmail != email {
        r := Err(PermissionDenied);
        return;
      }
      feeds := feeds - {feedId};
      r := Ok(());
    }

    /** `create_comment`: the author is looked up first, then the feed;
        the stored comment's author is always the caller, never a value
        from the payload. */
    method CreateComment(payload: CommentCreate, authorEmail: string) returns (r: Result<CommentResponse>)
      requires Valid()
      modifies this
      ensures Valid()
      ensures authorEmail !in old(users) ==> r == Err(AuthorNotFound) && Contents() == old(Contents())
      ensures authorEmail in old(users) && payload.feedId !in old(feeds) ==>
        r == Err(FeedNotFound) && Contents() == old(Contents())
      ensures authorEmail in old(users) && payload.feedId in old(feeds) ==>
        var c := Comment(NextRowId(old(comments).Keys), payload.content, authorEmail, payload.feedId);
        && c.id !in old(comments) && (forall id :: id in old(comments) ==> id < c.id)
        && Contents() == old(Contents()).(comments := old(comments)[c.id := c])
        && r == Ok(CommentQueries.Respond(c, users[authorEmail].nickname))
    {
      if authorEmail !in users {
        r := Err(AuthorNotFound);
        return;
      }
      var nickname := users[authorEmail].nickname;
      if payload.feedId !in feeds {
        r := Err(FeedNotFound);
        return;
      }
      var c := Comment(NextRowId(comments.Keys), payload.content, authorEmail, payload.feedId);
      comments := comments[c.id := c];
      r := Ok(CommentQueries.Respond(c, nickname));
    }

    /** `update_comment`: 404 for a missing comment, 403 for a caller who
        is not its author. Otherwise the content becomes `new or old` and
        is committed; only then is the author looked up, so an unknown
        author yields 404 with the change already made. */
    method UpdateComment(commentId: int, update: CommentUpdate, email: string) returns (r: Result<CommentResponse>)
      requires Valid()
      modifies this
      ensures Valid()
      ensures commentId !in old(comments) ==> r == Err(CommentNotFound) && Contents() == old(Contents())
      ensures commentId in old(comments) && old(comments)[commentId].authorEmail != email ==>
        r == Err(PermissionDenied) && Contents() == old(Contents())
      ensures commentId in old(comments) && old(comments)[commentId].authorEmail == email ==>
        var c := old(comments)[commentId];
        var c' := Comment(c.id, CommentQueries.ContentOr(update.content, c.content), c.authorEmail, c.feedId);
        && Contents() == old(Contents()).(comments := old(comments)[commentId := c'])
        && r == if email in users then Ok(CommentQueries.Respond(c', users[email].nickname)) else Err(AuthorNotFound)
    {
      if commentId !in comments {
        r := Err(CommentNotFound);
        return;
      }
      var c := comments[commentId];
      if c.authorEmail != email {
        r := Err(PermissionDenied);
        return;
      }
      c := c.(content := CommentQueries.ContentOr(update.content, c.content));
      comments := comments[commentId := c];
      if email !in users {
        r := Err(AuthorNotFound);
        return;
      }
      r := Ok(CommentQueries.Respond(c, users[email].nickname));
    }

    /** `delete_comment`: the same two checks, then exactly that comment
        goes. */
    method DeleteComment(commentId: int, email: string) returns (r: Result<()>)
      requires Valid()
      modifies this
      ensures Valid()
      ensures commentId !in old(comments) ==> r == Err(CommentNotFound) && Contents() == old(Contents())
      ensures commentId in old(comments) && old(comments)[commentId].authorEmail != email ==>
        r == Err(PermissionDenied) && Contents() == old(Contents())
      ensures commentId in old(comments) && old(comments)[commentId].authorEmail == email ==>
        r == Ok(()) && Contents() == old(Contents()).(comments := old(comments) - {commentId})
    {
      if commentId !in comments {
        r := Err(CommentNotFound);
        return;
      }
      if comments[commentId].authorEmail != email {
        r := Err(PermissionDenied);
        return;
      }
      comments := comments - {commentId};
      r := Ok(());
    }

    /** `toggle_like`: 400 unless exactly one target is named; otherwise
        the row with key (user, feed id, comment id) is deleted if there is
        one, and a new row with that key is inserted if there is not. */
    method ToggleLike(userEmail: string, feedId: Option<int>, commentId: Option<int>) returns (r: Result<()>)
      requires Valid()
      modifies this
      ensures Valid()
      ensures !Likes.ExactlyOneTarget(feedId, commentId) ==>
        r == Err(LikeTargetRequired) && Contents() == old(Contents())
      ensures Likes.ExactlyOneTarget(feedId, commentId) ==>
        && r == Ok(())
        && Contents() == old(Contents()).(
             likes := Likes.Toggled(old(likes), Likes.LikeKey(userEmail, feedId, commentId), NextRowId(old(likes).Keys)))
    {
      if (feedId.None? && commentId.None?) || (feedId.Some? && commentId.Some?) {
        r := Err(LikeTargetRequired);
        return;
      }
      var key := Likes.LikeKey(userEmail, feedId, commentId);
      var freshId := NextRowId(likes.Keys);
      Likes.ToggleKeepsWellFormed(likes, key, freshId);
      if exists id :: id in likes && Likes.KeyOf(likes[id]) == key {
        var existing :| existing in likes && Likes.KeyOf(likes[existing]) == key;
        Likes.ToggleRemovesFoundRow(likes, key, existing, freshId);
        likes := likes - {existing};
      } else {
        assert key !in Likes.KeySet(likes);
        likes := likes[freshId := Like(freshId, userEmail, feedId, commentId)];
      }
      r := Ok(());
    }

    /** `toggle_follow`: 400 for following oneself (checked first), 404
        when the target is not a user; otherwise the edge is removed
        ("unfollowed") or added ("followed"). The caller's own id comes
        from the router, which has already resolved it to a user. */
    method ToggleFollow(followerId: int, followingId: int) returns (r: Result<string>)
      requires Valid() && followerId in UserIds(users)
      modifies this
      ensures Valid()
      ensures followerId == followingId ==> r == Err(CannotFollowSelf) && Contents() == old(Contents())
      ensures followerId != followingId && followingId !in UserIds(old(users)) ==>
        r == Err(UserNotFound) && Contents() == old(Contents())
      ensures followerId != followingId && followingId in UserIds(old(users)) ==>
        var edge := Follow(followerId, followingId);
        && r == Ok(Follows.ActionOf(old(follows), edge))
        && Contents() == old(Contents()).(follows := Follows.Toggled(old(follows), edge))
    {
      if followerId == followingId {
        r := Err(CannotFollowSelf);
        return;
      }
      if followingId !in UserIds(users) {
        r := Err(UserNotFound);
        return;
      }
      var edge := Follow(followerId, followingId);
      var action;
      if edge in follows {
        follows := follows - {edge};
        action := "unfollowed";
      } else {
        follows := follows + {edge};
        action := "followed";
      }
      r := Ok(action);
    }
  }
}
