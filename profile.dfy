/** The "my page" queries: a user's profile, the feeds and comments they
    wrote (newest id first), and who follows them and whom they follow. All
    of them only read the tables. */
module Profile {
  import opened Schema
  import opened Keys
  import opened Ordering

  /** `get_user_profile`: the user with that e-mail, or 404. */
  function UserProfile(users: map<string, User>, email: string): (r: Result<User>)
    requires UsersKeyed(users)
    ensures r.Ok? <==> email in users
    ensures r.Ok? ==> r.value in users.Values && r.value.email == email
    ensures r.Err? ==> r.error == HttpError(NotFound, "User profile not found.")
  {
    if email in users then Ok(users[email]) else Err(HttpError(NotFound, "User profile not found."))
  }

  /** `get_user_feeds`: the feeds joined to the user with that e-mail,
      ordered by id, largest first. No such user: no rows. */
  ghost function UserFeeds(users: map<string, User>, feeds: map<int, Feed>, email: string): (r: seq<Feed>)
    requires FeedsKeyed(feeds)
    ensures forall i, j :: 0 <= i < j < |r| ==> r[i].id > r[j].id
    ensures forall f :: f in r <==>
      email in users && f.authorEmail == email && f.id in feeds && feeds[f.id] == f
  {
    if email !in users then []
    else
      var sel := set id | id in feeds && feeds[id].authorEmail == email;
      var ids := Descending(sel);
      FeedRowsInOrder(feeds, sel, ids);
      Rows(ids, feeds)
  }

  lemma FeedRowsInOrder(feeds: map<int, Feed>, sel: set<int>, ids: seq<int>)
    requires FeedsKeyed(feeds) && sel <= feeds.Keys
    requires Decreasing(ids) && forall x :: x in ids <==> x in sel
    ensures forall i :: 0 <= i < |ids| ==> ids[i] in feeds
    ensures var r := Rows(ids, feeds);
      (forall i, j :: 0 <= i < j < |r| ==> r[i].id > r[j].id) &&
      (forall f :: f in r <==> f.id in sel && feeds[f.id] == f)
  {
    forall i | 0 <= i < |ids|
      ensures ids[i] in sel
    {
      assert ids[i] in ids;
    }
    var r := Rows(ids, feeds);
    assert forall i :: 0 <= i < |r| ==> r[i].id == ids[i];
    forall f: Feed | f.id in sel && feeds[f.id] == f
      ensures f in r
    {
      var i :| 0 <= i < |ids| && ids[i] == f.id;
      assert r[i] == f;
    }
  }

  /** `get_user_comments`: the comments whose author_email is the e-mail of
      an existing user, ordered by id, largest first. */
  ghost function UserComments(users: map<string, User>, comments: map<int, Comment>, email: string): (r: seq<Comment>)
    requires CommentsKeyed(comments)
    ensures forall i, j :: 0 <= i < j < |r| ==> r[i].id > r[j].id
    ensures forall c :: c in r <==>
      email in users && c.authorEmail == email && c.id in comments && comments[c.id] == c
  {
    if email !in users then []
    else
      var sel := set id | id in comments && comments[id].authorEmail == email;
      var ids := Descending(sel);
      CommentRowsInOrder(comments, sel, ids);
      Rows(ids, comments)
  }

  lemma CommentRowsInOrder(comments: map<int, Comment>, sel: set<int>, ids: seq<int>)
    requires CommentsKeyed(comments) && sel <= comments.Keys
    requires Decreasing(ids) && forall x :: x in ids <==> x in sel
    ensures forall i :: 0 <= i < |ids| ==> ids[i] in comments
    ensures var r := Rows(ids, comments);
      (forall i, j :: 0 <= i < j < |r| ==> r[i].id > r[j].id) &&
      (forall c :: c in r <==> c.id in sel && comments[c.id] == c)
  {
    forall i | 0 <= i < |ids|
      ensures ids[i] in sel
    {
      assert ids[i] in ids;
    }
    var r := Rows(ids, comments);
    assert forall i :: 0 <= i < |r| ==> r[i].id == ids[i];
    forall c: Comment | c.id in sel && comments[c.id] == c
      ensures c in r
    {
      var i :| 0 <= i < |ids| && ids[i] == c.id;
      assert r[i] == c;
    }
  }

  /** `get_user_followers`: the e-mails of the users with a follow edge
      into `userId`. */
  function Followers(users: map<string, User>, follows: set<Follow>, userId: int): (r: set<string>)
    requires UsersKeyed(users)
    ensures r <= users.Keys
    ensures forall u :: u in users.Values ==> (u.email in r <==> Follow(u.id, userId) in follows)
  {
    set e | e in users && Follow(users[e].id, userId) in follows
  }

  /** `get_user_followings`: the e-mails of the users that `userId` has a
      follow edge to. */
  function Followings(users: map<string, User>, follows: set<Follow>, userId: int): (r: set<string>)
    requires UsersKeyed(users)
    ensures r <= users.Keys
    ensures forall u :: u in users.Values ==> (u.email in r <==> Follow(userId, u.id) in follows)
  {
    set e | e in users && Follow(userId, users[e].id) in follows
  }

  /** A is among B's followers exactly when B is among A's followings. */
  lemma FollowDuality(users: map<string, User>, follows: set<Follow>, a: string, b: string)
    requires UsersKeyed(users) && a in users && b in users
    ensures a in Followers(users, follows, users[b].id) <==> b in Followings(users, follows, users[a].id)
  {
    assert users[a] in users.Values && users[b] in users.Values;
  }
}
