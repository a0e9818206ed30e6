/** Rows of the five tables, the request payloads, and the error values the
    services raise. One consistent abstract schema: every user has a numeric
    id beside its e-mail key, and a like names its target by two optional
    ids. */
module Schema {

  datatype Option<+T> = None | Some(value: T)

  /** An exception the service raises: an HTTPException with its status and
      detail, or the ValueError that signup raises. */
  datatype Error =
    | HttpError(status: int, detail: string)
    | ValueError(message: string)

  datatype Result<+T> = Ok(value: T) | Err(error: Error)

  /** The users table; `email` is the primary key. */
  datatype User = User(id: int, email: string, password: string, nickname: string)

  /** The feeds table. */
  datatype Feed = Feed(id: int, title: string, content: string, authorEmail: string)

  /** The comments table. */
  datatype Comment = Comment(id: int, content: string, authorEmail: string, feedId: int)

  /** The likes table: exactly one of `feedId` and `commentId` is present. */
  datatype Like = Like(id: int, userEmail: string, feedId: Option<int>, commentId: Option<int>)

  /** The follows table; the pair is the primary key. */
  datatype Follow = Follow(followerId: int, followingId: int)

  /** Request bodies. */
  datatype FeedCreate = FeedCreate(title: string, content: string)
  datatype FeedUpdate = FeedUpdate(title: string, content: string)
  datatype CommentCreate = CommentCreate(content: string, feedId: int)
  /** `content` is optional: None models a missing field. */
  datatype CommentUpdate = CommentUpdate(content: Option<string>)

  /** A stored feed together with the nickname the service attaches to it. */
  datatype FeedResponse = FeedResponse(feed: Feed, authorNickname: string)

  /** The dictionary the comment service returns for one comment. */
  datatype CommentResponse = CommentResponse(
    id: int, content: string, authorEmail: string, authorNickname: string, feedId: int)

  const NotFound := 404
  const Forbidden := 403
  const BadRequest := 400
}

/** Consistency of a table with its primary key. */
module Keys {
  import opened Schema

  predicate UsersKeyed(users: map<string, User>) {
    forall e :: e in users ==> users[e].email == e
  }

  predicate FeedsKeyed(feeds: map<int, Feed>) {
    forall id :: id in feeds ==> feeds[id].id == id
  }

  predicate CommentsKeyed(comments: map<int, Comment>) {
    forall id :: id in comments ==> comments[id].id == id
  }

  predicate LikesKeyed(likes: map<int, Like>) {
    forall id :: id in likes ==> likes[id].id == id
  }

  /** The ids of the registered users. */
  function UserIds(users: map<string, User>): (ids: set<int>)
    ensures forall e :: e in users ==> users[e].id in ids
    ensures forall id :: id in ids ==> exists e :: e in users && users[e].id == id
  {
    set e | e in users :: users[e].id
  }
}
