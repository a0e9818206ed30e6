# Social-feed backend services, modelled in Dafny

This project models the service layer of a FastAPI/SQLAlchemy social-feed
backend. The database is a set of in-memory tables: users, feeds, comments,
likes and follows. Each service function that writes to a table is a method
of the `Database.Store` class. It either commits, or it raises the error the
code raises and leaves every table as it was. The one exception is
`update_comment`: it commits the new content and only then looks up the
author, so its 404 "Author Not Found" leaves the change in place. The
read-only queries are pure functions over the tables. The model also covers the pagination arithmetic
of the "my page" endpoints and the login e-mail validator.

Files, one module each (`schema.dfy` holds two):

- `schema.dfy`: `Schema` (rows, payloads, `Error`/`Result`) and `Keys`
  (each table's consistency with its primary key).
- `store.dfy`: `Database`. The `Store` class and its invariant `Valid()`.
  One method per mutating service function: signup, feed
  create/update/delete, comment create/update/delete, like toggle and
  follow toggle.
- `accounts.dfy`: `Accounts`. Look-up by e-mail, password check,
  access-token claims. bcrypt and JWT stay opaque.
- `likes.dfy` and `follows.dfy`: `Likes` and `Follows`. What one toggle does
  to the relation, with the lemmas about it.
- `comment_queries.dfy` and `feed_queries.dfy`: listing comments by feed,
  listing all feeds, and the `content or old_content` update rule.
- `profile.dfy`: `Profile`. The "my page" queries.
- `ordering.dfy`: `Ordering`. The largest and smallest element of a set of
  ids, and id lists sorted largest-first or smallest-first (used by the
  queries).
- `row_ids.dfy`: `RowIds`. The id a new row receives.
- `pagination.dfy`: `Pagination`. `current_page`, `total_pages` and
  `is_last_page`, with Python's floor division written out.
- `email_format.dfy`: `EmailFormat`. The pattern `[^@]+@[^@]+\.[^@]+` under
  `re.match`. A direct test is proved equal to the regex's meaning, stated
  as an existential over split points.

Points where the code's behaviour is easy to mistake:

- `authenticate_user` returns `False` and raises nothing when the e-mail is
  unknown or the password is wrong.
- `create_feed` reads the author's nickname with no null check, so the
  author's existence is a precondition of `CreateFeed`.
- The like toggle reports no action. The follow toggle reports "followed"
  or "unfollowed".
- `author_nickname` is not a column of the feeds table. The feed service
  sets it on the object it returns, so the model returns it beside the row
  in `FeedResponse`.
- The only engine configured is SQLite (config/db.py:6), and the integer
  primary keys of feeds, comments and likes are declared without
  AUTOINCREMENT. A new row therefore gets one more than the largest id in
  its table; the engine keeps no counter. After the newest feed is
  deleted, its id can go to the next feed created. That feed then inherits
  the deleted feed's comments and likes, because deleting a feed leaves
  them in their tables. `RowIds.DeleteNewestReusesId` says exactly when the
  id comes back.

## Model

| member | source | states |
|---|---|---|
| `Database.Store.CreateUser` | services/auth_service.py:30-41 | A registered e-mail gives ValueError "Email already registered" and changes no table. Otherwise exactly one user is added under that e-mail, holding the hash of the password and the given nickname. With a sound hash/verify pair, that user then authenticates with the same password. Nothing else changes. |
| `Database.Store.CreateFeed` | services/feed_service.py:7-20 | Exactly one feed is added, under one more than the largest feed id. Its author is the caller, and its title and content come from the payload. The response carries the author's nickname. No other table changes. The author must exist (the code has no null check). |
| `Database.Store.UpdateFeed` | services/feed_service.py:23-42 | 404 "Feed Not Found" for a missing feed and 403 "Permission Denied" for a caller who is not the author; both leave every table unchanged. Otherwise title and content are replaced unconditionally, while id and author stay. |
| `Database.Store.DeleteFeed` | services/feed_service.py:49-59 | The same 404/403 checks, with no change on failure. On success exactly that feed is removed and no other row of any table. |
| `Database.Store.CreateComment` | services/comment_service.py:12-41 | The author check comes first (404 "Author Not Found"), then the feed check (404 "Feed Not Found"); neither adds a comment. On success exactly one comment is added, under one more than the largest comment id. Its author is the caller, never the payload. The response has the author's nickname. |
| `Database.Store.UpdateComment` | services/comment_service.py:68-99 | 404 "Comment Not Found" or 403 "Permission Denied" with nothing changed. Otherwise only the content changes, to `new or old`; id, author and feed stay. The change stays in place even when the later author look-up fails with 404 "Author Not Found". |
| `Database.Store.DeleteComment` | services/comment_service.py:102-117 | The same 404/403 checks, with no change on failure. On success exactly the named comment is removed and every other row is untouched. |
| `Database.Store.ToggleLike` | services/like_service.py:10-35 | With neither or both targets: 400 and no change. Otherwise the likes table becomes `Likes.Toggled` of the old one under the (user, feed, comment) key; a new row takes one more than the largest like id. The invariants (one target per row, at most one row per key) are kept. |
| `Database.Store.ToggleFollow` | services/follow_service.py:8-31 | Following oneself gives 400 whatever the state. An unknown target gives 404. Neither changes anything. Otherwise the edge is toggled and the action is "unfollowed" exactly when it was present. No self-edge is ever stored, and edges join registered users. |
| `Database.AddUserKeepsWellFormed` | services/auth_service.py:35-38 | Adding a user under a new e-mail with the next user id keeps the user ids distinct and positive. It also keeps every follow edge between registered users. |
| `Accounts.GetUserByEmail` | services/auth_service.py:44-45 | Returns a user exactly when the e-mail is registered. That user is a row of the table with that e-mail. |
| `Accounts.AuthenticateUser` | services/auth_service.py:48-54 | Succeeds exactly when the e-mail is registered and the password verifies against the stored hash, and then returns that user. Both failures give the same value. |
| `Accounts.SignupThenLogin` | services/auth_service.py:30-54 | Round trip: a user stored under a fresh e-mail with `hash(p)` authenticates with `p`, given only `verify(p, hash(p))`. Log-in for every other registered e-mail is unaffected. |
| `Accounts.AccessTokenClaims` | services/auth_service.py:21-24 | The claims are the caller's claims with "exp" set to now plus one day (86400 s). No other key is added or altered, and the caller's own map is a value that stays as it was. |
| `Accounts.CreateAccessToken` | services/auth_service.py:21-27 | The token is the opaque encoding, under the fixed secret and HS256, of claims that agree with the input everywhere except "exp". "exp" is one day after now. |
| `Accounts.LoginTokenClaims` | routers/auth_router.py:30 | The login token's claims are exactly the subject e-mail and the one-day expiry. |
| `Likes.ToggleRemovesFoundRow` | services/like_service.py:20-30 | When the look-up finds a row with the key, deleting that one row is the whole toggle. Under the invariants no other row has that key. |
| `Likes.ToggleFlipsKey` | services/like_service.py:28-33 | After a toggle the key is present exactly when it was absent before. When it was absent, exactly one row with that key is added. |
| `Likes.ToggleKeepsOtherRows` | services/like_service.py:20-33 | Rows with any other key are unchanged, and no row with another key appears. |
| `Likes.ToggleKeepsWellFormed` | services/like_service.py:14-33 | With exactly one target and a fresh id, the toggle keeps "each row has exactly one target" and "each key has at most one row". `scalar_one_or_none` relies on the second. |
| `Likes.ToggleTwiceRestores` | services/like_service.py:28-33 | Two toggles of one key restore the set of keys, whatever ids the inserts take. They restore the table itself when the key was absent. |
| `Likes.ToggleTwiceRestoresIff` | services/like_service.py:28-33 | When the key was present and each insert takes the engine's next id, two toggles restore the table exactly when the re-inserted row gets the id of the row the first toggle deleted. |
| `Likes.ToggleTwiceRestoresNewest` | models/like.py:15 | In terms of ids alone, both directions: two toggles of a present key restore the table exactly when the deleted row was the newest and either the id just below it is taken or it was the only row, with id 1. |
| `RowIds.NextRowId` | models/feed.py:9 | A new row's id is above every id in the table, and one below it is taken, unless the table is empty, when it is 1. With no negative ids, it is at least 1. |
| `RowIds.DeleteOlderKeepsNext` | models/comment.py:11 | Deleting any row but the newest leaves the next id unchanged. |
| `RowIds.DeleteNewestReusesId` | models/feed.py:9 | Deleting the newest row never raises the next id. The deleted id is handed out again exactly when the id below it is taken, or when it was 1 and the only one. |
| `Follows.ToggleFlipsEdge` | services/follow_service.py:17-28 | A toggle flips the edge's presence, in agreement with the reported action, and leaves every other pair as it was. |
| `Follows.ToggleTwiceRestores` | services/follow_service.py:17-30 | Two toggles of the same pair restore the follows table exactly. |
| `Follows.ToggleKeepsNoSelfFollow` | services/follow_service.py:9-28 | Toggling a pair of two different users keeps the table free of self-follows. |
| `CommentQueries.ContentOr` | services/comment_service.py:80 | Python's `or` on strings: a non-empty new content wins, and a missing or empty one keeps the old content. The result is empty only if the old content was. |
| `CommentQueries.ContentOrIdempotent` | services/comment_service.py:80 | Applying the same update twice gives what one application gives. An update never empties a non-empty comment. |
| `CommentQueries.CommentsByFeed` | services/comment_service.py:44-65 | Every comment of the feed appears. Each response belongs to a comment of that feed and carries that comment's own author's nickname. Ids strictly increase, so each comment appears once. |
| `CommentQueries.CreatedCommentIsListed` | services/comment_service.py:12-65 | A comment just created appears in its feed's listing with the same response that creation returned. |
| `CommentQueries.DeletedCommentNotListed` | services/comment_service.py:44-117 | After a delete, the comment is absent from the listing, and every other comment of the feed is still listed. |
| `FeedQueries.AllFeeds` | services/feed_service.py:45-46 | Every feed of the table appears, each exactly once, and nothing else. |
| `Profile.UserProfile` | services/mypage_service.py:13-22 | 404 "User profile not found." exactly when no user has the e-mail; otherwise that user. |
| `Profile.UserFeeds` | services/mypage_service.py:25-36 | Exactly the feeds written by the registered user with that e-mail, in strictly descending id order. |
| `Profile.UserComments` | services/mypage_service.py:39-50 | Exactly the comments whose author e-mail is that of a registered user, in strictly descending id order. |
| `Profile.Followers` | services/mypage_service.py:53-63 | Only registered e-mails. A user is listed exactly when there is an edge from that user's id to the given id. |
| `Profile.Followings` | services/mypage_service.py:66-76 | Only registered e-mails. A user is listed exactly when there is an edge from the given id to that user's id. |
| `Profile.FollowDuality` | services/mypage_service.py:53-76 | A is among B's followers exactly when B is among A's followings. |
| `Pagination.FloorDiv` | routers/mypage_router.py:36-37 | Python's `//` is the floor of the quotient for either sign of divisor, unlike Dafny's Euclidean `/`. |
| `Pagination.Paginate` | routers/mypage_router.py:36-46 | The three formulas, shared by all four list endpoints (also at lines 63-65, 87-89, 111-113). `total_count` is echoed unchanged. |
| `Pagination.CurrentPageHoldsSkip` | routers/mypage_router.py:36 | For skip >= 0 and limit > 0, current_page >= 1 and it is the 1-based page whose window holds `skip`. |
| `Pagination.TotalPagesIsCeiling` | routers/mypage_router.py:37 | total_pages is the ceiling of total_count / limit. The pages cover every item, the last page is non-empty, and zero items give zero pages. |
| `Pagination.AlignedLastPage` | routers/mypage_router.py:36-38 | On a window starting at a multiple of limit, is_last_page holds exactly when current_page >= total_pages. |
| `Pagination.FinalWindowIsLastPage` | routers/mypage_router.py:36-38 | For N > 0 items, the window at limit * ((N - 1) // limit) has is_last_page true and current_page == total_pages. |
| `EmailFormat.ValidateEmail` | models/user.py:29-33 | Returns the value unchanged exactly when the pattern matches it under `re.match`. Otherwise it raises ValueError "Invalid Email Format". |
| `EmailFormat.ValidIffMatches` | models/user.py:31 | Both directions: the regex matches a prefix exactly when the part before the first '@' is non-empty and the domain has a '.' with a character on each side. The domain is the text after that '@' up to the next '@' or the end. |
| `EmailFormat.TrailingTextAccepted` | models/user.py:31 | `re.match` anchors only at the start, so any text may follow an accepted string. |
| `EmailFormat.RejectsWithoutLocalPart` | models/user.py:31 | A string with no '@', or one starting with '@', is rejected. The empty string is one of them. |
| `EmailFormat.AcceptsTrailingAddress` | models/user.py:31 | "a@b.c@x" is accepted. |
| `EmailFormat.RejectsDotNextToAt` | models/user.py:31 | "a@.bc" and "a@bc." are rejected: the '.' needs a character on each side within the domain. |

## Left out

- Password hashing and verification (services/auth_service.py:10-18) are
  function values in `Accounts.Crypt`. Only `verify(p, hash(p))` is assumed,
  and only where a contract says so. bcrypt's random salt is not modelled:
  `hash` is a fixed function.
- JWT encoding is an opaque function parameter. `datetime.utcnow()` is an
  integer `now` in seconds.
- `get_user_by_id` and `get_current_user_authorization` are not part of this
  model's source. The follow target's existence is a test that some user
  has that id. The caller's id is resolved by the router, so it is a
  precondition of `ToggleFollow`.
- async/await, commit/refresh, logging, sessions and engines are left out.
  Races between concurrent toggles are left out too: each call is one
  atomic step.
- Routers are left out, apart from the pagination formulas. This includes
  how a router maps `ValueError` to HTTP 400, and the `skip`/`limit`/`sort_by`
  arguments the routers pass to services that do not accept them.
- Image attachments, object storage and `sort_by` appear in no modelled
  service function.
- The code's schema is inconsistent, so the model uses one abstract schema.
  Users get a numeric `id` (the users model has none). A user's feeds are
  those whose `author_email` is theirs (the feeds model has no
  `author_id`). Likes carry `feed_id`/`comment_id` as the service queries
  them, not `target_id`/`like_type`.
- New ids follow SQLite's rule for an integer primary key without
  AUTOINCREMENT: one more than the largest id, or 1 in an empty table.
  The engine's fallback once the largest id reaches 2^63 - 1 (a random
  unused id) is not modelled. Users have no id column, so the model gives
  them ids by the same rule; no user is ever deleted, so these ids are
  never reused. Rows are keyed by id, users by e-mail. The follows table is a set of pairs, so each pair occurs
  at most once by construction.
- `get_comment_by_feed_id` and `get_feeds` have no ORDER BY. They are listed
  smallest id first. Followers and followings are sets of e-mails, because
  the order of the join is unspecified. Each user appears at most once
  there, since a pair is a primary key.
- Comments and likes that refer to a deleted feed stay in their tables, as
  in the code. Foreign-key enforcement by the database engine is not
  modelled.
- No operation deletes a user, so none is modelled.
- The code reads `author.nickname` without a null check in three places. A
  missing author there crashes, so the author's existence is a
  precondition of `CreateFeed`, `UpdateFeed` and `CommentsByFeed`.
- A zero `limit` raises ZeroDivisionError in the router, so `Paginate`
  requires a non-zero limit.
- Signup's `UserCreate` has no validator, so `CreateUser` applies no e-mail
  format check (models/user.py:15-18).
- Likes.ToggleTwiceRestores: it takes the ids of the two inserts as
  parameters, so when the key was present it promises only the set of keys
  back. With the engine's next id, `Likes.ToggleTwiceRestoresIff` says
  exactly when the row ids come back too.
