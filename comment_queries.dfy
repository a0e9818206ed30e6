/** The read side of the comment service and the field rule of its update. */
module CommentQueries {
  import opened Schema
  import opened Keys
  import opened Ordering

  /** Python's `new or old` on an optional string: a missing value and the
      empty string are both falsy, so only a non-empty new value wins. */
  function ContentOr(update: Option<string>, current: string): (content: string)
    ensures update.Some? && update.value != "" ==> content == update.value
    ensures update.None? || update.value == "" ==> content == current
    ensures content == "" ==> current == ""
  {
    match update
    case Some(s) => if s != "" then s else current
    case None => current
  }

  /** Sending the same update twice leaves the comment as one update does,
      and an update never turns a non-empty comment into an empty one. */
  lemma ContentOrIdempotent(update: Option<string>, current: string)
    ensures ContentOr(update, ContentOr(update, current)) == ContentOr(update, current)
    ensures current != "" ==> ContentOr(update, current) != ""
  {
  }

  /** The response built for one comment: its own columns and the
      nickname of its author. */
  function Respond(c: Comment, nickname: string): CommentResponse {
    CommentResponse(c.id, c.content, c.authorEmail, nickname, c.feedId)
  }

  /** Every comment on the feed has a registered author; the source reads
      `author.nickname` without a null check. */
  ghost predicate AuthorsKnown(users: map<string, User>, comments: map<int, Comment>, feedId: int) {
    forall id :: id in comments && comments[id].feedId == feedId ==> comments[id].authorEmail in users
  }

  /** `get_comment_by_feed_id`: one response per comment of the feed,
      each carrying its own author's nickname. The query gives no ORDER BY;
      the model lists the rows by id, smallest first. */
  ghost function CommentsByFeed(users: map<string, User>, comments: map<int, Comment>, feedId: int): (r: seq<CommentResponse>)
    requires CommentsKeyed(comments) && AuthorsKnown(users, comments, feedId)
    ensures forall i, j :: 0 <= i < j < |r| ==> r[i].id < r[j].id
    ensures forall i :: 0 <= i < |r| ==> r[i].id in comments && IsResponseFor(users, comments[r[i].id], feedId, r[i])
    ensures forall id :: id in comments && comments[id].feedId == feedId ==>
      exists i :: 0 <= i < |r| && r[i].id == id
  {
    var sel := set id | id in comments && comments[id].feedId == feedId;
    var ids := Ascending(sel);
    SelectedIdsOnFeed(comments, feedId, sel, ids);
    var r := ResponsesInOrder(users, comments, feedId, ids);
    EveryCommentAnswered(users, comments, feedId, sel, ids, r);
    r
  }

  lemma SelectedIdsOnFeed(comments: map<int, Comment>, feedId: int, sel: set<int>, ids: seq<int>)
    requires sel == set id | id in comments && comments[id].feedId == feedId
    requires forall x :: x in ids <==> x in sel
    ensures forall i :: 0 <= i < |ids| ==> ids[i] in comments && comments[ids[i]].feedId == feedId
  {
    forall i | 0 <= i < |ids|
      ensures ids[i] in comments && comments[ids[i]].feedId == feedId
    {
      var x := ids[i];
      assert x in ids;
      assert x in sel;
    }
  }

  lemma EveryCommentAnswered(users: map<string, User>, comments: map<int, Comment>, feedId: int,
                             sel: set<int>, ids: seq<int>, r: seq<CommentResponse>)
    requires sel == set id | id in comments && comments[id].feedId == feedId
    requires forall x :: x in ids <==> x in sel
    requires |r| == |ids| && forall i :: 0 <= i < |ids| ==> r[i].id == ids[i]
    ensures forall id :: id in comments && comments[id].feedId == feedId ==>
      exists i :: 0 <= i < |r| && r[i].id == id
  {
    forall id | id in comments && comments[id].feedId == feedId
      ensures exists i :: 0 <= i < |r| && r[i].id == id
    {
      assert id in sel;
      var i :| 0 <= i < |ids| && ids[i] == id;
      assert r[i].id == id;
    }
  }

  lemma AuthorKnownAt(users: map<string, User>, comments: map<int, Comment>, feedId: int, id: int)
    requires AuthorsKnown(users, comments, feedId) && id in comments && comments[id].feedId == feedId
    ensures comments[id].authorEmail in users
  {
  }

  /** `r` is the response for comment `c` of feed `feedId`. */
  ghost predicate IsResponseFor(users: map<string, User>, c: Comment, feedId: int, r: CommentResponse) {
    c.feedId == feedId && c.authorEmail in users && r == Respond(c, users[c.authorEmail].nickname)
  }

  ghost function ResponsesInOrder(users: map<string, User>, comments: map<int, Comment>, feedId: int, ids: seq<int>): (r: seq<CommentResponse>)
    requires CommentsKeyed(comments) && AuthorsKnown(users, comments, feedId)
    requires forall i :: 0 <= i < |ids| ==> ids[i] in comments && comments[ids[i]].feedId == feedId
    ensures |r| == |ids|
    ensures forall i :: 0 <= i < |ids| ==> r[i].id == ids[i] && IsResponseFor(users, comments[ids[i]], feedId, r[i])
  {
    if ids == [] then []
    else
      assert ids[0] in comments && comments[ids[0]].feedId == feedId;
      var c := comments[ids[0]];
      AuthorKnownAt(users, comments, feedId, ids[0]);
      [Respond(c, users[c.authorEmail].nickname)] + ResponsesInOrder(users, comments, feedId, ids[1..])
  }

  /** A comment just stored by `create_comment` is listed under its feed,
      with the same response that `create_comment` returned. */
  lemma CreatedCommentIsListed(users: map<string, User>, comments: map<int, Comment>, c: Comment)
    requires CommentsKeyed(comments) && AuthorsKnown(users, comments, c.feedId)
    requires c.id !in comments && c.authorEmail in users
    ensures CommentsKeyed(comments[c.id := c]) && AuthorsKnown(users, comments[c.id := c], c.feedId)
    ensures Respond(c, users[c.authorEmail].nickname) in CommentsByFeed(users, comments[c.id := c], c.feedId)
  {
    var comments' := comments[c.id := c];
    var r := CommentsByFeed(users, comments', c.feedId);
    assert c.id in comments' && comments'[c.id].feedId == c.feedId;
    var i :| 0 <= i < |r| && r[i].id == c.id;
    assert IsResponseFor(users, comments'[r[i].id], c.feedId, r[i]);
  }

  /** After `delete_comment`, the comment is no longer listed under any
      feed, and every other comment of the feed still is. */
  lemma DeletedCommentNotListed(users: map<string, User>, comments: map<int, Comment>, id: int, feedId: int)
    requires CommentsKeyed(comments) && AuthorsKnown(users, comments, feedId)
    ensures CommentsKeyed(comments - {id}) && AuthorsKnown(users, comments - {id}, feedId)
    ensures var r := CommentsByFeed(users, comments - {id}, feedId);
      (forall i :: 0 <= i < |r| ==> r[i].id != id) &&
      (forall other :: other in comments && other != id && comments[other].feedId == feedId ==>
         exists i :: 0 <= i < |r| && r[i].id == other)
  {
    var rest := comments - {id};
    forall other | other in comments && other != id && comments[other].feedId == feedId
      ensures other in rest && rest[other].feedId == feedId
    {
    }
  }
}
