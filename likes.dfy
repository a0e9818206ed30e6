/** The likes relation as the toggle sees it: a row is looked up by its
    natural key (user, feed id, comment id); the surrogate row id plays no
    part in the lookup. */
module Likes {
  import opened Schema
  import opened Keys
  import opened RowIds

  datatype LikeKey = LikeKey(userEmail: string, feedId: Option<int>, commentId: Option<int>)

  function KeyOf(like: Like): LikeKey {
    LikeKey(like.userEmail, like.feedId, like.commentId)
  }

  /** The request names exactly one target: a feed or a comment. */
  predicate ExactlyOneTarget(feedId: Option<int>, commentId: Option<int>) {
    feedId.Some? != commentId.Some?
  }

  /** The invariants the toggle keeps: rows sit under their own id, every
      row has exactly one target, and no two rows share a key (what
      `scalar_one_or_none` relies on). */
  ghost predicate WellFormed(likes: map<int, Like>) {
    && LikesKeyed(likes)
    && (forall id :: id in likes ==> ExactlyOneTarget(likes[id].feedId, likes[id].commentId))
    && (forall a, b :: a in likes && b in likes && KeyOf(likes[a]) == KeyOf(likes[b]) ==> a == b)
  }

  /** The keys present in the table. */
  function KeySet(likes: map<int, Like>): (ks: set<LikeKey>)
    ensures forall id :: id in likes ==> KeyOf(likes[id]) in ks
    ensures forall k :: k in ks ==> exists id :: id in likes && KeyOf(likes[id]) == k
  {
    set id | id in likes :: KeyOf(likes[id])
  }

  /** The table after one toggle of `key`: when a row with that key exists
      it goes, otherwise one new row with id `freshId` comes in. */
  function Toggled(likes: map<int, Like>, key: LikeKey, freshId: int): map<int, Like> {
    if key in KeySet(likes) then map id | id in likes && KeyOf(likes[id]) != key :: likes[id]
    else likes[freshId := Like(freshId, key.userEmail, key.feedId, key.commentId)]
  }

  /** An existing row is removed alone: the toggle deletes exactly the row
      that the lookup found. */
  lemma {:induction false} ToggleRemovesFoundRow(likes: map<int, Like>, key: LikeKey, found: int, freshId: int)
    requires WellFormed(likes) && found in likes && KeyOf(likes[found]) == key
    ensures Toggled(likes, key, freshId) == likes - {found}
  {
    var r := Toggled(likes, key, freshId);
    assert key in KeySet(likes);
    assert r.Keys == likes.Keys - {found} by {
      forall id | id in likes && id != found
        ensures KeyOf(likes[id]) != key
      {
      }
    }
  }

  /** A toggle flips whether `key` is present, and adds exactly one row
      with that key when it was absent. */
  lemma {:induction false} ToggleFlipsKey(likes: map<int, Like>, key: LikeKey, freshId: int)
    requires freshId !in likes
    ensures key in KeySet(Toggled(likes, key, freshId)) <==> key !in KeySet(likes)
    ensures key !in KeySet(likes) ==>
      Toggled(likes, key, freshId) == likes[freshId := Like(freshId, key.userEmail, key.feedId, key.commentId)]
  {
    var r := Toggled(likes, key, freshId);
    if key !in KeySet(likes) {
      assert KeyOf(r[freshId]) == key;
    }
  }

  /** Rows with any other key are untouched, and no row with another key
      appears. */
  lemma {:induction false} ToggleKeepsOtherRows(likes: map<int, Like>, key: LikeKey, freshId: int)
    requires freshId !in likes
    ensures var r := Toggled(likes, key, freshId);
      (forall id :: id in likes && KeyOf(likes[id]) != key ==> id in r && r[id] == likes[id]) &&
      (forall id :: id in r && KeyOf(r[id]) != key ==> id in likes && r[id] == likes[id])
  {
  }

  /** The toggle keeps the invariants, given a request with exactly one
      target and a fresh id. */
  lemma {:induction false} ToggleKeepsWellFormed(likes: map<int, Like>, key: LikeKey, freshId: int)
    requires WellFormed(likes) && freshId !in likes
    requires ExactlyOneTarget(key.feedId, key.commentId)
    ensures WellFormed(Toggled(likes, key, freshId))
  {
    var r := Toggled(likes, key, freshId);
    if key !in KeySet(likes) {
      forall a, b | a in r && b in r && KeyOf(r[a]) == KeyOf(r[b])
        ensures a == b
      {
      }
    }
  }

  /** Two toggles of the same key restore the set of keys; when the key was
      absent they restore the table itself. (When it was present, the row
      comes back under a new id.) */
  lemma {:induction false} ToggleTwiceRestores(likes: map<int, Like>, key: LikeKey, id1: int, id2: int)
    requires id1 !in likes && id2 !in Toggled(likes, key, id1)
    ensures KeySet(Toggled(Toggled(likes, key, id1), key, id2)) == KeySet(likes)
    ensures key !in KeySet(likes) ==> Toggled(Toggled(likes, key, id1), key, id2) == likes
  {
    var once := Toggled(likes, key, id1);
    var twice := Toggled(once, key, id2);
    ToggleFlipsKey(likes, key, id1);
    ToggleFlipsKey(once, key, id2);
    ToggleKeepsOtherRows(likes, key, id1);
    ToggleKeepsOtherRows(once, key, id2);
    if key !in KeySet(likes) {
      assert twice.Keys == likes.Keys;
    } else {
      forall k | k in KeySet(likes)
        ensures k in KeySet(twice)
      {
        if k != key {
          var id :| id in likes && KeyOf(likes[id]) == k;
          assert id in once && id in twice;
        }
      }
      forall k | k in KeySet(twice)
        ensures k in KeySet(likes)
      {
        if k != key {
          var id :| id in twice && KeyOf(twice[id]) == k;
          assert id in once && id in likes;
        }
      }
    }
  }

  /** Two toggles of a present key, where each insert takes the engine's
      next id: the table comes back exactly when the re-inserted row gets
      the id of the row the first toggle deleted. */
  lemma {:induction false} ToggleTwiceRestoresIff(likes: map<int, Like>, key: LikeKey, found: int)
    requires WellFormed(likes) && found in likes && KeyOf(likes[found]) == key
    ensures var once := Toggled(likes, key, NextRowId(likes.Keys));
      Toggled(once, key, NextRowId(once.Keys)) == likes <==> NextRowId(once.Keys) == found
  {
    var once := Toggled(likes, key, NextRowId(likes.Keys));
    ToggleRemovesFoundRow(likes, key, found, NextRowId(likes.Keys));
    var n := NextRowId(once.Keys);
    assert key !in KeySet(once) by {
      forall id | id in once
        ensures KeyOf(once[id]) != key
      {
      }
    }
    var twice := Toggled(once, key, n);
    assert twice == once[n := Like(n, key.userEmail, key.feedId, key.commentId)];
    if n == found {
      assert likes[found] == Like(n, key.userEmail, key.feedId, key.commentId);
      assert twice == likes;
    } else {
      assert found !in twice;
    }
  }

  /** In terms of the ids alone: the table comes back exactly when the
      deleted row was the newest and the id just below it is taken, or
      when it was the only row and had id 1. */
  lemma ToggleTwiceRestoresNewest(likes: map<int, Like>, key: LikeKey, found: int)
    requires WellFormed(likes) && found in likes && KeyOf(likes[found]) == key
    requires forall id :: id in likes ==> 1 <= id
    ensures var once := Toggled(likes, key, NextRowId(likes.Keys));
      Toggled(once, key, NextRowId(once.Keys)) == likes <==>
        found + 1 == NextRowId(likes.Keys) && (found - 1 in likes || (likes.Keys == {found} && found == 1))
  {
    ToggleRemovesFoundRow(likes, key, found, NextRowId(likes.Keys));
    assert (likes - {found}).Keys == likes.Keys - {found};
    ToggleTwiceRestoresIff(likes, key, found);
    if found + 1 == NextRowId(likes.Keys) {
      DeleteNewestReusesId(likes.Keys, found);
    } else {
      DeleteOlderKeepsNext(likes.Keys, found);
    }
  }
}
