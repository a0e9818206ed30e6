/** The follows relation: a set of (follower id, following id) pairs, the
    pair being the table's primary key, so a pair is present at most once
    by construction. */
module Follows {
  import opened Schema

  /** The edge set after one toggle of `edge`. */
  function Toggled(follows: set<Follow>, edge: Follow): set<Follow> {
    if edge in follows then follows - {edge} else follows + {edge}
  }

  /** The action reported for a toggle of `edge`: "followed" exactly when
      the toggle leaves the edge in the table. */
  function ActionOf(follows: set<Follow>, edge: Follow): (action: string)
    ensures action == "followed" <==> edge in Toggled(follows, edge)
    ensures action == "unfollowed" <==> edge !in Toggled(follows, edge)
  {
    if edge in follows then "unfollowed" else "followed"
  }

  /** No user follows themselves. */
  predicate NoSelfFollow(follows: set<Follow>) {
    forall f :: f in follows ==> f.followerId != f.followingId
  }

  /** A toggle flips the presence of `edge`, agrees with the reported
      action, and leaves every other pair as it was. */
  lemma ToggleFlipsEdge(follows: set<Follow>, edge: Follow)
    ensures edge in Toggled(follows, edge) <==> edge !in follows
    ensures edge in Toggled(follows, edge) <==> ActionOf(follows, edge) == "followed"
    ensures forall f :: f != edge ==> (f in Toggled(follows, edge) <==> f in follows)
  {
  }

  /** Two toggles of the same pair restore the table. */
  lemma ToggleTwiceRestores(follows: set<Follow>, edge: Follow)
    ensures Toggled(Toggled(follows, edge), edge) == follows
  {
  }

  /** Toggling a pair of two different users keeps the table free of
      self-follows. */
  lemma ToggleKeepsNoSelfFollow(follows: set<Follow>, edge: Follow)
    requires NoSelfFollow(follows) && edge.followerId != edge.followingId
    ensures NoSelfFollow(Toggled(follows, edge))
  {
  }
}
