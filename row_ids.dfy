/** How SQLite picks the id of a row inserted without one, for an integer
    primary key declared without AUTOINCREMENT: one more than the largest
    id in the table, or 1 in an empty table. The engine keeps no counter,
    so the id of the newest row, once that row is deleted, can be handed
    out again. */
module RowIds {
  import opened Ordering

  /** The id the next inserted row receives. */
  function NextRowId(ids: set<int>): (n: int)
    ensures forall i :: i in ids ==> i < n
    ensures ids == {} ==> n == 1
    ensures ids != {} ==> n - 1 in ids
    ensures (forall i :: i in ids ==> 0 <= i) ==> 1 <= n
  {
    if ids == {} then 1 else Max(ids) + 1
  }

  /** Deleting any row but the newest leaves the next id unchanged. */
  lemma DeleteOlderKeepsNext(ids: set<int>, k: int)
    requires k in ids && k + 1 != NextRowId(ids)
    ensures NextRowId(ids - {k}) == NextRowId(ids)
  {
    var n := NextRowId(ids);
    assert n - 1 in ids - {k};
  }

  /** Deleting the newest row never raises the next id, and hands the
      deleted id out again exactly when the id just below it is taken, or
      the table held that one row under id 1. Ids handed out by the engine
      start at 1. */
  lemma DeleteNewestReusesId(ids: set<int>, k: int)
    requires forall i :: i in ids ==> 1 <= i
    requires k in ids && k + 1 == NextRowId(ids)
    ensures NextRowId(ids - {k}) <= k
    ensures NextRowId(ids - {k}) == k <==> k - 1 in ids || (ids == {k} && k == 1)
  {
    var rest := ids - {k};
    if rest == {} {
      assert ids == {k};
    } else {
      assert NextRowId(rest) - 1 in ids;
      if k - 1 in ids {
        assert k - 1 in rest;
      }
    }
  }
}
