/** The read side of the feed service. */
module FeedQueries {
  import opened Schema
  import opened Keys
  import opened Ordering

  /** `get_feeds`: every feed of the table, each once (listed by id,
      smallest first; the query itself gives no order). */
  ghost function AllFeeds(feeds: map<int, Feed>): (r: seq<Feed>)
    requires FeedsKeyed(feeds)
    ensures |r| == |feeds|
    ensures forall f :: f in r <==> f.id in feeds && feeds[f.id] == f
    ensures forall i, j :: 0 <= i < j < |r| ==> r[i].id < r[j].id
  {
    var ids := Ascending(feeds.Keys);
    assert |feeds.Keys| == |feeds|;
    AllRowsInOrder(feeds, ids);
    Rows(ids, feeds)
  }

  lemma AllRowsInOrder(feeds: map<int, Feed>, ids: seq<int>)
    requires FeedsKeyed(feeds)
    requires Increasing(ids) && forall x :: x in ids <==> x in feeds
    ensures forall i :: 0 <= i < |ids| ==> ids[i] in feeds
    ensures var r := Rows(ids, feeds);
      (forall i, j :: 0 <= i < j < |r| ==> r[i].id < r[j].id) &&
      (forall f :: f in r <==> f.id in feeds && feeds[f.id] == f)
  {
    forall i | 0 <= i < |ids|
      ensures ids[i] in feeds
    {
      var x := ids[i];
      assert x in ids;
    }
    var r := Rows(ids, feeds);
    assert forall i :: 0 <= i < |r| ==> r[i].id == ids[i];
    forall f: Feed | f.id in feeds && feeds[f.id] == f
      ensures f in r
    {
      var i :| 0 <= i < |ids| && ids[i] == f.id;
      assert r[i] == f;
    }
  }
}
