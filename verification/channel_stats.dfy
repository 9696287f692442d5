/** The pure part of `fetch_channel_statistics`: which channel ids one batched
    request asks for, and how the answer is folded into an
    id -> statistics map. The HTTP request itself is a parameter. */
module ChannelStats {
  import opened Wrappers

  /** The channels endpoint takes at most this many ids in one request. */
  const MaxIds: nat := 50

  /** The statistics object of one channel; only the subscriber count is read. */
  datatype ChannelStatistics = ChannelStatistics(subscriberCount: Field)

  /** One element of the response's `items`: `item.get("id")` (None when missing
      or null) and its `statistics` (None when null; a missing object is an
      empty one, ChannelStatistics(Absent)). */
  datatype ChannelItem = ChannelItem(id: Option<string>, statistics: Option<ChannelStatistics>)

  /** The map the function returns, keyed like Python's dict by `item.get("id")`. */
  type StatsMap = map<Option<string>, Option<ChannelStatistics>>

  predicate Distinct<T(==)>(s: seq<T>) {
    forall i, j :: 0 <= i < j < |s| ==> s[i] != s[j]
  }

  /** The position of the first occurrence of x in s. */
  function FirstIndex<T(==)>(s: seq<T>, x: T): (i: nat)
    requires x in s
    ensures i < |s| && s[i] == x
    ensures forall j :: 0 <= j < i ==> s[j] != x
  {
    if s[0] == x then 0 else 1 + FirstIndex(s[1..], x)
  }

  /** `[cid for cid in ids if cid]`: the ids that are not empty, in order. */
  function NonEmptyIds(ids: seq<string>): (r: seq<string>)
    ensures |r| <= |ids|
    ensures forall x :: x in r <==> x in ids && x != ""
  {
    if |ids| == 0 then []
    else
      var init := NonEmptyIds(ids[..|ids| - 1]);
      if ids[|ids| - 1] != "" then init + [ids[|ids| - 1]] else init
  }

  /** `list(dict.fromkeys(s))`: each element once, at its first occurrence. */
  function Dedup<T(==,!new)>(s: seq<T>): (r: seq<T>)
    ensures |r| <= |s|
    ensures Distinct(r)
    ensures forall x :: x in r <==> x in s
  {
    if |s| == 0 then []
    else
      var init := Dedup(s[..|s| - 1]);
      if s[|s| - 1] in init then init else init + [s[|s| - 1]]
  }

  /** `unique_ids[:50]`: the ids the request carries. */
  function QueryIds(ids: seq<string>): (q: seq<string>)
    ensures |q| <= MaxIds
    ensures Distinct(q)
    ensures "" !in q
    ensures forall x :: x in q ==> x in ids
  {
    var unique := Dedup(NonEmptyIds(ids));
    if |unique| <= MaxIds then unique
    else
      var q := unique[..MaxIds];
      assert forall x :: x in q ==> x in unique;
      q
  }

  /** The distinct non-empty ids among the input. */
  function NonEmptyIdSet(ids: seq<string>): set<string> {
    set x | x in ids && x != ""
  }

  /** The request the function sends: none for an empty id list, otherwise the
      query ids (possibly an empty list, when every id is empty). */
  function StatsRequest(channelIds: seq<string>): (r: Option<seq<string>>)
    ensures r.None? <==> |channelIds| == 0
    ensures r.Some? ==> r.value == QueryIds(channelIds)
  {
    if |channelIds| == 0 then None else Some(QueryIds(channelIds))
  }

  lemma FirstIndexOfAppend<T>(p: seq<T>, z: T, x: T)
    requires x in p + [z]
    ensures x in p ==> FirstIndex(p + [z], x) == FirstIndex(p, x)
    ensures x !in p ==> FirstIndex(p + [z], x) == |p|
  {
    var s := p + [z];
    var i := FirstIndex(s, x);
    if x in p {
      var k := FirstIndex(p, x);
      assert s[k] == x;
    } else {
      assert forall j :: 0 <= j < |p| ==> s[j] == p[j];
    }
  }

  /** Deduplication keeps first-occurrence order: earlier in the result means
      first seen earlier in the input. */
  lemma {:induction false} DedupOrder<T(!new)>(s: seq<T>, i: nat, j: nat)
    requires i < j < |Dedup(s)|
    ensures FirstIndex(s, Dedup(s)[i]) < FirstIndex(s, Dedup(s)[j])
    decreases |s|
  {
    var p := s[..|s| - 1];
    var z := s[|s| - 1];
    assert s == p + [z];
    var d := Dedup(p);
    var x := Dedup(s)[i];
    var y := Dedup(s)[j];
    if z in d {
      DedupOrder(p, i, j);
      FirstIndexOfAppend(p, z, x);
      FirstIndexOfAppend(p, z, y);
    } else {
      if j < |d| {
        DedupOrder(p, i, j);
        FirstIndexOfAppend(p, z, x);
        FirstIndexOfAppend(p, z, y);
      } else {
        assert y == z && x == d[i];
        FirstIndexOfAppend(p, z, x);
        FirstIndexOfAppend(p, z, y);
      }
    }
  }

  /** Filtering keeps relative order of first occurrences. */
  lemma {:induction false} NonEmptyIdsOrder(s: seq<string>, x: string, y: string)
    requires x in NonEmptyIds(s) && y in NonEmptyIds(s)
    requires FirstIndex(NonEmptyIds(s), x) < FirstIndex(NonEmptyIds(s), y)
    ensures FirstIndex(s, x) < FirstIndex(s, y)
    decreases |s|
  {
    var p := s[..|s| - 1];
    var z := s[|s| - 1];
    assert s == p + [z];
    var f := NonEmptyIds(p);
    FirstIndexOfAppend(p, z, x);
    FirstIndexOfAppend(p, z, y);
    if z != "" {
      FirstIndexOfAppend(f, z, x);
      FirstIndexOfAppend(f, z, y);
    }
    if x in p && y in p {
      NonEmptyIdsOrder(p, x, y);
    }
  }

  lemma {:induction false} DistinctCard<T>(s: seq<T>)
    requires Distinct(s)
    ensures |set x | x in s| == |s|
    decreases |s|
  {
    if |s| > 0 {
      var p := s[..|s| - 1];
      var z := s[|s| - 1];
      assert s == p + [z];
      DistinctCard(p);
      assert (set x | x in s) == (set x | x in p) + {z};
    }
  }

  /** What the request carries: at most 50 distinct non-empty ids, each from
      the input, in the order they were first seen. */
  lemma QueryIdsOrder(ids: seq<string>, i: nat, j: nat)
    requires i < j < |QueryIds(ids)|
    ensures FirstIndex(ids, QueryIds(ids)[i]) < FirstIndex(ids, QueryIds(ids)[j])
  {
    var f := NonEmptyIds(ids);
    var d := Dedup(f);
    assert QueryIds(ids)[i] == d[i] && QueryIds(ids)[j] == d[j];
    DedupOrder(f, i, j);
    NonEmptyIdsOrder(ids, d[i], d[j]);
  }

  /** Up to 50 distinct non-empty ids every one of them is asked for; beyond
      that exactly 50 are. */
  lemma QueryIdsComplete(ids: seq<string>)
    ensures |QueryIds(ids)| == if |NonEmptyIdSet(ids)| <= MaxIds then |NonEmptyIdSet(ids)| else MaxIds
    ensures |NonEmptyIdSet(ids)| <= MaxIds ==> forall x :: x in ids && x != "" ==> x in QueryIds(ids)
  {
    var d := Dedup(NonEmptyIds(ids));
    DistinctCard(d);
    assert (set x | x in d) == NonEmptyIdSet(ids);
  }

  /** Beyond 50 ids the query holds the first 50 seen: any non-empty id first
      seen before one that is asked for is asked for too. */
  lemma QueryIdsPrefix(ids: seq<string>, x: string, y: string)
    requires x in QueryIds(ids) && y in ids && y != ""
    requires FirstIndex(ids, y) < FirstIndex(ids, x)
    ensures y in QueryIds(ids)
  {
    var f := NonEmptyIds(ids);
    var d := Dedup(f);
    var q := QueryIds(ids);
    var ix := FirstIndex(q, x);
    assert q == d[..|q|] && d[ix] == x;
    var iy := FirstIndex(d, y);
    if ix < iy {
      DedupOrder(f, ix, iy);
      NonEmptyIdsOrder(ids, x, y);
      assert false;
    }
    assert iy <= ix < |q|;
    assert q[iy] == y;
  }

  lemma {:induction false} BlankIdsFilterToNothing(ids: seq<string>)
    requires forall i :: 0 <= i < |ids| ==> ids[i] == ""
    ensures NonEmptyIds(ids) == []
  {
    if |ids| > 0 {
      BlankIdsFilterToNothing(ids[..|ids| - 1]);
    }
  }

  /** An empty id list sends nothing; a list of only empty ids still sends a
      request, with no ids in it. */
  lemma ShortCircuitOnlyOnEmptyList(ids: seq<string>)
    requires |ids| > 0
    requires forall i :: 0 <= i < |ids| ==> ids[i] == ""
    ensures StatsRequest(ids) == Some([])
  {
    BlankIdsFilterToNothing(ids);
  }

  /** Item i is the last in items[..n] that carries this key. */
  ghost predicate IsLastBefore(items: seq<ChannelItem>, n: nat, i: int, key: Option<string>) {
    && 0 <= i < n <= |items|
    && items[i].id == key
    && forall j :: i < j < n ==> items[j].id != key
  }

  /** m is the result of writing every item into a dict in order: its keys are
      the items' ids and each holds the statistics of the last item with it. */
  ghost predicate IsStatsFold(items: seq<ChannelItem>, m: StatsMap) {
    && m.Keys == (set j | 0 <= j < |items| :: items[j].id)
    && forall i, key :: IsLastBefore(items, |items|, i, key) ==> key in m && m[key] == items[i].statistics
  }

  /** The loop `for item in data.get("items", []): out[item.get("id")] = ...`. */
  method FoldStatistics(items: seq<ChannelItem>) returns (out: StatsMap)
    ensures IsStatsFold(items, out)
  {
    out := map[];
    var n := 0;
    while n < |items|
      invariant n <= |items|
      invariant out.Keys == KeysBefore(items, n)
      invariant forall i, key :: IsLastBefore(items, n, i, key) ==> key in out && out[key] == items[i].statistics
    {
      var item := items[n];
      FoldKeysStep(items, n);
      FoldValuesStep(items, n, n + 1, out);
      out := out[item.id := item.statistics];
      n := n + 1;
    }
  }

  /** The ids of the first n items. */
  ghost function KeysBefore(items: seq<ChannelItem>, n: nat): set<Option<string>>
    requires n <= |items|
  {
    set j | 0 <= j < n :: items[j].id
  }

  lemma FoldKeysStep(items: seq<ChannelItem>, n: nat)
    requires n < |items|
    ensures KeysBefore(items, n + 1) == KeysBefore(items, n) + {items[n].id}
  {
  }

  /** Writing item n over the map of items[..n] gives the map of items[..n + 1]. */
  lemma FoldValuesStep(items: seq<ChannelItem>, n: nat, next: nat, out: StatsMap)
    requires n < |items| && next == n + 1
    requires forall i, key :: IsLastBefore(items, n, i, key) ==> key in out && out[key] == items[i].statistics
    ensures forall i, key :: IsLastBefore(items, next, i, key) ==>
              key in out[items[n].id := items[n].statistics]
              && out[items[n].id := items[n].statistics][key] == items[i].statistics
  {
    var written := out[items[n].id := items[n].statistics];
    forall i, key | IsLastBefore(items, next, i, key)
      ensures key in written && written[key] == items[i].statistics
    {
      if i < n {
        assert IsLastBefore(items, n, i, key) && key != items[n].id;
      }
    }
  }

  /** The fold is determined by the items: two maps that both satisfy it agree. */
  lemma StatsFoldUnique(items: seq<ChannelItem>, m1: StatsMap, m2: StatsMap)
    requires IsStatsFold(items, m1) && IsStatsFold(items, m2)
    ensures m1 == m2
  {
    forall key | key in m1
      ensures m1[key] == m2[key]
    {
      var j :| 0 <= j < |items| && items[j].id == key;
      var i := LastWith(items, key, j);
      assert IsLastBefore(items, |items|, i, key);
    }
  }

  /** Some item carries the key, so a last one does. */
  lemma LastWith(items: seq<ChannelItem>, key: Option<string>, j: nat) returns (i: nat)
    requires j < |items| && items[j].id == key
    ensures IsLastBefore(items, |items|, i, key)
    decreases |items| - j
  {
    if exists k :: j < k < |items| && items[k].id == key {
      var k :| j < k < |items| && items[k].id == key;
      i := LastWith(items, key, k);
    } else {
      i := j;
    }
  }

  /** `fetch_channel_statistics(api_key, channel_ids)` with the endpoint's
      answer (its `items`, empty when missing) given as `response`. */
  method FetchChannelStatistics(channelIds: seq<string>, response: seq<ChannelItem>)
    returns (request: Option<seq<string>>, stats: StatsMap)
    ensures |channelIds| == 0 ==> request.None? && stats == map[]
    ensures |channelIds| > 0 ==> request == Some(QueryIds(channelIds))
    ensures |channelIds| > 0 ==> IsStatsFold(response, stats)
  {
    if |channelIds| == 0 {
      return None, map[];
    }
    request := Some(QueryIds(channelIds));
    stats := FoldStatistics(response);
  }
}
