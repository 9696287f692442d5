/** The listing step of `main`: after the popular videos arrive, collect their
    channel ids, fetch the channel statistics (falling back to an empty map
    when that call fails) and build one display record per video, in order. */
module Listing {
  import opened Wrappers
  import opened ChannelStats
  import opened VideoItem

  /** The page body: the empty-state warning, or the result count, the
      channels request, the statistics map used and the records shown. */
  datatype ListingView =
    | EmptyState
    | Shown(total: nat, statsRequest: Option<seq<string>>, stats: StatsMap, records: seq<DisplayRecord>)

  /** `it.get("snippet", {}).get("channelId", "")`. A null id is read as ""
      here: the query filter drops None and "" alike. */
  function ChannelIdOf(v: Video): string {
    if v.snippet.channelId.Text? then v.snippet.channelId.text else ""
  }

  /** The channel ids of the videos, one per video, in order. */
  function ChannelIds(items: seq<Video>): (ids: seq<string>)
    ensures |ids| == |items|
    ensures forall i :: 0 <= i < |items| ==> ids[i] == ChannelIdOf(items[i])
  {
    seq(|items|, i requires 0 <= i < |items| => ChannelIdOf(items[i]))
  }

  /** `for item in items: render_video_item(item, channel_stats_map)`: one
      record per video, in the order the endpoint returned them. */
  function RenderAll(items: seq<Video>, stats: StatsMap): (records: seq<DisplayRecord>)
    ensures |records| == |items|
    ensures forall i :: 0 <= i < |items| ==> records[i] == RenderVideoItem(items[i], stats)
  {
    seq(|items|, i requires 0 <= i < |items| => RenderVideoItem(items[i], stats))
  }

  /** The listing for the popular videos `items`. `channelResponse` is what
      the channels endpoint answered, or None when that call raised. */
  method ShowListing(items: seq<Video>, channelResponse: Option<seq<ChannelItem>>) returns (view: ListingView)
    ensures |items| == 0 <==> view.EmptyState?
    ensures view.Shown? ==> view.total == |items|
    // With at least one video the channel id list is non-empty, so a request
    // is always sent.
    ensures view.Shown? ==> view.statsRequest == Some(QueryIds(ChannelIds(items)))
    ensures view.Shown? && channelResponse.Some? ==> IsStatsFold(channelResponse.value, view.stats)
    ensures view.Shown? && channelResponse.None? ==> view.stats == map[]
    ensures view.Shown? ==> |view.records| == |items|
    ensures view.Shown? ==> forall i :: 0 <= i < |items| ==> view.records[i] == RenderVideoItem(items[i], view.stats)
    // A failed statistics call still shows every video, with its subscriber
    // count undisclosed.
    ensures view.Shown? && channelResponse.None? ==>
              forall i :: 0 <= i < |items| ==> view.records[i].subscribers == Undisclosed
  {
    if |items| == 0 {
      return EmptyState;
    }
    var ids := ChannelIds(items);
    var request: Option<seq<string>>;
    var stats: StatsMap;
    match channelResponse {
      case None =>
        request, stats := StatsRequest(ids), map[];
      case Some(response) =>
        request, stats := FetchChannelStatistics(ids, response);
    }
    view := Shown(|items|, request, stats, RenderAll(items, stats));
  }
}
