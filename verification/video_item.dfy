/** The field resolution of `render_video_item`: from one video of the
    popular-videos response and the channel statistics map to the strings the
    page shows. The Streamlit calls that draw them are not modelled. */
module VideoItem {
  import opened Wrappers
  import opened Decimal
  import opened Formatter
  import opened ChannelStats

  /** Shown for a like, comment or subscriber count that is not disclosed. */
  const Undisclosed: string := "비공개"

  const WatchUrlPrefix: string := "https://www.youtube.com/watch?v="
  const UntitledText: string := "(제목 없음)"
  const UnknownChannelText: string := "(채널 정보 없음)"

  /** The `url` of each thumbnail size; None when the size object is missing,
      or its url is missing or null. A size object that is itself `null`
      makes the source's `.get("url")` raise; it is not represented. */
  datatype Thumbnails = Thumbnails(medium: Option<string>, high: Option<string>, default: Option<string>)

  datatype Snippet = Snippet(title: Field, channelTitle: Field, channelId: Field, thumbnails: Thumbnails)

  datatype VideoStatistics = VideoStatistics(viewCount: Field, likeCount: Field, commentCount: Field)

  /** One element of the popular-videos response's `items`. A missing
      `snippet` or `statistics` object is one whose fields are all Absent. */
  datatype Video = Video(id: Field, snippet: Snippet, statistics: VideoStatistics)

  /** What the page shows for one video. `thumbnail` is None when the page
      prints its "no thumbnail" text instead of an image. */
  datatype DisplayRecord = DisplayRecord(
    title: string,
    channel: string,
    thumbnail: Option<string>,
    url: string,
    subscribers: string,
    views: string,
    likes: string,
    comments: string)

  /** Python truthiness of an optional string. */
  predicate Truthy(u: Option<string>) {
    u.Some? && u.value != ""
  }

  /** Python's `a or b`. */
  function Or(a: Option<string>, b: Option<string>): Option<string> {
    if Truthy(a) then a else b
  }

  /** The thumbnail shown: the `medium or high or default` chain, kept only
      when the page's `if thumb_url:` accepts it. */
  function ThumbnailUrl(t: Thumbnails): (r: Option<string>)
    ensures var ranked := [t.medium, t.high, t.default];
            && (r.None? <==> forall i :: 0 <= i < 3 ==> !Truthy(ranked[i]))
            && (r.Some? ==> exists i :: 0 <= i < 3 && ranked[i] == r && Truthy(ranked[i])
                                         && forall j :: 0 <= j < i ==> !Truthy(ranked[j]))
  {
    var ranked := [t.medium, t.high, t.default];
    var chosen := Or(t.medium, Or(t.high, t.default));
    if Truthy(chosen) then
      if Truthy(t.medium) then
        assert ranked[0] == chosen;
        chosen
      else if Truthy(t.high) then
        assert ranked[1] == chosen;
        chosen
      else
        assert ranked[2] == chosen;
        chosen
    else
      None
  }

  /** A like or comment count: formatted when present, undisclosed when
      missing or null. */
  function CountText(f: Field, unit: string): string {
    if IsPresent(f) then HumanReadableNumber(f.text, unit) else Undisclosed
  }

  /** The statistics stored for a channel, with a null entry read as `{}`
      (the source's `channel_stats_map[channel_id] or {}`). */
  function StoredStatistics(entry: Option<ChannelStatistics>): ChannelStatistics {
    if entry.Some? then entry.value else ChannelStatistics(Absent)
  }

  /** The subscriber text: looked up only for a non-empty channel id. */
  function SubscriberText(channelId: Field, stats: StatsMap): string {
    if channelId.Text? && channelId.text != "" && Some(channelId.text) in stats then
      var count := StoredStatistics(stats[Some(channelId.text)]).subscriberCount;
      if IsPresent(count) then HumanReadableNumber(count.text, "명") else Undisclosed
    else
      Undisclosed
  }

  /** `render_video_item(item, channel_stats_map)`, without the drawing. */
  function RenderVideoItem(v: Video, stats: StatsMap): (r: DisplayRecord)
    // Subscribers: formatted only when the channel id is non-empty, is a key
    // of the map and its entry carries a subscriber count.
    ensures var cid := v.snippet.channelId;
            var known := cid.Text? && cid.text != "" && Some(cid.text) in stats
                         && stats[Some(cid.text)].Some?
                         && stats[Some(cid.text)].value.subscriberCount.Text?;
            && (known ==> r.subscribers == HumanReadableNumber(stats[Some(cid.text)].value.subscriberCount.text, "명"))
            && (!known ==> r.subscribers == Undisclosed)
    // Likes and comments: undisclosed exactly when the count is missing or null.
    ensures v.statistics.likeCount.Text? ==> r.likes == HumanReadableNumber(v.statistics.likeCount.text, "개")
    ensures !v.statistics.likeCount.Text? ==> r.likes == Undisclosed
    ensures v.statistics.commentCount.Text? ==> r.comments == HumanReadableNumber(v.statistics.commentCount.text, "개")
    ensures !v.statistics.commentCount.Text? ==> r.comments == Undisclosed
    // Views: a missing count reads as "0"; a null one is printed as Python prints None.
    ensures v.statistics.viewCount.Absent? ==> r.views == HumanReadableNumber("0", "회")
    ensures v.statistics.viewCount.Null? ==> r.views == "None"
    ensures v.statistics.viewCount.Text? ==> r.views == HumanReadableNumber(v.statistics.viewCount.text, "회")
    // The permalink is the watch prefix followed by the video id.
    ensures |r.url| >= |WatchUrlPrefix| && r.url[..|WatchUrlPrefix|] == WatchUrlPrefix
    ensures v.id.Text? ==> r.url[|WatchUrlPrefix|..] == v.id.text
    ensures v.id.Absent? ==> r.url == WatchUrlPrefix
    ensures v.id.Null? ==> r.url[|WatchUrlPrefix|..] == "None"
    // A missing title or channel name gets its placeholder; a null one prints "None".
    ensures r.thumbnail == ThumbnailUrl(v.snippet.thumbnails)
    ensures v.snippet.title.Absent? ==> r.title == UntitledText
    ensures v.snippet.title.Null? ==> r.title == "None"
    ensures v.snippet.title.Text? ==> r.title == v.snippet.title.text
    ensures v.snippet.channelTitle.Absent? ==> r.channel == UnknownChannelText
    ensures v.snippet.channelTitle.Null? ==> r.channel == "None"
    ensures v.snippet.channelTitle.Text? ==> r.channel == v.snippet.channelTitle.text
  {
    var s := v.statistics;
    var url := WatchUrlPrefix + FieldText(v.id, "");
    assert url[|WatchUrlPrefix|..] == FieldText(v.id, "");
    assert url[..|WatchUrlPrefix|] == WatchUrlPrefix;
    assert ParseInt("None").None? by {
      assert !IsDigit("None"[0]);
    }
    DisplayRecord(
      title := FieldText(v.snippet.title, UntitledText),
      channel := FieldText(v.snippet.channelTitle, UnknownChannelText),
      thumbnail := ThumbnailUrl(v.snippet.thumbnails),
      url := url,
      subscribers := SubscriberText(v.snippet.channelId, stats),
      views := HumanReadableNumber(FieldText(s.viewCount, "0"), "회"),
      likes := CountText(s.likeCount, "개"),
      comments := CountText(s.commentCount, "개"))
  }

  lemma ParseZero()
    ensures ParseInt("0") == Some(0)
  {
    assert ShowInt(0) == "0";
    ParseShowRoundTrip(0);
  }

  /** A present zero is a number, not an undisclosed count: "0" likes reads
      "0개", and a missing view count reads "0회". */
  lemma ZeroCountsAreShown(v: Video, stats: StatsMap)
    ensures v.statistics.likeCount == Text("0") ==> RenderVideoItem(v, stats).likes == "0개"
    ensures v.statistics.commentCount == Text("0") ==> RenderVideoItem(v, stats).comments == "0개"
    ensures v.statistics.viewCount.Absent? ==> RenderVideoItem(v, stats).views == "0회"
  {
    ParseZero();
    SmallValueText("0", "개", 0);
    SmallValueText("0", "회", 0);
    assert GroupedInt(0) == "0";
  }

  /** A channel the map does not know never shows a subscriber number. */
  lemma UnknownChannelIsUndisclosed(v: Video, stats: StatsMap)
    requires forall c :: v.snippet.channelId == Text(c) ==> Some(c) !in stats
    ensures RenderVideoItem(v, stats).subscribers == Undisclosed
  {
  }

  /** Two records with the same permalink come from the same video id. */
  lemma PermalinkDeterminesId(v1: Video, v2: Video, s1: StatsMap, s2: StatsMap)
    requires RenderVideoItem(v1, s1).url == RenderVideoItem(v2, s2).url
    ensures FieldText(v1.id, "") == FieldText(v2.id, "")
  {
    var u1 := RenderVideoItem(v1, s1).url;
    var u2 := RenderVideoItem(v2, s2).url;
    assert u1[|WatchUrlPrefix|..] == u2[|WatchUrlPrefix|..];
  }
}
