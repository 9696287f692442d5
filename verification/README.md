# YouTube popular-videos dashboard: the pure core in Dafny

The dashboard in `streamlit_app.py` lists a region's most popular YouTube
videos. For each video it shows the title, channel, thumbnail, permalink, and
four counts in Korean large-number notation (만, 억, 조, 경): subscribers,
views, likes and comments. Almost all of the program is Streamlit UI and HTTP
glue. This project models the parts that compute something, as pure Dafny
functions over exact integers, strings, sequences and maps:

- **Wrappers** (`wrappers.dfy`): `Option`, and `Field`. A `Field` is a JSON
  value that is missing (`Absent`), `null` (`Null`), or a string (`Text`).
- **Strings** (`strings.dfy`): Python's `rstrip`, `lstrip`, `strip` of one
  character, and `split(c)[-1]`.
- **Decimal** (`decimal.dfy`): `int(s)` restricted to a sign and ASCII digits,
  `str(i)`, and the `,` thousands grouping of `f"{i:,}"`.
- **Formatter** (`formatter.dfy`): `human_readable_number` and
  `human_readable_views`.
  - The 10,000-based suffix ladder is at most four rungs high.
  - `.1f` rounding is computed on the exact quotient, not on a binary float.
  - The trailing `.0` is stripped.
- **FormatterExamples** (`formatter_examples.dfy`): worked values. Each one is
  derived from the general lemmas. Among them are the docstring's two values.
- **ChannelStats** (`channel_stats.dfy`): the pure part of
  `fetch_channel_statistics`.
  - The short circuit on an empty list.
  - The query ids: non-empty, first occurrence kept, at most 50.
  - The fold of the response into an id → statistics map, where the last
    writer wins.
- **VideoItem** (`video_item.dfy`): the field resolution of
  `render_video_item`.
  - The thumbnail preference.
  - The `비공개` ("undisclosed") sentinel.
  - The `"0"` default for a missing view count.
  - The permalink.
- **Listing** (`listing.dfy`): the part of `main` after the popular videos
  arrive.
  - The channel ids.
  - The statistics call, with its failure read as an empty map.
  - One record per video, in order.
- **Region** (`region.dfy`): the region labels `"name (code)"` and the code
  read back from them with `split("(")[-1].strip(")")`.

HTTP responses are parameters. For example, `Listing.ShowListing` receives the
channels endpoint's items, or `None` when that call raised.

Where the formatter's docstring and its code disagree, the model follows the
code. The docstring says 27,700,000 → "277만명". The code divides once,
because 2,770 < 10,000, and prints "2770만명". This is proved in
`FormatterExamples.DocstringValues`.

## Model

| member | source | states |
|---|---|---|
| Strings.RStrip | streamlit_app.py:62 | The result is a prefix of the input that does not end in the stripped character. Everything removed is that character. |
| Strings.Strip | streamlit_app.py:239 | The result is a slice of the input with only the stripped character before it and after it. Neither end of the result is that character. |
| Strings.StripUnique | streamlit_app.py:239 | Exactly one text is the input with both runs of the character removed, so the description above fixes the result. |
| Strings.AfterLast | streamlit_app.py:239 | `split(c)[-1]`: a suffix of the input without `c`. It is either the whole input or preceded by a `c`. |
| Decimal.ParseInt | streamlit_app.py:47-51 | Parsing succeeds exactly for a non-empty string of ASCII digits with an optional leading `+`/`-`. A negative result needs a leading `-`. |
| Decimal.ParseIntPadding | streamlit_app.py:48 | On accepted text, a leading `0` or `+` leaves the value unchanged, and `-` negates the value of the digits, so `"-0"` is 0. With the round trip below, this fixes the value of every accepted text. |
| Decimal.ParseShowRoundTrip | streamlit_app.py:48 | Parsing the decimal text of any integer gives back that integer. |
| Decimal.GroupThousands | streamlit_app.py:60 | Grouping n digits adds (n − 1) / 3 separators. |
| Decimal.GroupThousandsShape | streamlit_app.py:60 | A comma sits exactly at every fourth position from the right end, never first. Every other character is a digit. |
| Decimal.GroupThousandsRoundTrip | streamlit_app.py:60 | Removing the separators from the grouped text gives back the digits. |
| Formatter.StepsFrom | streamlit_app.py:54-57 | The dividing loop, started at any rung it can reach, stops on a valid ladder index at or above that rung. |
| Formatter.Steps | streamlit_app.py:53-57 | The number of divisions is a ladder index: at most 4, 10000^k ≤ \|n\| when k ≥ 1, and \|n\| < 10000^(k+1) unless k = 4. |
| Formatter.LadderIndexUnique | streamlit_app.py:53-57 | A magnitude has exactly one ladder index. |
| Formatter.StepsIsLeast | streamlit_app.py:55-57 | Every rung below the chosen one was passed: the magnitude reached 10000^(j+1) for each j < k. |
| Formatter.RoundTenths | streamlit_app.py:62 | The result is the nearest tenth of a / d, with an exact tie going to the even tenth. |
| Formatter.NearestTenthsUnique | streamlit_app.py:62 | Nearest-tenth rounding with ties to even has exactly one answer. |
| Formatter.Compact | streamlit_app.py:62 | The compact text is non-empty and starts with a digit. |
| Formatter.CompactShape | streamlit_app.py:62 | `.rstrip("0").rstrip(".")` removes exactly a trailing `.0` and nothing else. |
| Formatter.CompactRoundTrip | streamlit_app.py:62 | The compact text reads back as exactly the tenths it was printed from, and never ends in `.` or `.0`. |
| Formatter.HumanReadableNumber | streamlit_app.py:43-63 | Unparsable text and values too large for a float come back unchanged. Otherwise the text ends with the unit and starts with `-` exactly when the value is negative. |
| Formatter.HumanReadableViews | streamlit_app.py:38-40 | Unparsable text comes back unchanged. A parsed count within float range ends in 회. |
| Formatter.SmallValueText | streamlit_app.py:59-60 | Below 10,000 in magnitude the text is the sign and the comma-grouped digits, then the unit. |
| Formatter.SmallValueReadsBack | streamlit_app.py:59-60 | Below 10,000, the text without its unit and commas parses back to the input value. |
| Formatter.LargeValueText | streamlit_app.py:53-63 | From 10,000 up the text is: the sign, the magnitude on its rung rounded to the nearest tenth, the rung's suffix, then the unit. |
| Formatter.ExactTenthsText | streamlit_app.py:61-63 | A magnitude that is a whole number of tenths of its rung prints those exact tenths, with no `.0`. |
| FormatterExamples.DocstringValues | streamlit_app.py:44-45 | "1730000" prints "173만명" and "27700000" prints "2770만명". |
| FormatterExamples.OneRungWhole | streamlit_app.py:45 | Any text reading as 1,730,000 prints "173만명". |
| FormatterExamples.DocstringSecondExample | streamlit_app.py:45 | Any text reading as 27,700,000 prints "2770만명". |
| FormatterExamples.BelowFirstRung | streamlit_app.py:59-60 | 9,999 views print "9,999회". |
| FormatterExamples.NegativeKeepsSign | streamlit_app.py:55-63 | −15,000 prints "-1.5만". |
| FormatterExamples.NotANumber | streamlit_app.py:47-51 | "not-a-number" and the already grouped "1,234" come back unchanged. |
| FormatterExamples.TieRoundsToEven | streamlit_app.py:62 | 12,500 (exactly 1.25만) prints "1.2만". |
| FormatterExamples.RoundingCarries | streamlit_app.py:55-63 | 99,999,600 rounds up to 10000.0 on the 만 rung without moving to 억: "10000만회". |
| ChannelStats.NonEmptyIds | streamlit_app.py:88 | The kept ids are exactly the input's non-empty ones. |
| ChannelStats.Dedup | streamlit_app.py:88 | Each element is kept once, and the set of elements is unchanged. |
| ChannelStats.QueryIds | streamlit_app.py:88-91 | At most 50 ids, pairwise distinct, none empty, each taken from the input. |
| ChannelStats.QueryIdsOrder | streamlit_app.py:88 | The query keeps first-occurrence order. |
| ChannelStats.QueryIdsComplete | streamlit_app.py:88-91 | The query has min(50, number of distinct non-empty ids) entries. With at most 50, every non-empty id is asked for. |
| ChannelStats.QueryIdsPrefix | streamlit_app.py:88-91 | The query holds the first ids seen: a non-empty id first seen before an id that is asked for is asked for too. |
| ChannelStats.StatsRequest | streamlit_app.py:86-91 | No request is sent exactly when the id list is empty. Otherwise the request carries the query ids. |
| ChannelStats.ShortCircuitOnlyOnEmptyList | streamlit_app.py:86-88 | A non-empty list of only empty ids still sends a request, with no ids in it. |
| ChannelStats.FoldStatistics | streamlit_app.py:97-101 | The map's keys are the response items' ids. Each key holds the statistics of the last item carrying it. |
| ChannelStats.StatsFoldUnique | streamlit_app.py:97-101 | That last-writer-wins description determines the map. |
| ChannelStats.FetchChannelStatistics | streamlit_app.py:82-101 | An empty id list gives an empty map and no request. Otherwise the query ids are requested and the response is folded. |
| VideoItem.ThumbnailUrl | streamlit_app.py:165-169 | The thumbnail is the first non-empty url among medium, high and default. It is absent when none is non-empty. |
| VideoItem.RenderVideoItem | streamlit_app.py:156-181 | Field by field, see the list after this table. |
| VideoItem.ZeroCountsAreShown | streamlit_app.py:170-172 | A present "0" like or comment count shows "0개". A missing view count shows "0회". |
| VideoItem.UnknownChannelIsUndisclosed | streamlit_app.py:176-181 | A channel the map does not know shows 비공개 for subscribers. |
| VideoItem.PermalinkDeterminesId | streamlit_app.py:173 | Equal permalinks come from equal video ids. |
| Listing.ChannelIds | streamlit_app.py:278 | One channel id per video, in order. |
| Listing.RenderAll | streamlit_app.py:284-285 | One record per video, the i-th record rendered from the i-th video. |
| Listing.ShowListing | streamlit_app.py:269-285 | See the list after this table. |
| Region.DisplayOptions | streamlit_app.py:228 | One `"name (code)"` label per preset, in order, then the custom entry. |
| Region.ExtractRegionCode | streamlit_app.py:239 | The code has no `(`. It is the text after the last `(` of the label with its leading and trailing `)` removed. |
| Region.SelectedRegion | streamlit_app.py:234-239 | The custom entry selects the typed code. |
| Region.LabelRoundTrip | streamlit_app.py:228-239 | Any code without `(` and not starting or ending in `)` is read back from its label, whatever the name. |
| Region.PresetsRoundTrip | streamlit_app.py:214-239 | Choosing the i-th preset label selects the i-th preset's code. |

`VideoItem.RenderVideoItem` states these fields:

- **Subscribers.** They are formatted only when the channel id is non-empty,
  is a key of the map, and its entry carries a subscriber count. Otherwise
  they show 비공개.
- **Likes and comments.** They show 비공개 exactly when the count is missing
  or null.
- **Views.** A missing count formats "0". A null one prints as "None".
- **Permalink.** It is the watch prefix followed by the video id. A missing
  id leaves the prefix alone.
- **Title and channel name.** A missing one shows its placeholder. A null one
  prints as "None".

`Listing.ShowListing` states these cases:

- Empty state exactly when there are no videos.
- Otherwise the statistics request always carries the query ids. The map is
  the fold of the response, or empty when the call failed.
- The records are the videos in order. After a failed call every subscriber
  count is 비공개.

## Left out

- HTTP calls, timeouts and error reporting (streamlit_app.py:66-78, 94-96, 249-267). They are network I/O. The responses are parameters instead.
- `st.cache_data` caching and its `.clear()` calls. This is library behaviour.
- Streamlit rendering, session state and the login gate (streamlit_app.py:104-153, 183-192, 195-213). They are UI plumbing with no computed result beyond what the records hold.
- Configuration loading (streamlit_app.py:13-32), the default select-box index (streamlit_app.py:229-233) and the slider bounds (streamlit_app.py:241). They are environment input and widget set-up.
- The comma join of the query ids (streamlit_app.py:91). The model stops at the list of ids.
- The footer timestamp (streamlit_app.py:288). It reads the clock.
- Formatter.HumanReadableNumber: uses exact rational arithmetic in place of binary floats.
  - Python's result can differ above 2^53, where `float(int(n))` rounds.
  - It can also differ at a `.x5` tie that has no exact binary form. 10,500 is 1.05만: Python's float is slightly above 1.05 and prints "1.1만", while the exact tie rounds to even and gives "1만".
  - Exactly representable ties agree, such as 12,500 → "1.2만".
- Decimal.ParseInt: accepts only an optional sign and ASCII digits. Python's `int()` also accepts surrounding whitespace, `_` separators and non-ASCII digits. The model passes such text through unchanged where Python would format it.
- VideoItem.RenderVideoItem: takes counts as JSON strings. A count sent as a JSON number is not representable, and neither is a `null` in place of the `snippet`, `statistics` or `thumbnails` object.
  - A null `snippet` stops the page at streamlit_app.py:278, where the channel ids are collected outside the `try`. No record is shown.
  - A null `statistics` or `thumbnails` object makes `render_video_item` raise (streamlit_app.py:170, 166).
- VideoItem.ThumbnailUrl: a thumbnail size present as `null` is not representable. Python's `thumbs.get(size, {})` then returns `None`, and `.get("url")` on it raises once the `or` chain reaches that size (streamlit_app.py:166-168). The page stops there, since the render loop at streamlit_app.py:284-285 has no `try`. The model only has a missing size, which falls through to the next one.
- Listing.ChannelIds: reads a `null` channel id as `""`. Python keeps `None` in the list. The two are dropped alike by the filter at streamlit_app.py:88 and weigh alike in the emptiness test at streamlit_app.py:86, so the request and the map are the same.
