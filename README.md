# Spotify chart thread bot — model of the thread composer and the track formatter

The bot reads the top tracks of a Spotify playlist and posts them to Twitter
as a thread. This project models the two functions of `botTwitterCharts.py`
that turn a chart into text:

- `tweet_thread(title, tracks)` posts the title. It then renders each track as
  `"{rank}. {name} - {first artist}\n"` and appends the lines to a buffer.
  Before appending a line that would take the buffer past 280 characters, it
  posts the buffer, stripped, as a reply to the previous post and empties it.
  At the end it posts whatever the buffer still holds.
- `format_tracks(tracks, max_length)` keeps appending the same lines while the
  running total stays within `max_length`. It stops at the first line that
  does not fit and returns the kept lines joined.

The model has five modules:

- `Text`: Python's `"".join`, `str.strip()` (with `str.isspace`'s character
  set), and the decimal rendering of a rank.
- `Tracks`: the chart entry and its one-line rendering.
- `Chunking`: the greedy packing of lines into post-sized groups, as
  functions. It proves what the packing guarantees: every line lands in one
  group in order, groups fit the cap, and groups close only when forced. It
  also proves the packing is the *unique* greedy packing.
- `Twitter`: the posting client, a class whose `log` records every created
  post and whose `nextId` is the id of the next post.
- `Bot`: `TweetThread` and `FormatTracks` as imperative methods whose loops
  are proved against the functions above, plus lemmas on the resulting
  thread (reply chain, rank numbering, empty posts, stripping).

`TweetThread` follows the code where the code and its description differ:

- The code calls `strip()`, so leading whitespace is removed too, not only
  trailing whitespace.
- When the first track's line alone is longer than 280 characters, the code
  still posts the empty buffer, as an empty reply, before that line. The
  model reproduces this empty reply (`Bot.EmptyReplyOnlyForOversizedFirstLine`).

## Model

| member | source | states |
|---|---|---|
| Bot.ThreadPosts | botTwitterCharts.py:70-90 | the closed form of a thread: the title post with no parent, then one post per buffer carrying it stripped, with consecutive ids, each replying to the post before it (its properties are `Bot.ThreadPostsShape`) |
| Bot.FormattedText | botTwitterCharts.py:93-108 | the closed form of `format_tracks`: the first `FitCount` chart lines joined; its ensures states the result is at most `max_length` long or empty |
| Bot.TweetThread | botTwitterCharts.py:57-90 | posts exactly the title, then one reply per buffer of the greedy packing of the ranked lines, each buffer stripped and replying to the post before it; the client's log grows by just those posts and its ids stay increasing |
| Bot.PostFullBuffers | botTwitterCharts.py:74-88 | the `for` loop: after it, the posts made are the title plus one stripped reply per closed group, the ids advanced by one per post, and the closed groups followed by the packing of the rest from the open buffer are the whole packing |
| Bot.LogAfterFlush | botTwitterCharts.py:82-85 | flushing the buffer appends a single post replying to the previous id, which is the thread so far extended by that buffer |
| Bot.ThreadEnd | botTwitterCharts.py:89-90 | after the loop, a non-empty buffer is the last group and posting it completes the thread; an empty buffer means the thread is already complete |
| Bot.ThreadPostsShape | botTwitterCharts.py:70-90 | the thread has one post more than there are buffers; post 0 is the title with no parent; post `j` has id `firstId + j`; post `j + 1` carries buffer `j` stripped and replies to id `firstId + j` |
| Bot.ThreadIsReplyChain | botTwitterCharts.py:68-84 | the thread is one linear chain: only the title has no parent, and every other post replies to the post created just before it |
| Bot.ThreadPostsAppend | botTwitterCharts.py:83-84 | flushing one more group adds one post at the end of the thread, replying to the previous last post |
| Bot.OnlyTitleForEmptyChart | botTwitterCharts.py:78-90 | there are no replies exactly when the chart is empty |
| Bot.RankAt | botTwitterCharts.py:78-80 | ranks are the 1-based chart positions whichever post a line lands in: line `m` of group `j` is the chart line at position `k = Start(j) + m`, i.e. the line of track `k` rendered with rank `k + 1`, and its leading number reads as `k + 1` |
| Bot.RanksContinueAcrossPosts | botTwitterCharts.py:78-87 | the next post opens with the rank after the previous post's last rank, or with rank 1 after the empty reply; no group after the first is empty |
| Bot.BufferEnds | botTwitterCharts.py:80-87 | a buffer holding lines starts with a non-space (a digit) and ends with whitespace (a newline) |
| Bot.EmptyReplyOnlyForOversizedFirstLine | botTwitterCharts.py:82-83 | a reply's text is empty if and only if it is the first reply and the first track's line alone is over 280 characters |
| Bot.PostTextDropsOnlyTrailingWhitespace | botTwitterCharts.py:83 | `strip()` on a non-empty buffer only removes trailing whitespace, and removes at least the final newline |
| Bot.FormatTracks | botTwitterCharts.py:93-108 | `max_length` defaults to 280; returns the join of the longest run of leading lines whose total fits `max_length`; the result fits `max_length` or is empty; an empty chart gives `""` |
| Bot.FormatTracksMatchesFirstBuffer | botTwitterCharts.py:82-108 | with the 280 cap, `format_tracks` returns exactly the first buffer the thread composer flushes |
| Twitter.Client.constructor | botTwitterCharts.py:64 | a new client has an empty log and satisfies the id invariant |
| Twitter.Client.CreateTweet | botTwitterCharts.py:71-72 | appends one post with the given text and parent, returns its id, and keeps the ids increasing, so the new id is fresh |
| Tracks.TrackLine | botTwitterCharts.py:80 | the f-string `"{rank}. {name} - {first artist}\n"` for one track (its properties are `Tracks.TrackLineShape`) |
| Tracks.TrackLines | botTwitterCharts.py:78-80 | the lines of a whole chart, ranked from 1 as `enumerate(tracks, start=1)` does; its ensures states there is one line per track |
| Tracks.TrackLinesAt | botTwitterCharts.py:78-80 | line `i` of the chart is the line of track `i` with rank `i + 1` |
| Tracks.TrackLineShape | botTwitterCharts.py:80 | a track line begins with the rank's digits and `". "`, its leading number is the rank, it starts with a digit and ends with `\n` |
| Tracks.TrackLineEnds | botTwitterCharts.py:78-80 | every chart line is non-empty, starts with a non-space and ends with whitespace |
| Chunking.GroupFrom | botTwitterCharts.py:78-90 | the packing loop as a recursion over the remaining lines with the buffer's lines `cur`: flush before a line that would take the buffer over the cap (even an empty buffer), flush a non-empty buffer at the end; its ensures bounds the groups by one per line plus one |
| Chunking.Groups | botTwitterCharts.py:76-90 | the packing from an empty buffer; its ensures states at most one group per line plus the possible empty first group, and none for no lines |
| Chunking.FitCount | botTwitterCharts.py:97-106 | the `break` cut-off of `format_tracks`: the count of leading lines kept; the kept lines fit the budget and one more line would not |
| Chunking.PackStep | botTwitterCharts.py:82-87 | one loop step either closes the open group and opens a new one with the line, or adds the line to the open group, and the packing is preserved |
| Chunking.PackEnd | botTwitterCharts.py:89-90 | when the lines run out, the open group is the last group exactly when it is non-empty |
| Chunking.GroupsPartition | botTwitterCharts.py:78-87 | the groups, concatenated, are exactly the lines in order; the buffers joined are the lines joined; there are no groups only for no lines |
| Chunking.GroupsFit | botTwitterCharts.py:82-87 | every buffer is at most the cap, unless it is a single line longer than the cap |
| Chunking.GroupsGreedy | botTwitterCharts.py:82 | a buffer is closed before the end only when the next group's first line would take it past the cap |
| Chunking.GroupsEmptyBuffer | botTwitterCharts.py:82-85 | an empty buffer is flushed if and only if the first line alone is over the cap, and only as the first group |
| Chunking.GroupsFirst | botTwitterCharts.py:82-87 | the first group is the longest run of leading lines that fits the cap |
| Chunking.BufferEndsAt | botTwitterCharts.py:87 | a buffer with lines begins as its first line begins and ends as its last line ends |
| Chunking.FitCountIsLongestFittingPrefix | botTwitterCharts.py:102-106 | the first `m` lines fit the budget if and only if `m` is at most the count of lines kept |
| Chunking.GroupsArePacking | botTwitterCharts.py:78-90 | the computed groups are a greedy packing: they partition the lines, fit, and close only when forced |
| Chunking.PackingIsGroups | botTwitterCharts.py:78-90 | any greedy packing of the lines equals the computed groups |
| Chunking.GroupsIsTheGreedyPacking | botTwitterCharts.py:78-90 | a grouping is a greedy packing if and only if it is the computed one |
| Text.Concat | botTwitterCharts.py:108 | `"".join`: the strings one after another (its properties are `Text.ConcatAppend`) |
| Text.IsSpace | botTwitterCharts.py:83 | the characters Python's `str.isspace` accepts, which `strip()` removes |
| Text.TrimStart | botTwitterCharts.py:83 | the left half of `strip()` (its properties are `Text.TrimStartSpec`) |
| Text.TrimEnd | botTwitterCharts.py:83 | the right half of `strip()` (its properties are `Text.TrimEndSpec`) |
| Text.Strip | botTwitterCharts.py:83 | `str.strip()` as the right strip of the left strip (its properties are `Text.StripSpec`) |
| Text.NatToString | botTwitterCharts.py:80 | `str(idx)` for the rank: its ensures states a non-empty string of decimal digits with no leading zero |
| Text.StripSpec | botTwitterCharts.py:83 | `strip()` leaves the input as leading whitespace, result, trailing whitespace; the result has no whitespace at either end; it is empty exactly when the input is all whitespace |
| Text.TrimStartSpec | botTwitterCharts.py:83 | the left strip removes leading whitespace and nothing else |
| Text.TrimEndSpec | botTwitterCharts.py:83 | the right strip removes trailing whitespace and nothing else |
| Text.NatToStringRoundTrip | botTwitterCharts.py:80 | the rank rendered in decimal reads back as the rank |
| Text.ConcatAppend | botTwitterCharts.py:108 | joining two lists one after the other is joining each and concatenating the results |

## Left out

- `get_access_token`, `get_top_tracks` and `main` are not modelled. They fetch the chart over HTTP, read credentials from the environment and sleep between cycles.
- Building the tweepy client and OAuth handler from environment variables is not modelled. `TweetThread` takes the client as a parameter, and the unused `tweepy.API` object is dropped.
- Failures of `create_tweet` (exceptions, rate limits, rejected empty or over-long posts) are not modelled. Every call succeeds.
- Post ids are modelled as a counter issued by the client (`Twitter.Client.nextId`), not as the platform's opaque ids. Only their order and freshness matter to the thread.
- The `async` scheduling of `tweet_thread` is not modelled.
- Length is counted in characters, as `len` does. Twitter's weighted character count is not modelled.
- Tracks whose `artists` list is empty are excluded by `Tracks.WellFormed` for both functions, since the source reads `artists[0]` unguarded. `format_tracks` never reads the tracks after its cut-off, so the source accepts such a track there and the model does not. On such a track `tweet_thread` raises after posting the title and every earlier full buffer; that partial thread is not modelled.
- The playlist item's `track` wrapper is flattened: a chart is a sequence of `Tracks.Track`.
- `Twitter.Client.CreateTweet`: the freshness of the new id is not a clause of its own. It follows from `Valid()` together with `id == old(nextId)`.
- `Bot.PostFullBuffers`: the `for` loop of `tweet_thread` is a method of its own, called once by `Bot.TweetThread`.
