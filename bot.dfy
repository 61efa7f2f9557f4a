/**
 * The two text-handling functions of the chart bot: `tweet_thread`, which
 * posts a title and then the chart packed into reply-chained posts, and
 * `format_tracks`, which renders as many chart lines as fit a length budget.
 */
module Bot {
  import opened Text
  import opened Tracks
  import opened Chunking
  import opened Twitter

  /** The per-post character cap the thread composer packs against. */
  const MaxTweetLength: nat := 280

  /** The buffers `tweet_thread` flushes for a chart, before stripping. */
  function ThreadBuffers(tracks: seq<Track>): seq<string>
    requires WellFormed(tracks)
  {
    Buffers(TrackLines(tracks), MaxTweetLength)
  }

  /** The groups of chart lines behind `ThreadBuffers`. */
  function ThreadGroups(tracks: seq<Track>): seq<seq<string>>
    requires WellFormed(tracks)
  {
    Groups(TrackLines(tracks), MaxTweetLength)
  }

  /**
   * The posts of one thread when the platform hands out ids from `firstId`:
   * the title with no parent, then each buffer stripped, each replying to the
   * post created just before it.
   */
  function ThreadPosts(title: string, buffers: seq<string>, firstId: nat): seq<Post>
  {
    [Post(firstId, title, None)]
      + seq(|buffers|, j requires 0 <= j < |buffers| => Post(firstId + j + 1, Strip(buffers[j]), Some(firstId + j)))
  }

  /**
   * Post `j` of a thread has id `firstId + j`; the first is the title with no
   * parent; post `j + 1` carries buffer `j` stripped and replies to id
   * `firstId + j`.
   */
  lemma ThreadPostsShape(title: string, buffers: seq<string>, firstId: nat)
    ensures var ps := ThreadPosts(title, buffers, firstId);
      && |ps| == |buffers| + 1
      && ps[0] == Post(firstId, title, None)
      && (forall j :: 0 <= j < |ps| ==> ps[j].id == firstId + j)
      && (forall j :: 0 <= j < |buffers| ==> ps[j + 1].text == Strip(buffers[j]))
      && (forall j :: 1 <= j < |ps| ==> ps[j].inReplyTo == Some(firstId + j - 1))
  {
  }

  /**
   * A thread is one linear reply chain: only the first post has no parent and
   * every later post replies to the post right before it.
   */
  lemma ThreadIsReplyChain(title: string, buffers: seq<string>, firstId: nat)
    ensures var ps := ThreadPosts(title, buffers, firstId);
      && ps[0].inReplyTo == None
      && forall j :: 1 <= j < |ps| ==> ps[j].inReplyTo == Some(ps[j - 1].id)
  {
    ThreadPostsShape(title, buffers, firstId);
  }

  /** Flushing one more buffer adds one reply to the thread, to the last post. */
  lemma ThreadPostsAppend(title: string, gs: seq<seq<string>>, g: seq<string>, firstId: nat)
    ensures ThreadPosts(title, Joined(gs + [g]), firstId)
         == ThreadPosts(title, Joined(gs), firstId) + [Post(firstId + |gs| + 1, Strip(Concat(g)), Some(firstId + |gs|))]
  {
    var bs, bs' := Joined(gs), Joined(gs + [g]);
    assert bs'[..|bs'| - 1] == bs;
  }

  /**
   * `tweet_thread(title, tracks)`: posts the title, then packs the ranked
   * track lines greedily into buffers of at most `MaxTweetLength` characters,
   * posting each full buffer (stripped) as a reply to the previous post, and
   * the last non-empty buffer at the end.
   */
  method TweetThread(client: Client, title: string, tracks: seq<Track>)
    requires WellFormed(tracks)
    requires client.Valid()
    modifies client
    ensures client.Valid()
    ensures client.log == old(client.log) + ThreadPosts(title, ThreadBuffers(tracks), old(client.nextId))
    ensures client.nextId == old(client.nextId) + 1 + |ThreadBuffers(tracks)|
  {
    ghost var firstId := client.nextId;
    var titleId := client.CreateTweet(title, None);
    var content, previousId;
    ghost var cur, flushed;
    content, previousId, cur, flushed := PostFullBuffers(client, title, tracks, titleId, old(client.log));
    ThreadEnd(old(client.log), client.log, title, tracks, flushed, cur, firstId, Strip(content), previousId);
    if content != "" {
      var lastId := client.CreateTweet(Strip(content), Some(previousId));
    }
  }

  /**
   * The `for` loop of `tweet_thread`: walks the chart in order, building each
   * track's line; when the buffer plus the line would exceed `MaxTweetLength`
   * it posts the buffer, stripped, as a reply to the previous post and starts
   * an empty buffer; then it appends the line. It returns the buffer still
   * unposted and the id of the last post, here as the closed groups
   * `flushed` and the open group `cur` of the greedy packing.
   */
  method PostFullBuffers(client: Client, title: string, tracks: seq<Track>, titleId: nat, ghost log0: seq<Post>)
      returns (content: string, previousId: nat, ghost cur: seq<string>, ghost flushed: seq<seq<string>>)
    requires WellFormed(tracks)
    requires client.Valid()
    requires client.nextId == titleId + 1
    requires client.log == log0 + ThreadPosts(title, [], titleId)
    modifies client
    ensures client.Valid()
    ensures content == Concat(cur)
    ensures flushed + GroupFrom(TrackLines(tracks)[|tracks|..], MaxTweetLength, cur) == ThreadGroups(tracks)
    ensures previousId == titleId + |flushed|
    ensures client.nextId == previousId + 1
    ensures client.log == log0 + ThreadPosts(title, Joined(flushed), titleId)
  {
    ghost var lines := TrackLines(tracks);
    previousId := titleId;
    content := "";
    cur := [];
    flushed := [];
    var i := 0;
    while i < |tracks|
      invariant 0 <= i <= |tracks|
      invariant client.Valid()
      invariant content == Concat(cur)
      invariant flushed + GroupFrom(lines[i..], MaxTweetLength, cur) == Groups(lines, MaxTweetLength)
      invariant previousId == titleId + |flushed|
      invariant client.nextId == previousId + 1
      invariant client.log == log0 + ThreadPosts(title, Joined(flushed), titleId)
    {
      var trackInfo := TrackLine(i + 1, tracks[i]);
      TrackLinesAt(tracks, i);
      PackStep(lines, i, MaxTweetLength, flushed, cur);
      if |content| + |trackInfo| > MaxTweetLength {
        LogAfterFlush(log0, client.log, title, flushed, cur, titleId, Strip(content), previousId);
        var tweetId := client.CreateTweet(Strip(content), Some(previousId));
        previousId := tweetId;
        flushed := flushed + [cur];
        content := "";
        cur := [];
      }
      ConcatSnoc(cur, trackInfo);
      content := content + trackInfo;
      cur := cur + [trackInfo];
      i := i + 1;
    }
  }

  /** Flushing one more buffer appends its post to the log of the thread so far. */
  lemma LogAfterFlush(log0: seq<Post>, log: seq<Post>, title: string, flushed: seq<seq<string>>, cur: seq<string>,
                      firstId: nat, text: string, parent: nat)
    requires log == log0 + ThreadPosts(title, Joined(flushed), firstId)
    requires text == Strip(Concat(cur)) && parent == firstId + |flushed|
    ensures log + [Post(parent + 1, text, Some(parent))] == log0 + ThreadPosts(title, Joined(flushed + [cur]), firstId)
  {
    ThreadPostsAppend(title, flushed, cur, firstId);
  }

  /** When the chart runs out, flushing the open buffer if it is non-empty completes the thread. */
  lemma ThreadEnd(log0: seq<Post>, log: seq<Post>, title: string, tracks: seq<Track>, flushed: seq<seq<string>>, cur: seq<string>,
                  firstId: nat, text: string, parent: nat)
    requires WellFormed(tracks)
    requires flushed + GroupFrom(TrackLines(tracks)[|tracks|..], MaxTweetLength, cur) == ThreadGroups(tracks)
    requires log == log0 + ThreadPosts(title, Joined(flushed), firstId)
    requires text == Strip(Concat(cur)) && parent == firstId + |flushed|
    ensures Concat(cur) != "" ==>
      && |ThreadBuffers(tracks)| == |flushed| + 1
      && log + [Post(parent + 1, text, Some(parent))] == log0 + ThreadPosts(title, ThreadBuffers(tracks), firstId)
    ensures Concat(cur) == "" ==>
      && |ThreadBuffers(tracks)| == |flushed|
      && log == log0 + ThreadPosts(title, ThreadBuffers(tracks), firstId)
  {
    var lines := TrackLines(tracks);
    PackEnd(lines, MaxTweetLength, flushed, cur);
    LogAfterFlush(log0, log, title, flushed, cur, firstId, text, parent);
  }

  /** What `format_tracks(tracks, max_length)` returns. */
  function FormattedText(tracks: seq<Track>, maxLength: int): (text: string)
    requires WellFormed(tracks)
    ensures |text| <= maxLength || text == ""
  {
    var lines := TrackLines(tracks);
    Concat(lines[..FitCount(lines, maxLength)])
  }

  /**
   * `format_tracks(tracks, max_length)`: appends ranked track lines while the
   * running total stays within `maxLength`, stops at the first line that does
   * not fit, and joins what it kept.
   */
  method FormatTracks(tracks: seq<Track>, maxLength: int := 280) returns (text: string)
    requires WellFormed(tracks)
    ensures text == FormattedText(tracks, maxLength)
    ensures |text| <= maxLength || text == ""
    ensures tracks == [] ==> text == ""
  {
    ghost var lines := TrackLines(tracks);
    var formatted: seq<string> := [];
    var totalLength := 0;
    var i := 0;
    while i < |tracks|
      invariant 0 <= i <= |tracks|
      invariant formatted == lines[..i]
      invariant totalLength == |Concat(formatted)|
      invariant i > 0 ==> totalLength <= maxLength
      invariant i <= FitCount(lines, maxLength)
    {
      var trackInfo := TrackLine(i + 1, tracks[i]);
      var trackLength := |trackInfo|;
      TrackLinesAt(tracks, i);
      PrefixSnoc(lines, i);
      ConcatSnoc(formatted, trackInfo);
      assert |Concat(lines[..i + 1])| == totalLength + trackLength;
      if totalLength + trackLength <= maxLength {
        FitCountIsLongestFittingPrefix(lines, maxLength, i + 1);
        formatted := formatted + [trackInfo];
        totalLength := totalLength + trackLength;
      } else {
        FitCountIsLongestFittingPrefix(lines, maxLength, i + 1);
        break;
      }
      i := i + 1;
    }
    assert formatted == lines[..FitCount(lines, maxLength)];
    text := Concat(formatted);
  }

  // ---------------------------------------------------------------------------
  // What a thread looks like
  // ---------------------------------------------------------------------------

  /** With no tracks only the title is posted; with tracks at least one reply follows. */
  lemma OnlyTitleForEmptyChart(tracks: seq<Track>)
    requires WellFormed(tracks)
    ensures ThreadBuffers(tracks) == [] <==> tracks == []
  {
    TrackLinesNonEmpty(tracks);
    GroupsPartition(TrackLines(tracks), MaxTweetLength);
  }

  /**
   * Ranks are the 1-based chart positions, whichever post a line lands in:
   * line `m` of buffer `j` is the line of the track at position `k`, rendered
   * with rank `k + 1`, and reads as that rank.
   */
  lemma RankAt(tracks: seq<Track>, j: nat, m: nat)
    requires WellFormed(tracks)
    requires j < |ThreadGroups(tracks)| && m < |ThreadGroups(tracks)[j]|
    ensures var gs := ThreadGroups(tracks); var k := Start(gs, j) + m;
      && k < |tracks|
      && gs[j][m] == TrackLines(tracks)[k] == TrackLine(k + 1, tracks[k])
      && RankOf(gs[j][m]) == k + 1
  {
    var gs := ThreadGroups(tracks);
    TrackLinesNonEmpty(tracks);
    GroupsPartition(TrackLines(tracks), MaxTweetLength);
    FlattenIndex(gs, j, m);
    var k := Start(gs, j) + m;
    TrackLinesAt(tracks, k);
    TrackLineShape(k + 1, tracks[k]);
  }

  /**
   * Numbering continues across posts: the next post starts one rank after
   * the previous post's last rank, or at rank 1 after an empty reply.
   */
  lemma RanksContinueAcrossPosts(tracks: seq<Track>, j: nat)
    requires WellFormed(tracks)
    requires j + 1 < |ThreadGroups(tracks)|
    ensures ThreadGroups(tracks)[j + 1] != []
    ensures var gs := ThreadGroups(tracks);
      RankOf(gs[j + 1][0]) == if gs[j] == [] then 1 else RankOf(gs[j][|gs[j]| - 1]) + 1
  {
    var gs := ThreadGroups(tracks);
    TrackLinesNonEmpty(tracks);
    GroupsEmptyBuffer(TrackLines(tracks), MaxTweetLength);
    RankAt(tracks, j + 1, 0);
    FlattenAround(gs, j);
    if gs[j] == [] {
      assert gs[..0] == [];
    } else {
      RankAt(tracks, j, |gs[j]| - 1);
    }
  }

  /** A buffer holding at least one line starts with a digit and ends with a newline. */
  lemma BufferEnds(tracks: seq<Track>, j: nat)
    requires WellFormed(tracks)
    requires j < |ThreadGroups(tracks)| && ThreadGroups(tracks)[j] != []
    ensures var b := ThreadBuffers(tracks)[j];
      b != "" && !IsSpace(b[0]) && IsSpace(b[|b| - 1])
  {
    var gs := ThreadGroups(tracks);
    TrackLinesNonEmpty(tracks);
    BufferEndsAt(TrackLines(tracks), MaxTweetLength, j);
    TrackLineEnds(tracks, Start(gs, j));
    TrackLineEnds(tracks, Start(gs, j) + (|gs[j]| - 1));
  }

  /** A reply is empty exactly when it is the first one and the first track's line alone is over the cap. */
  lemma EmptyReplyOnlyForOversizedFirstLine(tracks: seq<Track>, j: nat)
    requires WellFormed(tracks)
    requires j < |ThreadBuffers(tracks)|
    ensures Strip(ThreadBuffers(tracks)[j]) == ""
        <==> (j == 0 && tracks != [] && |TrackLine(1, tracks[0])| > MaxTweetLength)
  {
    var gs := ThreadGroups(tracks);
    var b := ThreadBuffers(tracks)[j];
    TrackLinesNonEmpty(tracks);
    GroupsEmptyBuffer(TrackLines(tracks), MaxTweetLength);
    if tracks != [] {
      TrackLinesAt(tracks, 0);
    }
    if gs[j] != [] {
      BufferEnds(tracks, j);
      StripSpec(b);
    } else {
      assert b == Concat(gs[j]);
    }
  }

  /**
   * Stripping a non-empty buffer removes only trailing whitespace, and at
   * least the newline that ends its last line.
   */
  lemma PostTextDropsOnlyTrailingWhitespace(tracks: seq<Track>, j: nat)
    requires WellFormed(tracks)
    requires j < |ThreadGroups(tracks)| && ThreadGroups(tracks)[j] != []
    ensures var b := ThreadBuffers(tracks)[j];
      && ThenSpace(Strip(b), b)
      && |Strip(b)| < |b|
  {
    BufferEnds(tracks, j);
    StripDropsTrailingSpace(ThreadBuffers(tracks)[j]);
  }

  /**
   * `format_tracks` with the post cap yields exactly the first buffer the
   * thread composer would flush: both take the longest run of leading lines
   * that fits.
   */
  lemma FormatTracksMatchesFirstBuffer(tracks: seq<Track>)
    requires WellFormed(tracks) && tracks != []
    ensures |ThreadBuffers(tracks)| > 0
    ensures FormattedText(tracks, MaxTweetLength) == ThreadBuffers(tracks)[0]
  {
    TrackLinesNonEmpty(tracks);
    GroupsFirst(TrackLines(tracks), MaxTweetLength);
  }
}
