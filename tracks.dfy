/**
 * A chart entry as the bot reads it from the playlist response, and the
 * one-line rendering `"{rank}. {name} - {artist}\n"` that both the thread
 * composer and `format_tracks` build.
 */
module Tracks {
  import opened Text

  datatype Artist = Artist(name: string)

  /** The `track` object of a playlist item; only the first artist is read. */
  datatype Track = Track(name: string, artists: seq<Artist>)

  /** Every track has a first artist (`artists[0]` is read unguarded). */
  predicate WellFormed(tracks: seq<Track>)
  {
    forall i :: 0 <= i < |tracks| ==> tracks[i].artists != []
  }

  /** The line for the track at 1-based position `rank`. */
  function TrackLine(rank: nat, t: Track): string
    requires t.artists != []
  {
    NatToString(rank) + ". " + t.name + " - " + t.artists[0].name + "\n"
  }

  /** All lines of a chart, ranked 1, 2, ... in chart order. */
  function TrackLines(tracks: seq<Track>): (lines: seq<string>)
    requires WellFormed(tracks)
    ensures |lines| == |tracks|
  {
    if tracks == [] then []
    else TrackLines(tracks[..|tracks| - 1]) + [TrackLine(|tracks|, tracks[|tracks| - 1])]
  }

  /** Line `i` of a chart is the line of its `i`-th track, ranked `i + 1`. */
  lemma {:induction false} TrackLinesAt(tracks: seq<Track>, i: nat)
    requires WellFormed(tracks) && i < |tracks|
    ensures TrackLines(tracks)[i] == TrackLine(i + 1, tracks[i])
    decreases |tracks|
  {
    var front := tracks[..|tracks| - 1];
    if i < |front| {
      TrackLinesAt(front, i);
      assert front[i] == tracks[i];
    }
  }

  /** A chart's lines are never empty: each ends with a newline. */
  lemma TrackLinesNonEmpty(tracks: seq<Track>)
    requires WellFormed(tracks)
    ensures forall i :: 0 <= i < |tracks| ==> TrackLines(tracks)[i] != ""
  {
    forall i | 0 <= i < |tracks| ensures TrackLines(tracks)[i] != "" {
      TrackLinesAt(tracks, i);
    }
  }

  /** The rank a reader sees at the head of a line: its leading number. */
  function RankOf(line: string): nat
  {
    ParseDecimal(LeadingDigits(line))
  }

  /**
   * A track line starts with `"{rank}. "`, so its leading number is its rank;
   * it starts with a digit and ends with a newline.
   */
  lemma TrackLineShape(rank: nat, t: Track)
    requires t.artists != []
    ensures var line := TrackLine(rank, t);
      && line[..|NatToString(rank)| + 2] == NatToString(rank) + ". "
      && RankOf(line) == rank
      && IsDigit(line[0]) && !IsSpace(line[0])
      && line[|line| - 1] == '\n'
  {
    var digits := NatToString(rank);
    var rest := ". " + t.name + " - " + t.artists[0].name + "\n";
    assert TrackLine(rank, t) == digits + rest;
    LeadingDigitsOf(digits, rest);
    NatToStringRoundTrip(rank);
  }

  /** Line `i` of a chart starts with a non-space (a digit) and ends with whitespace (a newline). */
  lemma TrackLineEnds(tracks: seq<Track>, i: nat)
    requires WellFormed(tracks) && i < |tracks|
    ensures var line := TrackLines(tracks)[i];
      line != "" && !IsSpace(line[0]) && IsSpace(line[|line| - 1])
  {
    TrackLinesAt(tracks, i);
    TrackLineShape(i + 1, tracks[i]);
  }
}
