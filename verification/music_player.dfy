/**
 * The music player's list logic: formatting the fetched tracks, moving to
 * the next or previous track with wrap-around, growing the lazily rendered
 * window on scroll, gating play/pause on a loaded track, and marking the
 * current track in the rendered list. Audio loading and playback are outside
 * the model; whether a track is loaded is an input.
 */
module MusicPlayer {
  import opened Options
  import Text

  /** A track as the catalogue service sends it; absent fields are `None`. */
  datatype RawTrack = RawTrack(name: Option<string>, audio: string, albumImage: Option<string>, duration: Option<int>)

  datatype Track = Track(title: string, src: string, cover: string, size: string)

  const PlaceholderCover: string := "https://via.placeholder.com/150"

  predicate Truthy(s: Option<string>) {
    s.Some? && s.value != ""
  }

  /** `Math.round(seconds / 60)` on whole seconds: the nearest whole minute, halves rounded up. */
  function RoundMinutes(seconds: int): (m: int)
    ensures 60 * m - 30 <= seconds < 60 * m + 30
  {
    (seconds + 30) / 60
  }

  /** The size label: "Unknown" for a missing or zero duration, otherwise the rounded minutes and " min". */
  function SizeLabel(duration: Option<int>): (size: string)
    ensures duration.None? || duration.value == 0 ==> size == "Unknown"
    ensures duration.Some? && duration.value != 0 ==>
      && |size| > 4 && size[|size| - 4..] == " min"
      && size[..|size| - 4] == Text.IntToString(RoundMinutes(duration.value))
  {
    if duration.Some? && duration.value != 0 then
      var digits := Text.IntToString(RoundMinutes(duration.value));
      var size := digits + " min";
      assert size[|size| - 4..] == " min" && size[..|size| - 4] == digits;
      size
    else "Unknown"
  }

  /** The default title of the track at position `i`. */
  function DefaultTitle(i: nat): (title: string)
    ensures |title| > 15 && title[..15] == "Relaxing Track "
    ensures title[15..] == Text.NatToString(i + 1)
  {
    var t := "Relaxing Track " + Text.NatToString(i + 1);
    assert t[..15] == "Relaxing Track " && t[15..] == Text.NatToString(i + 1);
    t
  }

  /** The formatting applied to the track at position `i` of the response. */
  function Format(t: RawTrack, i: nat): (r: Track)
    ensures r.src == t.audio
    ensures Truthy(t.name) ==> r.title == t.name.value
    ensures !Truthy(t.name) ==> r.title == DefaultTitle(i)
    ensures r.cover == (if Truthy(t.albumImage) then t.albumImage.value else PlaceholderCover)
    ensures r.size == SizeLabel(t.duration)
  {
    Track(if Truthy(t.name) then t.name.value else DefaultTitle(i),
          t.audio,
          if Truthy(t.albumImage) then t.albumImage.value else PlaceholderCover,
          SizeLabel(t.duration))
  }

  /** Every track of the response, formatted in order. */
  function FormatAll(raw: seq<RawTrack>): (tracks: seq<Track>)
    ensures |tracks| == |raw|
    ensures forall i :: 0 <= i < |raw| ==> tracks[i] == Format(raw[i], i)
  {
    seq(|raw|, i requires 0 <= i < |raw| => Format(raw[i], i))
  }

  /** No formatted track has an empty title or cover. */
  lemma FormattedTitlesNonEmpty(raw: seq<RawTrack>)
    ensures forall i :: 0 <= i < |raw| ==> FormatAll(raw)[i].title != [] && FormatAll(raw)[i].cover != []
  {
  }

  // ---------------------------------------------------------------------------
  // Track navigation

  /** `playNext`: the last track wraps to the first. */
  function Next(i: int, n: int): (j: int)
    ensures 0 < n && 0 <= i < n ==> 0 <= j < n
    ensures 0 <= i < n - 1 ==> j == i + 1
    ensures i == n - 1 ==> j == 0
  {
    if i == n - 1 then 0 else i + 1
  }

  /** `playPrevious`: the first track wraps to the last. */
  function Previous(i: int, n: int): (j: int)
    ensures 0 < n && 0 <= i < n ==> 0 <= j < n
    ensures 0 < i ==> j == i - 1
    ensures i == 0 ==> j == n - 1
  {
    if i == 0 then n - 1 else i - 1
  }

  /** Next and previous undo each other on every valid index. */
  lemma NextPreviousInverse(i: int, n: int)
    requires 0 <= i < n
    ensures Previous(Next(i, n), n) == i
    ensures Next(Previous(i, n), n) == i
  {
  }

  /** `k` presses of next from index `i` (at most one full round) land `k` places on, wrapping once past the end. */
  lemma {:induction false} NextSteps(i: int, n: int, k: nat)
    requires 0 <= i < n && k <= n
    ensures Iterate(i, n, k) == if i + k < n then i + k else i + k - n
    decreases k
  {
    if k > 0 {
      NextSteps(i, n, k - 1);
    }
  }

  /** `n` presses of next come back to the starting track. */
  lemma NextCycles(i: int, n: int)
    requires 0 <= i < n
    ensures Iterate(i, n, n) == i
  {
    NextSteps(i, n, n);
  }

  /** The index after `k` presses of next. */
  function Iterate(i: int, n: int, k: nat): int
    decreases k
  {
    if k == 0 then i else Next(Iterate(i, n, k - 1), n)
  }

  // ---------------------------------------------------------------------------
  // Lazy-loading window and playback

  const InitialVisible: int := 8

  /** `handleScroll`: within 100px of the bottom the window grows by 4, capped at the list length. */
  function Scroll(visible: int, n: int, scrollTop: int, scrollHeight: int, clientHeight: int): (v: int)
    ensures scrollTop + clientHeight >= scrollHeight - 100 ==> v <= n && v <= visible + 4
    ensures scrollTop + clientHeight >= scrollHeight - 100 ==> v == visible + 4 || v == n
    ensures scrollTop + clientHeight < scrollHeight - 100 ==> v == visible
  {
    if scrollTop + clientHeight >= scrollHeight - 100 then
      if visible + 4 < n then visible + 4 else n
    else visible
  }

  /** The cap can also shrink the window: 8 rows over a list of 5 become 5 on the first scroll. */
  lemma ScrollCanShrink()
    ensures Scroll(InitialVisible, 5, 0, 0, 0) == 5
  {
  }

  /** `togglePlay`: nothing happens until a track is loaded; then playing and paused swap. */
  function TogglePlay(isPlaying: bool, loaded: bool): (playing: bool)
    ensures !loaded ==> playing == isPlaying
    ensures loaded ==> playing == !isPlaying
  {
    if !loaded then isPlaying else !isPlaying
  }

  lemma TogglePlayTwiceRestores(isPlaying: bool, loaded: bool)
    ensures TogglePlay(TogglePlay(isPlaying, loaded), loaded) == isPlaying
  {
  }

  // ---------------------------------------------------------------------------
  // Rendered list

  datatype Row = Row(track: Track, index: int, isActive: bool)

  /**
   * `musicTrack.slice(0, visibleTracks)` with the current index marked. As
   * with `slice`, a negative end counts back from the end of the list.
   */
  function TrackList(tracks: seq<Track>, visible: int, current: int): (rows: seq<Row>)
    ensures 0 <= visible ==> |rows| == if visible < |tracks| then visible else |tracks|
    ensures visible < 0 ==> |rows| == if |tracks| + visible < 0 then 0 else |tracks| + visible
    ensures forall i :: 0 <= i < |rows| ==> rows[i].track == tracks[i] && rows[i].index == i
    ensures forall i :: 0 <= i < |rows| ==> (rows[i].isActive <==> i == current)
  {
    var k := if visible < 0 then (if |tracks| + visible < 0 then 0 else |tracks| + visible)
             else if visible < |tracks| then visible else |tracks|;
    seq(k, i requires 0 <= i < k => Row(tracks[i], i, i == current))
  }

  /** At most one row is active, and exactly one when the current track is among the rendered rows. */
  lemma OneActiveRow(tracks: seq<Track>, visible: int, current: int)
    ensures var rows := TrackList(tracks, visible, current);
      && (forall i, j :: 0 <= i < j < |rows| ==> !(rows[i].isActive && rows[j].isActive))
      && ((exists i :: 0 <= i < |rows| && rows[i].isActive) <==> 0 <= current < |rows|)
  {
    var rows := TrackList(tracks, visible, current);
    if 0 <= current < |rows| {
      assert rows[current].isActive;
    }
  }
}
