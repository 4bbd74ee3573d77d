/**
 * The playback controller: the song queue, the current track, the play
 * flag, the time display, the fields of the audio element it drives and
 * the width of the seek bar, with the transport operations over them.
 *
 * The audio element is reduced to plain fields: whether it is mounted,
 * its `src`, its `currentTime`, and its `duration` (None while it is NaN).
 * The outcome of the asynchronous `play()` is an input applied at once.
 */
module PlayerContext {
  import opened Wrappers
  import opened Songs
  import opened TimeMath

  /** What `fetch(BASE_URL + "/songs")` produced. */
  datatype SongsResponse =
    | NotOk                       // the response status was not ok
    | Malformed                   // the body had no `data` array
    | Listed(data: seq<Song>)     // `songList.data`

  /** Every mutable piece of the controller, for stating what an operation leaves alone. */
  datatype Snapshot = Snapshot(
    songsData: seq<Song>,
    track: Option<Song>,
    playStatus: bool,
    time: Time,
    hasAudio: bool,
    src: string,
    currentTime: real,
    duration: Option<real>,
    hasSeekBar: bool,
    fillPercent: int)

  /**
   * The index `next` moves to from `current`: one past its `findIndex`
   * position, unless that position is the last. A track missing from the
   * queue has position -1, so `next` then moves to index 0.
   */
  function NextIndex(songs: seq<Song>, current: Song): (r: Option<nat>)
    ensures r.Some? ==> r.value < |songs|
    ensures r.None? <==> |songs| == 0 || FindIndex(songs, current.id) == |songs| - 1
    ensures r.Some? && r.value > 0 ==> songs[r.value - 1].id == current.id
    ensures r.Some? ==> forall k :: 0 <= k < r.value - 1 ==> songs[k].id != current.id
    ensures r == Some(0) <==> |songs| > 0 && forall k :: 0 <= k < |songs| ==> songs[k].id != current.id
  {
    var i := FindIndex(songs, current.id);
    if i < |songs| - 1 then Some(i + 1) else None
  }

  /**
   * The index `previous` moves to from `current`: one before its position,
   * unless it is at index 0 or not in the queue.
   */
  function PreviousIndex(songs: seq<Song>, current: Song): (r: Option<nat>)
    ensures r.Some? ==> r.value + 1 < |songs| && songs[r.value + 1].id == current.id
    ensures r.Some? ==> forall k :: 0 <= k <= r.value ==> songs[k].id != current.id
    ensures r.None? <==> FindIndex(songs, current.id) <= 0
  {
    var i := FindIndex(songs, current.id);
    if i > 0 then Some(i - 1) else None
  }

  /**
   * In a queue without repeated ids, `previous` undoes a `next` that moved:
   * it returns to the track `next` left.
   */
  lemma PreviousUndoesNext(songs: seq<Song>, current: Song)
    requires UniqueIds(songs) && current in songs
    requires NextIndex(songs, current).Some?
    ensures var j := NextIndex(songs, current).value;
      PreviousIndex(songs, songs[j]) == Some(j - 1) && songs[j - 1] == current
  {
    var k :| 0 <= k < |songs| && songs[k] == current;
    FindIndexOfMember(songs, k);
    var j := NextIndex(songs, current).value;
    assert j == k + 1;
    FindIndexOfMember(songs, j);
  }

  /** Symmetrically, `next` undoes a `previous` that moved. */
  lemma NextUndoesPrevious(songs: seq<Song>, current: Song)
    requires UniqueIds(songs) && current in songs
    requires PreviousIndex(songs, current).Some?
    ensures var j := PreviousIndex(songs, current).value;
      NextIndex(songs, songs[j]) == Some(j + 1) && songs[j + 1] == current
  {
    var k :| 0 <= k < |songs| && songs[k] == current;
    FindIndexOfMember(songs, k);
    var j := PreviousIndex(songs, current).value;
    assert j == k - 1;
    FindIndexOfMember(songs, j);
  }

  /**
   * With a repeated id the lookup finds the first copy, so `next` from the
   * second copy goes back to the song after the first one.
   */
  lemma NextFromDuplicateRestarts(a: Song, b: Song)
    requires a.id != b.id
    ensures NextIndex([a, b, a], a) == Some(1)
  {
  }

  class Player {
    /** `import.meta.env.VITE_BASE_URL`. */
    const baseUrl: string

    var songsData: seq<Song>
    var track: Option<Song>
    var playStatus: bool
    var time: Time

    // The audio element: `audioRef.current` is null when `hasAudio` is false.
    var hasAudio: bool
    var src: string
    var currentTime: real
    var duration: Option<real>

    // The seek bar: `seekBar.current` is null when `hasSeekBar` is false;
    // `fillPercent` is its `style.width` in percent.
    var hasSeekBar: bool
    var fillPercent: int

    function State(): (s: Snapshot)
      reads this
    {
      Snapshot(songsData, track, playStatus, time, hasAudio, src, currentTime, duration, hasSeekBar, fillPercent)
    }

    /**
     * What the controller keeps true from its initial state: the current
     * track is an entry of the queue, the display shows proper
     * minute/second pairs, the bar is between empty and full, and the
     * position lies within the track.
     */
    predicate Consistent()
      reads this
    {
      (track.Some? ==> track.value in songsData) &&
      TimeWellFormed(time) &&
      0 <= fillPercent <= 100 &&
      0.0 <= currentTime &&
      (duration.Some? ==> currentTime <= duration.value)
    }

    /** The provider's initial state: no songs, no track, paused, a zero display and an empty bar. */
    constructor (baseUrl: string, hasAudio: bool, hasSeekBar: bool)
      ensures this.baseUrl == baseUrl
      ensures State() == Snapshot([], None, false, ZeroTime, hasAudio, "", 0.0, None, hasSeekBar, 0)
      ensures Consistent()
    {
      this.baseUrl := baseUrl;
      songsData, track, playStatus, time := [], None, false, ZeroTime;
      this.hasAudio, src, currentTime, duration := hasAudio, "", 0.0, None;
      this.hasSeekBar, fillPercent := hasSeekBar, 0;
    }

    /**
     * The result handling of `fetchSongs`: a listed response replaces the
     * queue and, when non-empty, makes its first song the current track;
     * a failed or malformed one empties the queue.
     */
    method LoadSongs(response: SongsResponse)
      modifies this
      ensures response.Listed? ==> State() == old(State()).(
        songsData := response.data,
        track := if |response.data| > 0 then Some(response.data[0]) else old(track))
      ensures !response.Listed? ==> State() == old(State()).(songsData := [])
      ensures old(Consistent()) && (old(track).None? || (response.Listed? && |response.data| > 0)) ==> Consistent()
    {
      match response
      case Listed(data) =>
        songsData := data;
        if |data| > 0 {
          track := Some(data[0]);
        }
      case _ =>
        songsData := [];
    }

    /** `play`: with an audio element, the flag is set whatever the play request's outcome. */
    method Play()
      modifies this
      ensures State() == if old(hasAudio) then old(State()).(playStatus := true) else old(State())
      ensures old(Consistent()) ==> Consistent()
    {
      if hasAudio {
        playStatus := true;
      }
    }

    /** `pause`: with an audio element, the flag is cleared. */
    method Pause()
      modifies this
      ensures State() == if old(hasAudio) then old(State()).(playStatus := false) else old(State())
      ensures old(Consistent()) ==> Consistent()
    {
      if hasAudio {
        playStatus := false;
      }
    }

    /**
     * `playSelectedSong`: on an empty queue or an unknown id nothing
     * changes. Otherwise the first song with that id becomes the track and,
     * with an audio element, its prefixed url is loaded; the flag is set
     * only when the play request succeeds.
     */
    method PlaySelectedSong(id: string, playSucceeds: bool)
      modifies this
      ensures var i := FindIndex(old(songsData), id);
        State() ==
          if i < 0 then old(State())
          else if !old(hasAudio) then old(State()).(track := Some(old(songsData)[i]))
          else old(State()).(
            track := Some(old(songsData)[i]),
            src := baseUrl + old(songsData)[i].fileUrl,
            playStatus := old(playStatus) || playSucceeds)
      ensures old(Consistent()) ==> Consistent()
    {
      if |songsData| == 0 {
        return;
      }
      var selected := Find(songsData, id);
      FindIsAtFindIndex(songsData, id);
      if selected.Some? {
        track := selected;
        if hasAudio {
          src := baseUrl + selected.value.fileUrl;
          if playSucceeds {
            playStatus := true;
          }
        }
      }
    }

    /**
     * `previous`: from a current track past index 0, the song before it
     * becomes the track, its unprefixed url is loaded and the flag is set.
     * Without a track, at index 0, or off the queue, nothing changes.
     */
    method Previous()
      modifies this
      ensures State() ==
        if old(track).None? || PreviousIndex(old(songsData), old(track).value).None? then old(State())
        else
          var song := old(songsData)[PreviousIndex(old(songsData), old(track).value).value];
          old(State()).(
            track := Some(song),
            src := if old(hasAudio) then song.fileUrl else old(src),
            playStatus := true)
      ensures old(Consistent()) ==> Consistent()
    {
      if track.Some? {
        var currentIndex := FindIndex(songsData, track.value.id);
        if currentIndex > 0 {
          var previousTrack := songsData[currentIndex - 1];
          track := Some(previousTrack);
          if hasAudio {
            src := previousTrack.fileUrl;
          }
          playStatus := true;
        }
      }
    }

    /**
     * `next`: unless the current track is the last one, the song after it
     * becomes the track, its unprefixed url is loaded and the flag is set;
     * there is no wraparound. A current track missing from a non-empty
     * queue moves to the first song. Without a track nothing changes.
     */
    method Next()
      modifies this
      ensures State() ==
        if old(track).None? || NextIndex(old(songsData), old(track).value).None? then old(State())
        else
          var song := old(songsData)[NextIndex(old(songsData), old(track).value).value];
          old(State()).(
            track := Some(song),
            src := if old(hasAudio) then song.fileUrl else old(src),
            playStatus := true)
      ensures old(Consistent()) ==> Consistent()
    {
      if track.Some? {
        var currentIndex := FindIndex(songsData, track.value.id);
        if currentIndex < |songsData| - 1 {
          var nextTrack := songsData[currentIndex + 1];
          track := Some(nextTrack);
          if hasAudio {
            src := nextTrack.fileUrl;
          }
          playStatus := true;
        }
      }
    }

    /**
     * `seekTo`: a click `offsetX` pixels into a track bar `barWidth` wide
     * (None while the bar is not mounted) moves the position to the same
     * fraction of the duration, unclamped. Without an audio element or a
     * bar nothing changes; while the duration is NaN the assigned value is
     * NaN, which the element refuses, so nothing changes either.
     */
    method SeekTo(offsetX: real, barWidth: Option<real>)
      requires barWidth.Some? ==> barWidth.value > 0.0
      modifies this
      ensures State() ==
        if old(hasAudio) && barWidth.Some? && old(duration).Some? then
          old(State()).(currentTime := SeekTarget(offsetX, barWidth.value, old(duration).value))
        else old(State())
      ensures old(Consistent()) && (barWidth.Some? ==> 0.0 <= offsetX <= barWidth.value) ==> Consistent()
    {
      if hasAudio && barWidth.Some? {
        match duration
        case Some(d) =>
          currentTime := SeekTarget(offsetX, barWidth.value, d);
        case None =>
      }
    }

    /**
     * `updateBarAndTime`, run on every `timeupdate`: with an element, a bar
     * and a known positive duration, the bar's width becomes the played
     * percentage and the display the minute/second pairs of the position
     * and the duration; otherwise nothing changes.
     */
    method UpdateBarAndTime()
      modifies this
      ensures State() ==
        if old(hasAudio) && old(hasSeekBar) && old(duration).Some? && old(duration).value > 0.0 then
          old(State()).(
            fillPercent := FillPercent(old(currentTime), old(duration).value),
            time := Time(ClockOf(old(currentTime)), ClockOf(old(duration).value)))
        else old(State())
      ensures old(Consistent()) ==> Consistent()
      ensures old(Consistent()) && old(hasAudio) && old(hasSeekBar) && old(duration).Some? && old(duration).value > 0.0 ==>
        time.currentTime.minute * 60 + time.currentTime.second == currentTime.Floor &&
        time.totalTime.minute * 60 + time.totalTime.second == duration.value.Floor
    {
      if hasAudio && hasSeekBar {
        match duration
        case Some(d) =>
          if d > 0.0 {
            fillPercent := FillPercent(currentTime, d);
            time := Time(ClockOf(currentTime), ClockOf(d));
          }
        case None =>
      }
    }
  }

  /**
   * A client of the controller: a queue of three songs walked with
   * `next` and `previous`, then paused twice.
   */
  method QueueWalk(a: Song, b: Song, c: Song)
    requires a.id != b.id && b.id != c.id && a.id != c.id
  {
    var p := new Player("https://groov.example", true, true);
    p.LoadSongs(Listed([a, b, c]));
    assert p.track == Some(a);
    p.PlaySelectedSong(b.id, true);
    assert p.track == Some(b) && p.playStatus && p.src == "https://groov.example" + b.fileUrl;
    p.Next();
    assert p.track == Some(c) && p.playStatus && p.src == c.fileUrl;
    var atEnd := p.State();
    p.Next();
    assert p.State() == atEnd;
    p.Previous();
    p.Previous();
    assert p.track == Some(a);
    var before := p.State();
    p.Previous();
    assert p.State() == before;
    p.Pause();
    var once := p.State();
    p.Pause();
    assert p.State() == once && !p.playStatus;
    assert p.Consistent();
  }

  /** With the audio element mounted, `play` on an empty queue still sets the flag. */
  method PlayOnEmptyQueue()
  {
    var p := new Player("", true, false);
    p.Play();
    assert p.songsData == [] && p.track.None? && p.playStatus;
    var q := new Player("", false, false);
    var initial := q.State();
    q.Play();
    assert q.State() == initial;
  }
}
