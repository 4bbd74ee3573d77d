# Groov playback controller, modelled in Dafny

Groov is a music site: a React client that lists, plays, sells and
downloads songs, and a FastAPI server behind it. This project models the
client's playback controller, the `PlayerContext` provider, and the pure
parts of the song page that feed it.

The controller keeps a queue of songs (`songsData`), the current `track`,
the `playStatus` flag, the `{ minute, second }` display pair `time`, the
`src` and `currentTime` of an `<audio>` element, and the width of the seek
bar. Over that state it offers these operations:

- `play` and `pause`;
- `playSelectedSong(id)`;
- `previous` and `next`, which do not wrap around;
- `seekTo`, a click on the track bar;
- `updateBarAndTime`, run on every `timeupdate` event of the element.

The song page formats a duration as `m:ss`. It also builds the payment
order id `order_<songId>_<millis>`, from which the server later recovers
the song id with `split("_")[1]`.

Files, one module each:

- `wrappers.dfy`: `Option`.
- `text.dfy`: decimal printing and parsing, `padStart`, and Python's `str.split`.
- `songs.dfy`: the `Song` record, plus `findIndex` and `find` by id.
- `time_math.dfy`: `Math.floor`, JavaScript's `%`, the minute/second split,
  the fill percentage and the click-to-time translation, all on exact reals.
- `player_context.dfy`: the class `Player`, with one method per operation,
  the pure `NextIndex`/`PreviousIndex` and a client walk through a queue.
- `song_page.dfy`: the song lookup, the duration label and the order id.

Each method of `Player` states its whole effect through `State()`, a
snapshot of every mutable field: "the new snapshot is the old one with
these fields replaced". It also states when `Consistent()` is preserved.
`Play`, `Pause`, `Previous`, `Next`, `PlaySelectedSong` and
`UpdateBarAndTime` preserve it unconditionally. `LoadSongs` preserves it
when there was no track or the new queue is a non-empty list. `SeekTo`
preserves it for a click inside the bar. `Consistent()` says:

- the track is in the queue;
- the display shows proper minute/second pairs;
- the bar is between 0 and 100 percent;
- the position lies within the track.

`Player` models the audio element as plain fields:

- `hasAudio`: whether `audioRef.current` is non-null;
- `src` and `currentTime`;
- `duration`: `None` while the element reports NaN.

The two DOM refs are modelled as follows. The track bar, `trackLength`, is
a `barWidth: Option<real>` argument of `SeekTo`. The filled bar, `seekBar`,
is the fields `hasSeekBar` and `fillPercent`. The outcome of the
asynchronous `play()` is a boolean argument where the code awaits it, which
happens only in `playSelectedSong`. Everywhere else the code sets the flag
without waiting, so the outcome does not matter there.

The model follows the code, including these behaviours:

- `play` sets `playStatus` before the play request settles, whether or not
  it succeeds. So `play` on an empty queue with the element mounted sets
  the flag (see `PlayOnEmptyQueue`).
- Nothing in `seekTo` clamps: an `offsetX` outside [0, width] would ask
  for a time outside the track (`SeekTargetOvershoots`). The audio element
  clamps such a request, so the display never samples a negative position.
- `next` and `previous` load `fileUrl` without the base-URL prefix that
  `playSelectedSong` adds.
- `next` from a track whose id is not in the queue moves to the first song.
  `previous` does nothing in that case.
- The bar is sized in whole percent (`Math.floor(x * 100)`), not as a
  fraction. The sampler skips only a NaN or non-positive duration.

## Model

| member | source | states |
|---|---|---|
| `Text.NatToString` | groov-client/src/routes/Song/Song.tsx:66 | a number prints as one or more decimal digits, with no leading zero; as a single digit exactly when it is below 10, and in at most two below 100 |
| `Text.IntToString` | groov-client/src/routes/Song/Song.tsx:66 | a non-negative integer prints as its decimal digits; a negative one prints as a minus sign followed by the digits of its magnitude |
| `Text.ParseNatToString` | groov-client/src/routes/Song/Song.tsx:66 | reading printed digits back gives the number printed |
| `Text.PadStart` | groov-client/src/routes/Song/Song.tsx:66 | `padStart` gives a string of at least the requested width that ends with the original and is filled with the pad character in front |
| `Text.Split` | groov-server/app/main.py:406 | `split` always yields at least one field |
| `Text.SplitHasSeveralFields` | groov-server/app/main.py:406 | `split` yields more than one field exactly when the separator occurs |
| `Text.SplitWithoutSeparator` | groov-server/app/main.py:406 | a string without the separator splits into itself alone |
| `Text.SplitAtFirst` | groov-server/app/main.py:406 | the text before the first separator is the first field, and the rest splits on its own |
| `Text.SplitPiecesLackSeparator` | groov-server/app/main.py:406 | no field of a split contains the separator |
| `Songs.FindIndex` | groov-client/src/context/PlayerContext.tsx:150 | `findIndex` by id is -1 exactly when no song has the id; otherwise it is the first index whose song has it |
| `Songs.Find` | groov-client/src/context/PlayerContext.tsx:129 | `find` by id is undefined exactly when no song has the id; otherwise it is a queue entry with that id |
| `Songs.FindIsAtFindIndex` | groov-client/src/context/PlayerContext.tsx:129 | `find` returns the entry at the index `findIndex` reports, so it is the first match |
| `TimeMath.Trunc` | groov-client/src/context/PlayerContext.tsx:203 | the truncation inside JavaScript's `%` lies within one of its argument, on the side of zero |
| `TimeMath.JsRem` | groov-client/src/context/PlayerContext.tsx:203 | JavaScript's `t % 60` lies in [0, 60) for t >= 0, where it is t minus floor(t / 60) * 60, and in (-60, 0] for t < 0 |
| `TimeMath.ClockOf` | groov-client/src/context/PlayerContext.tsx:202-209 | for t >= 0 the displayed `second` lies in [0, 59], `minute` is floor(t / 60), and minute * 60 + second == floor(t) |
| `TimeMath.ClockOfNegative` | groov-client/src/context/PlayerContext.tsx:202-205 | the display formula alone, at a position in (-60, 0), would give minute -1 and a second of floor(t), in [-60, -1]; the element's clamping keeps the player from sampling such a position |
| `TimeMath.FillPercent` | groov-client/src/context/PlayerContext.tsx:197-199 | for 0 <= cur <= dur the bar width lies in [0, 100], and it is 100 exactly at the end of the track |
| `TimeMath.SeekTarget` | groov-client/src/context/PlayerContext.tsx:184-186 | the target is in proportion to the click: target * width == offsetX * duration; a click inside the bar seeks into [0, duration]; the left edge seeks to 0 and the right edge to the end |
| `TimeMath.SeekTargetOvershoots` | groov-client/src/context/PlayerContext.tsx:184-186 | nothing in `seekTo` clamps: an `offsetX` beyond the width would ask for a time past the duration |
| `TimeMath.SeekThenFill` | groov-client/src/context/PlayerContext.tsx:182-199 | after a seek, the next time update draws the bar at the clicked fraction of its width |
| `PlayerContext.NextIndex` | groov-client/src/context/PlayerContext.tsx:166-169 | `next` has no target exactly when the queue is empty or the track is last; the target follows the first song with the track's id, and no earlier song has that id; it is 0 exactly when the track's id is not in a non-empty queue |
| `PlayerContext.PreviousIndex` | groov-client/src/context/PlayerContext.tsx:149-152 | `previous` has no target exactly when the track is at index 0 or not in the queue; otherwise the target precedes the first song with the track's id, and neither it nor any earlier song has that id |
| `PlayerContext.PreviousUndoesNext` | groov-client/src/context/PlayerContext.tsx:148-180 | with unique ids, `previous` after a `next` that moved returns to the track `next` left |
| `PlayerContext.NextUndoesPrevious` | groov-client/src/context/PlayerContext.tsx:148-180 | with unique ids, `next` after a `previous` that moved returns to the track `previous` left |
| `PlayerContext.NextFromDuplicateRestarts` | groov-client/src/context/PlayerContext.tsx:167-169 | on the queue [a, b, a], `next` from a goes to index 1, because `findIndex` finds the first copy |
| `PlayerContext.Player.constructor` | groov-client/src/context/PlayerContext.tsx:61-76 | the initial state: an empty queue, no track, paused, a 0:0 / 0:0 display, an empty src and bar; it is consistent |
| `PlayerContext.Player.LoadSongs` | groov-client/src/context/PlayerContext.tsx:89-102 | a listed response replaces the queue and, if non-empty, makes its first song the track; a failed or malformed one empties the queue; consistency holds when loading from no track |
| `PlayerContext.Player.Play` | groov-client/src/context/PlayerContext.tsx:108-115 | with the element mounted the flag becomes true, whatever the play outcome; without it nothing changes |
| `PlayerContext.Player.Pause` | groov-client/src/context/PlayerContext.tsx:117-122 | with the element mounted the flag becomes false and nothing else changes, so pausing twice equals pausing once; without it nothing changes |
| `PlayerContext.Player.PlaySelectedSong` | groov-client/src/context/PlayerContext.tsx:124-146 | an empty queue or an unknown id changes nothing. Otherwise the first song with the id becomes the track. With the element mounted, src becomes baseUrl ++ fileUrl and the flag becomes true only if play succeeds; on failure it keeps its old value |
| `PlayerContext.Player.Previous` | groov-client/src/context/PlayerContext.tsx:148-163 | past index 0 the song before becomes the track, src becomes its unprefixed fileUrl when the element is mounted, and the flag becomes true; with no track, at index 0 or off the queue nothing changes |
| `PlayerContext.Player.Next` | groov-client/src/context/PlayerContext.tsx:165-180 | before the last index the song after becomes the track, src becomes its unprefixed fileUrl when the element is mounted, and the flag becomes true; at the last index or with no track nothing changes (no wraparound) |
| `PlayerContext.Player.SeekTo` | groov-client/src/context/PlayerContext.tsx:182-188 | with the element, the bar and a known duration, currentTime becomes offsetX / width * duration, unclamped; otherwise nothing changes; a click inside the bar keeps the state consistent |
| `PlayerContext.Player.UpdateBarAndTime` | groov-client/src/context/PlayerContext.tsx:190-211 | with a NaN or non-positive duration nothing changes. Otherwise the bar becomes floor(cur / dur * 100) percent and the display shows the minute/second pairs of cur and dur, each recombining to the whole seconds. Consistency is preserved |
| `SongPage.LookupSong` | groov-client/src/routes/Song/Song.tsx:13-15 | the page's song is found exactly when a song list is stored, the route has an id, and some entry has that id; it is the first such entry |
| `SongPage.RoundHalfUp` | groov-client/src/routes/Song/Song.tsx:63 | `Math.round` gives the integer r with r - 0.5 <= d < r + 0.5 |
| `SongPage.JsRem60` | groov-client/src/routes/Song/Song.tsx:65 | JavaScript's `r % 60` on an integer has the sign of r, magnitude below 60, and differs from r by a multiple of 60 |
| `SongPage.JsRem60Agrees` | groov-client/src/routes/Song/Song.tsx:65 | the integer `% 60` of the song page equals the real-valued `% 60` of the player's clock at every integer |
| `SongPage.ConvertToMinutesAndSeconds` | groov-client/src/routes/Song/Song.tsx:62-67 | the label has at least four characters; when the duration rounds to a non-negative number it is one or more digits, a colon and two digits; when it rounds to a negative number it starts with a minus sign |
| `SongPage.PaddedSeconds` | groov-client/src/routes/Song/Song.tsx:66 | seconds below 60, padded, are exactly two digits that read back as the seconds |
| `SongPage.ClockLabelParts` | groov-client/src/routes/Song/Song.tsx:66 | the `m:ss` label of minutes and seconds below 60 reads back as those minutes and seconds |
| `SongPage.ConvertRoundTrip` | groov-client/src/routes/Song/Song.tsx:62-67 | for d >= 0 the label reads back as minutes = floor(r / 60) and seconds = r mod 60 of r = round(d) |
| `SongPage.HalfSecondRoundsUp` | groov-client/src/routes/Song/Song.tsx:63 | 59.5 seconds shows as "1:00" |
| `SongPage.BelowHalfRoundsDown` | groov-client/src/routes/Song/Song.tsx:63 | 59.4 seconds shows as "0:59" |
| `SongPage.ZeroLabel` | groov-client/src/routes/Song/Song.tsx:62-67 | zero seconds shows as "0:00" |
| `SongPage.DurationLabel` | groov-client/src/routes/Song/Song.tsx:97-101 | for a missing or non-negative duration the label shown reads back as the minutes and seconds of the rounded duration, counting a missing one as zero |
| `SongPage.DurationLabelAgrees` | groov-client/src/routes/Song/Song.tsx:97-101 | the "0:00" shown for a missing or zero duration is what the formatter gives for zero, so every non-negative duration shows as formatted |
| `SongPage.ZeroLabelExactlyBelowHalf` | groov-client/src/routes/Song/Song.tsx:97-101 | a non-negative duration shows as "0:00" exactly when it is below half a second |
| `SongPage.OrderId` | groov-client/src/routes/Song/Song.tsx:30 | for a song id without an underscore the order id splits on `_` into exactly "order", the song id and the timestamp |
| `SongPage.ServerSongId` | groov-server/app/main.py:406 | `split("_")[1]` exists exactly when the order id holds an underscore, and it holds none itself |
| `SongPage.IsServerSongId` | groov-server/app/main.py:274 | an id the server assigns has eight characters and no underscore |
| `SongPage.OrderIdRoundTrip` | groov-client/src/routes/Song/Song.tsx:30 | the server's `split("_")[1]` of the order id is the song id if and only if the id has no underscore |
| `SongPage.ServerIdSurvivesOrderId` | groov-server/app/main.py:274 | every id the server assigns (eight hex characters) is recovered from its order id |

## Left out

- The network: the `/songs` fetch is reduced to its outcome (`SongsResponse`). The payment request, its redirect and `sessionStorage` are not modelled. The stored song list and the route id are inputs of `LookupSong`.
- `console.error` logging.
- Interleaving of asynchronous play requests. Each outcome is applied at once, so a stale request that settles after a newer selection is not modelled.
- The `timeupdate` subscription and its removal on unmount. `UpdateBarAndTime` is a method a caller runs for each event.
- The audio element's own behaviour: loading a new `src`, advancing `currentTime`, and reporting `duration`. Loading a `src` does not reset the other fields in the model, and callers assign those fields directly.
- PlayerContext.Player.SeekTo: with a NaN duration the code assigns NaN, which the browser rejects; the model leaves the state unchanged there. A zero bar width is excluded by the precondition, because the code has no guard for it.
- The audio element's clamping of an assigned `currentTime` to [0, duration]: the model stores the target `seekTo` computes.
- IEEE floating point: times are exact reals, and an infinite duration is not represented.
- `Date.now()` is the `nowMillis` argument of `OrderId`.
- The remaining client files are not part of this model. They are the upload and edit forms, the profile, navigation, download and search views, and the JSX-only views.
- The server's handlers, ORM, tokens and payment calls are not part of this model. Its split of the order id and its id format are the exceptions.
