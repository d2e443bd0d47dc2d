# Audio player playlist — a Dafny model

This project models the playlist state machine of the `Player` React
component of a browser audio player. The component keeps an ordered
playlist of tracks, each with an id, a name and an object URL. It also
keeps an optional track in focus ("current track", `null` when none).
Four event handlers change this state:

- importing files appends one track per file, in file order;
- selecting a track puts it in focus;
- deleting an id filters every track with that id out of the playlist;
  the delete icon sits inside the track's row, so the same click also
  reaches the row's select handler and puts the deleted track in focus;
- the audio element's "ended" event moves focus to the next track.

The list view also shows each track's name cut to 26 characters.

Each handler is a pure transition over an immutable `State`
(`player.dfy`). The `findIndex` and `filter` calls the handlers make are
modelled on `seq<Track>` in `playlist.dfy`. The displayed name is in
`track_name.dfy`, and `wrappers.dfy` holds the `Option` type that stands for
"a track or `null`".

Calls into code outside the component become parameters. The ids from
`uniqid` and the object URLs from `URL.createObjectURL` are supplied to
`Player.Import` as sequences, one entry per file. Where uniqueness of ids
matters (`Player.ImportKeepsValid`), the supplied ids must be pairwise
distinct and distinct from the ids already in the playlist.

The "ended" handler reads `currentTrack.id`. That is only reachable while a
track is in focus, because the audio element that fires the event is only
rendered then. `Player.Advance` therefore requires a track in focus.

## Model

| member | source | states |
|---|---|---|
| Playlist.FindIndex | src/components/Player.jsx:53-55 | the result is the first position whose track has the id, or -1 exactly when no track has it |
| Playlist.Without | src/components/Player.jsx:73 | a track survives the filter exactly when it was in the playlist and its id differs; the playlist never grows |
| Playlist.WithoutAppend | src/components/Player.jsx:73 | filtering a concatenation is the concatenation of the filtered parts |
| Playlist.WithoutSingle | src/components/Player.jsx:73 | a lone track survives the filter exactly when its id differs; with the concatenation rule this fixes the filter on every playlist |
| Playlist.WithoutLoneTrack | src/components/Player.jsx:73 | filtering out the id of a track whose id occurs nowhere else removes just that track and keeps the rest in place |
| Player.NewTracks | src/components/Player.jsx:31-35 | one track per file, in file order: the k-th has the k-th fresh id, the k-th file's name and the k-th object URL |
| Player.Import | src/components/Player.jsx:28-38 | an empty file list changes nothing; otherwise the old playlist is an unchanged prefix, the length grows by the file count, the new tracks follow in file order, and the focus is kept |
| Player.Select | src/components/Player.jsx:40-41 | the chosen track is in focus and the playlist is unchanged |
| Player.Delete | src/components/Player.jsx:72-75 | the tracks left are exactly the old ones with a different id; the playlist never grows; the focus is kept |
| Player.Advance | src/components/Player.jsx:52-69 | the playlist is unchanged; from the first position holding the focused id, the next track takes focus, and focus is cleared after the last track; when the id is absent, a non-empty playlist restarts at its first track and an empty one clears focus |
| Player.DeleteClick | src/components/Player.jsx:85-110 | a click on a row's delete icon also reaches the row's select handler: the clicked track is in focus although it is no longer in the playlist, and exactly the tracks with a different id remain |
| Player.DeleteClickThenEnded | src/components/Player.jsx:52-69 | after a delete click, the end of the deleted track restarts the playlist at its first track, or clears focus if the playlist is now empty |
| Player.Play | src/components/Player.jsx:145-155 | repeated "ended" events never change the playlist, and any track they put in focus comes from the playlist |
| Player.ImportKeepsValid | src/components/Player.jsx:30-36 | importing with fresh, pairwise distinct ids keeps the playlist's ids unique |
| Player.DeleteKeepsValid | src/components/Player.jsx:72-75 | deleting keeps the playlist's ids unique |
| Player.DeleteKeepsOrder | src/components/Player.jsx:72-75 | the playlist after a delete is an order-preserving subsequence of the one before |
| Player.DeleteAbsent | src/components/Player.jsx:72-75 | deleting an id that no track has leaves the state unchanged |
| Player.DeleteIdempotent | src/components/Player.jsx:72-75 | deleting an id twice leaves the same state as deleting it once |
| Player.DeleteRemovesOne | src/components/Player.jsx:72-75 | with unique ids, deleting the id of the track at position i removes just that track, so the length drops by one |
| Player.DeleteOrphansCurrent | src/components/Player.jsx:72-75 | deleting the focused track's id keeps it in focus although it is no longer in the playlist |
| Player.AdvanceAfterDeletingCurrent | src/components/Player.jsx:53-57 | after the focused track is deleted, the next "ended" event restarts at the first track, or clears focus if the playlist is empty |
| Player.AdvanceFrom | src/components/Player.jsx:52-69 | with unique ids, ending the track at position i moves focus to position i+1, or clears it when i is the last position |
| Player.PlaysInOrder | src/components/Player.jsx:52-69 | with unique ids, selecting the track at position i and letting k tracks end puts the track at position i+k in focus, or nothing once past the end |
| TrackName.DisplayName | src/components/Player.jsx:99-101 | a name of at most 26 characters is shown as is; a longer one is shown as its first 26 characters followed by ".....", 31 characters in all |
| TrackName.DisplayNameBounded | src/components/Player.jsx:99-101 | a shown name is at most 31 characters long and starts with the first min(26, length) characters of the name |
| TrackName.DisplayNameIdempotent | src/components/Player.jsx:99-101 | shortening a shown name again does not change it |
| TrackName.DisplayNameMerges | src/components/Player.jsx:99-101 | two long names that share their first 26 characters are shown the same |

## Left out

- Persistence in `localStorage` (src/components/Player.jsx:9-26). This includes loading the initial state, the `|| []` and `|| null` fallbacks, and the JSON encoding. It is browser storage I/O. The model starts from any `State`.
- `uniqid` and `URL.createObjectURL` (src/components/Player.jsx:32, 34). These are library and browser calls, so their results are parameters of `Player.Import`. The model does not use the `AUD-` prefix of the ids.
- Audio element control: assigning `src`, the `onloadedmetadata` callback, `play()` and `autoPlay` (src/components/Player.jsx:42-49, 59-66, 149-156). This is an asynchronous native media API.
- The `isLoading` flag, and the markup and styling apart from the nesting of the delete icon inside the selectable row (modelled by `Player.DeleteClick`). These are presentation only.
- React's re-rendering and batching of state updates. Each handler is one atomic transition.
- TrackName.DisplayName counts characters as Unicode scalar values. JavaScript's `length` and `slice` count UTF-16 code units, so names outside the Basic Multilingual Plane are cut at a different place. A cut can even fall inside a surrogate pair.
- Player.Advance requires a track in focus. With `currentTrack` null the handler would throw on a non-empty playlist (on an empty one `findIndex` never reads the id, and focus stays cleared), but the only element that can fire it is rendered only while a track is in focus.
