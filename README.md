# GhostFM playback controller in Dafny

GhostFM is a single-page internet-radio player. Its only logic is the playback
controller inside the `App` component: a paused/playing flag, a muted flag and
the index of the current track in a fixed two-track playlist. Four handlers
change that state: play/pause, mute, skip forward and skip back. Play/pause and
mute send commands to the page's audio element. The skip handlers only change
the index, and the element's source follows through its binding. A click on a
playlist row selects that track.
The element's `ended` notification runs the skip-forward handler. The element's
`src` is bound to the URL of the current track.

The model has two modules.

- `Playlist` (`playlist.dfy`) holds the track record, the fixed playlist
  `Tracks`, and the index arithmetic of the skip controls as pure functions.
  Its lemmas cover wrap-around at both ends and the inverse pairs. They also
  prove the closed forms for `k` skips: `(i + k) mod n` forward and
  `(i - k mod n + n) mod n` back, and that `k` skips in one direction are
  undone by `k` in the other, in either order.
- `Player` (`player.dfy`) holds the audio element as a class (`AudioElement`)
  and the controller as a class (`Controller`) with one method per handler.
  The element records its source URL, its mute flag and the list of `play()` /
  `pause()` commands it has received. The controller's `audio` field is the
  element reference; `null` stands for a reference that is not attached.
  `Controller.Valid()` is the invariant every handler keeps:
  - the index is in range;
  - the element's source is the current track's URL;
  - the element's mute flag equals `isMuted`;
  - `isPlaying` is true exactly when the last command sent was `play()`;
  - with no element attached, both flags stay false.

The playlist is a constructor parameter, so the controller is proved for any
non-empty playlist; `Tracks` is the one the component ships with.
`Player.MountScenario` mounts the controller with `Tracks` and
`Player.WrapScenario` with a three-track playlist. `Player.EndedScenario` shows that `isPlaying` stays set after a track ends.
All three are client methods whose assertions follow from the handlers'
contracts.

The source computes indices with JavaScript's `%`, which truncates toward zero.
Its operands, `i + 1` and `i - 1 + n`, are never negative while the index is in
range, so Dafny's Euclidean `%` gives the same result.

## Model

| member | source | states |
|---|---|---|
| Playlist.TracksWellFormed | src/App.tsx:75-90 | the shipped playlist is non-empty, and its ids (the row keys) and URLs are pairwise distinct |
| Playlist.NextIndex | src/App.tsx:116-118 | the next index is below `n`; the last index wraps to 0 and every other index moves up by one |
| Playlist.PreviousIndex | src/App.tsx:120-122 | the previous index is below `n`; index 0 wraps to `n - 1` and every other index moves down by one |
| Playlist.NextThenPrevious | src/App.tsx:116-122 | a skip forward followed by a skip back returns to the starting index |
| Playlist.PreviousThenNext | src/App.tsx:116-122 | a skip back followed by a skip forward returns to the starting index |
| Playlist.Advance | src/App.tsx:116-118 | any number of skips forward keeps the index in range |
| Playlist.Rewind | src/App.tsx:120-122 | any number of skips back keeps the index in range |
| Playlist.AdvanceIsOffset | src/App.tsx:116-118 | `k` skips forward from `i` land on `(i + k) mod n` |
| Playlist.RewindIsEuclidean | src/App.tsx:120-122 | `k` skips back from `i` land on the Euclidean remainder of `i - k` by `n` |
| Playlist.RewindIsOffset | src/App.tsx:120-122 | `k` skips back from `i` land on `(i - k mod n + n) mod n` |
| Playlist.RewindAfterPrevious | src/App.tsx:120-122 | `k + 1` skips back are one skip back followed by `k` more |
| Playlist.AdvanceThenRewind | src/App.tsx:116-122 | `k` skips forward are undone by `k` skips back |
| Playlist.RewindThenAdvance | src/App.tsx:116-122 | `k` skips back are undone by `k` skips forward |
| Player.AudioElement.constructor | src/App.tsx:224-228 | a new element plays the given URL, is not muted and has received no command |
| Player.AudioElement.Start | src/App.tsx:103 | `play()` appends a play command and changes neither the source nor the mute flag |
| Player.AudioElement.Stop | src/App.tsx:101 | `pause()` appends a pause command and changes neither the source nor the mute flag |
| Player.Controller.Valid | src/App.tsx:93-95 | the controller's invariant, kept by every handler: the index is in range and an attached element's source is always the current track's URL |
| Player.Controller.constructor | src/App.tsx:93-96 | on mount the controller is paused, unmuted, on track 0, with the element (if attached) on track 0's URL and no command sent |
| Player.Controller.BindSource | src/App.tsx:226 | an attached element's source becomes the current track's URL; its mute flag and commands are unchanged |
| Player.Controller.TogglePlay | src/App.tsx:98-107 | with an element: sends `pause()` if playing and `play()` if paused, and negates `isPlaying`; without one: changes nothing; index and mute flag never change; the invariant is kept |
| Player.Controller.ToggleMute | src/App.tsx:109-114 | with an element: sets its mute flag to the negated `isMuted` and negates `isMuted`, so the two agree; without one: changes nothing; the invariant is kept |
| Player.Controller.PlayNext | src/App.tsx:116-118 | the index becomes `NextIndex` of the old one; both flags and the commands sent are unchanged; the element's source follows the new track |
| Player.Controller.PlayPrevious | src/App.tsx:120-122 | the index becomes `PreviousIndex` of the old one; both flags and the commands sent are unchanged; the element's source follows the new track |
| Player.Controller.SelectTrack | src/App.tsx:201-210 | clicking row `k` sets the index to exactly `k`; both flags and the commands sent are unchanged; the element's source follows |
| Player.Controller.OnEnded | src/App.tsx:227 | the `ended` notification has exactly the effect of skipping forward |
| Player.TogglePlayTwice | src/App.tsx:98-107 | pressing play/pause twice restores `isPlaying` and sends the two opposite commands |
| Player.ToggleMuteTwice | src/App.tsx:109-114 | pressing mute twice restores both `isMuted` and the element's mute flag |
| Player.SkipRoundTrip | src/App.tsx:116-122 | skipping forward then back, or back then forward, restores the index and leaves the flags alone |

## Left out

- This version of the code does not call `play()` again after a track change, so the model does not either.
- There is no progress tracking: the progress bar is a fixed width (src/App.tsx:156).

- The decorative ghost background (src/App.tsx:17-72, src/GhostBackground.tsx). It draws random floating-point positions and timings, and it does not touch player state.
- All markup, styling and the fixed-width progress bar.
- React's hook machinery. Each state setter is a plain field assignment, and a handler runs to completion before the next event, as on a single event loop.
- The track duration strings. They are display text and are never parsed.
- The audio element's internals: loading, decoding, and real playback status. The element is modelled only by the commands it received, its mute flag and its source. Whether sound is actually playing is not modelled. A browser pauses when the source changes, and ends playback at the end of a track. `isPlaying` mirrors the last command sent, not the element's real status. So after a track ends while playing, `isPlaying` stays true and the next play/pause press sends `pause()` to an element that is already paused (`Player.EndedScenario`).
- Player.AudioElement.Start: a rejected `play()` promise (for example under an autoplay policy) is not modelled. The source does not handle it either, so `isPlaying` still flips.
