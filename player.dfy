/** The playback controller of the `App` component: three pieces of state, the
    handlers that change them, and the audio element they send commands to. */
module Player {
  import opened Playlist

  /** A transport command sent to the audio element. */
  datatype Command = Play | Pause

  /** Whether the most recent command the element received was `play()`. */
  predicate LastIssuedIsPlay(issued: seq<Command>)
  {
    |issued| > 0 && issued[|issued| - 1] == Play
  }

  /** The part of the browser's audio element the controller drives: its source
      URL, its mute flag and the transport commands it has received. */
  class AudioElement {
    var src: string
    var muted: bool
    var issued: seq<Command>

    constructor (url: string)
      ensures src == url && !muted && issued == []
    {
      src := url;
      muted := false;
      issued := [];
    }

    /** `play()`: records the command and touches nothing else. */
    method Start()
      modifies this
      ensures issued == old(issued) + [Play]
      ensures src == old(src) && muted == old(muted)
    {
      issued := issued + [Play];
    }

    /** `pause()`: records the command and touches nothing else. */
    method Stop()
      modifies this
      ensures issued == old(issued) + [Pause]
      ensures src == old(src) && muted == old(muted)
    {
      issued := issued + [Pause];
    }
  }

  /** The controller. `audio` is the element reference, `null` while no element
      is attached; the playlist is fixed for the controller's lifetime. */
  class Controller {
    const playlist: seq<Track>
    const audio: AudioElement?
    var isPlaying: bool
    var currentTrack: nat
    var isMuted: bool

    /** The index is in range, the element plays the current track's URL, and
        the mirrored flags agree with what was last sent to the element. */
    ghost predicate Valid()
      reads this, audio
      ensures Valid() ==> currentTrack < |playlist|
      ensures Valid() ==> audio != null ==> audio.src == playlist[currentTrack].url
    {
      0 < |playlist| && currentTrack < |playlist| &&
      (audio == null ==> !isPlaying && !isMuted) &&
      (audio != null ==>
        audio.src == playlist[currentTrack].url &&
        audio.muted == isMuted &&
        isPlaying == LastIssuedIsPlay(audio.issued))
    }

    /** Mounting the component: paused, unmuted, on the first track. */
    constructor (tracks: seq<Track>, attached: bool)
      requires |tracks| > 0
      ensures Valid()
      ensures playlist == tracks && currentTrack == 0 && !isPlaying && !isMuted
      ensures attached <==> audio != null
      ensures audio != null ==> fresh(audio) && audio.issued == []
    {
      playlist := tracks;
      if attached {
        audio := new AudioElement(tracks[0].url);
      } else {
        audio := null;
      }
      isPlaying := false;
      currentTrack := 0;
      isMuted := false;
    }

    /** The `src` binding: the element is pointed at the current track. */
    method BindSource()
      requires 0 < |playlist| && currentTrack < |playlist|
      modifies audio
      ensures audio != null ==> audio.src == playlist[currentTrack].url
      ensures audio != null ==> audio.muted == old(audio.muted) && audio.issued == old(audio.issued)
    {
      if audio != null {
        audio.src := playlist[currentTrack].url;
      }
    }

    /** The play/pause button: with an element attached, pauses when playing and
        plays when paused, then flips `isPlaying`; without one, does nothing. */
    method TogglePlay()
      requires Valid()
      modifies this, audio
      ensures Valid()
      ensures audio == null ==> unchanged(this)
      ensures audio != null ==>
        isPlaying == !old(isPlaying) &&
        audio.issued == old(audio.issued) + [if old(isPlaying) then Pause else Play] &&
        audio.src == old(audio.src) && audio.muted == old(audio.muted)
      ensures currentTrack == old(currentTrack) && isMuted == old(isMuted)
    {
      if audio != null {
        if isPlaying {
          audio.Stop();
        } else {
          audio.Start();
        }
        isPlaying := !isPlaying;
      }
    }

    /** The mute button: with an element attached, sets the element's flag to
        the negated `isMuted` and flips `isMuted`; without one, does nothing. */
    method ToggleMute()
      requires Valid()
      modifies this, audio
      ensures Valid()
      ensures audio == null ==> unchanged(this)
      ensures audio != null ==>
        isMuted == !old(isMuted) && audio.muted == isMuted &&
        audio.src == old(audio.src) && audio.issued == old(audio.issued)
      ensures currentTrack == old(currentTrack) && isPlaying == old(isPlaying)
    {
      if audio != null {
        audio.muted := !isMuted;
        isMuted := !isMuted;
      }
    }

    /** The skip-forward button: the next track, wrapping from the last to the first. */
    method PlayNext()
      requires Valid()
      modifies this, audio
      ensures Valid()
      ensures currentTrack == NextIndex(old(currentTrack), |playlist|)
      ensures isPlaying == old(isPlaying) && isMuted == old(isMuted)
      ensures audio != null ==> audio.issued == old(audio.issued) && audio.muted == old(audio.muted)
    {
      currentTrack := NextIndex(currentTrack, |playlist|);
      BindSource();
    }

    /** The skip-back button: the previous track, wrapping from the first to the last. */
    method PlayPrevious()
      requires Valid()
      modifies this, audio
      ensures Valid()
      ensures currentTrack == PreviousIndex(old(currentTrack), |playlist|)
      ensures isPlaying == old(isPlaying) && isMuted == old(isMuted)
      ensures audio != null ==> audio.issued == old(audio.issued) && audio.muted == old(audio.muted)
    {
      currentTrack := PreviousIndex(currentTrack, |playlist|);
      BindSource();
    }

    /** A click on playlist row `k`: that track becomes the current one. */
    method SelectTrack(k: nat)
      requires Valid() && k < |playlist|
      modifies this, audio
      ensures Valid()
      ensures currentTrack == k
      ensures isPlaying == old(isPlaying) && isMuted == old(isMuted)
      ensures audio != null ==> audio.issued == old(audio.issued) && audio.muted == old(audio.muted)
    {
      currentTrack := k;
      BindSource();
    }

    /** The element's `ended` notification, wired to the skip-forward handler. */
    method OnEnded()
      requires Valid()
      modifies this, audio
      ensures Valid()
      ensures currentTrack == NextIndex(old(currentTrack), |playlist|)
      ensures isPlaying == old(isPlaying) && isMuted == old(isMuted)
      ensures audio != null ==> audio.issued == old(audio.issued) && audio.muted == old(audio.muted)
    {
      PlayNext();
    }
  }

  /** Pressing play/pause twice restores the flag; with an element attached
      the element has then received the two opposite commands. */
  method TogglePlayTwice(c: Controller)
    requires c.Valid()
    modifies c, c.audio
    ensures c.Valid()
    ensures c.isPlaying == old(c.isPlaying) && c.currentTrack == old(c.currentTrack) && c.isMuted == old(c.isMuted)
    ensures c.audio != null ==>
      c.audio.issued == old(c.audio.issued) + (if old(c.isPlaying) then [Pause, Play] else [Play, Pause])
  {
    c.TogglePlay();
    c.TogglePlay();
  }

  /** Pressing mute twice restores both the controller's flag and the element's. */
  method ToggleMuteTwice(c: Controller)
    requires c.Valid()
    modifies c, c.audio
    ensures c.Valid()
    ensures c.isMuted == old(c.isMuted) && c.isPlaying == old(c.isPlaying) && c.currentTrack == old(c.currentTrack)
    ensures c.audio != null ==> c.audio.muted == old(c.audio.muted) && c.audio.issued == old(c.audio.issued)
  {
    c.ToggleMute();
    c.ToggleMute();
  }

  /** Skipping forward then back, or back then forward, returns to the same track. */
  method SkipRoundTrip(c: Controller, forwardFirst: bool)
    requires c.Valid()
    modifies c, c.audio
    ensures c.Valid()
    ensures c.currentTrack == old(c.currentTrack)
    ensures c.isPlaying == old(c.isPlaying) && c.isMuted == old(c.isMuted)
  {
    if forwardFirst {
      NextThenPrevious(c.currentTrack, |c.playlist|);
      c.PlayNext();
      c.PlayPrevious();
    } else {
      PreviousThenNext(c.currentTrack, |c.playlist|);
      c.PlayPrevious();
      c.PlayNext();
    }
  }

  /** On a three-track playlist two skips from the first track reach the third,
      and a third skip wraps back to the first, pointing the element at it. */
  method WrapScenario(a: Track, b: Track, t: Track)
  {
    var c := new Controller([a, b, t], true);
    c.PlayNext();
    c.PlayNext();
    assert c.currentTrack == 2 && c.audio.src == t.url;
    c.PlayNext();
    assert c.currentTrack == 0 && c.audio.src == a.url;
    c.PlayPrevious();
    assert c.currentTrack == 2;
  }

  /** The component as built: two tracks, paused on the first. Playing and then
      selecting the second row leaves it playing with the element on that track. */
  method MountScenario()
  {
    var c := new Controller(Tracks, true);
    assert c.audio.src == "/sample-6s.mp3";
    c.TogglePlay();
    assert c.isPlaying && c.audio.issued == [Play];
    c.SelectTrack(1);
    assert c.isPlaying && c.audio.src == "/sample-12s.mp3" && c.audio.issued == [Play];
    c.OnEnded();
    assert c.currentTrack == 0;
  }

  /** `isPlaying` mirrors the last command, not the element: after a track ends
      while playing, the flag stays set, so the next press sends `pause()`. */
  method EndedScenario()
  {
    var c := new Controller(Tracks, true);
    c.TogglePlay();
    c.OnEnded();
    assert c.isPlaying && c.currentTrack == 1;
    c.TogglePlay();
    assert !c.isPlaying && c.audio.issued == [Play, Pause];
  }
}
