/**
 * The player's view model: it checks the file type before opening, forwards
 * play/pause, skips, seeks and the rate, volume and mute settings to the
 * engine, and takes over every state the engine reports.
 */
module Player {
  import opened Wrappers
  import opened Strings
  import opened Playback

  const InitialStatus := "Drop an MP4 or MKV file, or open one from the menu."

  const SupportedFileExtensions: set<string> := {"mp4", "m4v", "mkv"}

  /** Seconds moved by one skip. */
  const SkipInterval := 10.0

  /** Whether the file's extension, lowercased, is one the player opens. */
  predicate IsSupported(url: URL) {
    Lowercased(url.pathExtension) in SupportedFileExtensions
  }

  /** The status shown when a file of another type is dropped or opened. */
  function UnsupportedMessage(url: URL): string {
    "Unsupported file type: ." + Lowercased(url.pathExtension)
  }

  /** The extension check ignores case: exactly the spellings of mp4, m4v and mkv in any case pass. */
  lemma IsSupportedIgnoresCase(url: URL)
    ensures IsSupported(url) <==>
      (Lowercased(url.pathExtension) == "mp4" || Lowercased(url.pathExtension) == "m4v"
       || Lowercased(url.pathExtension) == "mkv")
    ensures IsSupported(url) ==> |url.pathExtension| == 3
  {
  }

  class PlayerViewModel {
    var playbackState: PlaybackState
    var currentURL: Option<URL>
    var statusMessage: string
    var playbackRate: real
    var volume: real
    var isMuted: bool
    const engine: PlaybackEngine

    /** Only a supported file is ever the current one. */
    predicate Valid()
      reads this
    {
      currentURL.Some? ==> IsSupported(currentURL.value)
    }

    /** `init(engine:)`: the initial state, then the rate, volume and mute settings sent to the engine in that order. */
    constructor(engine: PlaybackEngine)
      modifies engine
      ensures this.engine == engine
      ensures playbackState == InitialState && currentURL == None && statusMessage == InitialStatus
      ensures playbackRate == 1.0 && volume == 1.0 && !isMuted
      ensures engine.events == old(engine.events) + [Event.SetRate(1.0), Event.SetVolume(1.0), Event.SetMuted(false)]
      ensures Valid()
    {
      playbackState := InitialState;
      currentURL := None;
      statusMessage := InitialStatus;
      playbackRate := 1.0;
      volume := 1.0;
      isMuted := false;
      this.engine := engine;
      new;
      engine.SetRate(playbackRate);
      engine.SetVolume(volume);
      engine.SetMuted(isMuted);
    }

    /**
     * `open(url:autoplay:)`: a file of another type only changes the status;
     * a supported file becomes the current one, its name the status, and the
     * engine is told to load it.
     */
    method Open(url: URL, autoplay: bool := true)
      requires Valid()
      modifies this, engine
      ensures Valid()
      ensures !IsSupported(url) ==>
        && statusMessage == UnsupportedMessage(url)
        && currentURL == old(currentURL)
        && engine.events == old(engine.events)
      ensures IsSupported(url) ==>
        && currentURL == Some(url)
        && statusMessage == url.lastPathComponent
        && engine.events == old(engine.events) + [Event.Load(url.path, autoplay)]
      ensures playbackState == old(playbackState) && playbackRate == old(playbackRate)
      ensures volume == old(volume) && isMuted == old(isMuted)
    {
      if !IsSupported(url) {
        statusMessage := UnsupportedMessage(url);
        return;
      }
      currentURL := Some(url);
      statusMessage := url.lastPathComponent;
      engine.Load(url, autoplay);
    }

    /** Pauses while playing, plays otherwise. */
    method TogglePlayPause()
      modifies engine
      ensures engine.events == old(engine.events) + [if playbackState.isPlaying then Event.Pause else Event.Play]
    {
      if playbackState.isPlaying {
        engine.Pause();
      } else {
        engine.Play();
      }
    }

    method SkipForward()
      modifies engine
      ensures engine.events == old(engine.events) + [Event.Skip(SkipInterval)]
    {
      engine.Skip(SkipInterval);
    }

    method SkipBackward()
      modifies engine
      ensures engine.events == old(engine.events) + [Event.Skip(-SkipInterval)]
    {
      engine.Skip(-SkipInterval);
    }

    method SeekTo(seconds: real)
      modifies engine
      ensures engine.events == old(engine.events) + [Event.Seek(seconds)]
    {
      engine.Seek(seconds);
    }

    /** Setting `playbackRate` stores it and forwards it to the engine (the `didSet`). */
    method SetPlaybackRate(rate: real)
      requires Valid()
      modifies this, engine
      ensures Valid()
      ensures playbackRate == rate
      ensures engine.events == old(engine.events) + [Event.SetRate(rate)]
      ensures playbackState == old(playbackState) && currentURL == old(currentURL) && statusMessage == old(statusMessage)
      ensures volume == old(volume) && isMuted == old(isMuted)
    {
      playbackRate := rate;
      engine.SetRate(playbackRate);
    }

    /** Setting `volume` stores it and forwards it to the engine. */
    method SetVolume(volume: real)
      requires Valid()
      modifies this, engine
      ensures Valid()
      ensures this.volume == volume
      ensures engine.events == old(engine.events) + [Event.SetVolume(volume)]
      ensures playbackState == old(playbackState) && currentURL == old(currentURL) && statusMessage == old(statusMessage)
      ensures playbackRate == old(playbackRate) && isMuted == old(isMuted)
    {
      this.volume := volume;
      engine.SetVolume(this.volume);
    }

    /** Setting `isMuted` stores it and forwards it to the engine. */
    method SetIsMuted(muted: bool)
      requires Valid()
      modifies this, engine
      ensures Valid()
      ensures isMuted == muted
      ensures engine.events == old(engine.events) + [Event.SetMuted(muted)]
      ensures playbackState == old(playbackState) && currentURL == old(currentURL) && statusMessage == old(statusMessage)
      ensures playbackRate == old(playbackRate) && volume == old(volume)
    {
      isMuted := muted;
      engine.SetMuted(isMuted);
    }

    /** The engine's state callback: the reported state replaces the old one wholesale; nothing else changes. */
    method StateDidChange(state: PlaybackState)
      requires Valid()
      modifies this
      ensures Valid()
      ensures playbackState == state
      ensures currentURL == old(currentURL) && statusMessage == old(statusMessage)
      ensures playbackRate == old(playbackRate) && volume == old(volume) && isMuted == old(isMuted)
    {
      playbackState := state;
    }
  }
}
