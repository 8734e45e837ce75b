/**
 * The playback engine as the view model sees it: the state record it
 * reports, and the commands it receives, recorded in order as an event log.
 */
module Playback {

  /** A file URL as Foundation presents it: the path, its last component and that component's extension. */
  datatype URL = URL(path: string, lastPathComponent: string, pathExtension: string)

  /** What the engine reports: playing or not, position and length in seconds, rate, volume and mute. */
  datatype PlaybackState = PlaybackState(
    isPlaying: bool,
    currentTime: real,
    duration: real,
    rate: real,
    volume: real,
    isMuted: bool)

  /** `PlaybackState.initial`. */
  const InitialState := PlaybackState(false, 0.0, 0.0, 1.0, 1.0, false)

  /** One command received by the engine. */
  datatype Event =
    /** The file's path, as the engine logs `url.standardizedFileURL.path`, and whether to start playing. */
    | Load(path: string, autoplay: bool)
    | Play
    | Pause
    | Seek(time: real)
    | Skip(interval: real)
    | SetRate(rate: real)
    | SetVolume(volume: real)
    | SetMuted(muted: bool)
    | SetNativeSubtitleRenderingEnabled(enabled: bool)

  /** An engine that records every command it receives. */
  class PlaybackEngine {
    var events: seq<Event>

    constructor()
      ensures events == []
    {
      events := [];
    }

    method Load(url: URL, autoplay: bool)
      modifies this
      ensures events == old(events) + [Event.Load(url.path, autoplay)]
    {
      events := events + [Event.Load(url.path, autoplay)];
    }

    method Play()
      modifies this
      ensures events == old(events) + [Event.Play]
    {
      events := events + [Event.Play];
    }

    method Pause()
      modifies this
      ensures events == old(events) + [Event.Pause]
    {
      events := events + [Event.Pause];
    }

    method Seek(time: real)
      modifies this
      ensures events == old(events) + [Event.Seek(time)]
    {
      events := events + [Event.Seek(time)];
    }

    method Skip(interval: real)
      modifies this
      ensures events == old(events) + [Event.Skip(interval)]
    {
      events := events + [Event.Skip(interval)];
    }

    method SetRate(rate: real)
      modifies this
      ensures events == old(events) + [Event.SetRate(rate)]
    {
      events := events + [Event.SetRate(rate)];
    }

    method SetVolume(volume: real)
      modifies this
      ensures events == old(events) + [Event.SetVolume(volume)]
    {
      events := events + [Event.SetVolume(volume)];
    }

    method SetMuted(muted: bool)
      modifies this
      ensures events == old(events) + [Event.SetMuted(muted)]
    {
      events := events + [Event.SetMuted(muted)];
    }

    method SetNativeSubtitleRenderingEnabled(enabled: bool)
      modifies this
      ensures events == old(events) + [Event.SetNativeSubtitleRenderingEnabled(enabled)]
    {
      events := events + [Event.SetNativeSubtitleRenderingEnabled(enabled)];
    }
  }
}
