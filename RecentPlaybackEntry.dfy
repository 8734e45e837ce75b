/**
 * A remembered playback: the file, where playback stopped and how long the
 * file is (times in seconds).
 */
module Recents {

  datatype RecentPlaybackEntry = RecentPlaybackEntry(filePath: string, lastPlaybackPosition: real, duration: real) {

    /** Entries are identified by their file path. */
    function Id(): (r: string)
      ensures r == filePath
    {
      filePath
    }

    /** The fraction played, clamped to [0, 1]; 0 when the duration is unknown (not positive). */
    function Progress(): real {
      if duration <= 0.0 then 0.0
      else Min(Max(lastPlaybackPosition / duration, 0.0), 1.0)
    }
  }

  function Max(a: real, b: real): real {
    if a >= b then a else b
  }

  function Min(a: real, b: real): real {
    if a <= b then a else b
  }

  /** The progress always lies in [0, 1], and is 0 without a positive duration. */
  lemma ProgressBounds(entry: RecentPlaybackEntry)
    ensures 0.0 <= entry.Progress() <= 1.0
    ensures entry.duration <= 0.0 ==> entry.Progress() == 0.0
  {
  }

  /** Within the file, the progress is the position over the duration. */
  lemma ProgressWithinFile(entry: RecentPlaybackEntry)
    requires entry.duration > 0.0
    requires 0.0 <= entry.lastPlaybackPosition <= entry.duration
    ensures entry.Progress() == entry.lastPlaybackPosition / entry.duration
  {
    var ratio := entry.lastPlaybackPosition / entry.duration;
    assert ratio * entry.duration == entry.lastPlaybackPosition;
  }

  /** A position past the end reads as 1, a negative position as 0. */
  lemma ProgressOutsideFile(entry: RecentPlaybackEntry)
    requires entry.duration > 0.0
    ensures entry.lastPlaybackPosition > entry.duration ==> entry.Progress() == 1.0
    ensures entry.lastPlaybackPosition < 0.0 ==> entry.Progress() == 0.0
  {
    var ratio := entry.lastPlaybackPosition / entry.duration;
    assert ratio * entry.duration == entry.lastPlaybackPosition;
  }
}
