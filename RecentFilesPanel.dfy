/**
 * The texts and the highlight of a row of the recent-files panel.
 */
module RecentFilesPanel {
  import opened Wrappers
  import opened Strings
  import opened Recents
  import opened PlaybackText

  /**
   * The panel's own `formattedTime`, written out a second time in the source
   * with the same steps as `playbackText`.
   */
  function FormattedTime(seconds: TimeInterval): string {
    match seconds
    case NonFinite => "00:00"
    case Finite(value) =>
      var totalSeconds := if value.Floor < 0 then 0 else value.Floor;
      var hours := totalSeconds / 3600;
      var minutes := (totalSeconds % 3600) / 60;
      var remainderSeconds := totalSeconds % 60;
      if hours > 0 then DecimalText(hours) + ":" + Pad2(minutes) + ":" + Pad2(remainderSeconds)
      else Pad2(minutes) + ":" + Pad2(remainderSeconds)
  }

  /** The panel's copy agrees with `playbackText` on every time. */
  lemma FormattedTimeIsPlaybackText(seconds: TimeInterval)
    ensures FormattedTime(seconds) == PlaybackText.PlaybackText(seconds)
  {
  }

  /**
   * The progress line of a row: where playback resumes, and of how much when
   * the duration is known.
   */
  function ProgressDetail(entry: RecentPlaybackEntry): string {
    if entry.lastPlaybackPosition <= 0.0 then "Start from beginning"
    else
      var resumeText := FormattedTime(Finite(entry.lastPlaybackPosition));
      if entry.duration > 0.0 then
        "Resume at " + resumeText + " of " + FormattedTime(Finite(entry.duration))
      else "Resume at " + resumeText
  }

  /** The three shapes of the progress line, with both times read as `playbackText`. */
  lemma ProgressDetailCases(entry: RecentPlaybackEntry)
    ensures entry.lastPlaybackPosition <= 0.0 ==> ProgressDetail(entry) == "Start from beginning"
    ensures entry.lastPlaybackPosition > 0.0 && entry.duration > 0.0 ==>
      ProgressDetail(entry)
      == "Resume at " + PlaybackText.PlaybackText(Finite(entry.lastPlaybackPosition))
         + " of " + PlaybackText.PlaybackText(Finite(entry.duration))
    ensures entry.lastPlaybackPosition > 0.0 && entry.duration <= 0.0 ==>
      ProgressDetail(entry) == "Resume at " + PlaybackText.PlaybackText(Finite(entry.lastPlaybackPosition))
  {
    FormattedTimeIsPlaybackText(Finite(entry.lastPlaybackPosition));
    FormattedTimeIsPlaybackText(Finite(entry.duration));
  }

  /** `entry.filePath == currentFilePath`, an optional comparison: no current file highlights no row. */
  predicate IsCurrent(entry: RecentPlaybackEntry, currentFilePath: Option<string>) {
    Some(entry.filePath) == currentFilePath
  }

  lemma IsCurrentIff(entry: RecentPlaybackEntry, currentFilePath: Option<string>)
    ensures IsCurrent(entry, currentFilePath) <==> currentFilePath.Some? && currentFilePath.value == entry.filePath
    ensures currentFilePath.None? ==> !IsCurrent(entry, currentFilePath)
  {
  }
}
