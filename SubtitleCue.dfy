/** A timed subtitle line (Sources/Subtitles/SubtitleCue.swift). Times are seconds. */
module Cues {

  datatype SubtitleCue = SubtitleCue(start: real, end: real, text: string) {

    /** Whether the cue is on screen at `time`: both ends of the interval count. */
    predicate Contains(time: real) {
      time >= start && time <= end
    }
  }

  /** `contains` holds exactly on the closed interval from start to end. */
  lemma ContainsIff(cue: SubtitleCue, time: real)
    ensures cue.Contains(time) <==> cue.start <= time <= cue.end
    ensures time < cue.start ==> !cue.Contains(time)
    ensures time > cue.end ==> !cue.Contains(time)
  {
  }

  /** Both ends are inside a cue whose start does not follow its end. */
  lemma ContainsBoundaries(cue: SubtitleCue)
    requires cue.start <= cue.end
    ensures cue.Contains(cue.start) && cue.Contains(cue.end)
  {
  }
}
