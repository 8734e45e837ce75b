# JustPlay native player: a verified model of its logic

JustPlay is a macOS video player written in Swift. Most of it is SwiftUI layout
and thin wrappers around AVFoundation, VLCKit and HTTP. This project models the
parts that are self-contained logic, one Dafny module for each Swift file:

- **`NativeSubtitlePolicy`** (`VLCNativeSubtitlePolicy.swift`). This is the
  two-field state machine that keeps VLC's own subtitle track hidden while the
  overlay renderer shows subtitles, and puts that track back afterwards.
  - Pure `...Step` functions give the effect of each operation on a snapshot
    of the fields.
  - The class `VLCNativeSubtitlePolicy` updates its fields in place and is
    proved to agree with those functions.
  - Lemmas state the unit-test scenarios and a lossless disable–drift–enable
    round trip.
- **`SRTParser`** (`SRTParser.swift`). This is the SubRip parser:
  1. line-ending normalisation;
  2. blocks separated by blank lines;
  3. trimmed, non-empty lines within a block;
  4. the first timing line containing "-->", and its two timestamps;
  5. the cue text, which is the lines after the timing line;
  6. a sort by start time.

  `ParseTimestamp` is the corrected timestamp reader. `ParseTimestampAsWritten`
  reads timestamps as the code does, including one input on which that code
  traps (see Findings).
- **`Cues`** (`SubtitleCue.swift`): the cue record, and membership of a time in
  its closed interval.
- **`SubtitleTextRenderer`** (`SubtitleTextRenderer.swift`). This is the segmenter
  for the `<i>`, `<b>` and `<u>` style tags.
  - The reference definition works character by character: `StyledText` pairs
    each character that is not part of a tag with the style in force where it
    stands.
  - `Segments` are the maximal runs of one style in that sequence.
  - The loop over regular-expression matches, `ParseSegments`, is proved to
    build exactly those runs.
  - `PlainText` is proved to delete every recognised tag.
- **`SubtitleTimeline`** (`SubtitleTimelinePanel.swift`). This is the filter
  that searches cues while keeping each cue's index, plus the rule by which
  "jump to current cue" clears a query that hides the active cue.
- **`PlaybackText`** (`TimeInterval+PlaybackText.swift`): seconds shown as
  "MM:SS" or "H:MM:SS", proved to read back as the whole seconds.
- **`Recents`** (`RecentPlaybackEntry.swift`): an entry's id, and its progress
  clamped to [0, 1].
- **`RecentFilesPanel`** (`RecentFilesPanel.swift`): the progress line of a row,
  the panel's own copy of the clock formatting, and the "current row" test.
- **`Playback`** and **`Player`** (`PlayerViewModel.swift`). The view model
  checks a file's type before opening it, forwards commands and settings to the
  engine, and takes over each state the engine reports. The engine is an event
  log, in the shape of the repository's test engine.
- **`OpenSubtitles`** (`OpenSubtitlesClient.swift`). This covers the client's
  parts that are not networking:
  - the loop that flattens search results into rows;
  - `ReleaseValue.textValue`;
  - `Configuration.fromAPIKey`;
  - the 2xx status check;
  - the short-circuits of `tokenIfAvailable`, where the login reply is a
    parameter.
- **`Strings`** and **`Wrappers`**. These are the Foundation string operations
  the code relies on (trimming, `components`, `split`, replacement, substring
  search, decimal reading) over plain character sequences, plus `Option` and
  `Result`.

Times are modelled as `real` seconds.

## Model

| member | source | states |
|---|---|---|
| NativeSubtitlePolicy.VLCNativeSubtitlePolicy.constructor | Sources/Playback/VLCNativeSubtitlePolicy.swift:8-9 | a new policy has native rendering enabled and no cached track |
| NativeSubtitlePolicy.VLCNativeSubtitlePolicy.MediaDidLoad | Sources/Playback/VLCNativeSubtitlePolicy.swift:11-13 | the cached track is dropped and the flag is kept |
| NativeSubtitlePolicy.VLCNativeSubtitlePolicy.SetNativeRenderingEnabled | Sources/Playback/VLCNativeSubtitlePolicy.swift:15-22 | the new fields and the commands are those of `SetEnabledStep` on the old fields |
| NativeSubtitlePolicy.VLCNativeSubtitlePolicy.Reconcile | Sources/Playback/VLCNativeSubtitlePolicy.swift:24-30 | the new fields and the commands are those of `ReconcileStep`: restore while enabled, suppress while disabled |
| NativeSubtitlePolicy.VLCNativeSubtitlePolicy.RestoreNativeTrackIfNeeded | Sources/Playback/VLCNativeSubtitlePolicy.swift:32-44 | the new fields and the commands are those of `RestoreStep` |
| NativeSubtitlePolicy.VLCNativeSubtitlePolicy.SuppressNativeTrackIfNeeded | Sources/Playback/VLCNativeSubtitlePolicy.swift:46-56 | the new fields and the commands are those of `SuppressStep` |
| NativeSubtitlePolicy.SetEnabledToSameValueIsNoOp | Sources/Playback/VLCNativeSubtitlePolicy.swift:15-18 | setting the flag to its current value emits nothing and changes nothing |
| NativeSubtitlePolicy.DisableCachesAndHidesTrack | Sources/Playback/VLCNativeSubtitlePolicy.swift:46-56 | disabling while VLC shows track k ≠ -1 caches k and emits exactly `setTrack(-1)` |
| NativeSubtitlePolicy.ReconcileWhileDisabled | Sources/Playback/VLCNativeSubtitlePolicy.swift:47-55 | while disabled, reconcile emits nothing for -1 and `setTrack(-1)` otherwise; a cached track is kept, and an empty cache takes the current track |
| NativeSubtitlePolicy.EnableRestoresCachedTrack | Sources/Playback/VLCNativeSubtitlePolicy.swift:32-44 | enabling with cached c clears the cache and emits `setTrack(c)` exactly when the current track is not c, else nothing |
| NativeSubtitlePolicy.ReconcileEnabledWithoutCacheIsNoOp | Sources/Playback/VLCNativeSubtitlePolicy.swift:33-35 | reconciling while enabled with nothing cached emits nothing and changes nothing |
| NativeSubtitlePolicy.MediaDidLoadForgetsCachedTrack | Sources/Playback/VLCNativeSubtitlePolicy.swift:11-13 | after a media load the cache is empty and enabling emits nothing |
| NativeSubtitlePolicy.AtMostOneCommand | Sources/Playback/VLCNativeSubtitlePolicy.swift:43-55 | every operation emits at most one command; while the policy ends disabled, the only command is `setTrack(-1)` |
| NativeSubtitlePolicy.ApplyPreservesReachable | Sources/Playback/VLCNativeSubtitlePolicy.swift:11-56 | every operation keeps the invariant "a track is cached only while disabled" |
| NativeSubtitlePolicy.RunPreservesReachable | Sources/Playback/VLCNativeSubtitlePolicy.swift:11-56 | any sequence of operations keeps that invariant |
| NativeSubtitlePolicy.DriftNeverOverwritesCache | Sources/Playback/VLCNativeSubtitlePolicy.swift:47-49 | while disabled, no sequence of reconciles changes the state or emits anything other than `setTrack(-1)`, so the first cached track is never overwritten |
| NativeSubtitlePolicy.DisableDriftEnableRestoresOriginalTrack | Sources/Playback/VLCNativeSubtitlePolicy.swift:15-56 | disable at k, drift, then enable returns to the initial state and emits `setTrack(k)` exactly when the current track is not k |
| NativeSubtitlePolicy.ScenarioReconcileWhileDisabled | Tests/JustPlayTests/VLCNativeSubtitlePolicyTests.swift:5-15 | the commands are [setTrack(-1)], then [], then [setTrack(-1)] |
| NativeSubtitlePolicy.ScenarioEnableRestoresCachedTrack | Tests/JustPlayTests/VLCNativeSubtitlePolicyTests.swift:17-24 | disable at 4, then enable at -1, gives [setTrack(4)] |
| NativeSubtitlePolicy.ScenarioEnableDoesNotRewriteRestoredTrack | Tests/JustPlayTests/VLCNativeSubtitlePolicyTests.swift:26-33 | disable at 6, then enable at 6, gives [] |
| NativeSubtitlePolicy.ScenarioMediaDidLoadDropsStaleTrack | Tests/JustPlayTests/VLCNativeSubtitlePolicyTests.swift:35-43 | disable at 2, media load, then enable at -1, gives [] |
| Cues.ContainsIff | Sources/Subtitles/SubtitleCue.swift:8-10 | `contains(t)` holds exactly when start ≤ t ≤ end; times before the start or after the end are outside |
| Cues.ContainsBoundaries | Sources/Subtitles/SubtitleCue.swift:9 | both ends of a cue are inside it |
| SRTParser.NormalizeLineEndings | Sources/Subtitles/SRTParser.swift:14-16 | no carriage return is left, and the result is the character-by-character reading in which each "\r\n" and each lone "\r" become one "\n" |
| SRTParser.NormalizeMatchesReference | Sources/Subtitles/SRTParser.swift:14-16 | the two replacements, "\r\n" first and then "\r", agree with the character-by-character reading |
| SRTParser.NormalizeLineEnding | Sources/Subtitles/SRTParser.swift:14-16 | a leading "\r\n" gives one "\n", a lone leading "\r" gives one "\n", and any other leading character is kept |
| SRTParser.NormalizeConcat | Sources/Subtitles/SRTParser.swift:14-16 | text cut anywhere except inside a "\r\n" normalises to the two normalised pieces, in order |
| SRTParser.LineEndingsConcat | Sources/Subtitles/SRTParser.swift:14-16 | the character-by-character reading works piece by piece, except inside a "\r\n" |
| SRTParser.NormalizeCrLfBetween | Sources/Subtitles/SRTParser.swift:14-16 | a "\r\n" between two pieces becomes exactly one "\n" between the two normalised pieces |
| SRTParser.NormalizeWithoutCarriageReturn | Sources/Subtitles/SRTParser.swift:14-16 | text without carriage returns is unchanged |
| SRTParser.NormalizeIdempotent | Sources/Subtitles/SRTParser.swift:14-16 | normalising twice equals normalising once |
| SRTParser.TrimmedNonEmpty | Sources/Subtitles/SRTParser.swift:22-25 | each kept line is non-empty and starts and ends with a character that is not a space or tab |
| SRTParser.TrimmedNonEmptyConcat | Sources/Subtitles/SRTParser.swift:22-25 | the lines of two runs are kept run by run, in input order |
| SRTParser.TrimmedNonEmptyMembers | Sources/Subtitles/SRTParser.swift:22-25 | a line is kept exactly when it is the non-empty trim of some input line |
| SRTParser.KeptLineIsTrim | Sources/Subtitles/SRTParser.swift:22-25 | every kept line is the trim of an input line |
| SRTParser.TrimIsKept | Sources/Subtitles/SRTParser.swift:22-25 | the trim of every input line is kept unless it is empty |
| SRTParser.FirstToken | Sources/Subtitles/SRTParser.swift:62-63 | the token is the longest prefix without a space or tab, and the whole text when there is none |
| SRTParser.FractionalSeconds | Sources/Subtitles/SRTParser.swift:84-87 | the fraction is never negative |
| SRTParser.UnreadableFractionCountsZero | Sources/Subtitles/SRTParser.swift:84-87 | a fraction that does not read as digits counts as 0 instead of rejecting the timestamp |
| SRTParser.ParseTimestamp | Sources/Subtitles/SRTParser.swift:59-90 | the corrected reader: every value it returns is non-negative, because signed fields are not read (see "## Left out") |
| SRTParser.ParseTimestampAgreesWhereNoTrap | Sources/Subtitles/SRTParser.swift:59-90 | the corrected reader returns what the code as written returns, and nil exactly where that code traps |
| SRTParser.ParseCanonicalTimestamp | Sources/Subtitles/SRTParser.swift:60-89 | "HH:MM:SS,fff", padded with spaces, reads as hours·3600 + minutes·60 + seconds + the fraction |
| SRTParser.CanonicalTimestampFields | Sources/Subtitles/SRTParser.swift:60-66 | a padded canonical timestamp gives the fields [HH, MM, SS.fff] |
| SRTParser.CanonicalFields | Sources/Subtitles/SRTParser.swift:71-89 | the three canonical fields read as their clock time |
| SRTParser.SecondsFieldSplit | Sources/Subtitles/SRTParser.swift:78 | "SS.fff" splits at the point into [SS, fff], or [SS] when the fraction is empty |
| SRTParser.SecondsFieldOfPointsTraps | Sources/Subtitles/SRTParser.swift:78-80 | "00:00:." traps as written, and the corrected reader rejects it |
| SRTParser.ParseBlock | Sources/Subtitles/SRTParser.swift:23-53 | a cue from a block always ends after it starts and has non-empty text |
| SRTParser.CueFromTiming | Sources/Subtitles/SRTParser.swift:35-53 | a cue comes out exactly when the timing line has two "-->" parts, both read, end > start, and text lines follow; it carries both times and the lines joined by "\n" |
| SRTParser.TextAfterNonEmpty | Sources/Subtitles/SRTParser.swift:47-52 | non-empty lines after the timing line join into non-empty text |
| SRTParser.ParseBlockReadsIntervals | Sources/Subtitles/SRTParser.swift:23-53 | the block reader of the parser only returns cues that end after they start |
| SRTParser.Accepted | Sources/Subtitles/SRTParser.swift:22-54 | there are no more cues than blocks, and every accepted cue ends after it starts when the block reader guarantees that |
| SRTParser.BlockCues | Sources/Subtitles/SRTParser.swift:28-53 | a block adds at most one cue, and that cue ends after it starts when the block reader guarantees that |
| SRTParser.AcceptedAppend | Sources/Subtitles/SRTParser.swift:22-54 | one more block adds that block's cue, if any; a malformed block adds nothing and never stops the parse |
| SRTParser.AcceptedPrefix | Sources/Subtitles/SRTParser.swift:22-54 | the accepted cues of one more block are the old ones plus that block's cue, if it parses |
| SRTParser.AcceptedFromBlocks | Sources/Subtitles/SRTParser.swift:22-54 | every accepted cue is the cue of one of the blocks |
| SRTParser.Insert | Sources/Subtitles/SRTParser.swift:56 | inserting into a list sorted by start keeps it sorted and adds exactly that cue |
| SRTParser.Prepend | Sources/Subtitles/SRTParser.swift:56 | a cue that starts no later than a sorted list can go in front of it |
| SRTParser.SortByStart | Sources/Subtitles/SRTParser.swift:56 | the result is sorted by start and is a permutation of the input |
| SRTParser.SortKeepsIntervals | Sources/Subtitles/SRTParser.swift:42-56 | sorting keeps every cue's end after its start |
| SRTParser.AcceptBlocks | Sources/Subtitles/SRTParser.swift:20-54 | the block loop, for any block reader, returns the cues of the blocks that it accepts, in block order |
| SRTParser.Parse | Sources/Subtitles/SRTParser.swift:14-57 | the output is sorted by start, is a permutation of the cues accepted block by block, and every cue ends after it starts |
| SubtitleTextRenderer.SkipSpaces | Sources/Subtitles/SubtitleTextRenderer.swift:6 | `\s*` consumes every space from the position and stops at the first non-space |
| SubtitleTextRenderer.TagAt | Sources/Subtitles/SubtitleTextRenderer.swift:6 | a match starts with '<', ends with '>', is at least three characters long and names i, b or u; no match starts at a character that is not '<' |
| SubtitleTextRenderer.SkipSpacesSpan | Sources/Subtitles/SubtitleTextRenderer.swift:6 | every character that `\s*` consumes is a space |
| SubtitleTextRenderer.TagAfterOpen | Sources/Subtitles/SubtitleTextRenderer.swift:6 | after '<' and its spaces, a match runs to a '>' inside the text and names i, b or u |
| SubtitleTextRenderer.TagAtLetter | Sources/Subtitles/SubtitleTextRenderer.swift:6 | from the tag letter on, a match ends at a '>' inside the text, at least two characters later, and names the lowered letter |
| SubtitleTextRenderer.SkipSpacesTo | Sources/Subtitles/SubtitleTextRenderer.swift:6 | `\s*` stops exactly at the first character that is not a space |
| SubtitleTextRenderer.TagAtPattern | Sources/Subtitles/SubtitleTextRenderer.swift:6 | every '<', spaces, an optional '/', spaces, one of i, b, u in either case, spaces and '>' is a match covering exactly that text, closing exactly when the '/' is there, naming the lowercased letter |
| SubtitleTextRenderer.PatternLayout | Sources/Subtitles/SubtitleTextRenderer.swift:6 | where the '<', the spaces, the '/', the letter and the '>' of such a text lie |
| SubtitleTextRenderer.OpeningLayout | Sources/Subtitles/SubtitleTextRenderer.swift:6 | in such a text the '<' comes first, then the spaces, then the '/' when there is one |
| SubtitleTextRenderer.LetterLayout | Sources/Subtitles/SubtitleTextRenderer.swift:6 | in such a text the letter follows, then the spaces, then the '>' |
| SubtitleTextRenderer.TagAtLaidOut | Sources/Subtitles/SubtitleTextRenderer.swift:6 | position by position: a '<', spaces, an optional '/' with spaces around it, a tag letter, spaces and a '>' are a match |
| SubtitleTextRenderer.TagAtFromSkips | Sources/Subtitles/SubtitleTextRenderer.swift:6 | the match in terms of where each run of spaces stops |
| SubtitleTextRenderer.TagAtClosingIff | Sources/Subtitles/SubtitleTextRenderer.swift:6 | a match is closing (group 1 holds "/") exactly when a '/' lies within it |
| SubtitleTextRenderer.NoSlashWithin | Sources/Subtitles/SubtitleTextRenderer.swift:6 | a match without the '/' holds no '/' anywhere: '<', spaces, the letter, spaces, '>' |
| SubtitleTextRenderer.ScanMatches | Sources/Subtitles/SubtitleTextRenderer.swift:57 | every match lies inside the text, from the starting position on |
| SubtitleTextRenderer.ScanFirst | Sources/Subtitles/SubtitleTextRenderer.swift:57 | the first match is the leftmost tag, and the search resumes at its end |
| SubtitleTextRenderer.ScanFirstMatch | Sources/Subtitles/SubtitleTextRenderer.swift:57 | the first match is a tag from the position on, and the rest of the matches are the search from its end |
| SubtitleTextRenderer.ScanFirstNoneBefore | Sources/Subtitles/SubtitleTextRenderer.swift:57 | no tag starts between the position and the first match |
| SubtitleTextRenderer.ScanNone | Sources/Subtitles/SubtitleTextRenderer.swift:57 | with no matches left, no tag starts from that position on |
| SubtitleTextRenderer.ApplyTag | Sources/Subtitles/SubtitleTextRenderer.swift:102-115 | an opening tag sets its own flag, a closing tag clears it, and the other flags stay |
| SubtitleTextRenderer.LastTagWins | Sources/Subtitles/SubtitleTextRenderer.swift:106-115 | there is no nesting stack: of two tags with the same name, the second decides |
| SubtitleTextRenderer.TagsAreIndependent | Sources/Subtitles/SubtitleTextRenderer.swift:106-115 | a tag leaves the flags of the other names alone |
| SubtitleTextRenderer.AppendTextSegment | Sources/Subtitles/SubtitleTextRenderer.swift:65-92 | empty text changes nothing; other text ends the list in its style, adding at most one segment and keeping the earlier ones |
| SubtitleTextRenderer.AppendKeepsCanonical | Sources/Subtitles/SubtitleTextRenderer.swift:65-92 | appending keeps "no empty segment, no two neighbours of the same style" |
| SubtitleTextRenderer.AppendTwice | Sources/Subtitles/SubtitleTextRenderer.swift:77-91 | appending two texts in one style equals appending their concatenation |
| SubtitleTextRenderer.RunsExpand | Sources/Subtitles/SubtitleTextRenderer.swift:65-92 | the runs of a styled sequence expand back to it and obey the merging rule |
| SubtitleTextRenderer.RunsUnique | Sources/Subtitles/SubtitleTextRenderer.swift:65-92 | a segment list that obeys the merging rule is the runs of its own expansion |
| SubtitleTextRenderer.RunsInStyle | Sources/Subtitles/SubtitleTextRenderer.swift:97-100 | adding text in one style to a styled sequence adds it to the runs as `appendTextSegment` does |
| SubtitleTextRenderer.MatchStep | Sources/Subtitles/SubtitleTextRenderer.swift:94-118 | one turn of the match loop: the text before the tag goes out in the current flags, then the tag takes effect |
| SubtitleTextRenderer.TrailingStep | Sources/Subtitles/SubtitleTextRenderer.swift:120-125 | after the last match, appending the rest of the text completes the segments |
| SubtitleTextRenderer.ParseSegments | Sources/Subtitles/SubtitleTextRenderer.swift:51-126 | the loop returns the maximal equal-style runs of the styled text: no segment is empty, neighbours differ in style, and each character keeps the flags in force where it stood |
| SubtitleTextRenderer.SegmentsAreRuns | Sources/Subtitles/SubtitleTextRenderer.swift:59-125 | the segments obey the merging rule and expand to the styled text |
| SubtitleTextRenderer.PlainTextStripsTags | Sources/Subtitles/SubtitleTextRenderer.swift:27-31 | `plainText` is the text with every recognised tag deleted and the rest in order |
| SubtitleTextRenderer.UntaggedText | Sources/Subtitles/SubtitleTextRenderer.swift:59-63 | text without tags is one unstyled segment, or none when empty, and its plain text is itself |
| SubtitleTimeline.Indexed | Sources/Subtitles/SubtitleTimelinePanel.swift:115-117 | row i has id i and cue `cues[i]` |
| SubtitleTimeline.Filter | Sources/Subtitles/SubtitleTimelinePanel.swift:124-128 | exactly the accepted rows are kept, and increasing ids stay increasing |
| SubtitleTimeline.DisplayedCuesKeepIndices | Sources/Subtitles/SubtitleTimelinePanel.swift:114-129 | each displayed row carries its original index and that index's cue; ids strictly increase; there are no more rows than cues |
| SubtitleTimeline.BlankQueryShowsAll | Sources/Subtitles/SubtitleTimelinePanel.swift:119-122 | a query that is blank after trimming shows every cue in order |
| SubtitleTimeline.FilteredIff | Sources/Subtitles/SubtitleTimelinePanel.swift:124-128 | the row of index i is kept exactly when the predicate accepts it |
| SubtitleTimeline.ShownIffMatches | Sources/Subtitles/SubtitleTimelinePanel.swift:124-128 | with a non-blank query, cue i is shown exactly when its trimmed plain text contains the query |
| SubtitleTimeline.SubtitleTimelinePanel.JumpToCurrentCue | Sources/Subtitles/SubtitleTimelinePanel.swift:131-149 | with no active cue nothing changes; a hidden active cue clears the query, and a shown one keeps it; afterwards an active index within the list is displayed |
| PlaybackText.WholeSeconds | Sources/Utilities/TimeInterval+PlaybackText.swift:7 | negative times count as 0; other times are floored |
| PlaybackText.Pad2 | Sources/Utilities/TimeInterval+PlaybackText.swift:13-16 | `%02d` gives only digits, at least two of them, and exactly two below 100 |
| PlaybackText.ClockFieldsDecompose | Sources/Utilities/TimeInterval+PlaybackText.swift:8-10 | hours·3600 + minutes·60 + seconds is the total, with minutes and seconds below 60 |
| PlaybackText.ClockTextFields | Sources/Utilities/TimeInterval+PlaybackText.swift:12-16 | the fields are unpadded hours (from an hour on), then minutes and seconds of exactly two digits |
| PlaybackText.PlaybackTextReadsBack | Sources/Utilities/TimeInterval+PlaybackText.swift:4-17 | the text reads back as the whole seconds of the time, or as 0 for a non-finite time ("00:00") |
| PlaybackText.PlaybackTextHasHoursIffAnHour | Sources/Utilities/TimeInterval+PlaybackText.swift:12-16 | there are three fields from 3600 s on, and two below |
| Recents.RecentPlaybackEntry.Id | Sources/Recents/RecentPlaybackEntry.swift:12-14 | an entry's id is its file path |
| Recents.ProgressBounds | Sources/Recents/RecentPlaybackEntry.swift:38-41 | progress lies in [0, 1], and is 0 when the duration is not positive |
| Recents.ProgressWithinFile | Sources/Recents/RecentPlaybackEntry.swift:40 | within the file, progress is position / duration |
| Recents.ProgressOutsideFile | Sources/Recents/RecentPlaybackEntry.swift:40 | a position past the end gives 1, and a negative position gives 0 |
| RecentFilesPanel.FormattedTimeIsPlaybackText | Sources/RecentFilesPanel.swift:94-107 | the panel's `formattedTime` equals `playbackText` on every input |
| RecentFilesPanel.ProgressDetailCases | Sources/RecentFilesPanel.swift:74-86 | "Start from beginning" at or before 0; otherwise "Resume at X of Y" with a known duration, else "Resume at X" |
| RecentFilesPanel.IsCurrentIff | Sources/RecentFilesPanel.swift:41 | a row is current exactly when a current path exists and equals the entry's path |
| Player.IsSupportedIgnoresCase | Sources/PlayerViewModel.swift:30 | a file is supported exactly when its lowercased extension is mp4, m4v or mkv |
| Player.PlayerViewModel.constructor | Sources/PlayerViewModel.swift:32-44 | the initial state, no current URL, rate 1, volume 1, unmuted; the engine receives setRate(1), setVolume(1), setMuted(false) in that order |
| Player.PlayerViewModel.Open | Sources/PlayerViewModel.swift:46-57 | an unsupported file only sets "Unsupported file type: .ext"; a supported one becomes current, its name becomes the status, and exactly one load of its path is sent; only a supported file is ever current |
| Player.PlayerViewModel.TogglePlayPause | Sources/PlayerViewModel.swift:63-69 | pause is sent while playing, and play otherwise |
| Player.PlayerViewModel.SkipForward | Sources/PlayerViewModel.swift:71-73 | sends skip(10) |
| Player.PlayerViewModel.SkipBackward | Sources/PlayerViewModel.swift:75-77 | sends skip(-10) |
| Player.PlayerViewModel.SeekTo | Sources/PlayerViewModel.swift:79-81 | sends seek(seconds) |
| Player.PlayerViewModel.SetPlaybackRate | Sources/PlayerViewModel.swift:10-14 | stores the rate and forwards exactly one setRate; nothing else changes, and only a supported file stays current |
| Player.PlayerViewModel.SetVolume | Sources/PlayerViewModel.swift:16-20 | stores the volume and forwards exactly one setVolume; nothing else changes, and only a supported file stays current |
| Player.PlayerViewModel.SetIsMuted | Sources/PlayerViewModel.swift:22-26 | stores the flag and forwards exactly one setMuted; nothing else changes, and only a supported file stays current |
| Player.PlayerViewModel.StateDidChange | Sources/PlayerViewModel.swift:35-39 | the reported state replaces the old one wholesale; nothing else changes |
| Playback.PlaybackEngine.Load | Tests/JustPlayTests/TestPlaybackEngine.swift:27-29 | appends load(path, autoplay), with the file's path, to the event log |
| Playback.PlaybackEngine.Play | Tests/JustPlayTests/TestPlaybackEngine.swift:31-33 | appends play to the event log and nothing else |
| Playback.PlaybackEngine.Pause | Tests/JustPlayTests/TestPlaybackEngine.swift:35-37 | appends pause to the event log and nothing else |
| Playback.PlaybackEngine.Seek | Tests/JustPlayTests/TestPlaybackEngine.swift:39-41 | appends seek(time) to the event log and nothing else |
| Playback.PlaybackEngine.Skip | Tests/JustPlayTests/TestPlaybackEngine.swift:43-45 | appends skip(interval) to the event log and nothing else |
| Playback.PlaybackEngine.SetRate | Tests/JustPlayTests/TestPlaybackEngine.swift:47-49 | appends setRate(rate) to the event log and nothing else |
| Playback.PlaybackEngine.SetVolume | Tests/JustPlayTests/TestPlaybackEngine.swift:51-53 | appends setVolume(volume) to the event log and nothing else |
| Playback.PlaybackEngine.SetMuted | Tests/JustPlayTests/TestPlaybackEngine.swift:55-57 | appends setMuted(muted) to the event log and nothing else |
| Playback.PlaybackEngine.SetNativeSubtitleRenderingEnabled | Tests/JustPlayTests/TestPlaybackEngine.swift:59-61 | appends setNativeSubtitleRenderingEnabled(enabled) to the event log and nothing else |
| OpenSubtitles.ReleaseValue.TextValue | Sources/Subtitles/OpenSubtitlesClient.swift:257-264 | a single string gives itself; a list gives its first element, or none when empty |
| OpenSubtitles.Row | Sources/Subtitles/OpenSubtitlesClient.swift:62-70 | the row's id and fileID are the file's id; its name is the file's name; its language and release come from the item; its title is the feature details' title, or none when the item has no feature details |
| OpenSubtitles.ItemRows | Sources/Subtitles/OpenSubtitlesClient.swift:60-72 | the rows of an item's files are one per file, in file order |
| OpenSubtitles.FlattenedCount | Sources/Subtitles/OpenSubtitlesClient.swift:59-61 | the number of rows is the total number of files |
| OpenSubtitles.FlattenedPrefix | Sources/Subtitles/OpenSubtitlesClient.swift:59-73 | the rows of earlier items come first |
| OpenSubtitles.RowPosition | Sources/Subtitles/OpenSubtitlesClient.swift:58-73 | the row of file j of item i is at position (files of the items before i) + j |
| OpenSubtitles.FlattenResults | Sources/Subtitles/OpenSubtitlesClient.swift:58-73 | the nested loop returns the flattened rows, one per file |
| OpenSubtitles.FromAPIKey | Sources/Subtitles/OpenSubtitlesClient.swift:163-177 | nil exactly when the key is blank after trimming; otherwise the key has no whitespace at either end, and the user agent and base URL are the constants |
| OpenSubtitles.FromAPIKeyIdempotent | Sources/Subtitles/OpenSubtitlesClient.swift:164 | building from a configuration's own key gives the same configuration |
| OpenSubtitles.FromAPIKeyIgnoresPadding | Sources/Subtitles/OpenSubtitlesClient.swift:164-176 | whitespace around a key does not change the configuration |
| OpenSubtitles.CheckStatus | Sources/Subtitles/OpenSubtitlesClient.swift:52-54 | accepted exactly when 200 ≤ status < 300; otherwise `requestFailed` with that status |
| OpenSubtitles.OpenSubtitlesClient.TokenIfAvailable | Sources/Subtitles/OpenSubtitlesClient.swift:123-152 | a cached token is returned with no request; without credentials, nil is returned with no request; otherwise one login request is sent, a reply that is not an HTTP response fails with `invalidResponse`, a non-2xx status fails with that status, an undecodable body fails, every failure leaves the cache as it was, and a decoded token is cached and returned |
| Strings.TrimEmptyIff | Sources/Subtitles/SubtitleTimelinePanel.swift:119-120 | trimming leaves nothing exactly when every character is in the set |
| Strings.TrimPadded | Sources/Subtitles/SRTParser.swift:61 | trimming removes exactly the padding around a token with non-set ends |
| Strings.TrimIdempotent | Sources/Subtitles/OpenSubtitlesClient.swift:164 | trimming twice equals trimming once |
| Strings.ContainsSubstringIff | Sources/Subtitles/SRTParser.swift:29 | `contains` holds exactly when the substring occurs at some position |
| Strings.FirstIndexWhere | Sources/Subtitles/SRTParser.swift:29 | the first line containing the substring, with none before it; none exactly when no line contains it |
| Strings.ComponentsJoin | Sources/Subtitles/SRTParser.swift:18 | joining the components with the separator gives back the text, and no component contains the separator |
| Strings.ComponentsFromFree | Sources/Subtitles/SRTParser.swift:18 | the scan cuts at every occurrence of the separator it meets, so no piece contains it |
| Strings.ComponentsAtFirst | Sources/Subtitles/SRTParser.swift:18 | the cut falls at the leftmost occurrence: when the separator first occurs right after `a`, the components are `a` followed by the components of the rest |
| Strings.ComponentsFromFirst | Sources/Subtitles/SRTParser.swift:18 | the scan keeps every character before the first occurrence in the current piece and cuts there |
| Strings.PieceFree | Sources/Subtitles/SRTParser.swift:18 | a piece in which no occurrence of the separator starts does not contain it |
| Strings.LinesCutAtNewlines | Sources/Subtitles/SRTParser.swift:22-23 | there is one line more than newline characters, no line holds a newline, and the lines together are the text without its newlines |
| Strings.LinesFromCut | Sources/Subtitles/SRTParser.swift:22-23 | the same, for the scan with a line under construction |
| Strings.SplitJoin | Sources/Subtitles/SRTParser.swift:66 | splitting a join of non-empty, separator-free parts gives back the parts |
| Strings.SplitOnceEmptyIff | Sources/Subtitles/SRTParser.swift:78 | `split(".", maxSplits: 1)` returns no piece exactly when the text is made only of points |
| Strings.DecimalText | Sources/Utilities/TimeInterval+PlaybackText.swift:13 | `%d` writes only digits, one digit exactly below 10, and no leading zero (for values below 2^31, see "## Left out") |
| Strings.DecimalTextRoundTrip | Sources/Utilities/TimeInterval+PlaybackText.swift:13 | `%d` text reads back as its number |
| Strings.ParseDecimalOfDigits | Sources/Subtitles/SRTParser.swift:72-80 | a non-empty digit string reads as its value |
| Strings.ParseDecimalOfFraction | Sources/Subtitles/SRTParser.swift:86 | "0." followed by digits reads as the fraction those digits give |

## Left out

- Decoding subtitle files from bytes (`parse(url:)` and `decode`) is left out. Text-encoding detection is a Foundation call.
- `Double(String)` is restricted to unsigned decimals: digits, digits '.' digits, digits '.', and '.' digits. Swift's signs, exponents, hexadecimal floats, "inf" and "nan" are not modelled.
- SRTParser.ParseTimestamp: because signs are not read, a field such as "-01" makes the timestamp unreadable, while the source reads "00:-01:05,000" as -55 seconds. A block like "1\n00:-01:05,000 --> 00:00:02,000\nHi" is therefore a cue in the source and skipped by the model, and the non-negative values stated for the reader hold only for this restricted number domain.
- Times are exact reals. Floating-point rounding in `h*3600 + m*60 + s + frac`, in `position / duration` and in `Float(...)` conversions is not modelled.
- Character sets are ASCII approximations:
  - `CharacterSet.whitespaces` is space and tab;
  - the pattern's `\s` is that set plus the newlines;
  - `lowercased()` and `localizedCaseInsensitiveContains` fold only ASCII letters and use no locale.
- NSString works in UTF-16 code units, and the model works on characters. Text outside the Basic Multilingual Plane is therefore indexed differently.
- The `tagRegex == nil` fallback of `parseSegments` is left out. The pattern is a constant that compiles, so the branch cannot be taken.
- `render` and `styledText` are left out. They build SwiftUI `Text` values.
- SRTParser.SortByStart: the sort is an insertion sort that keeps equal starts in order. Swift's `sorted(by:)` does not promise stability, so `Parse` promises only "sorted by start and a permutation".
- The `timingIndex < lines.count` guard is left out because it always holds after `firstIndex`.
- PlaybackText.WholeSeconds: `Int(rounded(.down))` traps on times of 2^63 s or more; the model uses unbounded integers.
- PlaybackText.ClockText: `String(format: "%d:…")` reads `hours` as a 32-bit int, so from 2^31 hours on the source prints the low 32 bits of the hour count as a signed number (2147483648 hours prints as "-2147483648"); the model prints the exact hour count with `DecimalText`. The same holds for its copy `RecentFilesPanel.FormattedTime`, and the rows `Strings.DecimalText`, `Strings.DecimalTextRoundTrip`, `PlaybackText.ClockTextFields`, `PlaybackText.PlaybackTextReadsBack`, `PlaybackText.PlaybackTextHasHoursIffAnHour` and `RecentFilesPanel.FormattedTimeIsPlaybackText` describe the source only below 2^31 hours. A subtitle timestamp such as "2147483648:00:00,000" is read by both, and its timeline row shows the wrapped hours in the source.
- `jumpToCurrentCue`'s scrolling, its animation and its deferred dispatch are left out. Only the query-clearing rule is modelled.
- `RecentPlaybackEntry` keeps only the path, the position and the duration. The bookmark, the dates, the size, `resolvedURL`, `displayName` and `normalizedPath` are left out.
- The relative-date text of a recent row is left out. It depends on the clock and the locale.
- Recording the file with `NSDocumentController` in `open` is left out. `openPanel` is a UI call.
- The engine's state callback hops to the main actor through a `Task`. The model applies the reported state synchronously.
- A `URL` is a record that carries the path, the last path component and the extension as Foundation derives them. URL parsing is not modelled. The path stands for `url.standardizedFileURL.path`, which the test engine logs on `load`; standardising a path is not modelled.
- The networking of the subtitle-service client is left out:
  - building the requests;
  - the session's data calls;
  - JSON encoding and decoding;
  - `downloadSubtitle`;
  - the `notConfigured` guard and the header setup of `searchSubtitles`.

  The result rows, the status check and the login step are modelled on given payloads and replies.
- OpenSubtitles.OpenSubtitlesClient.TokenIfAvailable:
  - The login reply is a parameter: either no HTTP response or a status with the token, if the body decoded.
  - A body that does not decode ends in the extra error `DecodingFailed`, which stands for the JSON decoder's own error.
- OpenSubtitles.FromAPIKey: the user name and password read from the environment are parameters. `fromEnvironment`'s lookup of the key is not modelled.
- The error descriptions of `OpenSubtitlesError` are left out. They are display strings.

## Findings

| source | as written | input that shows it | evidently intended | confidence | as-written member | corrected member |
|---|---|---|---|---|---|---|
| Sources/Subtitles/SRTParser.swift:78-80 | `secondSegments[0]` is read without a check. `split(separator: ".", maxSplits: 1)` omits empty pieces, so a seconds field made only of points (or a comma, which is read as a point first) gives an empty array, and the read is out of range. | the timestamp "00:00:.", for example in the block "1\n00:00:. --> 00:00:02,000\nHello" | reject the timestamp (return nil), so the block is skipped like any other malformed block | not executed | SRTParser.SecondsFieldOfPointsTraps | SRTParser.ParseTimestamp |
