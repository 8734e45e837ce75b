/**
 * `TimeInterval.playbackText`: a number of seconds shown as a clock,
 * "MM:SS" below an hour and "H:MM:SS" from an hour on.
 */
module PlaybackText {
  import opened Wrappers
  import opened Strings

  /** A `TimeInterval` (a Double): a finite number of seconds, or an infinity or NaN. */
  datatype TimeInterval = Finite(seconds: real) | NonFinite

  /** `max(Int(t.rounded(.down)), 0)`: whole seconds, negative times counting as 0. */
  function WholeSeconds(t: real): (r: nat)
    ensures t < 0.0 ==> r == 0
    ensures t >= 0.0 ==> r as real <= t < r as real + 1.0
  {
    if t.Floor < 0 then 0 else t.Floor
  }

  /** `%02d`: the decimal digits of `n`, with a leading zero below 10. */
  function Pad2(n: nat): (r: string)
    ensures AllDigits(r) && |r| >= 2
    ensures n < 100 ==> |r| == 2
  {
    if n < 10 then "0" + DecimalText(n) else DecimalText(n)
  }

  /** The clock text of a whole number of seconds. */
  function ClockText(totalSeconds: nat): string {
    var hours := totalSeconds / 3600;
    var minutes := (totalSeconds % 3600) / 60;
    var remainderSeconds := totalSeconds % 60;
    if hours > 0 then DecimalText(hours) + ":" + Pad2(minutes) + ":" + Pad2(remainderSeconds)
    else Pad2(minutes) + ":" + Pad2(remainderSeconds)
  }

  /** `playbackText`: "00:00" for a non-finite time, otherwise the clock text of its whole seconds. */
  function PlaybackText(t: TimeInterval): string {
    match t
    case NonFinite => "00:00"
    case Finite(seconds) => ClockText(WholeSeconds(seconds))
  }

  /** The hours, minutes and seconds shown make up the total, with minutes and seconds below 60. */
  lemma ClockFieldsDecompose(totalSeconds: nat)
    ensures var hours, minutes, remainderSeconds := totalSeconds / 3600, (totalSeconds % 3600) / 60, totalSeconds % 60;
      && hours * 3600 + minutes * 60 + remainderSeconds == totalSeconds
      && minutes < 60 && remainderSeconds < 60
  {
  }

  /** Reading a zero-padded field back gives its value. */
  lemma Pad2Value(n: nat)
    ensures DigitsValue(Pad2(n)) == n
  {
    DecimalTextRoundTrip(n);
    if n < 10 {
      var r := Pad2(n);
      assert r[..|r| - 1] == "0";
      assert "0"[..0] == [];
    }
  }

  /** Digit strings contain no ':'. */
  lemma DigitsHaveNoColon(s: string)
    requires AllDigits(s)
    ensures ':' !in s
  {
    assert forall i :: 0 <= i < |s| ==> IsDigit(s[i]);
  }

  /**
   * The ':'-separated fields of the clock text: hours without padding, then
   * minutes and seconds of exactly two digits each, the hours left out below
   * an hour.
   */
  lemma ClockTextFields(totalSeconds: nat)
    ensures var hours, minutes, remainderSeconds := totalSeconds / 3600, (totalSeconds % 3600) / 60, totalSeconds % 60;
      Split(ClockText(totalSeconds), ':')
      == (if hours > 0 then [DecimalText(hours)] else []) + [Pad2(minutes), Pad2(remainderSeconds)]
    ensures var fields := Split(ClockText(totalSeconds), ':');
      |fields[|fields| - 1]| == 2 && |fields[|fields| - 2]| == 2
  {
    var hours, minutes, remainderSeconds := totalSeconds / 3600, (totalSeconds % 3600) / 60, totalSeconds % 60;
    DigitsHaveNoColon(Pad2(minutes));
    DigitsHaveNoColon(Pad2(remainderSeconds));
    if hours > 0 {
      DigitsHaveNoColon(DecimalText(hours));
      SplitThreeFields(DecimalText(hours), Pad2(minutes), Pad2(remainderSeconds));
    } else {
      SplitTwoFields(Pad2(minutes), Pad2(remainderSeconds));
    }
  }

  /** Reads "H:MM:SS" or "MM:SS" back into seconds. */
  function ReadClock(text: string): Option<nat> {
    var fields := Split(text, ':');
    if |fields| == 2 && AllDigits(fields[0]) && AllDigits(fields[1]) then
      Some(DigitsValue(fields[0]) * 60 + DigitsValue(fields[1]))
    else if |fields| == 3 && AllDigits(fields[0]) && AllDigits(fields[1]) && AllDigits(fields[2]) then
      Some(DigitsValue(fields[0]) * 3600 + DigitsValue(fields[1]) * 60 + DigitsValue(fields[2]))
    else None
  }

  /**
   * The playback text reads back as the whole seconds of the time (0 for a
   * non-finite time): the clock loses only the fraction of a second.
   */
  lemma PlaybackTextReadsBack(t: TimeInterval)
    ensures ReadClock(PlaybackText(t)) == Some(if t.Finite? then WholeSeconds(t.seconds) else 0)
  {
    var totalSeconds := if t.Finite? then WholeSeconds(t.seconds) else 0;
    assert PlaybackText(t) == ClockText(totalSeconds);
    var hours, minutes, remainderSeconds := totalSeconds / 3600, (totalSeconds % 3600) / 60, totalSeconds % 60;
    ClockTextFields(totalSeconds);
    ClockFieldsDecompose(totalSeconds);
    Pad2Value(minutes);
    Pad2Value(remainderSeconds);
    DecimalTextRoundTrip(hours);
  }

  /** From an hour on the text has three fields, below an hour two. */
  lemma PlaybackTextHasHoursIffAnHour(t: real)
    ensures |Split(PlaybackText(Finite(t)), ':')| == (if t >= 3600.0 then 3 else 2)
  {
    ClockTextFields(WholeSeconds(t));
  }
}
