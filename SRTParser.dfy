/**
 * The SubRip cue parser `SRTParser.parse(text:)` and its timestamp reader
 * (Sources/Subtitles/SRTParser.swift).
 */
module SRTParser {
  import opened Wrappers
  import opened Strings
  import opened Cues

  // ---- Line endings and blocks ----

  /** "\r\n" and then every remaining "\r" become "\n". */
  function NormalizeLineEndings(text: string): (r: string)
    ensures '\r' !in r
    ensures r == LineEndingsAsNewlines(text)
  {
    var crlf := Replacing(text, "\r\n", "\n");
    ReplacingCharRemovesIt(crlf, '\r', '\n');
    NormalizeMatchesReference(text);
    Replacing(crlf, "\r", "\n")
  }

  /**
   * The reference reading of the two replacements, one character at a time:
   * a "\r\n" pair and a lone "\r" each become one "\n", every other
   * character is kept.
   */
  function LineEndingsAsNewlines(text: string): string
    decreases |text|
  {
    if text == [] then []
    else if text[0] == '\r' then
      "\n" + LineEndingsAsNewlines(if 2 <= |text| && text[1] == '\n' then text[2..] else text[1..])
    else [text[0]] + LineEndingsAsNewlines(text[1..])
  }

  /** The two replacements read the text as the reference does. */
  lemma {:induction false} NormalizeMatchesReference(text: string)
    ensures Replacing(Replacing(text, "\r\n", "\n"), "\r", "\n") == LineEndingsAsNewlines(text)
    decreases |text|
  {
    var crlf := Replacing(text, "\r\n", "\n");
    if text == [] {
    } else if 2 <= |text| && text[..2] == "\r\n" {
      NormalizeMatchesReference(text[2..]);
      assert crlf == "\n" + Replacing(text[2..], "\r\n", "\n");
      ReplacingKeptHead('\n', Replacing(text[2..], "\r\n", "\n"), "\r", "\n");
      assert text[0] == '\r' && text[1] == '\n';
    } else {
      NormalizeMatchesReference(text[1..]);
      assert crlf == [text[0]] + Replacing(text[1..], "\r\n", "\n");
      if text[0] == '\r' {
        assert ([text[0]] + Replacing(text[1..], "\r\n", "\n"))[..1] == "\r";
      } else {
        ReplacingKeptHead(text[0], Replacing(text[1..], "\r\n", "\n"), "\r", "\n");
      }
    }
  }

  /** A leading character other than the target's one is kept by a one-character replacement. */
  lemma ReplacingKeptHead(c: char, rest: string, target: string, replacement: string)
    requires |target| == 1 && c != target[0]
    ensures Replacing([c] + rest, target, replacement) == [c] + Replacing(rest, target, replacement)
  {
    assert ([c] + rest)[..1] != target by { assert ([c] + rest)[..1][0] == c; }
    assert ([c] + rest)[1..] == rest;
  }

  /**
   * Normalisation works piece by piece: text cut anywhere but between the two
   * characters of a "\r\n" normalises to the two normalised pieces.
   */
  lemma {:induction false} NormalizeConcat(a: string, b: string)
    requires a == [] || a[|a| - 1] != '\r' || b == [] || b[0] != '\n'
    ensures NormalizeLineEndings(a + b) == NormalizeLineEndings(a) + NormalizeLineEndings(b)
  {
    LineEndingsConcat(a, b);
  }

  lemma {:induction false} LineEndingsConcat(a: string, b: string)
    requires a == [] || a[|a| - 1] != '\r' || b == [] || b[0] != '\n'
    ensures LineEndingsAsNewlines(a + b) == LineEndingsAsNewlines(a) + LineEndingsAsNewlines(b)
    decreases |a|
  {
    if a == [] {
      assert a + b == b;
    } else {
      var n := if a[0] == '\r' && 2 <= |a| && a[1] == '\n' then 2 else 1;
      var head := if a[0] == '\r' then "\n" else [a[0]];
      LineEndingsStep(a, n, head);
      FirstEndingOfConcat(a, b, n);
      LineEndingsStep(a + b, n, head);
      LineEndingsConcat(a[n..], b);
      ConcatAssoc(head, LineEndingsAsNewlines(a[n..]), LineEndingsAsNewlines(b));
    }
  }

  /** `a + b` starts with the same line ending or character as `a`, when `a` does not end inside a "\r\n". */
  lemma FirstEndingOfConcat(a: string, b: string, n: nat)
    requires a == [] || a[|a| - 1] != '\r' || b == [] || b[0] != '\n'
    requires a != [] && n <= |a|
    requires n == (if a[0] == '\r' && 2 <= |a| && a[1] == '\n' then 2 else 1)
    ensures (a + b)[0] == a[0]
    ensures n == (if (a + b)[0] == '\r' && 2 <= |a + b| && (a + b)[1] == '\n' then 2 else 1)
    ensures (a + b)[n..] == a[n..] + b
    ensures a[n..] == [] || a[n..][|a[n..]| - 1] != '\r' || b == [] || b[0] != '\n'
  {
    var ab := a + b;
    if 2 <= |a| {
      assert ab[1] == a[1];
    }
    assert a[n..] == [] || a[n..][|a[n..]| - 1] == a[|a| - 1];
  }

  /** One step of the reference: the first line ending, or the first character, and what follows it. */
  lemma LineEndingsStep(t: string, n: nat, head: string)
    requires t != [] && n <= |t|
    requires n == (if t[0] == '\r' && 2 <= |t| && t[1] == '\n' then 2 else 1)
    requires head == (if t[0] == '\r' then "\n" else [t[0]])
    ensures LineEndingsAsNewlines(t) == head + LineEndingsAsNewlines(t[n..])
  {
  }

  /** The line endings in turn: "\r\n" and a lone "\r" give one "\n", any other character is kept. */
  lemma NormalizeLineEnding(b: string, c: char)
    ensures NormalizeLineEndings("\r\n" + b) == "\n" + NormalizeLineEndings(b)
    ensures b == [] || b[0] != '\n' ==> NormalizeLineEndings("\r" + b) == "\n" + NormalizeLineEndings(b)
    ensures c != '\r' ==> NormalizeLineEndings([c] + b) == [c] + NormalizeLineEndings(b)
  {
    assert ("\r\n" + b)[2..] == b;
    assert ("\r" + b)[1..] == b;
    assert ([c] + b)[1..] == b;
  }

  /** A "\r\n" between two pieces becomes one "\n", and each piece is normalised on its own. */
  lemma NormalizeCrLfBetween(a: string, b: string)
    requires a == [] || a[|a| - 1] != '\r'
    ensures NormalizeLineEndings(a + "\r\n" + b) == NormalizeLineEndings(a) + "\n" + NormalizeLineEndings(b)
  {
    ConcatAssoc(a, "\r\n", b);
    NormalizeConcat(a, "\r\n" + b);
    NormalizeLineEnding(b, '\r');
    ConcatAssoc(NormalizeLineEndings(a), "\n", NormalizeLineEndings(b));
  }

  /** Text that already uses "\n" line endings is left as it is. */
  lemma NormalizeWithoutCarriageReturn(text: string)
    requires '\r' !in text
    ensures NormalizeLineEndings(text) == text
  {
    ReplacingAbsent(text, '\r', "\n");
    assert "\r\n" == ['\r'] + "\n";
    ReplacingAbsentPrefix(text, "\r\n", "\n");
  }

  /** A replacement whose target starts with an absent character changes nothing. */
  lemma {:induction false} ReplacingAbsentPrefix(s: string, target: string, replacement: string)
    requires target != [] && target[0] !in s
    ensures Replacing(s, target, replacement) == s
    decreases |s|
  {
    if s != [] {
      assert s[0] != target[0];
      ReplacingAbsentPrefix(s[1..], target, replacement);
    }
  }

  /** Normalising twice is the same as normalising once. */
  lemma NormalizeIdempotent(text: string)
    ensures NormalizeLineEndings(NormalizeLineEndings(text)) == NormalizeLineEndings(text)
  {
    NormalizeWithoutCarriageReturn(NormalizeLineEndings(text));
  }

  /** The blocks of the normalised text, separated by blank lines ("\n\n"). */
  function Blocks(text: string): seq<string> {
    Components(NormalizeLineEndings(text), "\n\n")
  }

  /** A line with text that neither starts nor ends with a space or tab. */
  predicate TrimmedLine(line: string) {
    line != [] && !IsWhitespace(line[0]) && !IsWhitespace(line[|line| - 1])
  }

  /** Each line trimmed of spaces and tabs, and the lines left empty dropped. */
  function TrimmedNonEmpty(lines: seq<string>): (r: seq<string>)
    ensures |r| <= |lines|
    ensures forall i :: 0 <= i < |r| ==> TrimmedLine(r[i])
    decreases |lines|
  {
    if lines == [] then []
    else
      var t := Trim(lines[0], Whitespaces);
      var rest := TrimmedNonEmpty(lines[1..]);
      if t == [] then rest
      else
        assert TrimmedLine(t);
        [t] + rest
  }

  /** Trimming the lines of two runs of lines is trimming each run, in order. */
  lemma {:induction false} TrimmedNonEmptyConcat(a: seq<string>, b: seq<string>)
    ensures TrimmedNonEmpty(a + b) == TrimmedNonEmpty(a) + TrimmedNonEmpty(b)
    decreases |a|
  {
    if a == [] {
      assert a + b == b;
    } else {
      var t := Trim(a[0], Whitespaces);
      var kept: seq<string> := if t == [] then [] else [t];
      assert (a + b)[0] == a[0] && (a + b)[1..] == a[1..] + b;
      assert TrimmedNonEmpty(a + b) == kept + TrimmedNonEmpty(a[1..] + b);
      assert TrimmedNonEmpty(a) == kept + TrimmedNonEmpty(a[1..]);
      TrimmedNonEmptyConcat(a[1..], b);
      ConcatAssoc(kept, TrimmedNonEmpty(a[1..]), TrimmedNonEmpty(b));
    }
  }

  /** The kept lines are exactly the trims of the input lines that are not empty. */
  lemma TrimmedNonEmptyMembers(lines: seq<string>, line: string)
    ensures line in TrimmedNonEmpty(lines)
        <==> line != [] && exists i :: 0 <= i < |lines| && line == Trim(lines[i], Whitespaces)
  {
    if line in TrimmedNonEmpty(lines) {
      KeptLineIsTrim(lines, line);
    }
    if line != [] && exists i :: 0 <= i < |lines| && line == Trim(lines[i], Whitespaces) {
      var i :| 0 <= i < |lines| && line == Trim(lines[i], Whitespaces);
      TrimIsKept(lines, i);
    }
  }

  /** Every kept line is the trim of an input line. */
  lemma {:induction false} KeptLineIsTrim(lines: seq<string>, line: string)
    requires line in TrimmedNonEmpty(lines)
    ensures exists i :: 0 <= i < |lines| && line == Trim(lines[i], Whitespaces)
    decreases |lines|
  {
    var t := Trim(lines[0], Whitespaces);
    var rest := lines[1..];
    assert TrimmedNonEmpty(lines) == (if t == [] then [] else [t]) + TrimmedNonEmpty(rest);
    if line in TrimmedNonEmpty(rest) {
      KeptLineIsTrim(rest, line);
      var i :| 0 <= i < |rest| && line == Trim(rest[i], Whitespaces);
      assert lines[i + 1] == rest[i];
    } else {
      assert line == Trim(lines[0], Whitespaces);
    }
  }

  /** The trim of every input line is kept unless it is empty. */
  lemma {:induction false} TrimIsKept(lines: seq<string>, i: nat)
    requires i < |lines| && Trim(lines[i], Whitespaces) != []
    ensures Trim(lines[i], Whitespaces) in TrimmedNonEmpty(lines)
    decreases |lines|
  {
    var t := Trim(lines[0], Whitespaces);
    var rest := lines[1..];
    var kept: seq<string> := if t == [] then [] else [t];
    assert TrimmedNonEmpty(lines) == kept + TrimmedNonEmpty(rest);
    if i == 0 {
      assert kept == [t];
    } else {
      var line := Trim(lines[i], Whitespaces);
      assert rest[i - 1] == lines[i];
      TrimIsKept(rest, i - 1);
      assert line in TrimmedNonEmpty(rest);
    }
  }

  function BlockLines(block: string): seq<string> {
    TrimmedNonEmpty(Lines(block))
  }

  // ---- Timestamps ----

  /** The text before the first space or tab (`components(separatedBy: .whitespaces).first`). */
  function FirstToken(s: string): (r: string)
    ensures |r| <= |s| && r == s[..|r|]
    ensures forall i :: 0 <= i < |r| ==> !IsWhitespace(r[i])
    ensures |r| < |s| ==> IsWhitespace(s[|r|])
    ensures (forall i :: 0 <= i < |s| ==> !IsWhitespace(s[i])) ==> r == s
    decreases |s|
  {
    if s == [] || IsWhitespace(s[0]) then [] else [s[0]] + FirstToken(s[1..])
  }

  function TimestampToken(raw: string): string {
    FirstToken(Trim(raw, WhitespacesAndNewlines))
  }

  /** The optional fraction after the seconds' point; a fraction that does not parse counts as 0. */
  function FractionalSeconds(secondSegments: seq<string>): (r: real)
    ensures r >= 0.0
  {
    if |secondSegments| == 2 then
      match ParseDecimal("0." + secondSegments[1])
      case Some(f) => f
      case None => 0.0
    else 0.0
  }

  /** A fraction that is not a digit string does not reject the timestamp: it counts as 0. */
  lemma UnreadableFractionCountsZero(sec: string, frac: string)
    requires !AllDigits(frac)
    ensures FractionalSeconds([sec, frac]) == 0.0
  {
    ParseDecimalOfBadFraction(frac);
  }

  /** What `parseTimestamp` does as written: a value, nil, or a trap. */
  datatype Outcome = Parsed(seconds: real) | Rejected | Trapped

  /** The value of hours, minutes and seconds with the optional fraction, once each field has been read. */
  function Total(hours: real, minutes: real, seconds: real, secondSegments: seq<string>): real {
    hours * 3600.0 + minutes * 60.0 + seconds + FractionalSeconds(secondSegments)
  }

  /**
   * The three ':'-separated fields, read as written. When the seconds field
   * consists of points only, `split(separator: ".", maxSplits: 1)` returns no
   * piece at all and `secondSegments[0]` is out of range.
   */
  function ReadFieldsAsWritten(segments: seq<string>): Outcome
    requires |segments| == 3
  {
    var hours, minutes := ParseDecimal(segments[0]), ParseDecimal(segments[1]);
    if hours.None? || minutes.None? then Rejected
    else
      var secondSegments := SplitOnce(segments[2], '.');
      if secondSegments == [] then Trapped
      else match ParseDecimal(secondSegments[0])
        case None => Rejected
        case Some(seconds) => Parsed(Total(hours.value, minutes.value, seconds, secondSegments))
  }

  /** The fields of the first token, with ',' read as '.', split on ':'. */
  function TimestampFields(raw: string): seq<string> {
    Split(Replacing(TimestampToken(raw), ",", "."), ':')
  }

  /** `parseTimestamp` as written: a value, nil, or a trap. */
  function ParseTimestampAsWritten(raw: string): Outcome {
    var segments := TimestampFields(raw);
    if |segments| != 3 then Rejected else ReadFieldsAsWritten(segments)
  }

  /** The three fields read with the out-of-range access replaced by a rejection. */
  function ReadFields(segments: seq<string>): (r: Option<real>)
    requires |segments| == 3
    ensures r.Some? ==> r.value >= 0.0
  {
    var hours, minutes := ParseDecimal(segments[0]), ParseDecimal(segments[1]);
    if hours.None? || minutes.None? then None
    else
      var secondSegments := SplitOnce(segments[2], '.');
      if secondSegments == [] then None
      else match ParseDecimal(secondSegments[0])
        case None => None
        case Some(seconds) => Some(Total(hours.value, minutes.value, seconds, secondSegments))
  }

  /**
   * `parseTimestamp` corrected: the first token, with ',' read as '.', must
   * split on ':' into exactly three decimal fields, hours, minutes and
   * seconds with an optional fraction; anything else reads as nil.
   */
  function ParseTimestamp(raw: string): (r: Option<real>)
    ensures r.Some? ==> r.value >= 0.0
  {
    var segments := TimestampFields(raw);
    if |segments| != 3 then None else ReadFields(segments)
  }

  /** The corrected reader agrees with the code as written wherever the latter does not trap. */
  lemma ParseTimestampAgreesWhereNoTrap(raw: string)
    ensures ParseTimestampAsWritten(raw).Parsed? ==> ParseTimestamp(raw) == Some(ParseTimestampAsWritten(raw).seconds)
    ensures ParseTimestampAsWritten(raw).Rejected? ==> ParseTimestamp(raw) == None
    ensures ParseTimestampAsWritten(raw).Trapped? ==> ParseTimestamp(raw) == None
  {
  }

  /** Reading a token of the given characters, padded with spaces, yields the token. */
  lemma TokenOfPadded(lead: string, token: string, trail: string)
    requires forall i :: 0 <= i < |lead| ==> lead[i] == ' '
    requires forall i :: 0 <= i < |trail| ==> trail[i] == ' '
    requires token != [] && forall i :: 0 <= i < |token| ==> !InSet(token[i], WhitespacesAndNewlines)
    ensures TimestampToken(lead + token + trail) == token
  {
    TrimPadded(lead, token, trail, WhitespacesAndNewlines);
  }

  predicate IsDigitField(s: string) {
    s != [] && AllDigits(s)
  }

  /** The seconds field and its optional fraction, "SS.fff", split at the point. */
  lemma SecondsFieldSplit(sec: string, frac: string)
    requires IsDigitField(sec) && AllDigits(frac)
    ensures SplitOnce(sec + "." + frac, '.') == [sec] + (if frac == [] then [] else [frac])
  {
    var rest := "." + frac;
    var t := sec + rest;
    assert t == sec + "." + frac;
    assert '.' !in sec by {
      DigitsExclude(sec, '.');
    }
    assert t[0] != '.' by {
      assert t[0] == sec[0];
    }
    IndexOfConcat(sec, rest, '.');
    SplitOnceAt(t, '.', |sec|);
    assert t[..|sec|] == sec;
    assert t[|sec| + 1..] == frac;
  }

  /** The characters of a canonical timestamp "HH:MM:SS,fff" are neither spaces nor newlines. */
  lemma CanonicalTokenChars(h: string, m: string, sec: string, frac: string)
    requires IsDigitField(h) && IsDigitField(m) && IsDigitField(sec) && AllDigits(frac)
    ensures var token := h + ":" + m + ":" + sec + "," + frac;
      forall i :: 0 <= i < |token| ==> !InSet(token[i], WhitespacesAndNewlines)
  {
    var hms := h + ":" + m + ":" + sec;
    var token := hms + "," + frac;
    forall i | 0 <= i < |token| ensures !InSet(token[i], WhitespacesAndNewlines) {
      if i < |h| { assert token[i] == h[i]; }
      else if i == |h| { }
      else if i < |h| + 1 + |m| { assert token[i] == m[i - |h| - 1]; }
      else if i == |h| + 1 + |m| { }
      else if i < |hms| { assert token[i] == sec[i - |h| - |m| - 2]; }
      else if i == |hms| { }
      else { assert token[i] == frac[i - |hms| - 1]; }
    }
  }

  /** A leading occurrence of the character is replaced, and replacing goes on after it. */
  lemma ReplacingAtHead(c: char, b: string, replacement: string)
    ensures Replacing([c] + b, [c], replacement) == replacement + Replacing(b, [c], replacement)
  {
    var s := [c] + b;
    assert s[..1] == [c];
    assert s[1..] == b;
  }

  /** Replacing the only occurrence of a character. */
  lemma ReplacingSingle(a: string, b: string, c: char, replacement: string)
    requires c !in a && c !in b
    ensures Replacing(a + [c] + b, [c], replacement) == a + replacement + b
  {
    var rest := [c] + b;
    assert a + [c] + b == a + rest;
    ReplacingCharConcat(a, rest, c, replacement);
    ReplacingAbsent(a, c, replacement);
    ReplacingAtHead(c, b, replacement);
    ReplacingAbsent(b, c, replacement);
  }

  /** Reading ',' as '.' in a canonical timestamp only changes the fraction separator. */
  lemma CanonicalReplace(h: string, m: string, sec: string, frac: string)
    requires IsDigitField(h) && IsDigitField(m) && IsDigitField(sec) && AllDigits(frac)
    ensures Replacing(h + ":" + m + ":" + sec + "," + frac, ",", ".") == h + ":" + m + ":" + (sec + "." + frac)
  {
    var hms := h + ":" + m + ":" + sec;
    assert ',' !in hms && ',' !in frac by {
      assert forall i :: 0 <= i < |h| ==> IsDigit(h[i]);
      assert forall i :: 0 <= i < |m| ==> IsDigit(m[i]);
      assert forall i :: 0 <= i < |sec| ==> IsDigit(sec[i]);
      assert forall i :: 0 <= i < |frac| ==> IsDigit(frac[i]);
    }
    ReplacingSingle(hms, frac, ',', ".");
  }

  lemma CanonicalSplit(h: string, m: string, sec: string, frac: string)
    requires IsDigitField(h) && IsDigitField(m) && IsDigitField(sec) && AllDigits(frac)
    ensures Split(h + ":" + m + ":" + (sec + "." + frac), ':') == [h, m, sec + "." + frac]
  {
    var sf := sec + "." + frac;
    assert ':' !in h && ':' !in m by {
      assert forall i :: 0 <= i < |h| ==> IsDigit(h[i]);
      assert forall i :: 0 <= i < |m| ==> IsDigit(m[i]);
    }
    assert ':' !in sf by {
      forall i | 0 <= i < |sf| ensures sf[i] != ':' {
        if i < |sec| { assert sf[i] == sec[i] && IsDigit(sec[i]); }
        else if i > |sec| { assert sf[i] == frac[i - |sec| - 1] && IsDigit(frac[i - |sec| - 1]); }
      }
    }
    SplitThreeFields(h, m, sf);
  }

  /** A clock reading "hours:minutes:seconds" plus a fraction of a second, in seconds. */
  function ClockTime(hours: nat, minutes: nat, seconds: nat, fraction: real): real {
    hours as real * 3600.0 + minutes as real * 60.0 + seconds as real + fraction
  }

  /** Three fields that each read as a number give their total. */
  lemma ReadFieldsOfParsed(segments: seq<string>, hours: real, minutes: real, seconds: real, secondSegments: seq<string>)
    requires |segments| == 3
    requires ParseDecimal(segments[0]) == Some(hours) && ParseDecimal(segments[1]) == Some(minutes)
    requires SplitOnce(segments[2], '.') == secondSegments && secondSegments != []
    requires ParseDecimal(secondSegments[0]) == Some(seconds)
    ensures ReadFields(segments) == Some(Total(hours, minutes, seconds, secondSegments))
  {
  }

  /** The total of whole fields is their clock time. */
  lemma TotalIsClockTime(hours: nat, minutes: nat, seconds: nat, secondSegments: seq<string>)
    ensures Total(hours as real, minutes as real, seconds as real, secondSegments)
         == ClockTime(hours, minutes, seconds, FractionalSeconds(secondSegments))
  {
  }

  /** The value read from the three canonical fields once they are split. */
  lemma CanonicalFields(h: string, m: string, sec: string, frac: string)
    requires IsDigitField(h) && IsDigitField(m) && IsDigitField(sec) && AllDigits(frac)
    ensures ReadFields([h, m, sec + "." + frac])
         == Some(ClockTime(DigitsValue(h), DigitsValue(m), DigitsValue(sec), FractionValue(frac)))
  {
    var secondSegments := [sec] + (if frac == [] then [] else [frac]);
    assert ParseDecimal(h) == Some(DigitsValue(h) as real) by {
      ParseDecimalOfDigits(h);
    }
    assert ParseDecimal(m) == Some(DigitsValue(m) as real) by {
      ParseDecimalOfDigits(m);
    }
    assert SplitOnce(sec + "." + frac, '.') == secondSegments by {
      SecondsFieldSplit(sec, frac);
    }
    assert ParseDecimal(secondSegments[0]) == Some(DigitsValue(sec) as real) by {
      ParseDecimalOfDigits(sec);
    }
    assert FractionalSeconds(secondSegments) == FractionValue(frac) by {
      if frac != [] {
        ParseDecimalOfFraction(frac);
      }
    }
    ReadFieldsOfParsed([h, m, sec + "." + frac], DigitsValue(h) as real, DigitsValue(m) as real,
      DigitsValue(sec) as real, secondSegments);
    TotalIsClockTime(DigitsValue(h), DigitsValue(m), DigitsValue(sec), secondSegments);
  }

  /** The token of a canonical timestamp padded with spaces is the timestamp. */
  lemma CanonicalToken(lead: string, h: string, m: string, sec: string, frac: string, trail: string)
    requires forall i :: 0 <= i < |lead| ==> lead[i] == ' '
    requires forall i :: 0 <= i < |trail| ==> trail[i] == ' '
    requires IsDigitField(h) && IsDigitField(m) && IsDigitField(sec) && AllDigits(frac)
    ensures TimestampToken(lead + h + ":" + m + ":" + sec + "," + frac + trail) == h + ":" + m + ":" + sec + "," + frac
  {
    var token := h + ":" + m + ":" + sec + "," + frac;
    assert lead + h + ":" + m + ":" + sec + "," + frac + trail == lead + token + trail;
    CanonicalTokenChars(h, m, sec, frac);
    TokenOfPadded(lead, token, trail);
  }

  /** The fields of a canonical timestamp padded with spaces. */
  lemma CanonicalTimestampFields(lead: string, h: string, m: string, sec: string, frac: string, trail: string)
    requires forall i :: 0 <= i < |lead| ==> lead[i] == ' '
    requires forall i :: 0 <= i < |trail| ==> trail[i] == ' '
    requires IsDigitField(h) && IsDigitField(m) && IsDigitField(sec) && AllDigits(frac)
    ensures TimestampFields(lead + h + ":" + m + ":" + sec + "," + frac + trail) == [h, m, sec + "." + frac]
  {
    CanonicalToken(lead, h, m, sec, frac, trail);
    CanonicalReplace(h, m, sec, frac);
    CanonicalSplit(h, m, sec, frac);
  }

  /**
   * A SubRip timestamp "HH:MM:SS,fff" (any number of digits per field, the
   * fraction possibly empty), padded with spaces, reads as
   * hours * 3600 + minutes * 60 + seconds + the fraction.
   */
  lemma ParseCanonicalTimestamp(lead: string, h: string, m: string, sec: string, frac: string, trail: string)
    requires forall i :: 0 <= i < |lead| ==> lead[i] == ' '
    requires forall i :: 0 <= i < |trail| ==> trail[i] == ' '
    requires IsDigitField(h) && IsDigitField(m) && IsDigitField(sec) && AllDigits(frac)
    ensures ParseTimestamp(lead + h + ":" + m + ":" + sec + "," + frac + trail)
         == Some(ClockTime(DigitsValue(h), DigitsValue(m), DigitsValue(sec), FractionValue(frac)))
  {
    CanonicalTimestampFields(lead, h, m, sec, frac, trail);
    CanonicalFields(h, m, sec, frac);
  }

  lemma PointsOnlyToken()
    ensures TimestampToken("00:00:.") == "00:00:."
  {
    var token := "00:00:.";
    assert token == [] + token + [];
    assert forall i :: 0 <= i < |token| ==> !InSet(token[i], WhitespacesAndNewlines);
    TokenOfPadded([], token, []);
  }

  /** The fields of "00:00:.", the timestamp that shows the defect below. */
  lemma PointsOnlyFields()
    ensures TimestampFields("00:00:.") == ["00", "00", "."]
  {
    PointsOnlyToken();
    PointsOnlyHasNoComma();
    PointsOnlySplit();
  }

  lemma PointsOnlyHasNoComma()
    ensures Replacing("00:00:.", ",", ".") == "00:00:."
  {
    var token := "00:00:.";
    assert ',' !in token;
    ReplacingAbsent(token, ',', ".");
  }

  lemma PointsOnlySplit()
    ensures Split("00:00:.", ':') == ["00", "00", "."]
  {
    assert "00:00:." == "00" + ":" + "00" + ":" + ".";
    SplitThreeFields("00", "00", ".");
  }

  /**
   * The defect, exhibited: a seconds field made only of a point (or of a comma,
   * which is read as a point first) makes the code as written read past the end
   * of an empty array; the corrected reader rejects the timestamp.
   */
  lemma SecondsFieldOfPointsTraps()
    ensures ParseTimestampAsWritten("00:00:.") == Trapped
    ensures ParseTimestamp("00:00:.") == None
  {
    PointsOnlyFields();
    PointsOnlyRead();
  }

  /** Reading the fields of "00:00:.": both leading fields are numbers, and the seconds field splits into nothing. */
  lemma PointsOnlyRead()
    ensures ReadFieldsAsWritten(["00", "00", "."]) == Trapped
    ensures ReadFields(["00", "00", "."]) == None
  {
    ZeroZeroReads();
    assert SplitOnce(".", '.') == [] by {
      assert "."[1..] == [];
    }
  }

  lemma ZeroZeroReads()
    ensures ParseDecimal("00") == Some(0.0)
  {
    ParseDecimalOfDigits("00");
    assert DigitsValue("00") == 0 by {
      assert "00"[..1] == "0" && "0"[..0] == [];
    }
  }

  // ---- Blocks to cues ----

  /**
   * One block: the first line containing "-->" is the timing line, and the
   * lines after it are the text. Lines before the timing line (the cue
   * number) are ignored.
   */
  function ParseBlock(block: string): (r: Option<SubtitleCue>)
    ensures r.Some? ==> r.value.start < r.value.end && r.value.text != []
  {
    var lines := BlockLines(block);
    match FirstIndexWhere(lines, "-->")
    case None => None
    case Some(timingIndex) =>
      TextAfterNonEmpty(lines, timingIndex);
      CueFromTiming(lines[timingIndex], lines[timingIndex + 1..])
  }

  /**
   * The timing line must split on "-->" into exactly two timestamps that
   * read, with the end after the start, and there must be text lines; the
   * cue's text is those lines joined by "\n".
   */
  function CueFromTiming(timingLine: string, textLines: seq<string>): (r: Option<SubtitleCue>)
    ensures r.Some? <==>
      var timingParts := Components(timingLine, "-->");
      && |timingParts| == 2
      && ParseTimestamp(timingParts[0]).Some? && ParseTimestamp(timingParts[1]).Some?
      && ParseTimestamp(timingParts[0]).value < ParseTimestamp(timingParts[1]).value
      && textLines != []
    ensures r.Some? ==>
      var timingParts := Components(timingLine, "-->");
      && r.value.start == ParseTimestamp(timingParts[0]).value
      && r.value.end == ParseTimestamp(timingParts[1]).value
      && r.value.text == Join(textLines, "\n")
  {
    var timingParts := Components(timingLine, "-->");
    if |timingParts| != 2 then None
    else
      var start, end := ParseTimestamp(timingParts[0]), ParseTimestamp(timingParts[1]);
      if start.None? || end.None? || !(end.value > start.value) || textLines == [] then None
      else Some(SubtitleCue(start.value, end.value, Join(textLines, "\n")))
  }

  /** Lines that are all non-empty join into non-empty text after any index. */
  lemma TextAfterNonEmpty(lines: seq<string>, k: nat)
    requires k < |lines|
    requires forall i :: 0 <= i < |lines| ==> lines[i] != []
    ensures lines[k + 1..] != [] ==> Join(lines[k + 1..], "\n") != []
  {
    if lines[k + 1..] != [] {
      assert lines[k + 1..][0] == lines[k + 1];
      JoinNonEmpty(lines[k + 1..], "\n");
    }
  }

  lemma {:induction false} JoinNonEmpty(parts: seq<string>, sep: string)
    requires parts != [] && parts[0] != []
    ensures Join(parts, sep) != []
  {
  }

  /**
   * A reader of one block. The block loop below is stated for any reader;
   * `Parse` runs it with `ParseBlock`.
   */
  type BlockReader = string -> Option<SubtitleCue>

  /** Every cue the reader returns ends after it starts. */
  ghost predicate ReadsIntervals(read: BlockReader) {
    forall b :: read(b).Some? ==> read(b).value.start < read(b).value.end
  }

  /** `ParseBlock` returns only cues that end after they start. */
  lemma ParseBlockReadsIntervals()
    ensures ReadsIntervals(ParseBlock)
  {
    forall b | ParseBlock(b).Some? ensures ParseBlock(b).value.start < ParseBlock(b).value.end {
    }
  }

  /** The cues of the blocks that the reader accepts, in block order. */
  function Accepted(blocks: seq<string>, read: BlockReader): (r: seq<SubtitleCue>)
    ensures |r| <= |blocks|
    ensures ReadsIntervals(read) ==> forall i :: 0 <= i < |r| ==> r[i].start < r[i].end
    decreases |blocks|
  {
    if blocks == [] then [] else Accepted(blocks[..|blocks| - 1], read) + BlockCues(blocks[|blocks| - 1], read)
  }

  /** The cue of one block, if it is accepted. */
  function BlockCues(block: string, read: BlockReader): (r: seq<SubtitleCue>)
    ensures |r| <= 1
    ensures ReadsIntervals(read) ==> forall i :: 0 <= i < |r| ==> r[i].start < r[i].end
  {
    match read(block)
    case Some(cue) => [cue]
    case None => []
  }

  /** A malformed block contributes nothing and never stops the parse; a good one contributes its cue. */
  lemma AcceptedAppend(blocks: seq<string>, block: string, read: BlockReader)
    ensures Accepted(blocks + [block], read) == Accepted(blocks, read) + BlockCues(block, read)
  {
    assert (blocks + [block])[..|blocks|] == blocks;
  }

  /** Reading one more block extends the accepted cues by that block's cue, if any. */
  lemma AcceptedPrefix(blocks: seq<string>, i: nat, read: BlockReader)
    requires i < |blocks|
    ensures Accepted(blocks[..i + 1], read)
         == Accepted(blocks[..i], read) + (if read(blocks[i]).Some? then [read(blocks[i]).value] else [])
  {
    assert blocks[..i + 1] == blocks[..i] + [blocks[i]];
    AcceptedAppend(blocks[..i], blocks[i], read);
  }

  /** Every accepted cue is the cue of one of the blocks. */
  lemma {:induction false} AcceptedFromBlocks(blocks: seq<string>, read: BlockReader, cue: SubtitleCue)
    requires cue in Accepted(blocks, read)
    ensures exists b :: b in blocks && read(b) == Some(cue)
    decreases |blocks|
  {
    var init := blocks[..|blocks| - 1];
    var last := blocks[|blocks| - 1];
    if cue in Accepted(init, read) {
      AcceptedFromBlocks(init, read, cue);
      var b :| b in init && read(b) == Some(cue);
      assert b in blocks;
    } else {
      assert read(last) == Some(cue);
      assert last in blocks;
    }
  }

  // ---- Sorting by start ----

  predicate SortedByStart(cues: seq<SubtitleCue>) {
    forall i, j :: 0 <= i < j < |cues| ==> cues[i].start <= cues[j].start
  }

  /** No cue starts before `t`. */
  predicate StartsNoEarlier(cues: seq<SubtitleCue>, t: real) {
    forall k :: 0 <= k < |cues| ==> t <= cues[k].start
  }

  /** Inserts `cue` after every cue that does not start later, so equal starts keep their order. */
  function Insert(cue: SubtitleCue, sorted: seq<SubtitleCue>): (r: seq<SubtitleCue>)
    requires SortedByStart(sorted)
    ensures SortedByStart(r)
    ensures forall t :: StartsNoEarlier(sorted, t) && t <= cue.start ==> StartsNoEarlier(r, t)
    ensures multiset(r) == multiset(sorted) + multiset{cue}
    decreases |sorted|
  {
    if sorted == [] then [cue]
    else if sorted[0].start > cue.start then
      assert StartsNoEarlier(sorted, cue.start);
      Prepend(cue, sorted);
      [cue] + sorted
    else
      var first, tail := sorted[0], sorted[1..];
      assert sorted == [first] + tail;
      assert StartsNoEarlier(tail, first.start);
      var rest := Insert(cue, tail);
      Prepend(first, rest);
      [first] + rest
  }

  /** A cue that starts no later than a sorted list may go in front of it. */
  lemma Prepend(first: SubtitleCue, rest: seq<SubtitleCue>)
    requires SortedByStart(rest) && StartsNoEarlier(rest, first.start)
    ensures SortedByStart([first] + rest)
    ensures forall t :: t <= first.start ==> StartsNoEarlier([first] + rest, t)
  {
    var r := [first] + rest;
    forall i, j | 0 <= i < j < |r| ensures r[i].start <= r[j].start {
      assert r[j] == rest[j - 1];
      if i > 0 {
        assert r[i] == rest[i - 1];
      }
    }
    forall t | t <= first.start ensures StartsNoEarlier(r, t) {
      forall k | 0 <= k < |r| ensures t <= r[k].start {
        if k > 0 {
          assert r[k] == rest[k - 1];
        }
      }
    }
  }

  /** `sorted { $0.start < $1.start }`: an insertion sort by start time. */
  function SortByStart(cues: seq<SubtitleCue>): (r: seq<SubtitleCue>)
    ensures SortedByStart(r)
    ensures multiset(r) == multiset(cues)
    decreases |cues|
  {
    if cues == [] then []
    else
      assert cues == cues[..|cues| - 1] + [cues[|cues| - 1]];
      Insert(cues[|cues| - 1], SortByStart(cues[..|cues| - 1]))
  }

  /**
   * `parse(text:)`: normalise line endings, split into blocks, keep the cue
   * of every block that parses, and sort the cues by start time.
   */
  method Parse(text: string) returns (cues: seq<SubtitleCue>)
    ensures SortedByStart(cues)
    ensures multiset(cues) == multiset(Accepted(Blocks(text), ParseBlock))
    ensures forall c :: c in cues ==> c.start < c.end
  {
    var accepted := AcceptBlocks(Blocks(text), ParseBlock);
    cues := SortByStart(accepted);
    ParseBlockReadsIntervals();
    SortKeepsIntervals(accepted);
  }

  /** The block loop of `parse(text:)`: each block that parses adds its cue, the others are skipped. */
  method AcceptBlocks(blocks: seq<string>, read: BlockReader) returns (accepted: seq<SubtitleCue>)
    ensures accepted == Accepted(blocks, read)
  {
    accepted := [];
    var i := 0;
    while i < |blocks|
      invariant 0 <= i <= |blocks|
      invariant accepted == Accepted(blocks[..i], read)
    {
      var cue := read(blocks[i]);
      if cue.Some? {
        accepted := accepted + [cue.value];
      }
      AcceptedPrefix(blocks, i, read);
      i := i + 1;
    }
    assert blocks[..i] == blocks;
  }

  /** Sorting keeps every cue, so every sorted cue still ends after it starts. */
  lemma SortKeepsIntervals(cues: seq<SubtitleCue>)
    requires forall i :: 0 <= i < |cues| ==> cues[i].start < cues[i].end
    ensures forall c :: c in SortByStart(cues) ==> c.start < c.end
  {
    forall c | c in SortByStart(cues) ensures c.start < c.end {
      assert c in multiset(cues);
    }
  }
}
