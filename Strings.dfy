/**
 * The Foundation and Swift standard-library string operations the core relies
 * on, over plain character sequences. Character classes are ASCII
 * approximations of Foundation's Unicode character sets.
 */
module Strings {
  import opened Wrappers

  // ---- Character sets ----

  /** `CharacterSet.whitespaces`, approximated by space and tab. */
  predicate IsWhitespace(c: char) {
    c == ' ' || c == '\t'
  }

  /** `CharacterSet.newlines`: U+000A to U+000D, U+0085, U+2028 and U+2029. */
  predicate IsNewline(c: char) {
    c == '\n' || c == '\U{000B}' || c == '\U{000C}' || c == '\r' || c == '\U{0085}' || c == '\U{2028}' || c == '\U{2029}'
  }

  datatype CharSet = Whitespaces | WhitespacesAndNewlines

  predicate InSet(c: char, cs: CharSet) {
    match cs
    case Whitespaces => IsWhitespace(c)
    case WhitespacesAndNewlines => IsWhitespace(c) || IsNewline(c)
  }

  // ---- Case ----

  function LowerChar(c: char): char {
    if 'A' <= c <= 'Z' then (c as int + 32) as char else c
  }

  /** `lowercased()`, restricted to ASCII letters. */
  function Lowercased(s: string): (r: string)
    ensures |r| == |s|
    ensures forall i :: 0 <= i < |s| ==> r[i] == LowerChar(s[i])
  {
    seq(|s|, i requires 0 <= i < |s| => LowerChar(s[i]))
  }

  // ---- Trimming ----

  function TrimLeading(s: string, cs: CharSet): (r: string)
    ensures |r| <= |s| && r == s[|s| - |r|..]
    ensures r != [] ==> !InSet(r[0], cs)
    ensures forall i :: 0 <= i < |s| - |r| ==> InSet(s[i], cs)
    decreases |s|
  {
    if s != [] && InSet(s[0], cs) then TrimLeading(s[1..], cs) else s
  }

  function TrimTrailing(s: string, cs: CharSet): (r: string)
    ensures |r| <= |s| && r == s[..|r|]
    ensures r != [] ==> !InSet(r[|r| - 1], cs)
    ensures forall i :: |r| <= i < |s| ==> InSet(s[i], cs)
    decreases |s|
  {
    if s != [] && InSet(s[|s| - 1], cs) then TrimTrailing(s[..|s| - 1], cs) else s
  }

  /** How many characters `TrimLeading` removes. */
  function LeadingCount(s: string, cs: CharSet): (n: nat)
    ensures n <= |s|
  {
    |s| - |TrimLeading(s, cs)|
  }

  /**
   * `trimmingCharacters(in:)`: the longest middle slice of `s` that neither
   * starts nor ends with a character of the set.
   */
  function Trim(s: string, cs: CharSet): (r: string)
    ensures r != [] ==> !InSet(r[0], cs) && !InSet(r[|r| - 1], cs)
    ensures LeadingCount(s, cs) + |r| <= |s|
    ensures r == s[LeadingCount(s, cs)..LeadingCount(s, cs) + |r|]
    ensures forall i :: 0 <= i < LeadingCount(s, cs) ==> InSet(s[i], cs)
    ensures forall i :: LeadingCount(s, cs) + |r| <= i < |s| ==> InSet(s[i], cs)
  {
    var t := TrimLeading(s, cs);
    var r := TrimTrailing(t, cs);
    TrimmedSuffix(s, t, r, cs);
    r
  }

  /** The trimmed text within `s`, and the trailing characters that were cut. */
  lemma TrimmedSuffix(s: string, t: string, r: string, cs: CharSet)
    requires |t| <= |s| && t == s[|s| - |t|..]
    requires |r| <= |t| && r == t[..|r|]
    requires forall i :: |r| <= i < |t| ==> InSet(t[i], cs)
    ensures r == s[|s| - |t|..|s| - |t| + |r|]
    ensures forall i :: |s| - |t| + |r| <= i < |s| ==> InSet(s[i], cs)
  {
    var n := |s| - |t|;
    forall i | n + |r| <= i < |s| ensures InSet(s[i], cs) {
      assert s[i] == t[i - n];
    }
  }

  /** Trimming yields the empty string exactly when every character is in the set. */
  lemma TrimEmptyIff(s: string, cs: CharSet)
    ensures Trim(s, cs) == [] <==> forall i :: 0 <= i < |s| ==> InSet(s[i], cs)
  {
    var r := Trim(s, cs);
    if r != [] {
      assert r[0] == s[LeadingCount(s, cs)];
    }
  }

  lemma TrimLeadingPadded(lead: string, t: string, cs: CharSet)
    requires forall i :: 0 <= i < |lead| ==> InSet(lead[i], cs)
    requires t != [] && !InSet(t[0], cs)
    ensures TrimLeading(lead + t, cs) == t
  {
    var s := lead + t;
    var r := TrimLeading(s, cs);
    var n := |s| - |r|;
    assert s[|lead|] == t[0];
    assert n <= |lead|;
    assert r[0] == s[n];
    assert forall i :: 0 <= i < |lead| ==> s[i] == lead[i];
    assert n == |lead|;
    assert s[|lead|..] == t;
  }

  lemma {:induction false} TrimTrailingPadded(t: string, trail: string, cs: CharSet)
    requires forall i :: 0 <= i < |trail| ==> InSet(trail[i], cs)
    requires t != [] && !InSet(t[|t| - 1], cs)
    ensures TrimTrailing(t + trail, cs) == t
    decreases |trail|
  {
    if trail == [] {
      assert t + trail == t;
    } else {
      var u := t + trail;
      assert u[..|u| - 1] == t + trail[..|trail| - 1];
      TrimTrailingPadded(t, trail[..|trail| - 1], cs);
    }
  }

  /** Trimming removes exactly the padding around a string that neither starts nor ends with a trimmed character. */
  lemma TrimPadded(lead: string, t: string, trail: string, cs: CharSet)
    requires forall i :: 0 <= i < |lead| ==> InSet(lead[i], cs)
    requires forall i :: 0 <= i < |trail| ==> InSet(trail[i], cs)
    requires t != [] && !InSet(t[0], cs) && !InSet(t[|t| - 1], cs)
    ensures Trim(lead + t + trail, cs) == t
  {
    assert lead + t + trail == lead + (t + trail);
    assert (t + trail)[0] == t[0];
    TrimLeadingPadded(lead, t + trail, cs);
    TrimTrailingPadded(t, trail, cs);
  }

  /** Trimming twice trims nothing more. */
  lemma TrimIdempotent(s: string, cs: CharSet)
    ensures Trim(Trim(s, cs), cs) == Trim(s, cs)
  {
    var r := Trim(s, cs);
    if r != [] {
      assert TrimLeading(r, cs) == r;
      assert TrimTrailing(r, cs) == r;
    }
  }

  // ---- Searching ----

  predicate OccursAt(s: string, sub: string, i: int) {
    0 <= i && i + |sub| <= |s| && s[i..i + |sub|] == sub
  }

  /** `s.contains(sub)` for a string argument. */
  predicate ContainsSubstring(s: string, sub: string)
    decreases |s|
  {
    (|sub| <= |s| && s[..|sub|] == sub) || (s != [] && ContainsSubstring(s[1..], sub))
  }

  /** `ContainsSubstring` holds exactly when `sub` occurs at some index of `s`. */
  lemma {:induction false} ContainsSubstringIff(s: string, sub: string)
    ensures ContainsSubstring(s, sub) <==> exists i :: 0 <= i <= |s| - |sub| && OccursAt(s, sub, i)
    decreases |s|
  {
    if s == [] {
      if ContainsSubstring(s, sub) {
        assert OccursAt(s, sub, 0);
      }
    } else {
      ContainsSubstringIff(s[1..], sub);
      if |sub| <= |s| && s[..|sub|] == sub {
        assert OccursAt(s, sub, 0);
      } else if ContainsSubstring(s[1..], sub) {
        var i :| 0 <= i <= |s[1..]| - |sub| && OccursAt(s[1..], sub, i);
        assert s[1..][i..i + |sub|] == s[i + 1..i + 1 + |sub|];
        assert OccursAt(s, sub, i + 1);
      }
      if exists i :: 0 <= i <= |s| - |sub| && OccursAt(s, sub, i) {
        var i :| 0 <= i <= |s| - |sub| && OccursAt(s, sub, i);
        if i > 0 {
          assert s[1..][i - 1..i - 1 + |sub|] == s[i..i + |sub|];
          assert OccursAt(s[1..], sub, i - 1);
        }
      }
    }
  }

  /** The first index of `c` in `s`, if any. */
  function IndexOf(s: string, c: char): (r: Option<nat>)
    ensures r.Some? ==> r.value < |s| && s[r.value] == c && c !in s[..r.value]
    ensures r.None? <==> c !in s
    decreases |s|
  {
    if s == [] then None
    else if s[0] == c then Some(0)
    else match IndexOf(s[1..], c)
      case None => None
      case Some(k) => assert s[1..][..k] == s[1..k + 1]; Some(k + 1)
  }

  lemma IndexOfConcat(a: string, b: string, c: char)
    requires c !in a && b != [] && b[0] == c
    ensures IndexOf(a + b, c) == Some(|a|)
  {
    assert (a + b)[|a|] == c;
    assert (a + b)[..|a|] == a;
  }

  /** The index of the first line that contains `sub`, if any. */
  function FirstIndexWhere(lines: seq<string>, sub: string): (r: Option<nat>)
    ensures r.Some? ==> r.value < |lines| && ContainsSubstring(lines[r.value], sub)
    ensures r.Some? ==> forall j :: 0 <= j < r.value ==> !ContainsSubstring(lines[j], sub)
    ensures r.None? <==> forall j :: 0 <= j < |lines| ==> !ContainsSubstring(lines[j], sub)
    decreases |lines|
  {
    if lines == [] then None
    else if ContainsSubstring(lines[0], sub) then Some(0)
    else match FirstIndexWhere(lines[1..], sub)
      case None => assert forall j :: 1 <= j < |lines| ==> lines[j] == lines[1..][j - 1]; None
      case Some(k) => assert forall j :: 1 <= j < |lines| ==> lines[j] == lines[1..][j - 1]; Some(k + 1)
  }

  // ---- Replacing, splitting and joining ----

  /** `replacingOccurrences(of:with:)`: leftmost, non-overlapping replacement. */
  function Replacing(s: string, target: string, replacement: string): string
    requires target != []
    decreases |s|
  {
    if s == [] then []
    else if |target| <= |s| && s[..|target|] == target
    then replacement + Replacing(s[|target|..], target, replacement)
    else [s[0]] + Replacing(s[1..], target, replacement)
  }

  /** Replacing a character by another leaves none of the first behind. */
  lemma {:induction false} ReplacingCharRemovesIt(s: string, a: char, b: char)
    requires a != b
    ensures a !in Replacing(s, [a], [b])
    decreases |s|
  {
    if s != [] {
      ReplacingCharRemovesIt(s[1..], a, b);
    }
  }

  /** `Replacing` never introduces a character absent from both `s` and the replacement. */
  lemma {:induction false} ReplacingKeepsAbsentChar(s: string, target: string, replacement: string, c: char)
    requires target != []
    requires c !in s && c !in replacement
    ensures c !in Replacing(s, target, replacement)
    decreases |s|
  {
    if s != [] {
      if |target| <= |s| && s[..|target|] == target {
        assert forall j :: 0 <= j < |s[|target|..]| ==> s[|target|..][j] == s[j + |target|];
        ReplacingKeepsAbsentChar(s[|target|..], target, replacement, c);
      } else {
        ReplacingKeepsAbsentChar(s[1..], target, replacement, c);
      }
    }
  }

  /** Replacing a character that does not occur changes nothing. */
  lemma {:induction false} ReplacingAbsent(s: string, c: char, replacement: string)
    requires c !in s
    ensures Replacing(s, [c], replacement) == s
    decreases |s|
  {
    if s != [] {
      assert s[..1] == [s[0]];
      ReplacingAbsent(s[1..], c, replacement);
    }
  }

  /** Replacing a single character distributes over concatenation. */
  lemma {:induction false} ReplacingCharConcat(a: string, b: string, c: char, replacement: string)
    ensures Replacing(a + b, [c], replacement) == Replacing(a, [c], replacement) + Replacing(b, [c], replacement)
    decreases |a|
  {
    if a != [] {
      assert (a + b)[1..] == a[1..] + b;
      assert (a + b)[..1] == a[..1];
      ReplacingCharConcat(a[1..], b, c, replacement);
    } else {
      assert a + b == b;
    }
  }

  /** `Array.joined(separator:)`. */
  function Join(parts: seq<string>, sep: string): string
    decreases |parts|
  {
    if parts == [] then []
    else if |parts| == 1 then parts[0]
    else parts[0] + sep + Join(parts[1..], sep)
  }

  /** Concatenation, `joined()` with no separator. */
  function Concat(parts: seq<string>): string
    decreases |parts|
  {
    if parts == [] then [] else parts[0] + Concat(parts[1..])
  }

  /**
   * `components(separatedBy:)` with a string separator: every piece is kept,
   * including empty ones; `piece` is the piece under construction.
   */
  function ComponentsFrom(s: string, sep: string, piece: string): (r: seq<string>)
    requires sep != []
    ensures |r| >= 1
    decreases |s|
  {
    if s == [] then [piece]
    else if |sep| <= |s| && s[..|sep|] == sep then [piece] + ComponentsFrom(s[|sep|..], sep, [])
    else ComponentsFrom(s[1..], sep, piece + [s[0]])
  }

  function Components(s: string, sep: string): (r: seq<string>)
    requires sep != []
    ensures |r| >= 1
  {
    ComponentsFrom(s, sep, [])
  }

  /** Joining the components with the separator gives the original string back. */
  lemma {:induction false} ComponentsFromJoin(s: string, sep: string, piece: string)
    requires sep != []
    ensures Join(ComponentsFrom(s, sep, piece), sep) == piece + s
    decreases |s|
  {
    if s == [] {
    } else if |sep| <= |s| && s[..|sep|] == sep {
      var rest := ComponentsFrom(s[|sep|..], sep, []);
      ComponentsFromJoin(s[|sep|..], sep, []);
      assert s == sep + s[|sep|..];
    } else {
      ComponentsFromJoin(s[1..], sep, piece + [s[0]]);
      assert s == [s[0]] + s[1..];
    }
  }

  lemma ComponentsJoin(s: string, sep: string)
    requires sep != []
    ensures Join(Components(s, sep), sep) == s
    ensures forall p :: p in Components(s, sep) ==> !ContainsSubstring(p, sep)
  {
    ComponentsFromJoin(s, sep, []);
    ComponentsFromFree(s, sep, []);
  }

  /**
   * The cut falls at the leftmost occurrence: when the separator first occurs
   * at `|a|`, the first component is `a` and the rest are the components of
   * what follows that occurrence.
   */
  lemma ComponentsAtFirst(a: string, sep: string, b: string)
    requires sep != []
    requires forall j :: 0 <= j < |a| ==> !OccursAt(a + sep + b, sep, j)
    ensures Components(a + sep + b, sep) == [a] + Components(b, sep)
  {
    ComponentsFromFirst(a, sep, b, []);
    assert [] + a == a;
  }

  /** The scan carries `a` into the piece under construction, then cuts at the separator. */
  lemma {:induction false} ComponentsFromFirst(a: string, sep: string, b: string, piece: string)
    requires sep != []
    requires forall j :: 0 <= j < |a| ==> !OccursAt(a + sep + b, sep, j)
    ensures ComponentsFrom(a + sep + b, sep, piece) == [piece + a] + Components(b, sep)
    decreases |a|
  {
    var s := a + sep + b;
    if a == [] {
      assert s == sep + b;
      assert s[..|sep|] == sep && s[|sep|..] == b;
      assert piece + a == piece;
    } else {
      assert !OccursAt(s, sep, 0);
      assert s[..|sep|] != sep;
      var rest := a[1..];
      assert s[1..] == rest + sep + b;
      forall j | 0 <= j < |rest|
        ensures !OccursAt(rest + sep + b, sep, j)
      {
        assert !OccursAt(s, sep, j + 1);
        assert s[j + 1..j + 1 + |sep|] == (rest + sep + b)[j..j + |sep|];
      }
      ComponentsFromFirst(rest, sep, b, piece + [a[0]]);
      assert piece + [a[0]] + rest == piece + a;
    }
  }

  /**
   * No piece holds the separator: the text is cut at every occurrence the
   * left-to-right scan meets. The piece under construction holds no start of
   * an occurrence in the text it came from.
   */
  lemma {:induction false} ComponentsFromFree(s: string, sep: string, piece: string)
    requires sep != []
    requires forall j :: 0 <= j < |piece| ==> !OccursAt(piece + s, sep, j)
    ensures forall p :: p in ComponentsFrom(s, sep, piece) ==> !ContainsSubstring(p, sep)
    decreases |s|
  {
    if s == [] {
      assert piece + s == piece;
      PieceFree(piece, s, sep);
    } else if |sep| <= |s| && s[..|sep|] == sep {
      PieceFree(piece, s, sep);
      ComponentsFromFree(s[|sep|..], sep, []);
    } else {
      var next := piece + [s[0]];
      assert next + s[1..] == piece + s;
      forall j | 0 <= j < |next|
        ensures !OccursAt(next + s[1..], sep, j)
      {
        if j == |piece| && |sep| <= |s| {
          assert (piece + s)[j..j + |sep|] == s[..|sep|];
        }
      }
      ComponentsFromFree(s[1..], sep, next);
    }
  }

  /** A piece in which no occurrence starts, followed by any text, does not contain the separator. */
  lemma PieceFree(piece: string, rest: string, sep: string)
    requires sep != []
    requires forall j :: 0 <= j < |piece| ==> !OccursAt(piece + rest, sep, j)
    ensures !ContainsSubstring(piece, sep)
  {
    ContainsSubstringIff(piece, sep);
    if ContainsSubstring(piece, sep) {
      var i :| 0 <= i <= |piece| - |sep| && OccursAt(piece, sep, i);
      assert (piece + rest)[i..i + |sep|] == piece[i..i + |sep|];
      assert OccursAt(piece + rest, sep, i);
    }
  }

  /** `components(separatedBy: CharacterSet.newlines)`: single-character separators, empty pieces kept. */
  function LinesFrom(s: string, piece: string): (r: seq<string>)
    ensures |r| >= 1
    decreases |s|
  {
    if s == [] then [piece]
    else if IsNewline(s[0]) then [piece] + LinesFrom(s[1..], [])
    else LinesFrom(s[1..], piece + [s[0]])
  }

  function Lines(s: string): (r: seq<string>)
    ensures |r| >= 1
  {
    LinesFrom(s, [])
  }

  predicate HasNoNewline(line: string) {
    forall i :: 0 <= i < |line| ==> !IsNewline(line[i])
  }

  function NewlineCount(s: string): nat
    decreases |s|
  {
    if s == [] then 0 else (if IsNewline(s[0]) then 1 else 0) + NewlineCount(s[1..])
  }

  /** The text with its newline characters removed. */
  function WithoutNewlines(s: string): string
    decreases |s|
  {
    if s == [] then [] else (if IsNewline(s[0]) then [] else [s[0]]) + WithoutNewlines(s[1..])
  }

  /**
   * The text is cut at every newline character: there is one line more than
   * newlines, no line holds one, and the lines put together are the text
   * without its newlines.
   */
  lemma LinesCutAtNewlines(s: string)
    ensures |Lines(s)| == NewlineCount(s) + 1
    ensures forall line :: line in Lines(s) ==> HasNoNewline(line)
    ensures Concat(Lines(s)) == WithoutNewlines(s)
  {
    LinesFromCut(s, []);
  }

  lemma {:induction false} LinesFromCut(s: string, piece: string)
    requires HasNoNewline(piece)
    ensures |LinesFrom(s, piece)| == NewlineCount(s) + 1
    ensures forall line :: line in LinesFrom(s, piece) ==> HasNoNewline(line)
    ensures Concat(LinesFrom(s, piece)) == piece + WithoutNewlines(s)
    decreases |s|
  {
    if s == [] {
      assert Concat([piece]) == piece + Concat([]);
    } else if IsNewline(s[0]) {
      var rest := LinesFrom(s[1..], []);
      LinesFromCut(s[1..], []);
      assert ([piece] + rest)[1..] == rest;
      assert Concat([piece] + rest) == piece + Concat(rest);
    } else {
      var next := piece + [s[0]];
      assert HasNoNewline(next) by {
        forall i | 0 <= i < |next| ensures !IsNewline(next[i]) {
          if i < |piece| { assert next[i] == piece[i]; }
        }
      }
      LinesFromCut(s[1..], next);
      ConcatAssoc(piece, [s[0]], WithoutNewlines(s[1..]));
    }
  }

  lemma ConcatAssoc<T>(x: seq<T>, y: seq<T>, z: seq<T>)
    ensures x + (y + z) == (x + y) + z
  {
  }

  /**
   * Swift's `split(separator:)`: pieces between separators, with empty pieces
   * omitted; `piece` is the piece under construction.
   */
  function SplitFrom(s: string, sep: char, piece: string): (r: seq<string>)
    ensures forall i :: 0 <= i < |r| ==> r[i] != []
    decreases |s|
  {
    if s == [] then (if piece == [] then [] else [piece])
    else if s[0] == sep then (if piece == [] then [] else [piece]) + SplitFrom(s[1..], sep, [])
    else SplitFrom(s[1..], sep, piece + [s[0]])
  }

  function Split(s: string, sep: char): (r: seq<string>)
    ensures forall i :: 0 <= i < |r| ==> r[i] != []
  {
    SplitFrom(s, sep, [])
  }

  /** Splitting a separator-free string continues the current piece to its end. */
  lemma {:induction false} SplitFromNoSep(s: string, sep: char, piece: string, rest: string)
    requires sep !in s
    requires rest == [] || rest[0] == sep
    ensures SplitFrom(s + rest, sep, piece) == SplitFrom(rest, sep, piece + s)
    decreases |s|
  {
    if s == [] {
      assert s + rest == rest && piece + s == piece;
    } else {
      assert s[0] != sep && sep !in s[1..];
      assert (s + rest)[1..] == s[1..] + rest;
      assert (s + rest)[0] == s[0];
      SplitFromNoSep(s[1..], sep, piece + [s[0]], rest);
      assert piece + [s[0]] + s[1..] == piece + s;
    }
  }

  /** A string made of non-empty separator-free parts joined by single separators splits back into those parts. */
  lemma {:induction false} SplitJoin(parts: seq<string>, sep: char)
    requires parts != []
    requires forall i :: 0 <= i < |parts| ==> parts[i] != [] && sep !in parts[i]
    ensures Split(Join(parts, [sep]), sep) == parts
    decreases |parts|
  {
    if |parts| == 1 {
      SplitFromNoSep(parts[0], sep, [], []);
      assert [] + parts[0] == parts[0] && parts[0] + [] == parts[0];
      assert parts == [parts[0]];
    } else {
      var tail := Join(parts[1..], [sep]);
      assert Join(parts, [sep]) == parts[0] + ([sep] + tail);
      SplitFromNoSep(parts[0], sep, [], [sep] + tail);
      assert ([sep] + tail)[1..] == tail;
      assert [] + parts[0] == parts[0];
      SplitJoin(parts[1..], sep);
    }
  }

  /** Three non-empty fields without ':' joined by ':' split back into those fields. */
  lemma SplitThreeFields(a: string, b: string, c: string)
    requires a != [] && b != [] && c != []
    requires ':' !in a && ':' !in b && ':' !in c
    ensures Split(a + ":" + b + ":" + c, ':') == [a, b, c]
  {
    assert Join([a, b, c], [':']) == a + ":" + b + ":" + c by {
      assert [a, b, c][1..] == [b, c];
      assert [b, c][1..] == [c];
      assert Join([c], [':']) == c;
      assert Join([b, c], [':']) == b + [':'] + c;
      assert Join([a, b, c], [':']) == a + [':'] + (b + [':'] + c);
    }
    SplitJoin([a, b, c], ':');
  }

  /** Two non-empty fields without ':' joined by ':' split back into those fields. */
  lemma SplitTwoFields(a: string, b: string)
    requires a != [] && b != []
    requires ':' !in a && ':' !in b
    ensures Split(a + ":" + b, ':') == [a, b]
  {
    assert Join([a, b], [':']) == a + ":" + b by {
      assert [a, b][1..] == [b];
      assert Join([b], [':']) == b;
    }
    SplitJoin([a, b], ':');
  }

  /**
   * Swift's `split(separator:maxSplits: 1)`: leading separators produce only
   * empty pieces, which are omitted and do not count as splits; at the first
   * separator after a non-empty piece the rest of the string becomes the
   * second piece (if non-empty).
   */
  function SplitOnce(s: string, sep: char): (r: seq<string>)
    ensures |r| <= 2
    ensures forall i :: 0 <= i < |r| ==> r[i] != []
    decreases |s|
  {
    if s == [] then []
    else if s[0] == sep then SplitOnce(s[1..], sep)
    else match IndexOf(s, sep)
      case None => [s]
      case Some(k) => [s[..k]] + (if s[k + 1..] == [] then [] else [s[k + 1..]])
  }

  /** A string that does not start with the separator splits at its first separator. */
  lemma SplitOnceAt(s: string, sep: char, k: nat)
    requires s != [] && s[0] != sep && IndexOf(s, sep) == Some(k)
    ensures SplitOnce(s, sep) == [s[..k]] + (if s[k + 1..] == [] then [] else [s[k + 1..]])
  {
  }

  /** `SplitOnce` yields no piece at all exactly when the string is made of separators only. */
  lemma {:induction false} SplitOnceEmptyIff(s: string, sep: char)
    ensures SplitOnce(s, sep) == [] <==> forall i :: 0 <= i < |s| ==> s[i] == sep
    decreases |s|
  {
    if s != [] && s[0] == sep {
      SplitOnceEmptyIff(s[1..], sep);
      assert forall i :: 1 <= i < |s| ==> s[i] == s[1..][i - 1];
    }
  }

  // ---- Decimal digits ----

  predicate IsDigit(c: char) {
    '0' <= c <= '9'
  }

  predicate AllDigits(s: string) {
    forall i :: 0 <= i < |s| ==> IsDigit(s[i])
  }

  /** A digit string holds no character that is not a digit. */
  lemma DigitsExclude(s: string, c: char)
    requires AllDigits(s) && !IsDigit(c)
    ensures c !in s
  {
    assert forall i :: 0 <= i < |s| ==> s[i] != c by {
      forall i | 0 <= i < |s| ensures s[i] != c {
        assert IsDigit(s[i]);
      }
    }
  }

  function DigitValue(c: char): nat
    requires IsDigit(c)
  {
    c as int - '0' as int
  }

  /** The value of a string of decimal digits, most significant first. */
  function DigitsValue(s: string): nat
    requires AllDigits(s)
    decreases |s|
  {
    if s == [] then 0 else 10 * DigitsValue(s[..|s| - 1]) + DigitValue(s[|s| - 1])
  }

  function DigitChar(d: nat): (c: char)
    requires d < 10
    ensures IsDigit(c) && DigitValue(c) == d
  {
    ('0' as int + d) as char
  }

  /** `%d` of a non-negative integer: its decimal digits without leading zeros. */
  function DecimalText(n: nat): (r: string)
    ensures r != [] && AllDigits(r)
    ensures |r| == 1 <==> n < 10
    ensures n >= 10 ==> r[0] != '0'
    decreases n
  {
    if n < 10 then [DigitChar(n)] else DecimalText(n / 10) + [DigitChar(n % 10)]
  }

  /** Reading back the decimal text of `n` gives `n`. */
  lemma {:induction false} DecimalTextRoundTrip(n: nat)
    ensures DigitsValue(DecimalText(n)) == n
    decreases n
  {
    var r := DecimalText(n);
    if n >= 10 {
      DecimalTextRoundTrip(n / 10);
      assert r[..|r| - 1] == DecimalText(n / 10);
    }
  }

  /** The value of the digits after a decimal point: "d1d2..." reads as (d1 + 0.d2...) / 10. */
  function FractionValue(f: string): (r: real)
    requires AllDigits(f)
    ensures 0.0 <= r < 1.0
    decreases |f|
  {
    if f == [] then 0.0 else (DigitValue(f[0]) as real + FractionValue(f[1..])) / 10.0
  }

  /**
   * Swift's `Double(String)`, restricted to plain decimal notation: digits,
   * optionally followed by a point and more digits, or a point followed by
   * digits. Signs, exponents, hexadecimal, "inf" and "nan" are not accepted.
   */
  function ParseDecimal(s: string): (r: Option<real>)
    ensures r.Some? ==> r.value >= 0.0
    ensures AllDigits(s) ==> (r.Some? <==> s != [])
  {
    match IndexOf(s, '.')
    case None =>
      if s != [] && AllDigits(s) then Some(DigitsValue(s) as real) else None
    case Some(k) =>
      var whole, fraction := s[..k], s[k + 1..];
      if AllDigits(whole) && AllDigits(fraction) && |whole| + |fraction| > 0
      then Some(DigitsValue(whole) as real + FractionValue(fraction))
      else None
  }

  lemma ParseDecimalOfDigits(s: string)
    requires s != [] && AllDigits(s)
    ensures ParseDecimal(s) == Some(DigitsValue(s) as real)
  {
    assert forall i :: 0 <= i < |s| ==> s[i] != '.';
  }

  /** The string "0." followed by `f` has its only leading point at index 1. */
  lemma PointAfterZero(f: string)
    ensures IndexOf("0." + f, '.') == Some(1)
    ensures ("0." + f)[..1] == "0" && ("0." + f)[2..] == f
  {
    var s := "0." + f;
    assert s[0] == '0' && s[1] == '.';
    assert s[1..][0] == '.';
    assert IndexOf(s[1..], '.') == Some(0);
  }

  /** "0." followed by digits parses to the value of those digits as a fraction. */
  lemma ParseDecimalOfFraction(f: string)
    requires AllDigits(f)
    ensures ParseDecimal("0." + f) == Some(FractionValue(f))
  {
    var s := "0." + f;
    var x := FractionValue(f);
    assert ParseDecimal(s) == Some(DigitsValue(s[..1]) as real + x) by {
      PointAfterZero(f);
    }
    assert DigitsValue(s[..1]) == 0 by {
      PointAfterZero(f);
      assert s[..1][..0] == [];
    }
  }

  /** "0." followed by anything other than digits does not parse. */
  lemma ParseDecimalOfBadFraction(f: string)
    requires !AllDigits(f)
    ensures ParseDecimal("0." + f) == None
  {
    PointAfterZero(f);
  }
}
