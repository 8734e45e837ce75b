/**
 * The inline style-tag segmenter for subtitle text. A recognised tag, <i>, <b>
 * or <u>, opening or closing, in any case and with optional whitespace, turns
 * its own style flag on or off; everything else is text. The text between
 * tags becomes segments that carry the flags in force, and neighbouring
 * segments of the same style are merged.
 *
 * The reference is character-level: `StyledText` pairs every character that
 * is not part of a tag with the style in force where it stands. The segments
 * are the maximal runs of equal style of that sequence (`Segments`), and the
 * loop over regular-expression matches (`ParseSegments`) is proved to build
 * exactly those.
 */
module SubtitleTextRenderer {
  import opened Wrappers
  import opened Strings

  // ---- The tag pattern `(?i)<\s*(/?)\s*([ibu])\s*>` ----

  /** `\s` of the pattern, approximated by the whitespace-and-newline set. */
  predicate IsPatternSpace(c: char) {
    InSet(c, WhitespacesAndNewlines)
  }

  /** `[ibu]` under `(?i)`. */
  predicate IsTagLetter(c: char) {
    c == 'i' || c == 'b' || c == 'u' || c == 'I' || c == 'B' || c == 'U'
  }

  /** A match of the pattern: its range [start, end), whether group 1 holds "/", and group 2 lowercased. */
  datatype Tag = Tag(start: nat, end: nat, isClosing: bool, name: char)

  /** The first position at or after `p` that does not hold a pattern space. */
  function SkipSpaces(s: string, p: nat): (r: nat)
    requires p <= |s|
    ensures p <= r <= |s|
    ensures r < |s| ==> !IsPatternSpace(s[r])
    decreases |s| - p
  {
    if p < |s| && IsPatternSpace(s[p]) then SkipSpaces(s, p + 1) else p
  }

  /** Everything `SkipSpaces` passes over is a pattern space. */
  lemma {:induction false} SkipSpacesSpan(s: string, p: nat)
    requires p <= |s|
    ensures forall k :: p <= k < SkipSpaces(s, p) ==> IsPatternSpace(s[k])
    decreases |s| - p
  {
    if p < |s| && IsPatternSpace(s[p]) {
      SkipSpacesSpan(s, p + 1);
    }
  }

  /**
   * The match of the pattern that starts at `p`, if any: '<', spaces, an
   * optional '/', spaces, one of i, b, u in either case, spaces, '>'.
   */
  function TagAt(s: string, p: nat): (r: Option<Tag>)
    requires p <= |s|
    ensures r.Some? ==> r.value.start == p && p + 3 <= r.value.end <= |s|
    ensures r.Some? ==> s[p] == '<' && s[r.value.end - 1] == '>'
    ensures r.Some? ==> r.value.name == 'i' || r.value.name == 'b' || r.value.name == 'u'
    ensures p < |s| && s[p] != '<' ==> r.None?
  {
    if p < |s| && s[p] == '<' then TagAfterOpen(s, p, SkipSpaces(s, p + 1)) else None
  }

  /** The rest of a match after '<' and its spaces: the optional '/' at `slash`, then the letter. */
  function TagAfterOpen(s: string, p: nat, slash: nat): (r: Option<Tag>)
    requires p < slash <= |s|
    ensures r.Some? ==> r.value.start == p && slash + 2 <= r.value.end <= |s|
    ensures r.Some? ==> s[r.value.end - 1] == '>'
    ensures r.Some? ==> r.value.name == 'i' || r.value.name == 'b' || r.value.name == 'u'
  {
    var isClosing := slash < |s| && s[slash] == '/';
    TagAtLetter(s, p, isClosing, SkipSpaces(s, if isClosing then slash + 1 else slash))
  }

  /** The rest of a match from the position of its letter. */
  function TagAtLetter(s: string, p: nat, isClosing: bool, letter: nat): (r: Option<Tag>)
    requires p < letter <= |s|
    ensures r.Some? ==> r.value.start == p && letter + 2 <= r.value.end <= |s|
    ensures r.Some? ==> s[r.value.end - 1] == '>'
    ensures r.Some? ==> r.value.name == 'i' || r.value.name == 'b' || r.value.name == 'u'
  {
    if letter < |s| && IsTagLetter(s[letter]) then
      var close := SkipSpaces(s, letter + 1);
      if close < |s| && s[close] == '>' then Some(Tag(p, close + 1, isClosing, LowerChar(s[letter])))
      else None
    else None
  }

  predicate AllPatternSpace(t: string) {
    forall i :: 0 <= i < |t| ==> IsPatternSpace(t[i])
  }

  /** `SkipSpaces` stops at the first character that is not a pattern space. */
  lemma SkipSpacesTo(s: string, p: nat, q: nat)
    requires p <= q < |s|
    requires forall k :: p <= k < q ==> IsPatternSpace(s[k])
    requires !IsPatternSpace(s[q])
    ensures SkipSpaces(s, p) == q
  {
    SkipSpacesSpan(s, p);
  }

  /**
   * Every text of the pattern's shape is a match: '<', spaces, an optional
   * '/', spaces, one of i, b, u in either case, spaces and '>'. The match
   * covers exactly that text, is closing exactly when the '/' is there, and
   * names the letter in lower case.
   */
  lemma TagAtPattern(pre: string, sp1: string, slash: string, sp2: string, letter: char, sp3: string, post: string)
    requires AllPatternSpace(sp1) && AllPatternSpace(sp2) && AllPatternSpace(sp3)
    requires slash == [] || slash == "/"
    requires IsTagLetter(letter)
    ensures var s := pre + "<" + sp1 + slash + sp2 + [letter] + sp3 + ">" + post;
      TagAt(s, |pre|)
      == Some(Tag(|pre|, |pre| + |sp1| + |slash| + |sp2| + |sp3| + 3, slash == "/", LowerChar(letter)))
  {
    var s := pre + "<" + sp1 + slash + sp2 + [letter] + sp3 + ">" + post;
    var p := |pre|;
    var a := p + 1 + |sp1|;
    var c := a + |slash| + |sp2|;
    var e := c + 1 + |sp3|;
    PatternLayout(pre, sp1, slash, sp2, letter, sp3, post);
    TagAtLaidOut(s, p, a, c, e, slash == "/");
  }

  /** Where the pieces of a text of the pattern's shape lie. */
  lemma PatternLayout(pre: string, sp1: string, slash: string, sp2: string, letter: char, sp3: string, post: string)
    requires AllPatternSpace(sp1) && AllPatternSpace(sp2) && AllPatternSpace(sp3)
    requires slash == [] || slash == "/"
    ensures var s := pre + "<" + sp1 + slash + sp2 + [letter] + sp3 + ">" + post;
      var p := |pre|;
      var a := p + 1 + |sp1|;
      var c := a + |slash| + |sp2|;
      var e := c + 1 + |sp3|;
      && e < |s| && s[p] == '<' && s[c] == letter && s[e] == '>'
      && (slash == "/" ==> s[a] == '/' && (forall k :: p < k < a ==> IsPatternSpace(s[k]))
                                     && (forall k :: a < k < c ==> IsPatternSpace(s[k])))
      && (slash == [] ==> forall k :: p < k < c ==> IsPatternSpace(s[k]))
      && (forall k :: c < k < e ==> IsPatternSpace(s[k]))
  {
    PatternRegroup(pre, sp1, slash, sp2, letter, sp3, post);
    var r4 := [letter] + (sp3 + (">" + post));
    OpeningLayout(pre, sp1, slash, sp2, r4);
    LetterLayout(pre + ("<" + (sp1 + (slash + sp2))), letter, sp3, post);
    assert pre + ("<" + (sp1 + (slash + (sp2 + r4)))) == pre + ("<" + (sp1 + (slash + sp2))) + r4;
  }

  /** Where the '<', the spaces and the optional '/' of the text lie. */
  lemma OpeningLayout(pre: string, sp1: string, slash: string, sp2: string, rest: string)
    requires AllPatternSpace(sp1) && AllPatternSpace(sp2)
    requires slash == [] || slash == "/"
    ensures var s := pre + ("<" + (sp1 + (slash + (sp2 + rest))));
      var p := |pre|;
      var a := p + 1 + |sp1|;
      var c := a + |slash| + |sp2|;
      && c <= |s| && s[p] == '<'
      && (slash == "/" ==> s[a] == '/' && (forall k :: p < k < a ==> IsPatternSpace(s[k]))
                                     && (forall k :: a < k < c ==> IsPatternSpace(s[k])))
      && (slash == [] ==> forall k :: p < k < c ==> IsPatternSpace(s[k]))
  {
    var r2 := slash + (sp2 + rest);
    var s := pre + ("<" + (sp1 + r2));
    var p := |pre|;
    var a := p + 1 + |sp1|;
    var c := a + |slash| + |sp2|;
    forall k | p < k < a ensures s[k] == sp1[k - a + |sp1|] { }
    forall k | a <= k < c ensures s[k] == r2[k - a] { }
    forall k | a + |slash| <= k < c ensures s[k] == sp2[k - a - |slash|] { }
    if slash == "/" {
      assert r2[0] == '/';
    }
  }

  /** Where the letter, the spaces after it and the '>' of the text lie. */
  lemma LetterLayout(head: string, letter: char, sp3: string, post: string)
    requires AllPatternSpace(sp3)
    ensures var s := head + ([letter] + (sp3 + (">" + post)));
      var c := |head|;
      var e := c + 1 + |sp3|;
      && e < |s| && s[c] == letter && s[e] == '>'
      && (forall k :: c < k < e ==> IsPatternSpace(s[k]))
  {
    var r4 := [letter] + (sp3 + (">" + post));
    var s := head + r4;
    var c := |head|;
    var e := c + 1 + |sp3|;
    forall k | c <= k < |s| ensures s[k] == r4[k - c] { }
    forall k | c < k < e ensures s[k] == sp3[k - c - 1] { }
    assert r4[0] == letter && r4[1 + |sp3|] == '>';
  }

  /** The pattern text, regrouped from the right. */
  lemma PatternRegroup(pre: string, sp1: string, slash: string, sp2: string, letter: char, sp3: string, post: string)
    ensures pre + "<" + sp1 + slash + sp2 + [letter] + sp3 + ">" + post
         == pre + ("<" + (sp1 + (slash + (sp2 + ([letter] + (sp3 + (">" + post)))))))
  {
    ConcatAssoc(sp3, ">", post);
    ConcatAssoc([letter], sp3, ">" + post);
    ConcatAssoc(sp2, [letter], sp3 + (">" + post));
    ConcatAssoc(slash, sp2, [letter] + (sp3 + (">" + post)));
    ConcatAssoc(sp1, slash, sp2 + ([letter] + (sp3 + (">" + post))));
    ConcatAssoc("<", sp1, slash + (sp2 + ([letter] + (sp3 + (">" + post)))));
    ConcatAssoc(pre, "<", sp1 + (slash + (sp2 + ([letter] + (sp3 + (">" + post))))));
  }

  /** Index by index: a '<', spaces, an optional '/' with spaces around it, a tag letter, spaces and a '>' are a match. */
  lemma TagAtLaidOut(s: string, p: nat, a: nat, c: nat, e: nat, closing: bool)
    requires p < c < e < |s|
    requires s[p] == '<' && IsTagLetter(s[c]) && s[e] == '>'
    requires closing ==> p < a < c && s[a] == '/' && (forall k :: p < k < a ==> IsPatternSpace(s[k]))
                                                 && (forall k :: a < k < c ==> IsPatternSpace(s[k]))
    requires !closing ==> forall k :: p < k < c ==> IsPatternSpace(s[k])
    requires forall k :: c < k < e ==> IsPatternSpace(s[k])
    ensures TagAt(s, p) == Some(Tag(p, e + 1, closing, LowerChar(s[c])))
  {
    if closing {
      SkipSpacesTo(s, p + 1, a);
      SkipSpacesTo(s, a + 1, c);
    } else {
      SkipSpacesTo(s, p + 1, c);
      SkipSpacesTo(s, c, c);
    }
    SkipSpacesTo(s, c + 1, e);
    TagAtFromSkips(s, p, if closing then a else c, c, e);
  }

  /** `TagAt` in terms of where each run of spaces stops. */
  lemma TagAtFromSkips(s: string, p: nat, slash: nat, letter: nat, close: nat)
    requires p < |s| && s[p] == '<'
    requires SkipSpaces(s, p + 1) == slash
    requires SkipSpaces(s, if slash < |s| && s[slash] == '/' then slash + 1 else slash) == letter
    requires letter < |s| && IsTagLetter(s[letter])
    requires SkipSpaces(s, letter + 1) == close
    requires close < |s| && s[close] == '>'
    ensures TagAt(s, p) == Some(Tag(p, close + 1, slash < |s| && s[slash] == '/', LowerChar(s[letter])))
  {
    var isClosing := slash < |s| && s[slash] == '/';
    assert TagAtLetter(s, p, isClosing, letter) == Some(Tag(p, close + 1, isClosing, LowerChar(s[letter])));
    assert TagAfterOpen(s, p, slash) == TagAtLetter(s, p, isClosing, letter);
  }

  /** A match is closing exactly when a '/' lies within it. */
  lemma TagAtClosingIff(s: string, p: nat)
    requires p <= |s| && TagAt(s, p).Some?
    ensures TagAt(s, p).value.isClosing <==> '/' in s[p..TagAt(s, p).value.end]
  {
    var tag := TagAt(s, p).value;
    var slash := SkipSpaces(s, p + 1);
    var isClosing := slash < |s| && s[slash] == '/';
    var letter := SkipSpaces(s, if isClosing then slash + 1 else slash);
    assert TagAt(s, p) == TagAfterOpen(s, p, slash) == TagAtLetter(s, p, isClosing, letter);
    var close := SkipSpaces(s, letter + 1);
    assert tag == Tag(p, close + 1, isClosing, LowerChar(s[letter]));
    SkipSpacesSpan(s, p + 1);
    SkipSpacesSpan(s, letter + 1);
    if isClosing {
      assert s[p..tag.end][slash - p] == '/';
    } else {
      NoSlashWithin(s, p, letter, close);
    }
  }

  /** '<', spaces, a tag letter, spaces and '>' hold no '/'. */
  lemma NoSlashWithin(s: string, p: nat, letter: nat, close: nat)
    requires p < letter < close < |s|
    requires s[p] == '<' && IsTagLetter(s[letter]) && s[close] == '>'
    requires forall k :: p < k < letter ==> IsPatternSpace(s[k])
    requires forall k :: letter < k < close ==> IsPatternSpace(s[k])
    ensures '/' !in s[p..close + 1]
  {
    forall k | p <= k <= close
      ensures s[k] != '/'
    {
      if p < k < letter || letter < k < close {
        assert IsPatternSpace(s[k]);
      }
    }
  }

  /**
   * `regex.matches(in:range:)`: the non-overlapping matches from `p` on,
   * leftmost first; after a match the search resumes at its end.
   */
  function ScanMatches(s: string, p: nat): (r: seq<Tag>)
    requires p <= |s|
    ensures forall k :: 0 <= k < |r| ==> p <= r[k].start < r[k].end <= |s|
    decreases |s| - p
  {
    if p == |s| then []
    else match TagAt(s, p)
      case Some(tag) => [tag] + ScanMatches(s, tag.end)
      case None => ScanMatches(s, p + 1)
  }

  // ---- Styles ----

  datatype Style = Style(italic: bool, bold: bool, underlined: bool)

  const Unstyled := Style(false, false, false)

  /** An opening tag turns its own flag on, a closing tag turns it off; the other flags stay. */
  function ApplyTag(style: Style, tag: Tag): (r: Style)
    ensures tag.name == 'i' ==> r == style.(italic := !tag.isClosing)
    ensures tag.name == 'b' ==> r == style.(bold := !tag.isClosing)
    ensures tag.name == 'u' ==> r == style.(underlined := !tag.isClosing)
  {
    var isEnabled := !tag.isClosing;
    if tag.name == 'i' then style.(italic := isEnabled)
    else if tag.name == 'b' then style.(bold := isEnabled)
    else if tag.name == 'u' then style.(underlined := isEnabled)
    else style
  }

  /**
   * There is no nesting stack: of two tags of the same name, the last wins,
   * whatever came before it (so "<i><i>a</i>b" leaves "b" upright).
   */
  lemma LastTagWins(style: Style, first: Tag, second: Tag)
    requires first.name == second.name
    requires first.name == 'i' || first.name == 'b' || first.name == 'u'
    ensures ApplyTag(ApplyTag(style, first), second) == ApplyTag(style, second)
  {
  }

  /** The flags are independent: a tag leaves the flags of the other names alone. */
  lemma TagsAreIndependent(style: Style, tag: Tag)
    ensures tag.name != 'i' ==> ApplyTag(style, tag).italic == style.italic
    ensures tag.name != 'b' ==> ApplyTag(style, tag).bold == style.bold
    ensures tag.name != 'u' ==> ApplyTag(style, tag).underlined == style.underlined
  {
  }

  // ---- Segments ----

  datatype Segment = Segment(text: string, isItalic: bool, isBold: bool, isUnderlined: bool) {
    function StyleOf(): Style {
      Style(isItalic, isBold, isUnderlined)
    }
  }

  function SegmentOf(text: string, style: Style): (r: Segment)
    ensures r.text == text && r.StyleOf() == style
  {
    Segment(text, style.italic, style.bold, style.underlined)
  }

  /**
   * `appendTextSegment`: empty text is dropped; text in the style of the
   * last segment is added to that segment; any other text starts a new one.
   */
  function AppendTextSegment(segments: seq<Segment>, content: string, style: Style): (r: seq<Segment>)
    ensures content == [] ==> r == segments
    ensures content != [] ==> r != [] && r[|r| - 1].StyleOf() == style
    ensures |segments| <= |r| <= |segments| + 1
    ensures forall i :: 0 <= i < |segments| - 1 ==> r[i] == segments[i]
  {
    if content == [] then segments
    else if segments != [] && segments[|segments| - 1].StyleOf() == style then
      segments[|segments| - 1 := SegmentOf(segments[|segments| - 1].text + content, style)]
    else segments + [SegmentOf(content, style)]
  }

  predicate NoEmptySegment(segments: seq<Segment>) {
    forall i :: 0 <= i < |segments| ==> segments[i].text != []
  }

  predicate NeighboursDiffer(segments: seq<Segment>) {
    forall i :: 0 < i < |segments| ==> segments[i - 1].StyleOf() != segments[i].StyleOf()
  }

  /** What the merging rule guarantees: no empty segment, no two neighbours of the same style. */
  predicate Canonical(segments: seq<Segment>) {
    NoEmptySegment(segments) && NeighboursDiffer(segments)
  }

  lemma AppendKeepsCanonical(segments: seq<Segment>, content: string, style: Style)
    requires Canonical(segments)
    ensures Canonical(AppendTextSegment(segments, content, style))
  {
  }

  /** Appending two texts of one style is appending their concatenation. */
  lemma AppendTwice(segments: seq<Segment>, a: string, b: string, style: Style)
    ensures AppendTextSegment(AppendTextSegment(segments, a, style), b, style)
         == AppendTextSegment(segments, a + b, style)
  {
    if a == [] {
      assert a + b == b;
    } else if b != [] {
      var once := AppendTextSegment(segments, a, style);
      if segments != [] && segments[|segments| - 1].StyleOf() == style {
        var last := segments[|segments| - 1];
        var n := |segments| - 1;
        assert once == segments[n := SegmentOf(last.text + a, style)];
        assert once[n].StyleOf() == style && once[n].text == last.text + a;
        assert AppendTextSegment(once, b, style) == once[n := SegmentOf(last.text + a + b, style)];
        assert once[n := SegmentOf(last.text + a + b, style)] == segments[n := SegmentOf(last.text + a + b, style)];
        assert last.text + a + b == last.text + (a + b);
      } else {
        var n := |segments|;
        assert once == segments + [SegmentOf(a, style)];
        assert once[n].StyleOf() == style && once[n].text == a;
        assert AppendTextSegment(once, b, style) == once[n := SegmentOf(a + b, style)];
        assert once[n := SegmentOf(a + b, style)] == segments + [SegmentOf(a + b, style)];
        assert AppendTextSegment(segments, a + b, style) == segments + [SegmentOf(a + b, style)];
      }
    } else {
      assert a + b == a;
    }
  }

  // ---- The character-level reference ----

  datatype StyledChar = StyledChar(ch: char, style: Style)

  /** The characters of `text`, each in `style`. */
  function InStyle(text: string, style: Style): (r: seq<StyledChar>)
    ensures |r| == |text|
    ensures forall i :: 0 <= i < |r| ==> r[i] == StyledChar(text[i], style)
  {
    seq(|text|, i requires 0 <= i < |text| => StyledChar(text[i], style))
  }

  lemma InStyleConcat(a: string, b: string, style: Style)
    ensures InStyle(a + b, style) == InStyle(a, style) + InStyle(b, style)
  {
  }

  /**
   * The characters of `s` from `p` on that are not part of a tag, each with
   * the style in force where it stands, starting in `style`.
   */
  function StyledFrom(s: string, p: nat, style: Style): seq<StyledChar>
    requires p <= |s|
    decreases |s| - p
  {
    if p == |s| then []
    else match TagAt(s, p)
      case Some(tag) => StyledFrom(s, tag.end, ApplyTag(style, tag))
      case None => [StyledChar(s[p], style)] + StyledFrom(s, p + 1, style)
  }

  function StyledText(s: string): seq<StyledChar> {
    StyledFrom(s, 0, Unstyled)
  }

  /** The characters of a styled sequence. */
  function Chars(cs: seq<StyledChar>): (r: string)
    ensures |r| == |cs|
    ensures forall i :: 0 <= i < |cs| ==> r[i] == cs[i].ch
  {
    seq(|cs|, i requires 0 <= i < |cs| => cs[i].ch)
  }

  /** The text of `s` with every recognised tag removed. */
  function StripTags(s: string): string {
    Chars(StyledText(s))
  }

  /** The characters the segments stand for, each in its segment's style. */
  function Expand(segments: seq<Segment>): seq<StyledChar>
    decreases |segments|
  {
    if segments == [] then []
    else
      var last := segments[|segments| - 1];
      Expand(segments[..|segments| - 1]) + InStyle(last.text, last.StyleOf())
  }

  lemma ExpandAppend(segments: seq<Segment>, content: string, style: Style)
    ensures Expand(AppendTextSegment(segments, content, style)) == Expand(segments) + InStyle(content, style)
  {
    var r := AppendTextSegment(segments, content, style);
    if content == [] {
      assert InStyle(content, style) == [];
    } else if segments != [] && segments[|segments| - 1].StyleOf() == style {
      var last := segments[|segments| - 1];
      assert r[..|r| - 1] == segments[..|segments| - 1];
      InStyleConcat(last.text, content, style);
    } else {
      assert r[..|r| - 1] == segments;
    }
  }

  /** The maximal runs of equal style of a styled sequence, built one character at a time. */
  function Runs(cs: seq<StyledChar>): seq<Segment>
    decreases |cs|
  {
    if cs == [] then []
    else
      var last := cs[|cs| - 1];
      AppendTextSegment(Runs(cs[..|cs| - 1]), [last.ch], last.style)
  }

  /** Runs of a sequence extended by some text in one style: that text appended to the runs. */
  lemma {:induction false} RunsInStyle(cs: seq<StyledChar>, text: string, style: Style)
    ensures Runs(cs + InStyle(text, style)) == AppendTextSegment(Runs(cs), text, style)
    decreases |text|
  {
    if text == [] {
      assert cs + InStyle(text, style) == cs;
    } else {
      var init := text[..|text| - 1];
      var last := text[|text| - 1];
      var prefix := cs + InStyle(init, style);
      assert text == init + [last];
      InStyleConcat(init, [last], style);
      assert cs + InStyle(text, style) == prefix + [StyledChar(last, style)];
      RunsSnoc(prefix, StyledChar(last, style));
      RunsInStyle(cs, init, style);
      AppendTwice(Runs(cs), init, [last], style);
    }
  }

  /** One more character extends the runs by that character. */
  lemma RunsSnoc(cs: seq<StyledChar>, c: StyledChar)
    ensures Runs(cs + [c]) == AppendTextSegment(Runs(cs), [c.ch], c.style)
  {
    assert (cs + [c])[..|cs|] == cs;
  }

  /** The runs expand back to the sequence and satisfy the merging rule. */
  lemma {:induction false} RunsExpand(cs: seq<StyledChar>)
    ensures Expand(Runs(cs)) == cs
    ensures Canonical(Runs(cs))
    decreases |cs|
  {
    if cs != [] {
      var init := cs[..|cs| - 1];
      var last := cs[|cs| - 1];
      RunsExpand(init);
      ExpandAppend(Runs(init), [last.ch], last.style);
      AppendKeepsCanonical(Runs(init), [last.ch], last.style);
      assert InStyle([last.ch], last.style) == [last];
      assert cs == init + [last];
    }
  }

  /** The runs are the only segment list that satisfies the merging rule and expands to the sequence. */
  lemma {:induction false} RunsUnique(segments: seq<Segment>)
    requires Canonical(segments)
    ensures Runs(Expand(segments)) == segments
    decreases |segments|
  {
    if segments != [] {
      var init := segments[..|segments| - 1];
      var last := segments[|segments| - 1];
      assert segments == init + [last];
      CanonicalSplit(init, last);
      RunsUnique(init);
      assert Expand(segments) == Expand(init) + InStyle(last.text, last.StyleOf());
      RunsInStyle(Expand(init), last.text, last.StyleOf());
    }
  }

  /** The last segment of a canonical list starts a new run after the others, which are canonical too. */
  lemma CanonicalSplit(init: seq<Segment>, last: Segment)
    requires Canonical(init + [last])
    ensures Canonical(init)
    ensures AppendTextSegment(init, last.text, last.StyleOf()) == init + [last]
  {
    var segments := init + [last];
    assert segments[|init|] == last;
    assert forall i :: 0 <= i < |init| ==> segments[i] == init[i];
    assert SegmentOf(last.text, last.StyleOf()) == last;
  }

  /** `parseSegments`, as a function: the maximal runs of the styled text. */
  function Segments(s: string): seq<Segment> {
    Runs(StyledText(s))
  }

  /** The texts of the segments, joined with no separator. */
  function JoinedTexts(segments: seq<Segment>): string
    decreases |segments|
  {
    if segments == [] then [] else JoinedTexts(segments[..|segments| - 1]) + segments[|segments| - 1].text
  }

  /** `plainText`: the segments' texts joined. */
  function PlainText(s: string): string {
    JoinedTexts(Segments(s))
  }

  lemma {:induction false} JoinedTextsAreChars(segments: seq<Segment>)
    ensures JoinedTexts(segments) == Chars(Expand(segments))
    decreases |segments|
  {
    if segments != [] {
      var init := segments[..|segments| - 1];
      var last := segments[|segments| - 1];
      JoinedTextsAreChars(init);
      assert Chars(Expand(init) + InStyle(last.text, last.StyleOf())) == Chars(Expand(init)) + last.text;
    }
  }

  /** `plainText(s)` is `s` with every recognised tag deleted and the rest kept in order. */
  lemma PlainTextStripsTags(s: string)
    ensures PlainText(s) == StripTags(s)
  {
    JoinedTextsAreChars(Segments(s));
    RunsExpand(StyledText(s));
  }

  /** Every segment is non-empty, neighbours differ in style, and each character keeps the style in force where it stood. */
  lemma SegmentsAreRuns(s: string)
    ensures Canonical(Segments(s))
    ensures Expand(Segments(s)) == StyledText(s)
  {
    RunsExpand(StyledText(s));
  }

  /** A stretch without tags reads as itself, in the current style. */
  lemma {:induction false} StyledUntil(s: string, p: nat, q: nat, style: Style)
    requires p <= q <= |s|
    requires forall k :: p <= k < q ==> TagAt(s, k).None?
    ensures StyledFrom(s, p, style) == InStyle(s[p..q], style) + StyledFrom(s, q, style)
    decreases q - p
  {
    if p < q {
      StyledUntil(s, p + 1, q, style);
      StyledPlainChar(s, p, style);
      InStyleFirst(s, p, q, style);
      ConcatAssoc([StyledChar(s[p], style)], InStyle(s[p + 1..q], style), StyledFrom(s, q, style));
    } else {
      assert s[p..q] == [];
    }
  }

  /** A character that starts no tag goes out in the current style. */
  lemma StyledPlainChar(s: string, p: nat, style: Style)
    requires p < |s| && TagAt(s, p).None?
    ensures StyledFrom(s, p, style) == [StyledChar(s[p], style)] + StyledFrom(s, p + 1, style)
  {
  }

  lemma InStyleFirst(s: string, p: nat, q: nat, style: Style)
    requires p < q <= |s|
    ensures InStyle(s[p..q], style) == [StyledChar(s[p], style)] + InStyle(s[p + 1..q], style)
  {
    assert s[p..q] == [s[p]] + s[p + 1..q];
    InStyleConcat([s[p]], s[p + 1..q], style);
  }

  /** Text with no tag at all is a single unstyled segment, or none when it is empty. */
  lemma UntaggedText(s: string)
    requires forall k :: 0 <= k < |s| ==> TagAt(s, k).None?
    ensures Segments(s) == (if s == [] then [] else [Segment(s, false, false, false)])
    ensures PlainText(s) == s
  {
    StyledUntil(s, 0, |s|, Unstyled);
    assert s[0..|s|] == s;
    assert StyledText(s) == [] + InStyle(s, Unstyled);
    RunsInStyle([], s, Unstyled);
    PlainTextStripsTags(s);
  }

  // ---- The match loop ----

  /** The first match from `p` on: no match starts before it, and the search goes on from its end. */
  lemma ScanFirst(s: string, p: nat)
    requires p <= |s|
    requires ScanMatches(s, p) != []
    ensures var tag := ScanMatches(s, p)[0];
      && p <= tag.start < |s|
      && TagAt(s, tag.start) == Some(tag)
      && (forall k :: p <= k < tag.start ==> TagAt(s, k).None?)
      && ScanMatches(s, p)[1..] == ScanMatches(s, tag.end)
  {
    ScanFirstMatch(s, p);
    ScanFirstNoneBefore(s, p);
  }

  /** The first match is a tag at or after `p`, and the rest of the matches are the search from its end. */
  lemma {:induction false} ScanFirstMatch(s: string, p: nat)
    requires p <= |s|
    requires ScanMatches(s, p) != []
    ensures var tag := ScanMatches(s, p)[0];
      && p <= tag.start < |s|
      && TagAt(s, tag.start) == Some(tag)
      && ScanMatches(s, p)[1..] == ScanMatches(s, tag.end)
    decreases |s| - p
  {
    var here := TagAt(s, p);
    if here.None? {
      assert ScanMatches(s, p) == ScanMatches(s, p + 1);
      ScanFirstMatch(s, p + 1);
    } else {
      assert ScanMatches(s, p) == [here.value] + ScanMatches(s, here.value.end);
    }
  }

  /** No tag starts between `p` and the first match. */
  lemma {:induction false} ScanFirstNoneBefore(s: string, p: nat)
    requires p <= |s|
    requires ScanMatches(s, p) != []
    ensures forall k :: p <= k < ScanMatches(s, p)[0].start ==> TagAt(s, k).None?
    decreases |s| - p
  {
    var here := TagAt(s, p);
    if here.None? {
      assert ScanMatches(s, p) == ScanMatches(s, p + 1);
      ScanFirstNoneBefore(s, p + 1);
    } else {
      assert ScanMatches(s, p)[0] == here.value;
    }
  }

  /** When no match is left from `p` on, no tag starts there. */
  lemma {:induction false} ScanNone(s: string, p: nat)
    requires p <= |s|
    requires ScanMatches(s, p) == []
    ensures forall k :: p <= k < |s| ==> TagAt(s, k).None?
    decreases |s| - p
  {
    if p < |s| {
      ScanNone(s, p + 1);
    }
  }

  /**
   * One turn of the match loop: the text before the next match goes out in
   * the current style, then the match's tag takes effect.
   */
  lemma MatchStep(s: string, cursor: nat, done: seq<StyledChar>, style: Style)
    requires cursor <= |s|
    requires ScanMatches(s, cursor) != []
    requires done + StyledFrom(s, cursor, style) == StyledText(s)
    ensures var tag := ScanMatches(s, cursor)[0];
      var text := s[cursor..tag.start];
      && cursor <= tag.start && tag.end <= |s|
      && ScanMatches(s, cursor)[1..] == ScanMatches(s, tag.end)
      && (done + InStyle(text, style)) + StyledFrom(s, tag.end, ApplyTag(style, tag)) == StyledText(s)
  {
    var tag := ScanMatches(s, cursor)[0];
    ScanFirst(s, cursor);
    StyledAtMatch(s, cursor, style);
    Regroup(done, InStyle(s[cursor..tag.start], style), StyledFrom(s, tag.end, ApplyTag(style, tag)), StyledText(s));
  }

  /** Moving a piece from the pending part to the emitted part keeps the whole. */
  lemma Regroup(done: seq<StyledChar>, before: seq<StyledChar>, after: seq<StyledChar>, whole: seq<StyledChar>)
    requires done + (before + after) == whole
    ensures (done + before) + after == whole
  {
    assert (done + before) + after == done + (before + after);
  }

  /** From `cursor`, the styled text is the text up to the next match, then what follows the match in the new style. */
  lemma StyledAtMatch(s: string, cursor: nat, style: Style)
    requires cursor <= |s|
    requires ScanMatches(s, cursor) != []
    ensures var tag := ScanMatches(s, cursor)[0];
      StyledFrom(s, cursor, style)
      == InStyle(s[cursor..tag.start], style) + StyledFrom(s, tag.end, ApplyTag(style, tag))
  {
    var tag := ScanMatches(s, cursor)[0];
    ScanFirst(s, cursor);
    StyledUntil(s, cursor, tag.start, style);
    assert StyledFrom(s, tag.start, style) == StyledFrom(s, tag.end, ApplyTag(style, tag));
  }

  /** After the last match, the rest of the text goes out in the current style, completing the runs. */
  lemma TrailingStep(s: string, cursor: nat, done: seq<StyledChar>, style: Style)
    requires cursor <= |s|
    requires ScanMatches(s, cursor) == []
    requires done + StyledFrom(s, cursor, style) == StyledText(s)
    ensures AppendTextSegment(Runs(done), s[cursor..], style) == Segments(s)
  {
    ScanNone(s, cursor);
    StyledUntil(s, cursor, |s|, style);
    assert s[cursor..|s|] == s[cursor..];
    assert StyledFrom(s, |s|, style) == [];
    assert done + InStyle(s[cursor..], style) == StyledText(s);
    RunsInStyle(done, s[cursor..], style);
  }

  /**
   * `parseSegments(in:)`: walks the matches left to right, appending the text
   * before each tag in the current flags and then applying the tag, and
   * finally appends the text after the last tag.
   */
  method ParseSegments(rawText: string) returns (segments: seq<Segment>)
    ensures segments == Segments(rawText)
    ensures Canonical(segments)
    ensures Expand(segments) == StyledText(rawText)
  {
    var matches := ScanMatches(rawText, 0);
    segments := [];
    var cursor: nat := 0;
    var isItalic, isBold, isUnderlined := false, false, false;
    ghost var done: seq<StyledChar> := [];
    for k := 0 to |matches|
      invariant cursor <= |rawText|
      invariant matches[k..] == ScanMatches(rawText, cursor)
      invariant done + StyledFrom(rawText, cursor, Style(isItalic, isBold, isUnderlined)) == StyledText(rawText)
      invariant segments == Runs(done)
    {
      var tag := matches[k];
      var style := Style(isItalic, isBold, isUnderlined);
      MatchStep(rawText, cursor, done, style);
      RunsInStyle(done, rawText[cursor..tag.start], style);
      assert matches[k + 1..] == matches[k..][1..];
      if tag.start > cursor {
        segments := AppendTextSegment(segments, rawText[cursor..tag.start], style);
      }
      done := done + InStyle(rawText[cursor..tag.start], style);
      var isEnabled := !tag.isClosing;
      if tag.name == 'i' {
        isItalic := isEnabled;
      } else if tag.name == 'b' {
        isBold := isEnabled;
      } else if tag.name == 'u' {
        isUnderlined := isEnabled;
      }
      assert Style(isItalic, isBold, isUnderlined) == ApplyTag(style, tag);
      cursor := tag.end;
    }
    TrailingStep(rawText, cursor, done, Style(isItalic, isBold, isUnderlined));
    if cursor < |rawText| {
      segments := AppendTextSegment(segments, rawText[cursor..], Style(isItalic, isBold, isUnderlined));
    }
    SegmentsAreRuns(rawText);
  }
}
