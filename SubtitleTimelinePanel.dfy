/**
 * The cue list of the subtitle timeline panel: the search filter over the
 * cues, which keeps each cue's original index as its id, and the rule that
 * jumping to the active cue clears a query that hides it.
 */
module SubtitleTimeline {
  import opened Wrappers
  import opened Strings
  import opened Cues
  import SubtitleTextRenderer

  /** A row of the list: the cue and its index in the full cue list. */
  datatype DisplayedCue = DisplayedCue(id: nat, cue: SubtitleCue)

  /** `cues.enumerated().map { DisplayedCue(id: index, cue: cue) }`. */
  function Indexed(cues: seq<SubtitleCue>): (r: seq<DisplayedCue>)
    ensures |r| == |cues|
    ensures forall i :: 0 <= i < |r| ==> r[i] == DisplayedCue(i, cues[i])
  {
    seq(|cues|, i requires 0 <= i < |cues| => DisplayedCue(i, cues[i]))
  }

  /**
   * `localizedCaseInsensitiveContains`, approximated by containment after
   * ASCII lowercasing of both sides.
   */
  predicate CaseInsensitiveContains(s: string, sub: string) {
    ContainsSubstring(Lowercased(s), Lowercased(sub))
  }

  /** Whether a cue's plain text, trimmed, contains the (already trimmed) query. */
  predicate MatchesQuery(cue: SubtitleCue, normalizedQuery: string) {
    var plainText := Trim(SubtitleTextRenderer.PlainText(cue.text), WhitespacesAndNewlines);
    CaseInsensitiveContains(plainText, normalizedQuery)
  }

  /** Ids strictly increase along the list. */
  predicate IdsIncrease(items: seq<DisplayedCue>) {
    forall k, l :: 0 <= k < l < |items| ==> items[k].id < items[l].id
  }

  /** `filter`: the rows that `keep` accepts, in their order. */
  function Filter(items: seq<DisplayedCue>, keep: DisplayedCue -> bool): (r: seq<DisplayedCue>)
    ensures |r| <= |items|
    ensures forall x :: x in r <==> x in items && keep(x)
    ensures IdsIncrease(items) ==> IdsIncrease(r)
    decreases |items|
  {
    if items == [] then []
    else
      var rest := Filter(items[1..], keep);
      assert forall x :: x in items[1..] ==> x in items;
      if keep(items[0]) then
        FirstBelowRest(items, rest);
        [items[0]] + rest
      else
        assert IdsIncrease(items) ==> IdsIncrease(items[1..]);
        rest
  }

  /** A row placed before rows drawn from the rest of an increasing list keeps the ids increasing. */
  lemma FirstBelowRest(items: seq<DisplayedCue>, rest: seq<DisplayedCue>)
    requires items != []
    requires forall x :: x in rest ==> x in items[1..]
    requires IdsIncrease(items) ==> IdsIncrease(rest)
    ensures IdsIncrease(items) ==> IdsIncrease([items[0]] + rest)
  {
    if IdsIncrease(items) {
      var r := [items[0]] + rest;
      forall k, l | 0 <= k < l < |r| ensures r[k].id < r[l].id {
        assert r[l] == rest[l - 1];
        assert rest[l - 1] in items[1..];
        if k > 0 {
          assert r[k] == rest[k - 1];
        }
      }
    }
  }

  /**
   * `displayedCues`: every cue with its index when the query is blank after
   * trimming; otherwise the cues whose trimmed plain text contains it.
   */
  function DisplayedCues(cues: seq<SubtitleCue>, searchQuery: string): seq<DisplayedCue> {
    var normalizedQuery := Trim(searchQuery, WhitespacesAndNewlines);
    if normalizedQuery == [] then Indexed(cues)
    else Filter(Indexed(cues), (row: DisplayedCue) => MatchesQuery(row.cue, normalizedQuery))
  }

  /** Whether the row of index `id` is in the list (`contains(where: { $0.id == id })`). */
  predicate IsDisplayed(items: seq<DisplayedCue>, id: int) {
    exists k | 0 <= k < |items| :: items[k].id == id
  }

  /**
   * Every row carries its original index and that index's cue, the ids
   * strictly increase, and there are at most as many rows as cues.
   */
  lemma DisplayedCuesKeepIndices(cues: seq<SubtitleCue>, searchQuery: string)
    ensures var r := DisplayedCues(cues, searchQuery);
      && |r| <= |cues|
      && IdsIncrease(r)
      && (forall k :: 0 <= k < |r| ==> r[k].id < |cues| && r[k].cue == cues[r[k].id])
  {
    var r := DisplayedCues(cues, searchQuery);
    var items := Indexed(cues);
    forall k | 0 <= k < |r| ensures r[k].id < |cues| && r[k].cue == cues[r[k].id] {
      assert r[k] in items;
    }
  }

  /** A query that is blank after trimming shows every cue, in order. */
  lemma BlankQueryShowsAll(cues: seq<SubtitleCue>, searchQuery: string)
    requires Trim(searchQuery, WhitespacesAndNewlines) == []
    ensures DisplayedCues(cues, searchQuery) == Indexed(cues)
    ensures forall i :: 0 <= i < |cues| ==> IsDisplayed(DisplayedCues(cues, searchQuery), i)
  {
    var r := DisplayedCues(cues, searchQuery);
    forall i | 0 <= i < |cues| ensures IsDisplayed(r, i) {
      assert r[i].id == i;
    }
  }

  /** Filtering the indexed cues keeps the row of index `i` exactly when `keep` accepts it. */
  lemma FilteredIff(cues: seq<SubtitleCue>, keep: DisplayedCue -> bool, i: nat)
    requires i < |cues|
    ensures IsDisplayed(Filter(Indexed(cues), keep), i) <==> keep(DisplayedCue(i, cues[i]))
  {
    var items := Indexed(cues);
    var r := Filter(items, keep);
    if keep(items[i]) {
      assert items[i] in r;
      var k :| 0 <= k < |r| && r[k] == items[i];
      assert r[k].id == i;
    }
    if IsDisplayed(r, i) {
      var k :| 0 <= k < |r| && r[k].id == i;
      assert r[k] in items;
      assert r[k] == items[i];
    }
  }

  /** With a query that is not blank, a cue is shown exactly when its trimmed plain text contains the query. */
  lemma ShownIffMatches(cues: seq<SubtitleCue>, searchQuery: string, i: nat)
    requires Trim(searchQuery, WhitespacesAndNewlines) != []
    requires i < |cues|
    ensures IsDisplayed(DisplayedCues(cues, searchQuery), i)
        <==> MatchesQuery(cues[i], Trim(searchQuery, WhitespacesAndNewlines))
  {
    var q := Trim(searchQuery, WhitespacesAndNewlines);
    FilteredIff(cues, (row: DisplayedCue) => MatchesQuery(row.cue, q), i);
  }

  /** The panel's state: the cues it lists and the search field's text. */
  class SubtitleTimelinePanel {
    const cues: seq<SubtitleCue>
    var searchQuery: string

    constructor(cues: seq<SubtitleCue>)
      ensures this.cues == cues && searchQuery == []
    {
      this.cues := cues;
      searchQuery := [];
    }

    function Displayed(): seq<DisplayedCue>
      reads this
    {
      DisplayedCues(cues, searchQuery)
    }

    /**
     * The query-clearing rule of `jumpToCurrentCue`: with no active cue
     * nothing happens; when the active cue is filtered out the query is
     * cleared; otherwise the query stays. Either way the active cue, when it
     * is an index of the list, is displayed afterwards.
     */
    method JumpToCurrentCue(activeCueIndex: Option<int>)
      modifies this
      ensures activeCueIndex.None? ==> searchQuery == old(searchQuery)
      ensures activeCueIndex.Some? && IsDisplayed(old(Displayed()), activeCueIndex.value)
        ==> searchQuery == old(searchQuery)
      ensures activeCueIndex.Some? && !IsDisplayed(old(Displayed()), activeCueIndex.value)
        ==> searchQuery == []
      ensures activeCueIndex.Some? && 0 <= activeCueIndex.value < |cues|
        ==> IsDisplayed(Displayed(), activeCueIndex.value)
    {
      if activeCueIndex.None? {
        return;
      }
      var displayed := DisplayedCues(cues, searchQuery);
      if !IsDisplayed(displayed, activeCueIndex.value) {
        searchQuery := [];
        assert Trim(searchQuery, WhitespacesAndNewlines) == [];
        BlankQueryShowsAll(cues, searchQuery);
      }
    }
  }
}
