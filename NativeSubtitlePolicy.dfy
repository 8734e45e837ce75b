/**
 * The policy that keeps VLC's own subtitle renderer off while the overlay
 * renderer shows a track, and restores VLC's track afterwards
 * (Sources/Playback/VLCNativeSubtitlePolicy.swift).
 *
 * The pure `...Step` functions give the effect of each operation on a
 * snapshot of the policy's two fields; the class `VLCNativeSubtitlePolicy`
 * updates its fields in place and is proved to agree with them.
 */
module NativeSubtitlePolicy {
  import opened Wrappers

  /** VLC track indices are 32-bit; -1 means "no subtitle track". */
  newtype Int32 = x: int | -0x8000_0000 <= x < 0x8000_0000

  const NoTrack: Int32 := -1

  datatype Command = SetTrack(index: Int32)

  /** A snapshot of the two fields of the policy. */
  datatype PolicyState = PolicyState(isNativeRenderingEnabled: bool, cachedNativeTrackIndex: Option<Int32>)

  /** The field initialisers: rendering enabled, nothing cached. */
  const Initial: PolicyState := PolicyState(true, None)

  /** Invariant of every state the operations can reach: a track is only cached while disabled. */
  predicate Reachable(s: PolicyState) {
    s.isNativeRenderingEnabled ==> s.cachedNativeTrackIndex.None?
  }

  function MediaDidLoadStep(s: PolicyState): PolicyState {
    s.(cachedNativeTrackIndex := None)
  }

  function RestoreStep(s: PolicyState, current: Int32): (PolicyState, seq<Command>) {
    match s.cachedNativeTrackIndex
    case None => (s, [])
    case Some(cached) =>
      var s' := s.(cachedNativeTrackIndex := None);
      if current == cached then (s', []) else (s', [SetTrack(cached)])
  }

  function SuppressStep(s: PolicyState, current: Int32): (PolicyState, seq<Command>) {
    var s' := if current != NoTrack && s.cachedNativeTrackIndex.None?
              then s.(cachedNativeTrackIndex := Some(current)) else s;
    if current == NoTrack then (s', []) else (s', [SetTrack(NoTrack)])
  }

  function ReconcileStep(s: PolicyState, current: Int32): (PolicyState, seq<Command>) {
    if s.isNativeRenderingEnabled then RestoreStep(s, current) else SuppressStep(s, current)
  }

  function SetEnabledStep(s: PolicyState, enabled: bool, current: Int32): (PolicyState, seq<Command>) {
    if s.isNativeRenderingEnabled == enabled then (s, [])
    else ReconcileStep(s.(isNativeRenderingEnabled := enabled), current)
  }

  /** The operations a client (the VLC backend) performs on the policy. */
  datatype Operation =
    | MediaDidLoad
    | SetNativeRenderingEnabled(enabled: bool, currentTrackIndex: Int32)
    | Reconcile(currentTrackIndex: Int32)

  function Apply(s: PolicyState, op: Operation): (PolicyState, seq<Command>) {
    match op
    case MediaDidLoad => (MediaDidLoadStep(s), [])
    case SetNativeRenderingEnabled(e, k) => SetEnabledStep(s, e, k)
    case Reconcile(k) => ReconcileStep(s, k)
  }

  /** Runs a sequence of operations, collecting every command emitted. */
  function Run(s: PolicyState, ops: seq<Operation>): (PolicyState, seq<Command>)
    decreases |ops|
  {
    if ops == [] then (s, [])
    else
      var (s1, c1) := Apply(s, ops[0]);
      var (s2, c2) := Run(s1, ops[1..]);
      (s2, c1 + c2)
  }

  // ---- Properties of single operations ----

  /** Setting the flag to its current value emits nothing and changes nothing. */
  lemma SetEnabledToSameValueIsNoOp(s: PolicyState, enabled: bool, current: Int32)
    requires enabled == s.isNativeRenderingEnabled
    ensures SetEnabledStep(s, enabled, current) == (s, [])
  {
  }

  /** Disabling while VLC shows a real track caches that track and hides it. */
  lemma DisableCachesAndHidesTrack(s: PolicyState, current: Int32)
    requires Reachable(s) && s.isNativeRenderingEnabled
    requires current != NoTrack
    ensures SetEnabledStep(s, false, current) == (PolicyState(false, Some(current)), [SetTrack(NoTrack)])
  {
  }

  /**
   * While disabled, reconciling hides any real track VLC drifted to and keeps
   * the track cached first; when VLC shows no track, nothing is emitted.
   */
  lemma ReconcileWhileDisabled(s: PolicyState, current: Int32)
    requires !s.isNativeRenderingEnabled
    ensures var (s', cmds) := ReconcileStep(s, current);
      && !s'.isNativeRenderingEnabled
      && cmds == (if current == NoTrack then [] else [SetTrack(NoTrack)])
      && (s.cachedNativeTrackIndex.Some? ==> s'.cachedNativeTrackIndex == s.cachedNativeTrackIndex)
      && (s.cachedNativeTrackIndex.None? ==>
            s'.cachedNativeTrackIndex == (if current == NoTrack then None else Some(current)))
  {
  }

  /**
   * Enabling with a cached track clears the cache and restores the track
   * exactly when VLC is not already showing it.
   */
  lemma EnableRestoresCachedTrack(s: PolicyState, cached: Int32, current: Int32)
    requires !s.isNativeRenderingEnabled && s.cachedNativeTrackIndex == Some(cached)
    ensures var (s', cmds) := SetEnabledStep(s, true, current);
      && s' == PolicyState(true, None)
      && (cmds == [SetTrack(cached)] <==> current != cached)
      && (cmds == [] <==> current == cached)
  {
  }

  /** Reconciling while enabled with nothing cached changes nothing. */
  lemma ReconcileEnabledWithoutCacheIsNoOp(s: PolicyState, current: Int32)
    requires s.isNativeRenderingEnabled && s.cachedNativeTrackIndex.None?
    ensures ReconcileStep(s, current) == (s, [])
  {
  }

  /** After a media load, enabling restores nothing. */
  lemma MediaDidLoadForgetsCachedTrack(s: PolicyState, current: Int32)
    ensures var s1 := MediaDidLoadStep(s);
      s1.cachedNativeTrackIndex.None? && SetEnabledStep(s1, true, current).1 == []
  {
  }

  /**
   * Every operation emits at most one command, and while the policy ends
   * disabled the only command it ever emits is "select no track".
   */
  lemma AtMostOneCommand(s: PolicyState, op: Operation)
    ensures var (s', cmds) := Apply(s, op);
      && |cmds| <= 1
      && (!s'.isNativeRenderingEnabled ==> forall c :: c in cmds ==> c == SetTrack(NoTrack))
  {
  }

  /** Every operation keeps the reachability invariant. */
  lemma ApplyPreservesReachable(s: PolicyState, op: Operation)
    requires Reachable(s)
    ensures Reachable(Apply(s, op).0)
  {
  }

  // ---- Properties of runs ----

  /** Every state reached from the initial state by any run satisfies the invariant. */
  lemma {:induction false} RunPreservesReachable(s: PolicyState, ops: seq<Operation>)
    requires Reachable(s)
    ensures Reachable(Run(s, ops).0)
    decreases |ops|
  {
    if ops != [] {
      ApplyPreservesReachable(s, ops[0]);
      RunPreservesReachable(Apply(s, ops[0]).0, ops[1..]);
    }
  }

  predicate AllReconciles(ops: seq<Operation>) {
    forall i :: 0 <= i < |ops| ==> ops[i].Reconcile?
  }

  /**
   * While disabled, however VLC drifts between reconciles, the cached track is
   * never overwritten and only "select no track" commands are emitted.
   */
  lemma {:induction false} DriftNeverOverwritesCache(s: PolicyState, cached: Int32, ops: seq<Operation>)
    requires !s.isNativeRenderingEnabled && s.cachedNativeTrackIndex == Some(cached)
    requires AllReconciles(ops)
    ensures Run(s, ops).0 == s
    ensures forall c :: c in Run(s, ops).1 ==> c == SetTrack(NoTrack)
    decreases |ops|
  {
    if ops != [] {
      ReconcileWhileDisabled(s, ops[0].currentTrackIndex);
      assert AllReconciles(ops[1..]) by {
        forall i | 0 <= i < |ops[1..]| ensures ops[1..][i].Reconcile? {
          assert ops[1..][i] == ops[i + 1];
        }
      }
      DriftNeverOverwritesCache(s, cached, ops[1..]);
    }
  }

  /**
   * Lossless restore: disable while VLC shows track k, let VLC drift through any
   * number of reconciles, then enable while VLC shows `current`; the restore
   * command is emitted exactly when current differs from k, and it names k.
   */
  lemma DisableDriftEnableRestoresOriginalTrack(k: Int32, drift: seq<Operation>, current: Int32)
    requires k != NoTrack
    requires AllReconciles(drift)
    ensures var (s1, _) := SetEnabledStep(Initial, false, k);
      var (s2, _) := Run(s1, drift);
      var (s3, cmds) := SetEnabledStep(s2, true, current);
      && s3 == Initial
      && cmds == (if current == k then [] else [SetTrack(k)])
  {
    var s1 := SetEnabledStep(Initial, false, k).0;
    DisableCachesAndHidesTrack(Initial, k);
    DriftNeverOverwritesCache(s1, k, drift);
  }

  // ---- The scenarios of Tests/JustPlayTests/VLCNativeSubtitlePolicyTests.swift ----

  lemma ScenarioReconcileWhileDisabled()
    ensures var (s1, c1) := SetEnabledStep(Initial, false, 3);
      var (s2, c2) := ReconcileStep(s1, -1);
      var (_, c3) := ReconcileStep(s2, 3);
      c1 == [SetTrack(-1)] && c2 == [] && c3 == [SetTrack(-1)]
  {
  }

  lemma ScenarioEnableRestoresCachedTrack()
    ensures var (s1, _) := SetEnabledStep(Initial, false, 4);
      SetEnabledStep(s1, true, -1).1 == [SetTrack(4)]
  {
  }

  lemma ScenarioEnableDoesNotRewriteRestoredTrack()
    ensures var (s1, _) := SetEnabledStep(Initial, false, 6);
      SetEnabledStep(s1, true, 6).1 == []
  {
  }

  lemma ScenarioMediaDidLoadDropsStaleTrack()
    ensures var (s1, _) := SetEnabledStep(Initial, false, 2);
      SetEnabledStep(MediaDidLoadStep(s1), true, -1).1 == []
  {
  }

  /** The policy object: its two fields change in place. */
  class VLCNativeSubtitlePolicy {
    var isNativeRenderingEnabled: bool
    var cachedNativeTrackIndex: Option<Int32>

    function State(): PolicyState
      reads this
    {
      PolicyState(isNativeRenderingEnabled, cachedNativeTrackIndex)
    }

    constructor()
      ensures State() == Initial
    {
      isNativeRenderingEnabled := true;
      cachedNativeTrackIndex := None;
    }

    method MediaDidLoad()
      modifies this
      ensures isNativeRenderingEnabled == old(isNativeRenderingEnabled)
      ensures cachedNativeTrackIndex.None?
    {
      cachedNativeTrackIndex := None;
    }

    method SetNativeRenderingEnabled(enabled: bool, currentTrackIndex: Int32) returns (commands: seq<Command>)
      modifies this
      ensures (State(), commands) == SetEnabledStep(old(State()), enabled, currentTrackIndex)
    {
      if isNativeRenderingEnabled == enabled {
        return [];
      }
      isNativeRenderingEnabled := enabled;
      commands := Reconcile(currentTrackIndex);
    }

    method Reconcile(currentTrackIndex: Int32) returns (commands: seq<Command>)
      modifies this
      ensures (State(), commands) == ReconcileStep(old(State()), currentTrackIndex)
    {
      if isNativeRenderingEnabled {
        commands := RestoreNativeTrackIfNeeded(currentTrackIndex);
        return;
      }
      commands := SuppressNativeTrackIfNeeded(currentTrackIndex);
    }

    method RestoreNativeTrackIfNeeded(currentTrackIndex: Int32) returns (commands: seq<Command>)
      modifies this
      ensures (State(), commands) == RestoreStep(old(State()), currentTrackIndex)
    {
      if cachedNativeTrackIndex.None? {
        return [];
      }
      var cached := cachedNativeTrackIndex.value;
      cachedNativeTrackIndex := None;
      if currentTrackIndex == cached {
        return [];
      }
      commands := [SetTrack(cached)];
    }

    method SuppressNativeTrackIfNeeded(currentTrackIndex: Int32) returns (commands: seq<Command>)
      modifies this
      ensures (State(), commands) == SuppressStep(old(State()), currentTrackIndex)
    {
      if currentTrackIndex != NoTrack && cachedNativeTrackIndex.None? {
        cachedNativeTrackIndex := Some(currentTrackIndex);
      }
      if currentTrackIndex == NoTrack {
        return [];
      }
      commands := [SetTrack(NoTrack)];
    }
  }
}
