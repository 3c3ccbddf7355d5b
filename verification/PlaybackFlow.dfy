/** The playback life cycle as the player keeps it, one field per counter, updated in place. */
module PlaybackLifecycle {
  import opened Wrappers
  import FlowState

  class PlaybackFlow {
    var isPrebuffering: bool
    var missingCount: nat
    var starvationCount: nat
    var concealRun: nat
    var gapHoldCount: nat
    var starvationRecovery: nat
    var recoveryStartedAt: Option<nat>
    var concealCallbacks: nat
    var windowCallbacks: nat
    var starvationEvents: nat
    var episodeStartedAt: Option<nat>

    ghost function State(): FlowState.Flow
      reads this
    {
      FlowState.Flow(isPrebuffering, missingCount, starvationCount, concealRun, gapHoldCount, starvationRecovery,
                     recoveryStartedAt, concealCallbacks, windowCallbacks, starvationEvents, episodeStartedAt)
    }

    constructor ()
      ensures State() == FlowState.NEW_FLOW
    {
      isPrebuffering := true;
      missingCount, starvationCount, concealRun, gapHoldCount, starvationRecovery := 0, 0, 0, 0, 0;
      recoveryStartedAt, episodeStartedAt := None, None;
      concealCallbacks, windowCallbacks, starvationEvents := 0, 0, 0;
    }

    method ObserveDelivery(concealed: bool) returns (verdict: Option<FlowState.Verdict>)
      modifies `concealCallbacks, `windowCallbacks
      ensures (State(), verdict) == FlowState.ObserveDelivery(old(State()), concealed)
    {
      windowCallbacks := windowCallbacks + 1;
      if concealed {
        concealCallbacks := concealCallbacks + 1;
      }
      if windowCallbacks < FlowState.CONCEAL_WINDOW {
        return None;
      }
      var concealPct := concealCallbacks * 100 / windowCallbacks;
      verdict := Some(FlowState.Verdict(concealPct, windowCallbacks, concealPct >= FlowState.CONCEAL_REBUFFER_PCT));
      concealCallbacks, windowCallbacks := 0, 0;
    }

    method DiscardConcealWindow()
      modifies `concealCallbacks, `windowCallbacks
      ensures State() == FlowState.DiscardWindow(old(State()))
    {
      concealCallbacks, windowCallbacks := 0, 0;
    }

    method NoteStarvationOnset(now: nat) returns (first: bool)
      modifies `starvationEvents, `episodeStartedAt
      ensures (State(), first) == FlowState.NoteStarvationOnset(old(State()), now)
    {
      starvationEvents := starvationEvents + 1;
      if episodeStartedAt.None? {
        episodeStartedAt := Some(now);
        return true;
      }
      return false;
    }

    method CloseStarvationEpisode(now: nat) returns (census: Option<(nat, nat)>)
      modifies `starvationEvents, `episodeStartedAt
      ensures (State(), census) == FlowState.CloseStarvationEpisode(old(State()), now)
    {
      if episodeStartedAt.None? {
        return None;
      }
      census := Some((starvationEvents, SaturatingSub(now, episodeStartedAt.value)));
      episodeStartedAt, starvationEvents := None, 0;
    }

    method TickRecovery(now: nat)
      modifies `starvationRecovery, `recoveryStartedAt
      ensures State() == FlowState.TickRecovery(old(State()), now)
    {
      starvationRecovery := SaturatingSub(starvationRecovery, 1);
      if recoveryStartedAt.Some? && SaturatingSub(now, recoveryStartedAt.value) >= FlowState.RECOVERY_GUARD {
        recoveryStartedAt := None;
      }
    }

    method ArmRecoveryWindow(now: nat)
      modifies `recoveryStartedAt
      ensures State() == FlowState.ArmRecoveryWindow(old(State()), now)
    {
      if recoveryStartedAt.None? {
        recoveryStartedAt := Some(now);
      }
    }

    method StretchAllowed(now: nat) returns (allowed: bool)
      ensures allowed == FlowState.StretchAllowed(State(), now)
    {
      match recoveryStartedAt
      case Some(started) => allowed := SaturatingSub(now, started) >= FlowState.RECOVERY_GUARD;
      case None => allowed := true;
    }

    method ResetOnStreamRestart()
      modifies this
      ensures State() == FlowState.ResetOnStreamRestart(old(State()))
    {
      isPrebuffering := true;
      missingCount, starvationCount, concealRun, gapHoldCount := 0, 0, 0, 0;
      DiscardConcealWindow();
    }
  }
}
