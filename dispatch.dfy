/**
 * Dispatch of the ICE agent's state-change notifications
 * (`iceAgentStateChange`): connection setup runs on every notification whose
 * new state is established.
 */
module IceDispatch {

  /** ice4j's `IceProcessingState`. */
  datatype IceProcessingState = Waiting | Running | Failed | Completed | Terminated

  /** `IceProcessingState.isEstablished()`: processing completed, possibly already terminated. */
  predicate IsEstablished(s: IceProcessingState)
  {
    s == Completed || s == Terminated
  }

  /** One state-change notification: the old and the new state. */
  datatype IceStateChange = IceStateChange(oldState: IceProcessingState, newState: IceProcessingState)

  /** Whether some notification in the list has an established new state. */
  predicate EverEstablished(evs: seq<IceStateChange>)
  {
    exists i :: 0 <= i < |evs| && IsEstablished(evs[i].newState)
  }

  /** How many times the handler, as written, starts connection setup over a run of notifications. */
  function SetupCount(evs: seq<IceStateChange>): (r: nat)
    ensures r <= |evs|
  {
    if |evs| == 0 then 0
    else SetupCount(evs[..|evs| - 1]) + (if IsEstablished(evs[|evs| - 1].newState) then 1 else 0)
  }

  /** Setup never runs exactly when no notification reports an established state. */
  lemma {:induction false} SetupCountZeroIff(evs: seq<IceStateChange>)
    ensures SetupCount(evs) == 0 <==> !EverEstablished(evs)
  {
    if |evs| > 0 {
      var n := |evs| - 1;
      SetupCountZeroIff(evs[..n]);
      assert forall i :: 0 <= i < n ==> evs[..n][i] == evs[i];
      if EverEstablished(evs[..n]) {
        var i :| 0 <= i < n && IsEstablished(evs[..n][i].newState);
        assert IsEstablished(evs[i].newState);
      }
    }
  }

  /** Every established notification runs setup once more: two of them run it at least twice. */
  lemma {:induction false} SetupCountAtLeastTwo(evs: seq<IceStateChange>, i: nat, j: nat)
    requires i < j < |evs|
    requires IsEstablished(evs[i].newState) && IsEstablished(evs[j].newState)
    ensures SetupCount(evs) >= 2
  {
    var n := |evs| - 1;
    if j < n {
      assert evs[..n][i] == evs[i] && evs[..n][j] == evs[j];
      SetupCountAtLeastTwo(evs[..n], i, j);
    } else {
      assert evs[..n][i] == evs[i];
      SetupCountZeroIff(evs[..n]);
    }
  }

  /**
   * ICE processing reports Completed and later Terminated; both are
   * established, so the handler as written sets the connection up twice.
   */
  lemma CompletedThenTerminatedSetsUpTwice()
    ensures SetupCount([IceStateChange(Running, Completed), IceStateChange(Completed, Terminated)]) == 2
  {
  }

  /**
   * The intended handler: setup runs on an established notification only
   * when no earlier notification was established.
   */
  function GuardedSetupCount(evs: seq<IceStateChange>): nat
  {
    if |evs| == 0 then 0
    else
      var init := evs[..|evs| - 1];
      GuardedSetupCount(init) + (if IsEstablished(evs[|evs| - 1].newState) && !EverEstablished(init) then 1 else 0)
  }

  /** With the guard, setup runs exactly once if ICE ever becomes established, and never otherwise. */
  lemma {:induction false} GuardedSetupRunsOnce(evs: seq<IceStateChange>)
    ensures GuardedSetupCount(evs) == if EverEstablished(evs) then 1 else 0
  {
    if |evs| > 0 {
      var n := |evs| - 1;
      var init := evs[..n];
      GuardedSetupRunsOnce(init);
      assert forall i :: 0 <= i < n ==> init[i] == evs[i];
      if EverEstablished(init) {
        var i :| 0 <= i < n && IsEstablished(init[i].newState);
        assert IsEstablished(evs[i].newState);
      }
      if EverEstablished(evs) && !EverEstablished(init) {
        var i :| 0 <= i < |evs| && IsEstablished(evs[i].newState);
        assert i == n;
      }
    }
  }
}
