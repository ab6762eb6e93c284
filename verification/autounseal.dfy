/** One run of the tool, from the health probe to the last submission, as a pure
    function of what the outside world answers: the health status code, the reply to
    the reset request, the configured keys, the generator's draws and the replies to
    the key submissions. */
module Autounseal {
  import opened Vault
  import opened Selection
  import opened Submission

  /** Whether the health status lets the run go on to the reset. */
  predicate ProceedsToReset(status: int) {
    status == SealedStatus
  }

  /** The whole run. */
  function Run(status: int, reset: UnsealResponse, keys: seq<Key>, draws: seq<nat>,
               responses: seq<UnsealResponse>): (t: Trace)
    // Only a sealed vault is reset; any other status ends successfully, untouched.
    ensures t.resetSent <==> status == SealedStatus
    ensures t.outcome == AlreadyUnsealed <==> status != SealedStatus
    ensures status != SealedStatus ==> t == Trace(false, [], [], AlreadyUnsealed)
    // A decoded reset reply with threshold -1 equals the sentinel and panics.
    ensures t.outcome == ThresholdUnset <==> status == SealedStatus && reset.threshold == ThresholdUnknown
    // Too few keys fails before any index is chosen or any key is sent.
    ensures t.outcome == InsufficientKeys <==>
              status == SealedStatus && reset.threshold != ThresholdUnknown && reset.threshold > |keys|
    ensures t.outcome in {AlreadyUnsealed, ThresholdUnset, InsufficientKeys, SelectionPending} ==>
              t.submitted == []
    ensures t.outcome in {AlreadyUnsealed, ThresholdUnset, InsufficientKeys} ==> t.selection == []
    // The selection: distinct in-range indices, never more than the threshold.
    ensures Distinct(t.selection) && InRange(t.selection, |keys|)
    ensures |t.selection| <= Wanted(reset.threshold)
    ensures t.outcome == SelectionPending ==> |t.selection| < reset.threshold
    // Submission happens only after a complete selection, in selection order.
    ensures t.outcome in {Unsealed, SubmitFailed, Failed} ==>
              status == SealedStatus && reset.threshold <= |keys|
              && |t.selection| == Wanted(reset.threshold)
    ensures |t.submitted| <= |t.selection|
    ensures forall j :: 0 <= j < |t.submitted| ==> t.submitted[j] == keys[t.selection[j]]
    ensures t.outcome == Unsealed ==>
              0 < |t.submitted| <= |responses| && SealedThrough(responses, |t.submitted| - 1)
              && !responses[|t.submitted| - 1].sealed
    ensures t.outcome == Failed ==>
              |t.submitted| == |t.selection| && SealedThrough(responses, |t.selection|)
  {
    if !ProceedsToReset(status) then Trace(false, [], [], AlreadyUnsealed)
    else if reset.threshold == ThresholdUnknown then Trace(true, [], [], ThresholdUnset)
    else if reset.threshold > |keys| then Trace(true, [], [], InsufficientKeys)
    else
      var sel := Select(|keys|, reset.threshold, draws);
      if |sel| < reset.threshold then Trace(true, sel, [], SelectionPending)
      else
        var s := Submit(keys, sel, responses);
        Trace(true, sel, s.sent, s.outcome)
  }

  /** With no keys configured the draws are never consulted, so the modulo by the
      key count never runs: a positive threshold fails the key check first, and a
      threshold of zero or below selects nothing. */
  lemma NoKeysNeverDraws(status: int, reset: UnsealResponse, draws: seq<nat>, responses: seq<UnsealResponse>)
    ensures Run(status, reset, [], draws, responses) == Run(status, reset, [], [], responses)
    ensures Run(status, reset, [], draws, responses).selection == []
    ensures Run(status, reset, [], draws, responses).submitted == []
  {
  }

  /** Draws that name at least `threshold` different keys always complete the selection. */
  lemma EnoughDrawsCompleteSelection(status: int, reset: UnsealResponse, keys: seq<Key>, draws: seq<nat>,
                                     responses: seq<UnsealResponse>)
    requires status == SealedStatus
    requires 0 < reset.threshold <= |keys|
    requires |Named(draws, |keys|)| >= reset.threshold
    ensures Run(status, reset, keys, draws, responses).outcome in {Unsealed, SubmitFailed, Failed}
    ensures |Run(status, reset, keys, draws, responses).selection| == reset.threshold
  {
    SelectCompleteIff(|keys|, reset.threshold, draws);
  }

  /** A finished run does not depend on draws it never consumed. */
  lemma RunIgnoresLaterDraws(status: int, reset: UnsealResponse, keys: seq<Key>, draws: seq<nat>,
                             more: seq<nat>, responses: seq<UnsealResponse>)
    requires Run(status, reset, keys, draws, responses).outcome != SelectionPending
    ensures Run(status, reset, keys, draws + more, responses) == Run(status, reset, keys, draws, responses)
  {
    if status == SealedStatus && reset.threshold != ThresholdUnknown && reset.threshold <= |keys| {
      PickIgnoresLaterDraws([], |keys|, reset.threshold, draws, more);
    }
  }

  /** Draws that name enough keys complete the selection, so the run submits. */
  predicate DrawsSuffice(threshold: int, keys: seq<Key>, draws: seq<nat>)
    requires threshold <= |keys|
  {
    threshold <= 0 || |Named(draws, |keys|)| >= threshold
  }

  /** The run stops right after the first unsealed reply: `i + 1` keys are sent when
      reply `i` is the first to say unsealed. */
  lemma RunStopsAtFirstUnsealed(reset: UnsealResponse, keys: seq<Key>, draws: seq<nat>,
                                responses: seq<UnsealResponse>, i: nat)
    requires reset.threshold != ThresholdUnknown && reset.threshold <= |keys|
    requires DrawsSuffice(reset.threshold, keys, draws)
    requires i < reset.threshold && i < |responses|
    requires SealedThrough(responses, i) && !responses[i].sealed
    ensures Run(SealedStatus, reset, keys, draws, responses).outcome == Unsealed
    ensures |Run(SealedStatus, reset, keys, draws, responses).submitted| == i + 1
  {
    SelectCompleteIff(|keys|, reset.threshold, draws);
    StopsAtFirstUnsealed(keys, Select(|keys|, reset.threshold, draws), responses, i);
  }

  /** When every reply says sealed, the run fails after submitting exactly as many
      keys as the threshold asks for (none for a threshold of zero or below). */
  lemma RunFailsWhenAllSealed(reset: UnsealResponse, keys: seq<Key>, draws: seq<nat>,
                              responses: seq<UnsealResponse>)
    requires reset.threshold != ThresholdUnknown && reset.threshold <= |keys|
    requires DrawsSuffice(reset.threshold, keys, draws)
    requires SealedThrough(responses, Wanted(reset.threshold))
    ensures Run(SealedStatus, reset, keys, draws, responses).outcome == Failed
    ensures |Run(SealedStatus, reset, keys, draws, responses).submitted| == Wanted(reset.threshold)
  {
    if reset.threshold > 0 {
      SelectCompleteIff(|keys|, reset.threshold, draws);
    }
    AllSealedFails(keys, Select(|keys|, reset.threshold, draws), responses);
  }
}
