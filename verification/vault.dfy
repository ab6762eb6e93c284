/** Data shared by the unseal run: the vault's reply record, the run's outcome and
    the observable trace of one run. */
module Vault {

  /** A key share as configured; opaque to the tool. */
  type Key = string

  /** The HTTP status the health endpoint answers with while the vault is sealed. */
  const SealedStatus: int := 503

  /** Sentinel the tool keeps in its threshold variable until the reset reply arrives. */
  const ThresholdUnknown: int := -1

  /** The vault's answer to a reset or a key submission. Only `sealed` and
      `threshold` are looked at; `shares` is logged and otherwise unused. */
  datatype UnsealResponse = UnsealResponse(sealed: bool, threshold: int, shares: int)

  /** How a run ends. */
  datatype Outcome =
    | AlreadyUnsealed    // health status other than 503: success, nothing else done
    | ThresholdUnset     // the threshold still equals the -1 sentinel: panic
    | InsufficientKeys   // fewer configured keys than the threshold: fatal
    | SelectionPending   // the given draws ran out before the selection was complete
    | Unsealed           // a submission answered sealed = false: success
    | SubmitFailed       // a submission got no answer: fatal
    | Failed             // every selected key was submitted and the vault stayed sealed: fatal

  /** What one run did: whether the reset was sent, which key indices were selected,
      which keys were submitted (in order) and how it ended. */
  datatype Trace = Trace(resetSent: bool, selection: seq<nat>, submitted: seq<Key>, outcome: Outcome)

  /** No index occurs twice. */
  predicate Distinct(s: seq<nat>) {
    forall i, j :: 0 <= i < j < |s| ==> s[i] != s[j]
  }

  /** Every index addresses one of `count` configured keys. */
  predicate InRange(s: seq<nat>, count: nat) {
    forall i :: 0 <= i < |s| ==> s[i] < count
  }

  /** The number of keys the selection loop collects for a threshold. */
  function Wanted(threshold: int): nat {
    if threshold < 0 then 0 else threshold
  }
}
