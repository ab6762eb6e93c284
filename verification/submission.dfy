/** Sequential key submission: each selected key is sent in selection order and the
    vault's reply decides whether to stop. `responses[i]` is the reply to the i-th
    submission; a submission with no reply left models the request failing. */
module Submission {
  import opened Vault

  /** The keys sent, in order, and how the submission loop ended. */
  datatype Submitted = Submitted(sent: seq<Key>, outcome: Outcome)

  /** The first `n` submissions all got a reply, and every reply said sealed. */
  predicate SealedThrough(responses: seq<UnsealResponse>, n: nat) {
    n <= |responses| && forall j :: 0 <= j < n ==> responses[j].sealed
  }

  /** The submission loop over the selection `sel`. */
  function Submit(keys: seq<Key>, sel: seq<nat>, responses: seq<UnsealResponse>): (r: Submitted)
    requires InRange(sel, |keys|)
    ensures |r.sent| <= |sel|
    ensures forall j :: 0 <= j < |r.sent| ==> r.sent[j] == keys[sel[j]]
    ensures r.outcome == Unsealed || r.outcome == SubmitFailed || r.outcome == Failed
    ensures r.outcome == Failed <==> SealedThrough(responses, |sel|)
    ensures r.outcome == Failed ==> |r.sent| == |sel|
    ensures r.outcome == Unsealed ==>
              0 < |r.sent| <= |responses| && SealedThrough(responses, |r.sent| - 1)
              && !responses[|r.sent| - 1].sealed
    ensures r.outcome == SubmitFailed ==>
              |r.sent| == |responses| + 1 && SealedThrough(responses, |responses|)
    decreases |sel|
  {
    if |sel| == 0 then Submitted([], Failed)
    else
      var key := keys[sel[0]];
      if |responses| == 0 then Submitted([key], SubmitFailed)
      else if !responses[0].sealed then Submitted([key], Unsealed)
      else
        var rest := Submit(keys, sel[1..], responses[1..]);
        Submitted([key] + rest.sent, rest.outcome)
  }

  /** Submission stops right after the first reply that says unsealed: exactly
      `i + 1` keys go out when reply `i` is the first unsealed one. */
  lemma StopsAtFirstUnsealed(keys: seq<Key>, sel: seq<nat>, responses: seq<UnsealResponse>, i: nat)
    requires InRange(sel, |keys|)
    requires i < |sel| && i < |responses|
    requires SealedThrough(responses, i) && !responses[i].sealed
    ensures Submit(keys, sel, responses).outcome == Unsealed
    ensures Submit(keys, sel, responses).sent == seq(i + 1, j requires 0 <= j <= i => keys[sel[j]])
  {
    assert !SealedThrough(responses, |sel|);
    assert !SealedThrough(responses, |responses|);
  }

  /** When every reply says sealed the loop submits every selected key and fails,
      including the case of an empty selection. */
  lemma AllSealedFails(keys: seq<Key>, sel: seq<nat>, responses: seq<UnsealResponse>)
    requires InRange(sel, |keys|)
    requires SealedThrough(responses, |sel|)
    ensures Submit(keys, sel, responses).outcome == Failed
    ensures Submit(keys, sel, responses).sent == seq(|sel|, j requires 0 <= j < |sel| => keys[sel[j]])
  {
  }
}
