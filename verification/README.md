# vault-autounseal: the unseal decision logic in Dafny

vault-autounseal is a single Go program (`main.go`) that unseals a secret-management
vault. It probes the vault's health endpoint, resets any half-finished unseal, reads
the unseal threshold from the reset reply, checks that enough key shares are
configured, picks that many distinct shares at random, and submits them one by one
until the vault answers `sealed: false`.

This project models the decision logic of that run as pure functions over abstract
inputs. The inputs are the health status code, the reset reply, the configured keys,
the values the random generator returns (`draws`), and the replies to the key
submissions (`responses`).

- `vault.dfy` (module `Vault`): the `UnsealResponse` record, the `Outcome` of a run
  and the `Trace` of what a run did, plus the `Distinct` and `InRange` predicates.
- `selection.dfy` (module `Selection`): the key-index selection loop. `Pick` is a fold
  over the draws. `SelectKeyIndexes` is the loop as written, with its inner
  duplicate scan `Contains`, and is proved equal to the fold.
- `submission.dfy` (module `Submission`): the sequential submission loop `Submit`.
- `autounseal.dfy` (module `Autounseal`): the whole run, `Run`, and lemmas relating
  its outcome to its inputs.

How the code's behaviour is modelled:

- The health check goes on only for status 503. Every other status ends the run
  successfully, without a reset and without any submission.
- The threshold variable starts at the sentinel -1, and the code panics if it still
  holds -1 after the reset. A failed, unreadable or undecodable reset reply exits
  earlier (main.go:64-75), so the only way to reach the panic is a decoded reset reply
  whose `t` field is -1. The model keeps that branch as the outcome `ThresholdUnset`.
- A threshold above the number of configured keys is fatal before any index is drawn.
- A threshold of zero or below, other than the -1 sentinel, selects no key, submits nothing and ends in
  "failed to unseal vault". The code does not treat this case specially; the model
  follows it.
- Each draw is reduced modulo the key count. It is appended only when it is not
  already selected. The loop stops once the selection reaches the threshold.
- Keys are submitted in selection order. The run stops at the first reply with
  `sealed = false`. If every reply says sealed, it fails after the last selected key.

## Model

| member | source | states |
|---|---|---|
| Selection.Step | main.go:92-103 | one loop turn: the drawn index ends up in the selection, which grows by at most one entry and stays an extension of the old one; distinctness and range are kept, and nothing but the drawn index is added |
| Selection.Pick | main.go:90-104 | the loop from a partial selection only extends it and never grows it past the threshold; its precondition `needed <= keyCount`, which the check on line 85 establishes, is all that keeps the modulo away from a zero key count |
| Selection.PickValid | main.go:92-103 | the loop keeps the selection duplicate-free and every index inside `[0, keyCount)`, because a draw already present is discarded and every draw is reduced modulo the key count |
| Selection.Select | main.go:85-104 | the selection a run makes is duplicate-free, in range and holds at most `max(threshold, 0)` indices |
| Selection.PickCoverage | main.go:91-103 | every index the loop adds is named by some draw; a loop that stops short of the threshold has taken every index the draws name |
| Selection.SelectCompleteIff | main.go:91-103 | the selection reaches the threshold exactly when the draws name at least that many different indices; otherwise it holds exactly the indices the draws named |
| Selection.PickIgnoresLaterDraws | main.go:91 | once the selection is complete the loop stops drawing: appending draws does not change it |
| Selection.PickMonotone | main.go:91-103 | more draws only extend the selection made from fewer |
| Selection.Contains | main.go:94-99 | the scan that walks the whole selection without stopping reports true exactly when the drawn index is already selected |
| Selection.SelectKeyIndexes | main.go:90-104 | the loop as written, with its inner scan, returns the fold's selection, consumes at most the given draws, uses all of them whenever the selection stays short, and its selection depends only on the draws it consumed |
| Submission.Submit | main.go:106-143 | keys go out as `keys[sel[j]]` in selection order; the loop fails exactly when every selected key got a sealed reply, after sending all of them; it ends unsealed only right after the first unsealed reply, with every earlier reply sealed; it ends in a request failure only when the replies ran out |
| Submission.StopsAtFirstUnsealed | main.go:107-139 | if reply `i` is the first unsealed one, the loop ends unsealed after sending exactly the first `i + 1` selected keys |
| Submission.AllSealedFails | main.go:107-143 | if every reply is sealed, including when the selection is empty, the loop sends every selected key in order and fails |
| Autounseal.Run | main.go:39-143 | the reset is sent if and only if the health status is 503, and any other status ends successfully with nothing selected or sent; the -1 sentinel panics; too few keys fail exactly when the threshold exceeds the key count, with nothing selected or sent; submission happens only after a complete, distinct, in-range selection of `max(threshold, 0)` indices, in selection order; an unsealed outcome follows the first unsealed reply; a failure follows all-sealed replies to every selected key |
| Autounseal.NoKeysNeverDraws | main.go:85-92 | with no configured keys the draws are never consulted, so the modulo by the key count never runs: nothing is selected or submitted whatever the draws |
| Autounseal.EnoughDrawsCompleteSelection | main.go:91-103 | draws naming at least `threshold` different keys always complete the selection, and the run goes on to submission |
| Autounseal.RunIgnoresLaterDraws | main.go:91-104 | a run that got past selection does not depend on draws it never consumed |
| Autounseal.RunStopsAtFirstUnsealed | main.go:85-139 | for a sealed vault with enough keys and draws that name at least `threshold` different keys, the run ends unsealed with exactly `i + 1` submissions when reply `i` is the first unsealed one |
| Autounseal.RunFailsWhenAllSealed | main.go:85-143 | for a sealed vault with enough keys and draws that name at least `threshold` different keys (or a threshold of zero or below, other than the -1 sentinel), all-sealed replies make the run fail after exactly `max(threshold, 0)` submissions |

## Left out

- Reading and decoding `config.json` (main.go:14-24). This is file I/O and library
  parsing. The configured keys are an input.
- Seeding and running the random generator (main.go:26). The values it returns are the
  input sequence `draws`. They are unbounded naturals, a superset of the
  `[0, 2^63)` range `rand.Int` returns. Go's `%` and Dafny's `%` agree on
  non-negative operands, so no wrap-around needs modelling.
- The generator is infinite but `draws` is finite. When the draws run out before the
  selection is complete, the model ends in `SelectionPending`, an outcome the program
  itself never reaches because it keeps drawing. `RunIgnoresLaterDraws` and
  `EnoughDrawsCompleteSelection` show this outcome is only a lack of input.
  Termination of the real loop is not modelled, since it depends on the generator.
- The HTTP client, its 10-second timeout, request construction, headers and body
  closing (main.go:28-38, 58-67, 109-127). This is network plumbing.
- Transport and decode failures of the health probe and of the reset request
  (main.go:31-37, 64-75). The model always has a status code and a reset reply.
- Replies are taken as already decoded `UnsealResponse` records. The program never
  looks at the HTTP status of the reset or unseal replies (main.go:64-79, 123-139),
  and JSON decoding leaves a missing field at its zero value: `sealed` reads as
  false and `t` as 0. So an error body to a key submission ends the run as
  `Unsealed`, and an error body to the reset ends it as `Failed` with nothing sent.
  The model reaches both through its inputs; it does not model the decoding itself.
- A key submission whose request fails or whose body cannot be read or parsed as
  JSON (main.go:123-134) is modelled only as the replies running out. That gives the fatal outcome `SubmitFailed`
  after the unanswered key has been sent.
- JSON marshalling of the `{"reset": true}` and `{"key": …}` bodies. These are
  foreign library calls.
- The `shares` field of the reset reply. The program only logs it (main.go:77).
- Log output and the process-exit mechanics of `log.Fatal` and `log.Panic`. These
  become `Outcome` constructors.
