# Chaincode invoke task: retry and commit-confirmation state machine

This project models the invoke task of fabric-cli (`invoketask.Task`). The task submits a
chaincode transaction to a Hyperledger Fabric channel. It then waits until either the
commit event for the transaction arrives or a timeout fires, and it classifies how the
attempt ended:

- `TransientError`: the submission failed, or the transaction was rejected with
  `DUPLICATE_TXID`, `MVCC_READ_CONFLICT` or `PHANTOM_READ_CONFLICT`;
- `PersistentError`: the transaction was rejected with any other validation code;
- `TimeoutOnCommit`: no commit event arrived before the timeout;
- success: the transaction committed as `VALID`.

A transient error below the attempt limit increments the attempt counter and asks the
executor to run the same task again after the resubmission delay. Every other outcome
calls the completion callback once, with the error or with nil.

Files:

- `wrappers.dfy`: `Option`, standing for a Go `error` that may be nil.
- `invokeerror.dfy`: the three error kinds, the error value with its cause, and the
  validation codes. The codes are a newtype over Fabric's int32 enum, so "any other
  code" covers every value a commit event can carry.
- `invoketask.dfy`:
  - `Classify`, the classification performed by `doInvoke`;
  - `Step`, the pure specification of one `Invoke` call;
  - class `Task`, with `New`, `Attempts`, `LastError`, `DoInvoke` and `Invoke`.
- `chain.dfy`:
  - `Run`, a chain of `Invoke` calls, each started by the task's own accepted
    resubmission;
  - the chain lemmas: the attempt bound, exactly one callback, and orphaning when
    `SubmitDelayed` fails;
  - the concrete retry scenarios.

How the collaborators are modelled:

- The network call, and the race between the commit event and the timer, are one
  `AttemptOutcome` parameter of `Invoke`:
  - `SubmitFailed`;
  - `Submitted(txID, Notified(code, cause))`;
  - `Submitted(txID, TimedOut)`.
- The answer of the executor's `SubmitDelayed` is a boolean parameter of `Invoke`. It is
  consulted only when a resubmission is requested. Because it is arbitrary, it plays the
  role of a nondeterministic choice.
- The executor and the callback are observed through a ghost log `events` on the task.
  Each entry is `Resubmit(delay, accepted)` or `Callback(err)`.
- The task reference passed to `SubmitDelayed` is always the task itself, so the log is
  kept per task.
- `Invoke` is proved against `Step`: its postcondition says the new fields and the newly
  logged events are exactly those `Step` gives. The lemmas about `Step` and `Run` then
  carry the properties.

The Go code reads the error kind back with the type assertion `err.(invokeerror.Error)`
at invoketask.go:75. Here `doInvoke` returns an `InvokeError` by type, so the assertion
and its nil check always succeed and need no counterpart.

The code does not check `maxAttempts >= 1`. With `maxAttempts <= 0`, the first transient
error is reported at attempt 1. The model follows the code, so its bound is
`max(1, maxAttempts)` (`AttemptLimit`).

## Model

| member | source | states |
|---|---|---|
| InvokeTask.Classify | fabric-cli/cmd/fabric-cli/chaincode/invoketask/invoketask.go:118-140 | a failed submission is TransientError with no commit wait; only VALID is success; DUPLICATE_TXID, MVCC_READ_CONFLICT and PHANTOM_READ_CONFLICT are TransientError and every other code is PersistentError; TimeoutOnCommit holds exactly when the timer fires first |
| InvokeTask.Initial | fabric-cli/cmd/fabric-cli/chaincode/invoketask/invoketask.go:45-57 | a new task is at attempt 1 with no last error and an empty txID, keeps maxAttempts and resubmitDelay as given, and is within the attempt bound |
| InvokeTask.Step | fabric-cli/cmd/fabric-cli/chaincode/invoketask/invoketask.go:72-97 | one Invoke makes exactly one request: a resubmission with resubmitDelay iff the error is transient and attempt < maxAttempts (then attempt + 1), otherwise one callback with the attempt's own error or nil (attempt unchanged); every failure sets lastErr, success keeps it; txID changes only after a successful submission; the attempt bound is preserved |
| InvokeTask.Task.New | fabric-cli/cmd/fabric-cli/chaincode/invoketask/invoketask.go:42-58 | the constructed task's state is Initial, it keeps its identity and arguments, and it has made no request yet |
| InvokeTask.Task.Attempts | fabric-cli/cmd/fabric-cli/chaincode/invoketask/invoketask.go:62-64 | reads the attempt counter, which lies in 1..max(1, maxAttempts) on a valid task |
| InvokeTask.Task.LastError | fabric-cli/cmd/fabric-cli/chaincode/invoketask/invoketask.go:67-69 | reads the last recorded error |
| InvokeTask.Task.DoInvoke | fabric-cli/cmd/fabric-cli/chaincode/invoketask/invoketask.go:100-142 | returns the classification of the outcome and records the transaction id only when submission succeeded |
| InvokeTask.Task.Invoke | fabric-cli/cmd/fabric-cli/chaincode/invoketask/invoketask.go:72-98 | keeps the attempt bound; the new fields and the logged resubmission/callback are exactly those of Step |
| InvokeChain.Run | fabric-cli/cmd/fabric-cli/chaincode/invoketask/invoketask.go:79-85 | a chain runs the task again only after an accepted resubmission, makes at most one attempt per supplied outcome, and never changes maxAttempts or resubmitDelay |
| InvokeChain.ChainBounds | fabric-cli/cmd/fabric-cli/chaincode/invoketask/invoketask.go:79-81 | along any chain attempt stays within 1..max(1, maxAttempts), at most that many attempts are made, and each attempt except a final callback adds exactly one to attempt |
| InvokeChain.ChainShape | fabric-cli/cmd/fabric-cli/chaincode/invoketask/invoketask.go:78-97 | every event but the last is an accepted resubmission with the task's delay; the callback fires at most once, and never in a chain with a refused resubmission |
| InvokeChain.ChainEnds | fabric-cli/cmd/fabric-cli/chaincode/invoketask/invoketask.go:78-97 | given an outcome for each allowed attempt, the chain ends with exactly one callback or exactly one refused resubmission |
| InvokeChain.AcceptedChainNotOrphaned | fabric-cli/cmd/fabric-cli/chaincode/invoketask/invoketask.go:82-84 | if SubmitDelayed never fails, no resubmission in the chain is refused |
| InvokeChain.AcceptedChainCallsBack | fabric-cli/cmd/fabric-cli/chaincode/invoketask/invoketask.go:78-97 | if every SubmitDelayed succeeds and an outcome is supplied for each allowed attempt, the chain's last event is the callback and no other callback occurs |
| InvokeChain.ChainCallsBackExactlyOnce | fabric-cli/cmd/fabric-cli/chaincode/invoketask/invoketask.go:72-97 | if SubmitDelayed never fails, the chain ends after at most max(1, maxAttempts) attempts with the callback as its last event, fired exactly once |
| InvokeChain.RefusalOrphansChain | fabric-cli/cmd/fabric-cli/chaincode/invoketask/invoketask.go:82-85 | a failed SubmitDelayed is only logged: the chain stops at that request and the callback never fires |
| InvokeChain.RetriesThenCommits | fabric-cli/cmd/fabric-cli/chaincode/invoketask/invoketask.go:78-97 | k transient failures within the limit and then a VALID commit give k resubmissions with the task's delay, then one callback with nil, attempt advanced by k, and txID of the committed transaction |
| InvokeChain.ExhaustsRetries | fabric-cli/cmd/fabric-cli/chaincode/invoketask/invoketask.go:78-93 | transient failures up to the limit give one resubmission per failure but the last, then one callback with the final attempt's own error, which is also lastErr; attempt ends at max(1, maxAttempts) |
| InvokeChain.TerminalErrorEndsChain | fabric-cli/cmd/fabric-cli/chaincode/invoketask/invoketask.go:87-93 | a PersistentError or TimeoutOnCommit at any attempt gives one callback with that error, no resubmission, and leaves attempt unchanged |
| InvokeChain.MvccConflictsThenValid | fabric-cli/cmd/fabric-cli/chaincode/invoketask/invoketask.go:126-134 | with maxAttempts 3 and a 10ms delay, two MVCC read conflicts and then VALID give two 10ms resubmissions (20ms in total) and one nil callback, at attempt 3 |
| InvokeChain.MvccConflictsThenValidOnTask | fabric-cli/cmd/fabric-cli/chaincode/invoketask/invoketask.go:72-97 | the same scenario on a Task object: three Invoke calls leave Attempts() at 3 and LastError() at the second conflict |
| InvokeChain.SingleTimeoutOnTask | fabric-cli/cmd/fabric-cli/chaincode/invoketask/invoketask.go:88-93 | with maxAttempts 1, a timed-out attempt gives one TimeoutOnCommit callback, and Attempts() is 1 |

## Left out

- The query task (`querytask.go`) is not part of this model. It forwards one query call
  and passes the call's error to its callback, and it has no state of its own.
- `ExecuteTxWithOpts`, `responsefilter.New`, `utils.AsBytes` and the printer are foreign
  calls. Only the outcome they produce is kept, as `AttemptOutcome`.
- `cliconfig.Config()` is global configuration: the timeout, the chaincode ID and the
  logger. The timeout only decides the timer race, which is part of `AttemptOutcome`.
- The Go channel and the `time.After` race in the `select` are concurrency plumbing. The
  model keeps only which side won: `Notified` or `TimedOut`.
- The executor's scheduling, threads and real delays are left out. The model records only
  the `SubmitDelayed` request, its delay and whether it was accepted.
- The callback's effect on the caller is left out. Only its call and its argument are
  logged.
- The debug and error log lines are side effects that do not touch the task's state.
- `asProposalProcessors` is dead code: its only use is commented out.
- Error message text is not modelled. An error carries its kind, the cause it wraps, and
  the transaction id and validation code it mentions.
- `time.Duration` is an int64 count of nanoseconds. `resubmitDelay` is an unbounded
  integer that is stored and passed on unchanged.
- `attempt` is an unbounded integer. The Go `int` cannot overflow here, because
  `attempt++` runs only when `attempt < maxAttempts`.
- The numeric values of the four named validation codes (0, 9, 11 and 12) come from
  Fabric's `TxValidationCode` enum, which is not part of this model. Only their
  distinctness matters to the classification.
