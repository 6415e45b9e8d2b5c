/**
 * The chaincode invoke task: one attempt submits a transaction, waits for its
 * commit event or a timeout, classifies the outcome and then either asks the
 * executor to run the same task again after a delay or reports to the callback.
 *
 * The network call and the race between the commit event and the timer are
 * summarised by an `AttemptOutcome` handed to each attempt; the answer of the
 * executor's `SubmitDelayed` is a boolean handed in likewise. The executor and
 * the callback are observed through a ghost log of `Event`s.
 */
module InvokeTask {
  import opened Wrappers
  import opened InvokeErrors

  /** How the commit wait of a submitted transaction ended. */
  datatype CommitResult =
    | Notified(code: TxValidationCode, cause: Option<string>)  // a commit event arrived first
    | TimedOut                                                // the timer fired first

  /** How one attempt's interaction with the network ended. */
  datatype AttemptOutcome =
    | SubmitFailed(cause: string)
    | Submitted(txID: string, commit: CommitResult)

  /** The function and arguments the task invokes on the chaincode. */
  datatype ArgStruct = ArgStruct(func: string, args: seq<string>)

  /** What the task asks of its collaborators: a delayed rerun, or the one completion call. */
  datatype Event =
    | Resubmit(delay: int, accepted: bool)  // executor.SubmitDelayed(task, delay); accepted == it returned nil
    | Callback(err: Option<InvokeError>)

  /**
   * The classification `doInvoke` performs: None is success, otherwise the
   * classified error of the attempt.
   */
  function Classify(o: AttemptOutcome): (r: Option<InvokeError>)
    // a failed submission is retryable and never waits for a commit
    ensures o.SubmitFailed? ==> r == Some(InvokeError(TransientError, ProposalFailed(o.cause)))
    // only a VALID commit event is success
    ensures r.None? <==> o.Submitted? && o.commit.Notified? && o.commit.code == VALID
    // the three conflict codes are transient, every other rejection is persistent
    ensures o.Submitted? && o.commit.Notified? && o.commit.code != VALID ==>
      r.Some? && r.value.detail == CommitRejected(o.txID, o.commit.code, o.commit.cause) &&
      (r.value.code == TransientError <==> IsConflictCode(o.commit.code)) &&
      (r.value.code == PersistentError <==> !IsConflictCode(o.commit.code))
    // no commit event before the timer is a timeout, and only that is
    ensures r.Some? ==> (r.value.code == TimeoutOnCommit <==> o.Submitted? && o.commit.TimedOut?)
    ensures o.Submitted? && o.commit.TimedOut? ==> r == Some(InvokeError(TimeoutOnCommit, CommitTimedOut(o.txID)))
  {
    match o
    case SubmitFailed(cause) => Some(InvokeError(TransientError, ProposalFailed(cause)))
    case Submitted(txID, Notified(code, cause)) =>
      if code == VALID then None
      else if code == DUPLICATE_TXID || code == MVCC_READ_CONFLICT || code == PHANTOM_READ_CONFLICT then
        Some(InvokeError(TransientError, CommitRejected(txID, code, cause)))
      else Some(InvokeError(PersistentError, CommitRejected(txID, code, cause)))
    case Submitted(txID, TimedOut) => Some(InvokeError(TimeoutOnCommit, CommitTimedOut(txID)))
  }

  /** The attempt's outcome is a retryable error. */
  predicate IsTransient(o: AttemptOutcome) {
    Classify(o).Some? && Classify(o).value.code == TransientError
  }

  /** The fields of a task that its attempts read or write. */
  datatype TaskState = TaskState(
    attempt: int,
    maxAttempts: int,
    resubmitDelay: int,
    lastErr: Option<InvokeError>,
    txID: string)

  /** The largest attempt number a task with this limit ever reaches. */
  function AttemptLimit(maxAttempts: int): (n: int)
    ensures n >= 1 && n >= maxAttempts
    ensures n == 1 || n == maxAttempts
  {
    if maxAttempts < 1 then 1 else maxAttempts
  }

  /** The attempt counter lies between 1 and the attempt limit. */
  predicate InBounds(s: TaskState) {
    1 <= s.attempt <= AttemptLimit(s.maxAttempts)
  }

  /** The state `New` creates. */
  function Initial(maxAttempts: int, resubmitDelay: int): (s: TaskState)
    ensures InBounds(s)
    ensures s.attempt == 1 && s.lastErr == None && s.txID == ""
    ensures s.maxAttempts == maxAttempts && s.resubmitDelay == resubmitDelay
  {
    TaskState(1, maxAttempts, resubmitDelay, None, "")
  }

  datatype StepResult = StepResult(next: TaskState, events: seq<Event>)

  /**
   * One call of `Invoke`: the new state and what it asks of the executor and
   * the callback, given the attempt's outcome and the executor's answer.
   */
  function Step(s: TaskState, o: AttemptOutcome, accepted: bool): (r: StepResult)
    ensures r.next.maxAttempts == s.maxAttempts && r.next.resubmitDelay == s.resubmitDelay
    // txID is the submitted transaction's, or unchanged when submission failed
    ensures r.next.txID == (if o.Submitted? then o.txID else s.txID)
    // exactly one request per attempt: resubmission or callback, never both
    ensures |r.events| == 1
    // resubmission happens exactly for a transient error below the limit
    ensures r.events[0].Resubmit? <==> IsTransient(o) && s.attempt < s.maxAttempts
    ensures r.events[0].Resubmit? ==>
      r.events[0] == Resubmit(s.resubmitDelay, accepted) && r.next.attempt == s.attempt + 1
    // otherwise the callback gets the attempt's own error (or nil) and attempt stays
    ensures r.events[0].Callback? ==> r.events[0] == Callback(Classify(o)) && r.next.attempt == s.attempt
    // every failure is recorded; success keeps the previous error
    ensures r.next.lastErr == (if Classify(o).Some? then Classify(o) else s.lastErr)
    ensures InBounds(s) ==> InBounds(r.next)
  {
    var s' := s.(txID := if o.Submitted? then o.txID else s.txID);
    match Classify(o)
    case None => StepResult(s', [Callback(None)])
    case Some(e) =>
      if e.code == TransientError && s.attempt < s.maxAttempts then
        StepResult(s'.(attempt := s.attempt + 1, lastErr := Some(e)), [Resubmit(s.resubmitDelay, accepted)])
      else
        StepResult(s'.(lastErr := Some(e)), [Callback(Some(e))])
  }

  /** The invoke task. Only `attempt`, `lastErr` and `txID` change after `New`. */
  class Task {
    const id: string
    const ccID: string
    const args: ArgStruct
    const maxAttempts: int
    const resubmitDelay: int
    const verbose: bool
    var attempt: int
    var lastErr: Option<InvokeError>
    var txID: string
    /** Every resubmission request and callback call the task has made, in order. */
    ghost var events: seq<Event>

    function State(): TaskState
      reads this
    {
      TaskState(attempt, maxAttempts, resubmitDelay, lastErr, txID)
    }

    ghost predicate Valid()
      reads this
    {
      InBounds(State())
    }

    constructor New(id: string, ccID: string, args: ArgStruct, maxAttempts: int,
                    resubmitDelay: int, verbose: bool)
      ensures Valid()
      ensures State() == Initial(maxAttempts, resubmitDelay)
      ensures this.id == id && this.ccID == ccID && this.args == args && this.verbose == verbose
      ensures events == []
    {
      this.id := id;
      this.ccID := ccID;
      this.args := args;
      this.maxAttempts := maxAttempts;
      this.resubmitDelay := resubmitDelay;
      this.verbose := verbose;
      attempt := 1;
      lastErr := None;
      txID := "";
      events := [];
    }

    /** The number of attempts made so far. */
    function Attempts(): (n: int)
      reads this
      ensures n == State().attempt
      ensures Valid() ==> 1 <= n <= AttemptLimit(maxAttempts)
    {
      attempt
    }

    /** The error of the most recent failed attempt, if any. */
    function LastError(): (e: Option<InvokeError>)
      reads this
      ensures e == State().lastErr
    {
      lastErr
    }

    /** One attempt's submission and commit wait; records the transaction id. */
    method DoInvoke(outcome: AttemptOutcome) returns (err: Option<InvokeError>)
      modifies this`txID
      ensures err == Classify(outcome)
      ensures txID == if outcome.SubmitFailed? then old(txID) else outcome.txID
    {
      match outcome
      case SubmitFailed(cause) =>
        return Some(InvokeError(TransientError, ProposalFailed(cause)));
      case Submitted(txnID, commit) =>
        txID := txnID;
        match commit
        case Notified(code, cause) =>
          if code == VALID {
            return None;
          } else if code == DUPLICATE_TXID || code == MVCC_READ_CONFLICT || code == PHANTOM_READ_CONFLICT {
            return Some(InvokeError(TransientError, CommitRejected(txnID, code, cause)));
          } else {
            return Some(InvokeError(PersistentError, CommitRejected(txnID, code, cause)));
          }
        case TimedOut =>
          return Some(InvokeError(TimeoutOnCommit, CommitTimedOut(txnID)));
    }

    /**
     * Runs one attempt. `outcome` is what the network and the commit wait
     * produced; `schedulerAccepts` is whether the executor's SubmitDelayed
     * succeeds, should the task ask for one.
     */
    method Invoke(outcome: AttemptOutcome, schedulerAccepts: bool)
      requires Valid()
      modifies this`attempt, this`lastErr, this`txID, this`events
      ensures Valid()
      ensures State() == Step(old(State()), outcome, schedulerAccepts).next
      ensures events == old(events) + Step(old(State()), outcome, schedulerAccepts).events
    {
      var err := DoInvoke(outcome);
      if err.Some? {
        lastErr := err;
        match err.value.code {
          case TransientError =>
            if attempt < maxAttempts {
              attempt := attempt + 1;
              events := events + [Resubmit(resubmitDelay, schedulerAccepts)];
              return;
            }
          case TimeoutOnCommit =>
          case PersistentError =>
        }
        events := events + [Callback(err)];
      } else {
        events := events + [Callback(None)];
      }
    }
  }
}
