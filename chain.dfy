/**
 * A resubmission chain: the task run once, then again each time its own
 * delayed resubmission is accepted by the executor, until it calls back, the
 * executor refuses, or the supplied outcomes run out.
 */
module InvokeChain {
  import opened Wrappers
  import opened InvokeErrors
  import opened InvokeTask

  /** The resubmission request was accepted, so the executor runs the task again. */
  predicate Continues(e: Event) {
    e.Resubmit? && e.accepted
  }

  function CallbackCount(evs: seq<Event>): (n: nat)
    ensures n <= |evs|
  {
    if evs == [] then 0
    else (if evs[0].Callback? then 1 else 0) + CallbackCount(evs[1..])
  }

  /** Resubmission requests the executor refused: each leaves the task orphaned. */
  function RefusedCount(evs: seq<Event>): (n: nat)
    ensures n <= |evs|
  {
    if evs == [] then 0
    else (if evs[0].Resubmit? && !evs[0].accepted then 1 else 0) + RefusedCount(evs[1..])
  }

  /** A log has no callback exactly when its callback count is zero. */
  lemma {:induction false} CallbackCountZero(evs: seq<Event>)
    ensures CallbackCount(evs) == 0 <==> forall i :: 0 <= i < |evs| ==> !evs[i].Callback?
  {
    if evs != [] {
      CallbackCountZero(evs[1..]);
      assert forall i :: 1 <= i < |evs| ==> evs[i] == evs[1..][i - 1];
    }
  }

  /** A log has no refused request exactly when its refusal count is zero. */
  lemma {:induction false} RefusedCountZero(evs: seq<Event>)
    ensures RefusedCount(evs) == 0 <==> forall i :: 0 <= i < |evs| ==> !(evs[i].Resubmit? && !evs[i].accepted)
  {
    if evs != [] {
      RefusedCountZero(evs[1..]);
      assert forall i :: 1 <= i < |evs| ==> evs[i] == evs[1..][i - 1];
    }
  }

  /** The delay the executor is asked to wait in total before the chain's later attempts. */
  function TotalDelay(evs: seq<Event>): int {
    if evs == [] then 0
    else (if Continues(evs[0]) then evs[0].delay else 0) + TotalDelay(evs[1..])
  }

  /** The executor accepts every resubmission request. */
  function AlwaysAccepts(n: nat): (a: seq<bool>)
    ensures |a| == n && forall i :: 0 <= i < n ==> a[i]
  {
    seq(n, _ => true)
  }

  /** How many more attempts a task in state `s` may make, this one included. */
  function Budget(s: TaskState): int {
    AttemptLimit(s.maxAttempts) - s.attempt + 1
  }

  datatype Chain = Chain(final: TaskState, events: seq<Event>, invocations: nat)

  /**
   * Runs the task on `outcomes[0]`, `outcomes[1]`, ... while each attempt ends
   * in an accepted resubmission; `accepts[i]` is the executor's answer to the
   * i-th attempt's request.
   */
  function Run(s: TaskState, outcomes: seq<AttemptOutcome>, accepts: seq<bool>): (c: Chain)
    requires |accepts| == |outcomes|
    ensures c.invocations <= |outcomes|
    ensures |c.events| == c.invocations
    ensures c.final.maxAttempts == s.maxAttempts && c.final.resubmitDelay == s.resubmitDelay
    decreases |outcomes|
  {
    if outcomes == [] then Chain(s, [], 0)
    else
      var r := Step(s, outcomes[0], accepts[0]);
      if Continues(r.events[0]) then
        var rest := Run(r.next, outcomes[1..], accepts[1..]);
        Chain(rest.final, r.events + rest.events, rest.invocations + 1)
      else
        Chain(r.next, r.events, 1)
  }

  lemma CountsOfCons(e: Event, evs: seq<Event>)
    ensures CallbackCount([e] + evs) == (if e.Callback? then 1 else 0) + CallbackCount(evs)
    ensures RefusedCount([e] + evs) == (if e.Resubmit? && !e.accepted then 1 else 0) + RefusedCount(evs)
    ensures TotalDelay([e] + evs) == (if Continues(e) then e.delay else 0) + TotalDelay(evs)
  {
    assert ([e] + evs)[1..] == evs;
  }

  /**
   * Along any chain the attempt counter stays within 1..max(1, maxAttempts), the
   * chain makes at most that many attempts, and each attempt but a final callback
   * advances the counter by one.
   */
  lemma {:induction false} ChainBounds(s: TaskState, outcomes: seq<AttemptOutcome>, accepts: seq<bool>)
    requires InBounds(s) && |accepts| == |outcomes|
    ensures var c := Run(s, outcomes, accepts);
      InBounds(c.final) &&
      c.invocations <= Budget(s) &&
      c.final.attempt - s.attempt == c.invocations - (if c.invocations > 0 && c.events[c.invocations - 1].Callback? then 1 else 0)
    decreases |outcomes|
  {
    if outcomes != [] {
      var r := Step(s, outcomes[0], accepts[0]);
      if Continues(r.events[0]) {
        ChainBounds(r.next, outcomes[1..], accepts[1..]);
      }
    }
  }

  /**
   * Along any chain every event but the last is an accepted resubmission with
   * the task's delay, and the callback fires at most once, and not at all once a
   * resubmission was refused.
   */
  lemma {:induction false} ChainShape(s: TaskState, outcomes: seq<AttemptOutcome>, accepts: seq<bool>)
    requires |accepts| == |outcomes|
    ensures var c := Run(s, outcomes, accepts);
      (forall i :: 0 <= i < |c.events| - 1 ==> Continues(c.events[i])) &&
      (forall i :: 0 <= i < |c.events| && c.events[i].Resubmit? ==> c.events[i].delay == s.resubmitDelay) &&
      CallbackCount(c.events) + RefusedCount(c.events) <= 1
    decreases |outcomes|
  {
    if outcomes != [] {
      var r := Step(s, outcomes[0], accepts[0]);
      if Continues(r.events[0]) {
        ChainShape(r.next, outcomes[1..], accepts[1..]);
        CountsOfCons(r.events[0], Run(r.next, outcomes[1..], accepts[1..]).events);
        assert r.events == [r.events[0]];
      }
    }
  }

  /**
   * Given outcomes for every attempt the task may make, the chain ends: with
   * exactly one callback, or with exactly one refused resubmission and no callback.
   */
  lemma {:induction false} ChainEnds(s: TaskState, outcomes: seq<AttemptOutcome>, accepts: seq<bool>)
    requires InBounds(s) && |accepts| == |outcomes| && |outcomes| >= Budget(s)
    ensures var c := Run(s, outcomes, accepts);
      c.invocations >= 1 && !Continues(c.events[c.invocations - 1]) &&
      CallbackCount(c.events) + RefusedCount(c.events) == 1
    decreases |outcomes|
  {
    var r := Step(s, outcomes[0], accepts[0]);
    if Continues(r.events[0]) {
      ChainEnds(r.next, outcomes[1..], accepts[1..]);
      CountsOfCons(r.events[0], Run(r.next, outcomes[1..], accepts[1..]).events);
      assert r.events == [r.events[0]];
    } else {
      CountsOfCons(r.events[0], []);
      assert r.events == [r.events[0]] + [];
    }
  }

  /** A chain the executor never refuses has no refused resubmission. */
  lemma {:induction false} AcceptedChainNotOrphaned(s: TaskState, outcomes: seq<AttemptOutcome>, accepts: seq<bool>)
    requires |accepts| == |outcomes| && forall i :: 0 <= i < |accepts| ==> accepts[i]
    ensures RefusedCount(Run(s, outcomes, accepts).events) == 0
    decreases |outcomes|
  {
    if outcomes != [] {
      var r := Step(s, outcomes[0], accepts[0]);
      if Continues(r.events[0]) {
        AcceptedChainNotOrphaned(r.next, outcomes[1..], accepts[1..]);
        CountsOfCons(r.events[0], Run(r.next, outcomes[1..], accepts[1..]).events);
        assert r.events == [r.events[0]];
      }
    }
  }

  /**
   * When SubmitDelayed never fails and the environment supplies an outcome for
   * every attempt, the chain's last event is the callback and it is the only one.
   */
  lemma AcceptedChainCallsBack(s: TaskState, outcomes: seq<AttemptOutcome>, accepts: seq<bool>)
    requires InBounds(s) && |accepts| == |outcomes| && |outcomes| >= Budget(s)
    requires forall i :: 0 <= i < |accepts| ==> accepts[i]
    ensures var c := Run(s, outcomes, accepts);
      c.invocations >= 1 && c.events[c.invocations - 1].Callback? && CallbackCount(c.events) == 1
  {
    var c := Run(s, outcomes, accepts);
    ChainEnds(s, outcomes, accepts);
    AcceptedChainNotOrphaned(s, outcomes, accepts);
    RefusedCountZero(c.events);
  }

  /**
   * When SubmitDelayed never fails and the environment supplies an outcome for
   * every attempt, the chain ends after at most max(1, maxAttempts) attempts in
   * total, its last event is the callback, and the callback fires exactly once.
   */
  lemma ChainCallsBackExactlyOnce(s: TaskState, outcomes: seq<AttemptOutcome>)
    requires InBounds(s) && |outcomes| >= Budget(s)
    ensures var c := Run(s, outcomes, AlwaysAccepts(|outcomes|));
      1 <= c.invocations <= Budget(s) && c.final.attempt <= AttemptLimit(s.maxAttempts) &&
      c.events[c.invocations - 1].Callback? && CallbackCount(c.events) == 1
  {
    var accepts := AlwaysAccepts(|outcomes|);
    ChainBounds(s, outcomes, accepts);
    AcceptedChainCallsBack(s, outcomes, accepts);
  }

  /**
   * When SubmitDelayed fails, the failure is only logged: the chain stops at that
   * request and the callback never fires.
   */
  lemma RefusalOrphansChain(s: TaskState, outcomes: seq<AttemptOutcome>, accepts: seq<bool>)
    requires |accepts| == |outcomes|
    requires RefusedCount(Run(s, outcomes, accepts).events) > 0
    ensures var c := Run(s, outcomes, accepts);
      CallbackCount(c.events) == 0 && c.events[|c.events| - 1] == Resubmit(s.resubmitDelay, false)
  {
    var c := Run(s, outcomes, accepts);
    ChainShape(s, outcomes, accepts);
    RefusedCountZero(c.events);
    var i :| 0 <= i < |c.events| && c.events[i].Resubmit? && !c.events[i].accepted;
    assert i == |c.events| - 1;
  }

  /** `n` accepted resubmission requests, each with the same delay. */
  function Resubmits(delay: int, n: nat): (evs: seq<Event>)
    ensures |evs| == n
  {
    if n == 0 then [] else [Resubmit(delay, true)] + Resubmits(delay, n - 1)
  }

  /** n accepted resubmissions and a final event ask the executor to wait n times the delay. */
  lemma {:induction false} ResubmitsDelay(delay: int, n: nat, last: Event)
    requires !Continues(last)
    ensures TotalDelay(Resubmits(delay, n) + [last]) == n * delay
  {
    if n == 0 {
      assert Resubmits(delay, 0) + [last] == [last] + [];
      CountsOfCons(last, []);
    } else {
      ResubmitsDelay(delay, n - 1, last);
      assert Resubmits(delay, n) + [last] == [Resubmit(delay, true)] + (Resubmits(delay, n - 1) + [last]);
      CountsOfCons(Resubmit(delay, true), Resubmits(delay, n - 1) + [last]);
      assert n * delay == (n - 1) * delay + delay;
    }
  }

  /**
   * Transient failures followed by a VALID commit, all within the attempt limit:
   * one resubmission per failure, then one callback with no error, and the
   * attempt counter advanced by the number of failures.
   */
  lemma {:induction false} RetriesThenCommits(s: TaskState, outcomes: seq<AttemptOutcome>)
    requires InBounds(s) && |outcomes| >= 1 && s.attempt + |outcomes| - 1 <= AttemptLimit(s.maxAttempts)
    requires forall i :: 0 <= i < |outcomes| - 1 ==> IsTransient(outcomes[i])
    requires Classify(outcomes[|outcomes| - 1]).None?
    ensures var c := Run(s, outcomes, AlwaysAccepts(|outcomes|));
      c.events == Resubmits(s.resubmitDelay, |outcomes| - 1) + [Callback(None)] &&
      c.final.attempt == s.attempt + |outcomes| - 1 &&
      c.final.txID == outcomes[|outcomes| - 1].txID
    decreases |outcomes|
  {
    var accepts := AlwaysAccepts(|outcomes|);
    var r := Step(s, outcomes[0], accepts[0]);
    if |outcomes| > 1 {
      assert IsTransient(outcomes[0]) && s.attempt < s.maxAttempts;
      assert r.events == [Resubmit(s.resubmitDelay, true)] && r.next.attempt == s.attempt + 1;
      var tail := outcomes[1..];
      assert forall i :: 0 <= i < |tail| - 1 ==> IsTransient(tail[i]) by {
        forall i | 0 <= i < |tail| - 1 ensures IsTransient(tail[i]) {
          assert tail[i] == outcomes[i + 1];
        }
      }
      assert tail[|tail| - 1] == outcomes[|outcomes| - 1];
      assert accepts[1..] == AlwaysAccepts(|tail|);
      RetriesThenCommits(r.next, tail);
      var rest := Run(r.next, tail, accepts[1..]);
      assert Run(s, outcomes, accepts) == Chain(rest.final, r.events + rest.events, rest.invocations + 1);
      assert Resubmits(s.resubmitDelay, |outcomes| - 1)
          == [Resubmit(s.resubmitDelay, true)] + Resubmits(s.resubmitDelay, |outcomes| - 2);
    } else {
      assert Run(s, outcomes, accepts) == Chain(r.next, [Callback(None)], 1);
    }
  }

  /**
   * Transient failures until the attempt limit: one resubmission per failure
   * but the last, then one callback with the final attempt's own error, which
   * is also the task's last error; the counter ends at max(1, maxAttempts).
   */
  lemma {:induction false} ExhaustsRetries(s: TaskState, outcomes: seq<AttemptOutcome>)
    requires InBounds(s) && |outcomes| == Budget(s)
    requires forall i :: 0 <= i < |outcomes| ==> IsTransient(outcomes[i])
    ensures var c := Run(s, outcomes, AlwaysAccepts(|outcomes|));
      c.events == Resubmits(s.resubmitDelay, |outcomes| - 1) + [Callback(Classify(outcomes[|outcomes| - 1]))] &&
      c.final.attempt == AttemptLimit(s.maxAttempts) &&
      c.final.lastErr == Classify(outcomes[|outcomes| - 1])
    decreases |outcomes|
  {
    var accepts := AlwaysAccepts(|outcomes|);
    var r := Step(s, outcomes[0], accepts[0]);
    if |outcomes| > 1 {
      assert accepts[1..] == AlwaysAccepts(|outcomes| - 1);
      ExhaustsRetries(r.next, outcomes[1..]);
      assert r.events == [Resubmit(s.resubmitDelay, true)];
      assert Resubmits(s.resubmitDelay, |outcomes| - 1)
          == [Resubmit(s.resubmitDelay, true)] + Resubmits(s.resubmitDelay, |outcomes| - 2);
    } else {
      assert Run(s, outcomes, accepts).events == [Callback(Classify(outcomes[0]))];
    }
  }

  /**
   * A persistent rejection or a commit timeout ends the chain at once, whatever
   * the attempt number and limit: one callback with that error, no resubmission.
   */
  lemma TerminalErrorEndsChain(s: TaskState, outcomes: seq<AttemptOutcome>, accepts: seq<bool>)
    requires |accepts| == |outcomes| && |outcomes| >= 1
    requires Classify(outcomes[0]).Some? && Classify(outcomes[0]).value.code != TransientError
    ensures var c := Run(s, outcomes, accepts);
      c.events == [Callback(Classify(outcomes[0]))] && c.invocations == 1 &&
      c.final.attempt == s.attempt && c.final.lastErr == Classify(outcomes[0])
  {
  }

  /**
   * maxAttempts = 3, delay 10ms: two MVCC read conflicts, then VALID. The task
   * calls back once with no error after two 10ms resubmissions, at attempt 3.
   */
  lemma MvccConflictsThenValid(txIDs: seq<string>)
    requires |txIDs| == 3
    ensures var outcomes := [Submitted(txIDs[0], Notified(MVCC_READ_CONFLICT, None)),
                             Submitted(txIDs[1], Notified(MVCC_READ_CONFLICT, None)),
                             Submitted(txIDs[2], Notified(VALID, None))];
      var c := Run(Initial(3, 10_000_000), outcomes, AlwaysAccepts(3));
      c.events == [Resubmit(10_000_000, true), Resubmit(10_000_000, true), Callback(None)] &&
      c.final.attempt == 3 && c.final.txID == txIDs[2] && TotalDelay(c.events) == 20_000_000
  {
    var outcomes := [Submitted(txIDs[0], Notified(MVCC_READ_CONFLICT, None)),
                     Submitted(txIDs[1], Notified(MVCC_READ_CONFLICT, None)),
                     Submitted(txIDs[2], Notified(VALID, None))];
    RetriesThenCommits(Initial(3, 10_000_000), outcomes);
    ResubmitsDelay(10_000_000, 2, Callback(None));
    assert Resubmits(10_000_000, 2) == [Resubmit(10_000_000, true), Resubmit(10_000_000, true)];
  }

  /**
   * The object-level view of the same scenario: three calls of Invoke on a
   * task created by New with maxAttempts = 3.
   */
  method MvccConflictsThenValidOnTask() returns (attempts: int, lastErr: Option<InvokeError>)
    ensures attempts == 3
    ensures lastErr == Some(InvokeError(TransientError, CommitRejected("tx2", MVCC_READ_CONFLICT, None)))
  {
    var t := new Task.New("task-1", "example_cc", ArgStruct("move", ["a", "b", "1"]), 3, 10_000_000, false);
    t.Invoke(Submitted("tx1", Notified(MVCC_READ_CONFLICT, None)), true);
    t.Invoke(Submitted("tx2", Notified(MVCC_READ_CONFLICT, None)), true);
    t.Invoke(Submitted("tx3", Notified(VALID, None)), true);
    assert t.events == [Resubmit(10_000_000, true), Resubmit(10_000_000, true), Callback(None)];
    attempts := t.Attempts();
    lastErr := t.LastError();
  }

  /** maxAttempts = 1 and the single attempt times out: one TimeoutOnCommit callback. */
  method SingleTimeoutOnTask(txID: string) returns (attempts: int, lastErr: Option<InvokeError>)
    ensures attempts == 1
    ensures lastErr == Some(InvokeError(TimeoutOnCommit, CommitTimedOut(txID)))
  {
    var t := new Task.New("task-2", "example_cc", ArgStruct("move", []), 1, 0, false);
    t.Invoke(Submitted(txID, TimedOut), true);
    assert t.events == [Callback(Some(InvokeError(TimeoutOnCommit, CommitTimedOut(txID))))];
    attempts := t.Attempts();
    lastErr := t.LastError();
  }
}
