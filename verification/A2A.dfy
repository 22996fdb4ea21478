/** Delegating a task to a remote agent: bounded retries, a fallback method name, polling to
    a terminal state, and one breaker outcome per delegation. */
module A2A {
  import opened Breaker
  import opened Wrappers

  // Retries after the first attempt; one per backoff delay.
  const RETRIES := 2

  datatype Task = Task(id: string, state: string)

  // The methods of the JSON-RPC interface that are called.
  datatype Method = MessageSend | TasksSend | TasksGet | TasksCancel

  // Nothing but calls of one method.
  predicate AllOf(calls: seq<Method>, rpc: Method) {
    forall i | 0 <= i < |calls| :: calls[i] == rpc
  }

  /** How one JSON-RPC call ended. */
  datatype Reply =
    | Answer(task: Task)
    | DialError             // the connection was never established
    | NetError              // any other transport failure
    | HttpStatus(code: int)
    | MethodNotFound
    | OtherError

  // creates: the remote agent started a task; gaveUp: the context ended during the backoff.
  datatype Exchange = Exchange(reply: Reply, creates: bool, gaveUp: bool)

  // What the network will do with each call, in order.
  type Wire = nat -> Exchange

  predicate DialOnly(r: Reply) {
    r.DialError?
  }

  /** isA2ARetryableReadError */
  predicate RetryableRead(r: Reply) {
    r.DialError? || r.NetError? || (r.HttpStatus? && r.code >= 500)
  }

  predicate Terminal(state: string) {
    state == "completed" || state == "failed" || state == "canceled" || state == "rejected"
  }

  // -------------------------------------------------------------- retrying

  // The call that ends a2aCallRetried, when it starts at call start.
  function LastCall(wire: Wire, start: nat, attempt: nat, retryable: Reply -> bool): (last: nat)
    requires attempt <= RETRIES
    ensures start <= last <= start + RETRIES - attempt
    decreases RETRIES - attempt
  {
    var x := wire(start);
    if x.reply.Answer? || attempt >= RETRIES || !retryable(x.reply) || x.gaveUp then start
    else LastCall(wire, start + 1, attempt + 1, retryable)
  }

  /** Every call before the last failed in a way the policy allows to retry, and the last
      one ends it for a reason: an answer, a failure not to retry, no attempt or no time left. */
  lemma {:induction false} RetriesExactly(wire: Wire, start: nat, attempt: nat, retryable: Reply -> bool)
    requires attempt <= RETRIES
    ensures var last := LastCall(wire, start, attempt, retryable);
            && (forall i | start <= i < last :: !wire(i).reply.Answer? && retryable(wire(i).reply) && !wire(i).gaveUp)
            && (|| wire(last).reply.Answer? || !retryable(wire(last).reply) || wire(last).gaveUp
                || last == start + RETRIES - attempt)
    decreases RETRIES - attempt
  {
    if LastCall(wire, start, attempt, retryable) > start {
      RetriesExactly(wire, start + 1, attempt + 1, retryable);
    }
  }

  /** Reads stop at once on an answer, on an error the agent itself reports and on an HTTP
      status below 500; on any other failure they are tried again, three times in all. */
  lemma {:induction false} ReadsRetriedIff(wire: Wire, start: nat)
    ensures var r := wire(start).reply;
            LastCall(wire, start, 0, RetryableRead) == start <==>
            || r.Answer? || r.MethodNotFound? || r.OtherError? || (r.HttpStatus? && r.code < 500)
            || wire(start).gaveUp
    ensures (forall i | start <= i < start + 2 :: wire(i).reply.NetError? && !wire(i).gaveUp) ==>
              LastCall(wire, start, 0, RetryableRead) == start + 2
  {
    RetriesExactly(wire, start, 0, RetryableRead);
    if forall i | start <= i < start + 2 :: wire(i).reply.NetError? && !wire(i).gaveUp {
      assert wire(start).reply.NetError? && wire(start + 1).reply.NetError?;
      assert LastCall(wire, start, 0, RetryableRead) == LastCall(wire, start + 1, 1, RetryableRead);
      assert LastCall(wire, start + 1, 1, RetryableRead) == LastCall(wire, start + 2, 2, RetryableRead);
    }
  }

  /** Submits are tried again only after a dial error, three times in all. */
  lemma {:induction false} SubmitsRetriedIff(wire: Wire, start: nat)
    ensures LastCall(wire, start, 0, DialOnly) == start <==> !wire(start).reply.DialError? || wire(start).gaveUp
    ensures (forall i | start <= i < start + 2 :: wire(i).reply.DialError? && !wire(i).gaveUp) ==>
              LastCall(wire, start, 0, DialOnly) == start + 2
  {
    if forall i | start <= i < start + 2 :: wire(i).reply.DialError? && !wire(i).gaveUp {
      assert wire(start).reply.DialError? && wire(start + 1).reply.DialError?;
      assert LastCall(wire, start, 0, DialOnly) == LastCall(wire, start + 1, 1, DialOnly);
      assert LastCall(wire, start + 1, 1, DialOnly) == LastCall(wire, start + 2, 2, DialOnly);
    }
  }

  /** a2aCallRetried: at most three calls, all of the given method; calls lists what was called. */
  method CallRetried(wire: Wire, start: nat, rpc: Method, retryable: Reply -> bool)
    returns (reply: Reply, next: nat, calls: seq<Method>)
    ensures next == LastCall(wire, start, 0, retryable) + 1 && reply == wire(next - 1).reply
    ensures |calls| == next - start && AllOf(calls, rpc)
  {
    var attempt := 0;
    next, calls := start, [];
    while true
      invariant 0 <= attempt <= RETRIES && next == start + attempt
      invariant |calls| == next - start && AllOf(calls, rpc)
      invariant LastCall(wire, next, attempt, retryable) == LastCall(wire, start, 0, retryable)
      decreases RETRIES - attempt
    {
      var x := wire(next);
      next, calls := next + 1, calls + [rpc];
      if x.reply.Answer? {
        return x.reply, next, calls;
      }
      if attempt >= RETRIES || !retryable(x.reply) {
        return x.reply, next, calls;
      }
      if x.gaveUp {
        return x.reply, next, calls;
      }
      attempt := attempt + 1;
    }
  }

  // ------------------------------------------------------------ submitting

  // How many remote tasks the calls from lo up to hi created.
  function Created(wire: Wire, lo: nat, hi: nat): nat
    requires lo <= hi
  {
    if lo == hi then 0 else Created(wire, lo, hi - 1) + if wire(hi - 1).creates then 1 else 0
  }

  /** A dial error means not delivered; method-not-found means not executed. */
  ghost predicate Honest(wire: Wire) {
    forall i: nat :: wire(i).creates ==> !wire(i).reply.DialError? && !wire(i).reply.MethodNotFound?
  }

  lemma {:induction false} CreatedSplit(wire: Wire, lo: nat, mid: nat, hi: nat)
    requires lo <= mid <= hi
    ensures Created(wire, lo, hi) == Created(wire, lo, mid) + Created(wire, mid, hi)
  {
    if mid < hi {
      CreatedSplit(wire, lo, mid, hi - 1);
    }
  }

  lemma {:induction false} CreatedNone(wire: Wire, lo: nat, hi: nat)
    requires lo <= hi && forall i | lo <= i < hi :: !wire(i).creates
    ensures Created(wire, lo, hi) == 0
  {
    if lo < hi {
      CreatedNone(wire, lo, hi - 1);
    }
  }

  // A retried submit creates at most one task, and only by its last call.
  lemma {:induction false} RetriedCreatesOnce(wire: Wire, start: nat)
    requires Honest(wire)
    ensures var last := LastCall(wire, start, 0, DialOnly);
            Created(wire, start, last + 1) == if wire(last).creates then 1 else 0
  {
    var last := LastCall(wire, start, 0, DialOnly);
    RetriesExactly(wire, start, 0, DialOnly);
    forall i | start <= i < last
      ensures !wire(i).creates
    {
      assert wire(i).reply.DialError?;
    }
    CreatedNone(wire, start, last);
  }

  // One past the last call of a submit that has this many method names left to try; the next
  // name is tried only when the agent does not know the one before.
  function SubmitEnd(wire: Wire, start: nat, names: nat): (end: nat)
    ensures end >= start
    decreases names
  {
    if names == 0 then start
    else
      var last := LastCall(wire, start, 0, DialOnly);
      if wire(last).reply.MethodNotFound? then SubmitEnd(wire, last + 1, names - 1) else last + 1
  }

  /** Whatever the network does, a submit creates at most one remote task, and none when it
      ends with every method unknown. */
  lemma {:induction false} SubmitCreatesOnce(wire: Wire, start: nat, names: nat)
    requires Honest(wire)
    ensures Created(wire, start, SubmitEnd(wire, start, names)) <= 1
    decreases names
  {
    if names > 0 {
      var next := LastCall(wire, start, 0, DialOnly) + 1;
      RetriedCreatesOnce(wire, start);
      SubmitEndNext(wire, start, names);
      if wire(next - 1).reply.MethodNotFound? {
        SubmitCreatesOnce(wire, next, names - 1);
        CreatedSplit(wire, start, next, SubmitEnd(wire, next, names - 1));
      }
    }
  }

  lemma {:induction false} SubmitEndNext(wire: Wire, start: nat, names: nat)
    requires names > 0
    ensures var next := LastCall(wire, start, 0, DialOnly) + 1;
            SubmitEnd(wire, start, names) ==
            if wire(next - 1).reply.MethodNotFound? then SubmitEnd(wire, next, names - 1) else next
  {
  }

  /** A submit makes at least one call and at most three for each method name. */
  lemma {:induction false} SubmitIsBounded(wire: Wire, start: nat, names: nat)
    ensures SubmitEnd(wire, start, names) <= start + 3 * names
    ensures names > 0 ==> SubmitEnd(wire, start, names) > start
    decreases names
  {
    if names > 0 {
      var last := LastCall(wire, start, 0, DialOnly);
      if wire(last).reply.MethodNotFound? {
        SubmitIsBounded(wire, last + 1, names - 1);
      }
    }
  }

  // message/send and tasks/send.
  const METHODS := 2

  // Submitting under one name, with this many names left to try.
  method SubmitAs(wire: Wire, start: nat, rpc: Method, ghost names: nat)
    returns (reply: Reply, next: nat, calls: seq<Method>)
    requires names > 0
    ensures next == LastCall(wire, start, 0, DialOnly) + 1 && reply == wire(next - 1).reply
    ensures SubmitEnd(wire, start, names) == if reply.MethodNotFound? then SubmitEnd(wire, next, names - 1) else next
    ensures |calls| == next - start && AllOf(calls, rpc)
  {
    reply, next, calls := CallRetried(wire, start, rpc, DialOnly);
  }

  /** A submit is one retried call, and a second one exactly when the first name is unknown. */
  lemma {:induction false} EndOfTwo(wire: Wire, start: nat)
    ensures var last := LastCall(wire, start, 0, DialOnly);
            SubmitEnd(wire, start, METHODS) ==
            if wire(last).reply.MethodNotFound? then LastCall(wire, last + 1, 0, DialOnly) + 1 else last + 1
  {
    var next := LastCall(wire, start, 0, DialOnly) + 1;
    SubmitEndNext(wire, start, 2);
    SubmitEndNext(wire, next, 1);
  }

  /** a2aSendTask: message/send first, and tasks/send exactly when the agent does not know that
      one; the task answered, which must have an id. */
  method SendTask(wire: Wire, start: nat) returns (task: Result<Task>, next: nat, tried: seq<Method>)
    ensures start < next && next == SubmitEnd(wire, start, METHODS)
    ensures task.Ok? <==> wire(next - 1).reply.Answer? && wire(next - 1).reply.task.id != ""
    ensures task.Ok? ==> task.value == wire(next - 1).reply.task
    ensures tried == if wire(LastCall(wire, start, 0, DialOnly)).reply.MethodNotFound? then [MessageSend, TasksSend]
                     else [MessageSend]
  {
    next, tried := start, [];
    var left := METHODS;
    ghost var end := SubmitEnd(wire, start, METHODS);
    ghost var unknown := wire(LastCall(wire, start, 0, DialOnly)).reply.MethodNotFound?;
    while left > 0
      invariant 0 <= left <= METHODS && (if left == METHODS then next == start else next > start && unknown)
      invariant SubmitEnd(wire, next, left) == end
      invariant left < METHODS ==> wire(next - 1).reply.MethodNotFound?
      invariant tried == if left == 2 then [] else if left == 1 then [MessageSend] else [MessageSend, TasksSend]
    {
      var rpc := if left == METHODS then MessageSend else TasksSend;
      var reply, calls;
      reply, next, calls := SubmitAs(wire, next, rpc, left);
      left, tried := left - 1, tried + [rpc];
      if reply.Answer? {
        if reply.task.id == "" {
          return Err, next, tried;
        }
        return Ok(reply.task), next, tried;
      }
      if !reply.MethodNotFound? {
        return Err, next, tried;
      }
    }
    return Err, next, tried;
  }

  // --------------------------------------------------------------- polling

  // The last known task, whether it is terminal, and the next call. polls is how many poll
  // intervals pass before the deadline; a poll that fails for good ends the wait.
  function Awaited(wire: Wire, start: nat, task: Task, polls: nat): (r: Wait)
    ensures start <= r.next
    decreases polls
  {
    if Terminal(task.state) || polls == 0 then Wait(task, start, polls)
    else
      var last := LastCall(wire, start, 0, RetryableRead);
      var reply := wire(last).reply;
      if reply.Answer? then Awaited(wire, last + 1, Updated(task, reply.task), polls - 1)
      else Wait(task, last + 1, polls - 1)
  }

  // The last known task, the next call and the polls not used.
  datatype Wait = Wait(task: Task, next: nat, left: nat)

  /** The wait makes at most three calls a poll, never loses the task's id, and gives up on a
      task that is not terminal only at the deadline or after a poll that failed for good. */
  lemma {:induction false} AwaitedBounded(wire: Wire, start: nat, task: Task, polls: nat)
    ensures Awaited(wire, start, task, polls).next <= start + 3 * polls
    ensures task.id != "" ==> Awaited(wire, start, task, polls).task.id != ""
    ensures EndsForReason(wire, start, Awaited(wire, start, task, polls))
  {
    AwaitedCalls(wire, start, task, polls);
    AwaitedReason(wire, start, task, polls);
  }

  lemma {:induction false} AwaitedCalls(wire: Wire, start: nat, task: Task, polls: nat)
    ensures Awaited(wire, start, task, polls).next <= start + 3 * polls
    ensures task.id != "" ==> Awaited(wire, start, task, polls).task.id != ""
    decreases polls
  {
    if Terminal(task.state) || polls == 0 {
      AwaitedEnd(wire, start, task, polls);
    } else {
      var last := LastCall(wire, start, 0, RetryableRead);
      AwaitedNext(wire, start, task, polls, last);
      if wire(last).reply.Answer? {
        AwaitedCalls(wire, last + 1, Updated(task, wire(last).reply.task), polls - 1);
      }
    }
  }

  // The wait ended with a terminal task, at the deadline, or after a poll that failed.
  predicate EndsForReason(wire: Wire, start: nat, r: Wait) {
    Terminal(r.task.state) || r.left == 0 || (r.next > start && !wire(r.next - 1).reply.Answer?)
  }

  lemma {:induction false} AwaitedReason(wire: Wire, start: nat, task: Task, polls: nat)
    ensures EndsForReason(wire, start, Awaited(wire, start, task, polls))
    decreases polls
  {
    if Terminal(task.state) || polls == 0 {
      AwaitedEnd(wire, start, task, polls);
    } else {
      var last := LastCall(wire, start, 0, RetryableRead);
      AwaitedNext(wire, start, task, polls, last);
      if wire(last).reply.Answer? {
        var updated := Updated(task, wire(last).reply.task);
        AwaitedReason(wire, last + 1, updated, polls - 1);
        ReasonFromEarlier(wire, start, last + 1, Awaited(wire, last + 1, updated, polls - 1));
      }
    }
  }

  lemma {:induction false} ReasonFromEarlier(wire: Wire, start: nat, later: nat, r: Wait)
    requires start <= later && EndsForReason(wire, later, r)
    ensures EndsForReason(wire, start, r)
  {
  }

  lemma {:induction false} AwaitedNext(wire: Wire, start: nat, task: Task, polls: nat, last: nat)
    requires !Terminal(task.state) && polls > 0 && last == LastCall(wire, start, 0, RetryableRead)
    ensures Awaited(wire, start, task, polls) ==
            if wire(last).reply.Answer? then Awaited(wire, last + 1, Updated(task, wire(last).reply.task), polls - 1)
            else Wait(task, last + 1, polls - 1)
  {
  }

  /** A task in one of the four final states needs no poll; any other is polled while there is
      time. */
  lemma {:induction false} FinalStates(wire: Wire, start: nat, task: Task, polls: nat)
    requires polls > 0
    ensures Awaited(wire, start, task, polls).next == start <==>
            || task.state == "completed" || task.state == "failed"
            || task.state == "canceled" || task.state == "rejected"
  {
    if Terminal(task.state) {
      AwaitedEnd(wire, start, task, polls);
    } else {
      AwaitedNext(wire, start, task, polls, LastCall(wire, start, 0, RetryableRead));
    }
  }

  // An update without an id keeps the known one.
  function Updated(task: Task, updated: Task): Task {
    if updated.id == "" then updated.(id := task.id) else updated
  }

  // One poll: the updated task, or the old one when the poll failed for good.
  method PollTask(wire: Wire, start: nat, task: Task, ghost polls: nat)
    returns (updated: Task, ok: bool, next: nat, calls: seq<Method>)
    requires !Terminal(task.state) && polls > 0
    ensures start <= next && |calls| == next - start && AllOf(calls, TasksGet)
    ensures Awaited(wire, start, task, polls) ==
            if ok then Awaited(wire, next, updated, polls - 1) else Wait(task, next, polls - 1)
    ensures next == LastCall(wire, start, 0, RetryableRead) + 1 && (ok <==> wire(next - 1).reply.Answer?)
    ensures ok ==>
              var known := wire(next - 1).reply.task;
              updated.state == known.state && updated.id == if known.id == "" then task.id else known.id
  {
    var reply;
    reply, next, calls := CallRetried(wire, start, TasksGet, RetryableRead);
    ok := reply.Answer?;
    updated := if ok then Updated(task, reply.task) else task;
  }

  lemma {:induction false} AwaitedEnd(wire: Wire, start: nat, task: Task, polls: nat)
    ensures Terminal(task.state) || polls == 0 ==> Awaited(wire, start, task, polls) == Wait(task, start, polls)
  {
  }

  /** a2aAwaitTerminal: the last known task is returned with an error too. */
  method AwaitTerminal(wire: Wire, start: nat, first: Task, polls: nat) returns (task: Task, ok: bool, next: nat)
    ensures var r := Awaited(wire, start, first, polls);
            task == r.task && next == r.next && (ok <==> Terminal(task.state))
  {
    task, next := first, start;
    var left := polls;
    ghost var r := Awaited(wire, start, first, polls);
    while true
      invariant 0 <= left <= polls
      invariant Awaited(wire, next, task, left) == r
      decreases left
    {
      AwaitedEnd(wire, next, task, left);
      if Terminal(task.state) {
        return task, true, next;
      }
      if left == 0 {
        return task, false, next;
      }
      var updated, calls;
      updated, ok, next, calls := PollTask(wire, next, task, left);
      left := left - 1;
      if !ok {
        return task, false, next;
      }
      task := updated;
    }
  }

  // ------------------------------------------------------------ delegating

  // What happens around the calls: the probe of a half-open circuit and the audit write.
  datatype Setting = Setting(probeOk: bool, auditOk: bool, polls: nat, now: int, later: int)

  datatype Delegation = Refused | Completed(task: Task) | Failed

  // The breaker events of one delegation that was let through.
  function Admission(name: string, d: Decision, s: Setting): seq<Event> {
    [Admit(name, true, s.now)]
    + if d != Probe then [] else if s.probeOk then [Record(name, true, s.now)] else [ProbeFailed(name, s.now)]
  }

  // The task completed: it was submitted, got an id, and was seen in that state in time.
  predicate Completes(wire: Wire, sent: nat, polls: nat) {
    && sent > 0 && wire(sent - 1).reply.Answer? && wire(sent - 1).reply.task.id != ""
    && Awaited(wire, sent, wire(sent - 1).reply.task, polls).task.state == "completed"
  }

  lemma {:induction false} SubmitFacts(wire: Wire, start: nat)
    ensures start < SubmitEnd(wire, start, METHODS) <= start + 6
    ensures Honest(wire) ==> Created(wire, start, SubmitEnd(wire, start, METHODS)) <= 1
  {
    SubmitIsBounded(wire, start, METHODS);
    if Honest(wire) {
      SubmitCreatesOnce(wire, start, METHODS);
    }
  }

  /** Waits for a submitted task. One that is not seen to end is then asked to be cancelled,
      with one to three calls of tasks/cancel and nothing else; one that ends is not. */
  method Conclude(wire: Wire, start: nat, first: Task, polls: nat)
    returns (task: Task, ok: bool, next: nat, cancels: seq<Method>)
    requires first.id != ""
    ensures var w := Awaited(wire, start, first, polls);
            && task == w.task && (ok <==> Terminal(task.state))
            && next == w.next + |cancels| && AllOf(cancels, TasksCancel)
            && (if ok then cancels == [] else 1 <= |cancels| <= 3)
            && (!ok ==> next == LastCall(wire, w.next, 0, DialOnly) + 1)
  {
    task, ok, next := AwaitTerminal(wire, start, first, polls);
    AwaitedBounded(wire, start, first, polls);
    cancels := [];
    if !ok {
      if task.id != "" { // always, as the id is never lost
        var reply;
        reply, next, cancels := CallRetried(wire, next, TasksCancel, DialOnly);
      }
    }
  }

  // Everything one delegation sends: at most one remote task is created.
  method RunTask(wire: Wire, start: nat, polls: nat) returns (outcome: Delegation, next: nat, ghost sent: nat)
    ensures start < sent <= start + 6 && sent <= next && sent == SubmitEnd(wire, start, METHODS)
    ensures Honest(wire) ==> Created(wire, start, sent) <= 1
    ensures !outcome.Refused? && (outcome.Completed? <==> Completes(wire, sent, polls))
    ensures outcome.Completed? ==> outcome.task == Awaited(wire, sent, wire(sent - 1).reply.task, polls).task
  {
    var submitted, tried;
    submitted, next, tried := SendTask(wire, start);
    sent := next;
    SubmitFacts(wire, start);
    if submitted.Err? {
      return Failed, next, sent;
    }
    var task, ok, cancels;
    task, ok, next, cancels := Conclude(wire, next, submitted.value, polls);
    return if ok && task.state == "completed" then Completed(task) else Failed, next, sent;
  }

  /** SendMessage once let through: at most one remote task is created and exactly one
      outcome is recorded, a success exactly when the task completed. */
  method Dispatch(b: AgentBreakerSet, wire: Wire, start: nat, name: string, s: Setting)
    returns (outcome: Delegation, next: nat, ghost sent: nat)
    requires b.Valid()
    modifies b
    ensures b.Valid() && b.events == old(b.events) + [Record(name, outcome.Completed?, s.later)]
    ensures start < sent <= start + 6 && sent <= next && sent == SubmitEnd(wire, start, METHODS)
    ensures Honest(wire) ==> Created(wire, start, sent) <= 1
    ensures !outcome.Refused? && (outcome.Completed? <==> Completes(wire, sent, s.polls))
  {
    outcome, next, sent := RunTask(wire, start, s.polls);
    b.RecordOutcome(name, outcome.Completed?, s.later);
  }

  /** SendMessage from the breaker on: a refused delegation makes no call and records no
      outcome; a dispatched one records exactly one. */
  method SendMessage(b: AgentBreakerSet, wire: Wire, start: nat, name: string, s: Setting)
    returns (outcome: Delegation, next: nat)
    requires b.Valid()
    modifies b
    ensures b.Valid()
    ensures var d := Decide(b.policy, Get(old(b.entries), name), true, s.now);
            var admitted := d == Proceed || (d == Probe && s.probeOk);
            && (outcome.Refused? <==> !admitted || !s.auditOk)
            && b.events == old(b.events) + Admission(name, d, s)
                           + if outcome.Refused? then [] else [Record(name, outcome.Completed?, s.later)]
    ensures outcome.Refused? <==> next == start
    ensures outcome.Completed? <==> !outcome.Refused? && Completes(wire, SubmitEnd(wire, start, METHODS), s.polls)
  {
    next := start;
    var decision := b.Allow(name, true, s.now);
    ghost var d := decision;
    if decision == Probe {
      decision := b.FinishProbe(name, s.probeOk, s.now);
    }
    assert b.events == old(b.events) + Admission(name, d, s);
    if decision == Reject || !s.auditOk {
      return Refused, next;
    }
    ghost var sent;
    outcome, next, sent := Dispatch(b, wire, start, name, s);
  }
}
