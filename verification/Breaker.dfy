/** The per-agent circuit breaker: atomic steps under one mutex, in any interleaving. */
module Breaker {

  datatype Circuit = Closed | Open | HalfOpen

  // failures counts while closed; openedAt is when the circuit last opened.
  datatype Entry = Entry(circuit: Circuit, failures: nat, openedAt: int)

  datatype Policy = Policy(threshold: nat, openFor: int)

  /** One critical section of the breaker. Admit is the part of allow before its probe;
      ProbeFailed the part after a failed probe. A successful probe records a success. */
  datatype Event =
    | Admit(name: string, a2a: bool, now: int)
    | ProbeFailed(name: string, now: int)
    | Record(name: string, ok: bool, now: int)

  datatype Decision = Proceed | Reject | Probe

  type Entries = map<string, Entry>

  const FRESH := Entry(Closed, 0, 0)

  function Get(entries: Entries, name: string): Entry {
    if name in entries then entries[name] else FRESH
  }

  function Decide(policy: Policy, e: Entry, a2a: bool, now: int): Decision {
    match e.circuit
    case Closed => Proceed
    case HalfOpen => Proceed
    case Open => if now - e.openedAt < policy.openFor then Reject else if a2a then Probe else Proceed
  }

  // What one event does to the entry it names.
  function Change(policy: Policy, e: Entry, ev: Event): Entry {
    match ev
    case Admit(_, _, now) =>
      if e.circuit == Open && now - e.openedAt >= policy.openFor then e.(circuit := HalfOpen) else e
    case ProbeFailed(_, now) => e.(circuit := Open, openedAt := now)
    case Record(_, true, _) => e.(circuit := Closed, failures := 0)
    case Record(_, false, now) =>
      (match e.circuit
       case Closed =>
         var failed := e.(failures := e.failures + 1);
         if failed.failures >= policy.threshold then failed.(circuit := Open, openedAt := now) else failed
       case HalfOpen => e.(circuit := Open, openedAt := now)
       case Open => e)
  }

  function Step(policy: Policy, entries: Entries, ev: Event): Entries {
    entries[ev.name := Change(policy, Get(entries, ev.name), ev)]
  }

  function Run(policy: Policy, entries: Entries, events: seq<Event>): Entries {
    if events == [] then entries
    else Step(policy, Run(policy, entries, events[..|events| - 1]), events[|events| - 1])
  }

  // ------------------------------------------------------------ properties

  /** Steps on one agent never change another's entry. */
  lemma {:induction false} OthersUntouched(policy: Policy, entries: Entries, events: seq<Event>, name: string)
    requires forall i | 0 <= i < |events| :: events[i].name != name
    ensures Get(Run(policy, entries, events), name) == Get(entries, name)
  {
    if events != [] {
      var init := events[..|events| - 1];
      assert forall i | 0 <= i < |init| :: init[i] == events[i];
      OthersUntouched(policy, entries, init, name);
      assert events[|events| - 1].name != name;
    }
  }

  predicate Success(ev: Event, name: string) {
    ev.Record? && ev.name == name && ev.ok
  }

  // Failing outcomes recorded for name since its last success.
  function FailuresSince(events: seq<Event>, name: string): nat {
    if events == [] then 0
    else
      var ev := events[|events| - 1];
      if Success(ev, name) then 0
      else FailuresSince(events[..|events| - 1], name) + if ev.Record? && ev.name == name then 1 else 0
  }

  /** In every interleaving, while the circuit is closed its count is exactly the failures
      recorded since the last success, and below the threshold. */
  lemma {:induction false} ClosedCountsFailures(policy: Policy, events: seq<Event>, name: string)
    requires policy.threshold >= 1
    ensures var e := Get(Run(policy, map[], events), name);
            e.circuit == Closed ==> e.failures == FailuresSince(events, name) && e.failures < policy.threshold
  {
    if events != [] {
      ClosedCountsFailures(policy, events[..|events| - 1], name);
    }
  }

  /** A closed circuit opens on a recorded failure exactly when that failure is the
      threshold-th in a row. */
  lemma {:induction false} TripsExactlyAtThreshold(policy: Policy, events: seq<Event>, name: string, now: int)
    requires policy.threshold >= 1
    requires Get(Run(policy, map[], events), name).circuit == Closed
    ensures var more := events + [Record(name, false, now)];
            var e := Get(Run(policy, map[], more), name);
            && (e.circuit == Open <==> FailuresSince(more, name) == policy.threshold)
            && (e.circuit == Open ==> e.openedAt == now)
            && e.circuit != HalfOpen
  {
    var more := events + [Record(name, false, now)];
    assert more[..|more| - 1] == events;
    ClosedCountsFailures(policy, events, name);
  }

  // No success for name, no time before since, no Admit of name at or after the cool-down.
  predicate CoolingDown(events: seq<Event>, name: string, since: int, until: int) {
    forall i | 0 <= i < |events| ::
      events[i].name == name ==>
        && !Success(events[i], name) && since <= events[i].now
        && (events[i].Admit? ==> events[i].now < until)
  }

  /** An open circuit with no success recorded stays open, and rejects every caller, until
      openFor has passed since it opened. */
  lemma {:induction false} OpenRejectsUntilCooled(policy: Policy, entries: Entries, events: seq<Event>,
                                                  name: string, a2a: bool, now: int)
    requires Get(entries, name).circuit == Open
    requires var since := Get(entries, name).openedAt;
             CoolingDown(events, name, since, since + policy.openFor) && since <= now < since + policy.openFor
    ensures var e := Get(Run(policy, entries, events), name);
            && e.circuit == Open && e.openedAt >= Get(entries, name).openedAt
            && Decide(policy, e, a2a, now) == Reject
  {
    if events != [] {
      var n := |events| - 1;
      var init := events[..n];
      var since := Get(entries, name).openedAt;
      assert forall i | 0 <= i < n :: init[i] == events[i];
      OpenRejectsUntilCooled(policy, entries, init, name, a2a, now);
      var ev := events[n];
      if ev.name == name && ev.Admit? {
        assert Decide(policy, Get(Run(policy, entries, init), name), a2a, ev.now) == Reject;
      }
    }
  }

  // No outcome and no failed probe of name.
  predicate Undecided(events: seq<Event>, name: string) {
    forall i | 0 <= i < |events| :: events[i].name == name ==> events[i].Admit?
  }

  lemma {:induction false} HalfOpenWaits(policy: Policy, entries: Entries, events: seq<Event>, name: string)
    requires Get(entries, name).circuit == HalfOpen && Undecided(events, name)
    ensures Get(Run(policy, entries, events), name) == Get(entries, name)
  {
    if events != [] {
      var init := events[..|events| - 1];
      assert forall i | 0 <= i < |init| :: init[i] == events[i];
      HalfOpenWaits(policy, entries, init, name);
      assert events[|events| - 1].name == name ==> events[|events| - 1].Admit?;
    }
  }

  lemma {:induction false} RunOfConcat(policy: Policy, entries: Entries, a: seq<Event>, b: seq<Event>)
    ensures Run(policy, entries, a + b) == Run(policy, Run(policy, entries, a), b)
  {
    if b == [] {
      assert a + b == a;
    } else {
      RunOfConcat(policy, entries, a, b[..|b| - 1]);
      assert (a + b)[..|a + b| - 1] == a + b[..|b| - 1];
    }
  }

  /** After the cool-down the next caller gets through, and so does every other one until an
      outcome is recorded, whatever happens in between. The first success closes the circuit
      with a clean count; a failure opens it again from that moment. */
  lemma {:induction false} RecoveryAfterCooldown(policy: Policy, entries: Entries, between: seq<Event>, name: string,
                                                 a2a: bool, now: int, later: int, ok: bool)
    requires Get(entries, name).circuit == Open && now - Get(entries, name).openedAt >= policy.openFor
    requires Undecided(between, name)
    ensures Decide(policy, Get(entries, name), a2a, now) == if a2a then Probe else Proceed
    ensures var e := Get(Run(policy, entries, [Admit(name, a2a, now)] + between), name);
            forall a2a', t :: Decide(policy, e, a2a', t) == Proceed
    ensures var e := Get(Run(policy, entries, [Admit(name, a2a, now)] + between + [Record(name, ok, later)]), name);
            if ok then e.circuit == Closed && e.failures == 0 else e.circuit == Open && e.openedAt == later
  {
    var admit, record := [Admit(name, a2a, now)], [Record(name, ok, later)];
    assert admit[..0] == [] && record[..0] == [];
    assert Run(policy, entries, admit) == Step(policy, entries, admit[0]);
    RunOfConcat(policy, entries, admit, between);
    HalfOpenWaits(policy, Run(policy, entries, admit), between, name);
    RunOfConcat(policy, entries, admit + between, record);
  }

  /** A failed probe opens the circuit again from that moment, whoever was let through in
      between: every caller is rejected until the cool-down is over once more. */
  lemma {:induction false} FailedProbeReopens(policy: Policy, entries: Entries, between: seq<Event>, name: string,
                                              now: int, t: int, u: int, a2a: bool)
    requires Get(entries, name).circuit == Open && now - Get(entries, name).openedAt >= policy.openFor
    requires Undecided(between, name) && t <= u < t + policy.openFor
    ensures var e := Get(Run(policy, entries, [Admit(name, true, now)] + between + [ProbeFailed(name, t)]), name);
            e.circuit == Open && e.openedAt == t && Decide(policy, e, a2a, u) == Reject
  {
    var admit, failed := [Admit(name, true, now)], [ProbeFailed(name, t)];
    assert admit[..0] == [] && failed[..0] == [];
    assert Run(policy, entries, admit) == Step(policy, entries, admit[0]);
    RunOfConcat(policy, entries, admit, between);
    HalfOpenWaits(policy, Run(policy, entries, admit), between, name);
    RunOfConcat(policy, entries, admit + between, failed);
  }

  /** In any state a success closes the circuit with a clean count; a failure while open is
      stale and changes nothing; one while half-open opens again; and only the count changes
      below the threshold. */
  lemma {:induction false} OutcomesExactly(policy: Policy, entries: Entries, name: string, now: int)
    ensures var e, f := Get(entries, name), Get(Run(policy, entries, [Record(name, true, now)]), name);
            f.circuit == Closed && f.failures == 0 && f.openedAt == e.openedAt
    ensures var e, f := Get(entries, name), Get(Run(policy, entries, [Record(name, false, now)]), name);
            && (e.circuit == Open ==> f == e)
            && (e.circuit == HalfOpen ==> f.circuit == Open && f.openedAt == now && f.failures == e.failures)
            && (e.circuit == Closed ==> f.failures == e.failures + 1)
            && (e.circuit == Closed && e.failures + 1 < policy.threshold ==> f.circuit == Closed)
  {
    var good, bad := [Record(name, true, now)], [Record(name, false, now)];
    assert good[..0] == [] && bad[..0] == [];
    assert Run(policy, entries, []) == entries;
  }

  /** Asking for admission changes nothing, except that an open circuit past its cool-down
      becomes half-open. */
  lemma {:induction false} AdmissionExactly(policy: Policy, entries: Entries, name: string, a2a: bool, now: int)
    ensures var e, f := Get(entries, name), Get(Run(policy, entries, [Admit(name, a2a, now)]), name);
            f == if e.circuit == Open && now >= e.openedAt + policy.openFor then e.(circuit := HalfOpen) else e
  {
    var admit := [Admit(name, a2a, now)];
    assert admit[..0] == [] && Run(policy, entries, []) == entries;
  }

  // ----------------------------------------------------------------- class

  class AgentBreakerSet {
    const policy: Policy
    var entries: Entries
    ghost var events: seq<Event>

    ghost predicate Valid()
      reads this
    {
      policy.threshold >= 1 && entries == Run(policy, map[], events)
    }

    constructor (threshold: int, openFor: int)
      ensures Valid() && entries == map[] && events == []
      ensures policy == Policy(if threshold < 1 then 1 else threshold, openFor)
    {
      policy := Policy(if threshold < 1 then 1 else threshold, openFor);
      entries, events := map[], [];
    }

    /** allow up to its probe. */
    method Allow(name: string, a2a: bool, now: int) returns (decision: Decision)
      requires Valid()
      modifies this
      ensures Valid() && events == old(events) + [Admit(name, a2a, now)]
      ensures decision == Decide(policy, Get(old(entries), name), a2a, now)
    {
      Remember(Admit(name, a2a, now));
      if name !in entries {
        entries := entries[name := FRESH];
        return Proceed;
      }
      var entry := entries[name];
      if entry.circuit == Closed {
        return Proceed;
      }
      if entry.circuit == Open {
        if now - entry.openedAt < policy.openFor {
          return Reject;
        }
        entries := entries[name := entry.(circuit := HalfOpen)];
        return if a2a then Probe else Proceed;
      }
      return Proceed;
    }

    /** allow after its probe. */
    method FinishProbe(name: string, ok: bool, now: int) returns (decision: Decision)
      requires Valid()
      modifies this
      ensures Valid() && decision == if ok then Proceed else Reject
      ensures var e := Get(entries, name);
              if ok then e.circuit == Closed && e.failures == 0 else e.circuit == Open && e.openedAt == now
      ensures events == old(events) + [if ok then Record(name, true, now) else ProbeFailed(name, now)]
    {
      if ok {
        RecordOutcome(name, true, now);
        return Proceed;
      }
      Remember(ProbeFailed(name, now));
      entries := entries[name := Get(entries, name).(circuit := Open, openedAt := now)];
      return Reject;
    }

    method RecordOutcome(name: string, ok: bool, now: int)
      requires Valid()
      modifies this
      ensures Valid() && events == old(events) + [Record(name, ok, now)]
    {
      Remember(Record(name, ok, now));
      var entry := if name in entries then entries[name] else FRESH;
      if ok {
        entry := entry.(circuit := Closed, failures := 0);
      } else {
        match entry.circuit {
          case Closed =>
            entry := entry.(failures := entry.failures + 1);
            if entry.failures >= policy.threshold {
              entry := entry.(circuit := Open, openedAt := now);
            }
          case HalfOpen =>
            entry := entry.(circuit := Open, openedAt := now);
          case Open =>
        }
      }
      assert entry == Change(policy, Get(entries, name), Record(name, ok, now));
      entries := entries[name := entry];
    }

    ghost method Remember(ev: Event)
      modifies this`events
      ensures events == old(events) + [ev]
      ensures Run(policy, map[], events) == Step(policy, Run(policy, map[], old(events)), ev)
    {
      events := events + [ev];
      assert events[..|events| - 1] == old(events);
    }
  }
}
