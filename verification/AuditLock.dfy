/** The cross-process lock: any number of processes interleave the steps of appending, and
    the log still equals a sequential run. The in-process mutex only removes interleavings. */
module AuditLock {
  import opened Wrappers
  import opened Text
  import opened AuditRecord
  import opened AuditKeys
  import opened AuditAppend
  import opened AuditRuns
  import opened TamperEvidence

  // Seconds after which a lock file may be taken for an orphan.
  const STALE := 30

  /** Where one process is in AppendAuditLog. */
  datatype Pc =
    | Idle
    | Waiting(a: Attempt)                   // wants the lock
    | SawStale(a: Attempt)                  // saw a stale lock, about to remove it
    | Entered(a: Attempt)                   // created the lock file
    | HaveLast(a: Attempt, prev: Bytes)     // read the last hash
    | Ready(a: Attempt, signed: Signed)     // resolved the key and signed
    | Leaving                               // about to remove the lock file
    | Crashed

  datatype Lock = Lock(owner: nat, since: nat)

  // done lists the appends that reached the file, in the order they did.
  datatype System = System(pcs: seq<Pc>, lock: Option<Lock>, log: Option<Bytes>, now: nat, done: seq<Attempt>)

  datatype Action =
    | Begin(i: nat, a: Attempt) | GiveUp(i: nat) | Acquire(i: nat)
    | Look(i: nat) | Reclaim(i: nat)
    | ReadLast(i: nat) | Resolve(i: nat) | Write(i: nat) | Release(i: nat)
    | Crash(i: nat) | Tick(d: nat)

  function Initial(n: nat): System {
    System(seq(n, i => Idle), None, None, 0, [])
  }

  predicate Enabled(s: System, act: Action) {
    act.Tick? || (act.i < |s.pcs| &&
      var pc := s.pcs[act.i];
      match act
      case Begin(_, a) => pc.Idle? && Draft(a).Ok?
      case GiveUp(_) => pc.Waiting?
      case Acquire(_) => pc.Waiting? && s.lock.None?
      case Look(_) => pc.Waiting? && s.lock.Some? && s.now > s.lock.value.since + STALE
      case Reclaim(_) => pc.SawStale?
      case ReadLast(_) => pc.Entered?
      case Resolve(_) => pc.HaveLast? && Draft(pc.a).Ok?
      case Write(_) => pc.Ready? // the signed record was encoded before
      case Release(_) => pc.Leaving?
      case _ => true)
  }

  function Moved(s: System, i: nat, pc: Pc): System
    requires i < |s.pcs|
  {
    s.(pcs := s.pcs[i := pc])
  }

  // Signed, or refused.
  function Resolved(s: System, i: nat, signed: Result<Signed>): System
    requires i < |s.pcs| && s.pcs[i].HaveLast?
  {
    Moved(s, i, if signed.Ok? then Ready(s.pcs[i].a, signed.value) else Leaving)
  }

  function Apply(p: Primitives, s: System, act: Action): System
    requires Enabled(s, act)
  {
    match act
    case Tick(d) => s.(now := s.now + d)
    case Begin(i, a) => Moved(s, i, Waiting(a))
    case GiveUp(i) => Moved(s, i, Idle)
    case Acquire(i) => Moved(s, i, Entered(s.pcs[i].a)).(lock := Some(Lock(i, s.now)))
    case Look(i) => Moved(s, i, SawStale(s.pcs[i].a))
    case Reclaim(i) => Moved(s, i, Waiting(s.pcs[i].a)).(lock := None)
    case ReadLast(i) =>
      (match LastHash(p, s.log)
       case Err => Moved(s, i, Leaving)
       case Ok(prev) => Moved(s, i, HaveLast(s.pcs[i].a, prev)))
    case Resolve(i) =>
      var pc := s.pcs[i];
      Resolved(s, i, SignAfter(p, s.log, pc.a, Draft(pc.a).value, pc.prev))
    case Write(i) =>
      var pc := s.pcs[i];
      if p.marshal(pc.signed.record).None? then Moved(s, i, Leaving)
      else Moved(s, i, Leaving).(log := Written(p, s.log, pc.signed.record), done := s.done + [pc.a])
    case Release(i) => Moved(s, i, Idle).(lock := None)
    case Crash(i) => Moved(s, i, Crashed)
  }

  // ------------------------------------------------------------------ runs

  // An action that is not enabled does nothing.
  function Next(p: Primitives, s: System, act: Action): System {
    if Enabled(s, act) then Apply(p, s, act) else s
  }

  function Exec(p: Primitives, n: nat, acts: seq<Action>): System {
    if acts == [] then Initial(n)
    else Next(p, Exec(p, n, acts[..|acts| - 1]), acts[|acts| - 1])
  }

  // Between creating the lock file and removing it, and alive.
  predicate Critical(pc: Pc) {
    pc.Entered? || pc.HaveLast? || pc.Ready? || pc.Leaving?
  }

  /** A reclaim is clean when the lock it removes belongs to no live holder. */
  predicate CleanStep(s: System, act: Action) {
    act.Reclaim? && Enabled(s, act) && s.lock.Some? && s.lock.value.owner < |s.pcs| ==>
      !Critical(s.pcs[s.lock.value.owner])
  }

  predicate Clean(p: Primitives, n: nat, acts: seq<Action>) {
    acts != [] ==>
      && Clean(p, n, acts[..|acts| - 1])
      && CleanStep(Exec(p, n, acts[..|acts| - 1]), acts[|acts| - 1])
  }

  /** At most one live process is between creating and removing the lock file. */
  predicate Exclusive(s: System) {
    forall i, j | 0 <= i < |s.pcs| && 0 <= j < |s.pcs| :: Critical(s.pcs[i]) && Critical(s.pcs[j]) ==> i == j
  }

  // What a process in its critical section knows is true of the log right now.
  ghost predicate Knows(p: Primitives, log: Option<Bytes>, pc: Pc) {
    match pc
    case Entered(a) => Draft(a).Ok?
    case Waiting(a) => Draft(a).Ok?
    case SawStale(a) => Draft(a).Ok?
    case HaveLast(a, prev) => Draft(a).Ok? && LastHash(p, log) == Ok(prev)
    case Ready(a, signed) => Append(p, log, a) == Ok(signed)
    case _ => true
  }

  ghost predicate Inv(p: Primitives, s: System) {
    && (forall i | 0 <= i < |s.pcs| :: Critical(s.pcs[i]) ==> s.lock.Some? && s.lock.value.owner == i)
    && (forall i | 0 <= i < |s.pcs| :: Knows(p, s.log, s.pcs[i]))
    && s.log == Run(p, s.done).log
    && |Run(p, s.done).written| == |s.done|
  }

  // Moving one process, into its critical section only if it was in it already.
  lemma {:induction false} MoveKeepsInv(p: Primitives, s: System, i: nat, pc: Pc)
    requires Inv(p, s) && i < |s.pcs| && Knows(p, s.log, pc) && (Critical(pc) ==> Critical(s.pcs[i]))
    ensures Inv(p, Moved(s, i, pc))
  {
  }

  // Taking the free lock, or giving up one that no other live process holds.
  lemma {:induction false} LockStepKeepsInv(p: Primitives, s: System, i: nat, pc: Pc, lock: Option<Lock>)
    requires Inv(p, s) && i < |s.pcs| && Knows(p, s.log, pc)
    requires forall j | 0 <= j < |s.pcs| :: Critical(s.pcs[j]) ==> j == i
    requires Critical(pc) ==> lock.Some? && lock.value.owner == i
    ensures Inv(p, Moved(s, i, pc).(lock := lock))
  {
  }

  lemma {:induction false} StepKeepsInv(p: Primitives, s: System, act: Action)
    requires Inv(p, s) && Enabled(s, act) && CleanStep(s, act)
    ensures Inv(p, Apply(p, s, act))
  {
    assert !act.Tick? ==> Knows(p, s.log, s.pcs[act.i]);
    match act
    case Tick(_) =>
    case Begin(i, a) => MoveKeepsInv(p, s, i, Waiting(a));
    case GiveUp(i) => MoveKeepsInv(p, s, i, Idle);
    case Look(i) => MoveKeepsInv(p, s, i, SawStale(s.pcs[i].a));
    case Crash(i) => MoveKeepsInv(p, s, i, Crashed);
    case Acquire(i) => LockStepKeepsInv(p, s, i, Entered(s.pcs[i].a), Some(Lock(i, s.now)));
    case Reclaim(i) => LockStepKeepsInv(p, s, i, Waiting(s.pcs[i].a), None);
    case Release(i) => LockStepKeepsInv(p, s, i, Idle, None);
    case ReadLast(i) => ReadKeepsInv(p, s, i);
    case Resolve(i) => ResolveKeepsInv(p, s, i);
    case Write(i) => WriteIsAppend(p, s, i);
  }

  lemma {:induction false} ReadKeepsInv(p: Primitives, s: System, i: nat)
    requires Inv(p, s) && Enabled(s, ReadLast(i))
    ensures Inv(p, Apply(p, s, ReadLast(i)))
  {
    assert Knows(p, s.log, s.pcs[i]);
    match LastHash(p, s.log)
    case Err => MoveKeepsInv(p, s, i, Leaving);
    case Ok(prev) => MoveKeepsInv(p, s, i, HaveLast(s.pcs[i].a, prev));
  }

  lemma {:induction false} ResolveKeepsInv(p: Primitives, s: System, i: nat)
    requires Inv(p, s) && Enabled(s, Resolve(i))
    ensures Inv(p, Apply(p, s, Resolve(i)))
  {
    var pc := s.pcs[i];
    assert Knows(p, s.log, pc);
    match SignAfter(p, s.log, pc.a, Draft(pc.a).value, pc.prev)
    case Err => MoveKeepsInv(p, s, i, Leaving);
    case Ok(signed) => MoveKeepsInv(p, s, i, Ready(pc.a, signed));
  }

  lemma {:induction false} WriteIsAppend(p: Primitives, s: System, i: nat)
    requires Inv(p, s) && Enabled(s, Write(i))
    ensures Inv(p, Apply(p, s, Write(i)))
  {
    var t := Apply(p, s, Write(i));
    var a, signed := s.pcs[i].a, s.pcs[i].signed;
    assert Knows(p, s.log, s.pcs[i]);
    assert p.marshal(signed.record).Some?;
    var done := s.done + [a];
    assert done[..|done| - 1] == s.done;
    assert Run(p, done) == Step(p, Run(p, s.done), a);
    forall j | 0 <= j < |t.pcs|
      ensures Knows(p, t.log, t.pcs[j])
    {
      if j != i {
        assert t.pcs[j] == s.pcs[j] && !Critical(s.pcs[j]);
        assert Knows(p, s.log, s.pcs[j]);
      }
    }
  }

  /** In every interleaving whose reclaims are clean, at most one process is between reading
      the last hash and writing, and the log is the sequential run of the appends that
      reached it, all of them successful. */
  lemma {:induction false} InterleavingsAreSequential(p: Primitives, n: nat, acts: seq<Action>)
    requires Clean(p, n, acts)
    ensures var s := Exec(p, n, acts);
            && Inv(p, s) && Exclusive(s)
            && s.log == Run(p, s.done).log && |Run(p, s.done).written| == |s.done|
  {
    if acts != [] {
      var before := acts[..|acts| - 1];
      InterleavingsAreSequential(p, n, before);
      if Enabled(Exec(p, n, before), acts[|acts| - 1]) {
        StepKeepsInv(p, Exec(p, n, before), acts[|acts| - 1]);
      }
    }
  }

  // ------------------------------------------------------ the lock is freed

  // A lock file belongs to a process that is inside or crashed inside.
  predicate Owned(s: System) {
    s.lock.Some? ==>
      && s.lock.value.owner < |s.pcs| && s.lock.value.since <= s.now
      && (Critical(s.pcs[s.lock.value.owner]) || s.pcs[s.lock.value.owner].Crashed?)
  }

  /** In every interleaving, dirty reclaims included, only a process that is inside or has
      crashed leaves a lock file behind. */
  lemma {:induction false} LocksAreOwned(p: Primitives, n: nat, acts: seq<Action>)
    ensures Owned(Exec(p, n, acts)) && |Exec(p, n, acts).pcs| == n
  {
    if acts != [] {
      LocksAreOwned(p, n, acts[..|acts| - 1]);
      OwnedStep(p, Exec(p, n, acts[..|acts| - 1]), acts[|acts| - 1]);
    }
  }

  lemma {:induction false} OwnedStep(p: Primitives, s: System, act: Action)
    requires Owned(s)
    ensures Owned(Next(p, s, act)) && |Next(p, s, act).pcs| == |s.pcs|
  {
  }

  /** So a waiter can always enter when no process is inside or crashed. */
  lemma {:induction false} WaiterCanEnter(p: Primitives, n: nat, acts: seq<Action>, i: nat)
    requires var s := Exec(p, n, acts);
             && i < n && i < |s.pcs| && s.pcs[i].Waiting?
             && forall j | 0 <= j < |s.pcs| :: !Critical(s.pcs[j]) && !s.pcs[j].Crashed?
    ensures var s := Exec(p, n, acts);
            && Enabled(s, Acquire(i)) && Apply(p, s, Acquire(i)).pcs[i] == Entered(s.pcs[i].a)
            && Apply(p, s, Acquire(i)).lock == Some(Lock(i, s.now))
  {
    LocksAreOwned(p, n, acts);
  }

  /** A process that gives up waiting leaves everything as it was and may append again. */
  lemma {:induction false} MayTryAgain(p: Primitives, s: System, i: nat, b: Attempt)
    requires Enabled(s, GiveUp(i)) && Draft(b).Ok?
    ensures var t := Apply(p, s, GiveUp(i));
            && t.log == s.log && t.lock == s.lock && t.done == s.done
            && Enabled(t, Begin(i, b)) && Apply(p, t, Begin(i, b)).pcs[i] == Waiting(b)
  {
  }

  // The rest of one call, from inside to the end.
  function Finished(p: Primitives, s: System, i: nat): System {
    Next(p, Next(p, Next(p, Next(p, s, ReadLast(i)), Resolve(i)), Write(i)), Release(i))
  }

  /** And whoever is inside gets out in four steps: the append is made, or refused as a whole,
      and the lock file is gone. */
  lemma {:induction false} HolderFinishes(p: Primitives, s: System, i: nat)
    requires i < |s.pcs| && s.pcs[i].Entered? && Draft(s.pcs[i].a).Ok?
    ensures var a, t := s.pcs[i].a, Finished(p, s, i);
            && t.pcs == s.pcs[i := Idle] && t.lock.None?
            && t.log == LogAfter(p, s.log, a)
            && t.done == if Append(p, s.log, a).Ok? then s.done + [a] else s.done
  {
    var a := s.pcs[i].a;
    var read := Next(p, s, ReadLast(i));
    match LastHash(p, s.log)
    case Err =>
      LeavingReleases(p, read, i);
      assert read.pcs[i := Idle] == s.pcs[i := Idle];
    case Ok(prev) =>
      assert read == Moved(s, i, HaveLast(a, prev));
      FinishesFromRead(p, read, i);
      assert read.pcs[i := Idle] == s.pcs[i := Idle];
  }

  lemma {:induction false} FinishesFromRead(p: Primitives, s: System, i: nat)
    requires i < |s.pcs| && s.pcs[i].HaveLast? && Draft(s.pcs[i].a).Ok? && LastHash(p, s.log) == Ok(s.pcs[i].prev)
    ensures var a, t := s.pcs[i].a, Next(p, Next(p, Next(p, s, Resolve(i)), Write(i)), Release(i));
            && t.pcs == s.pcs[i := Idle] && t.lock.None?
            && t.log == LogAfter(p, s.log, a)
            && t.done == if Append(p, s.log, a).Ok? then s.done + [a] else s.done
  {
    var a, prev := s.pcs[i].a, s.pcs[i].prev;
    AppendAfterLast(p, s.log, a, prev);
    ResolveMoves(p, s, i);
    var next := Next(p, s, Resolve(i));
    if next.pcs[i].Leaving? {
      LeavingReleases(p, next, i);
    } else {
      SignedEncodes(p, s.log, a, prev);
      ReadyWrites(p, next, i);
    }
    assert next.pcs[i := Idle] == s.pcs[i := Idle];
  }

  lemma {:induction false} AppendAfterLast(p: Primitives, log: Option<Bytes>, a: Attempt, prev: Bytes)
    requires Draft(a).Ok? && LastHash(p, log) == Ok(prev)
    ensures Append(p, log, a) == SignAfter(p, log, a, Draft(a).value, prev)
  {
  }

  lemma {:induction false} ResolveMoves(p: Primitives, s: System, i: nat)
    requires i < |s.pcs| && s.pcs[i].HaveLast? && Draft(s.pcs[i].a).Ok?
    ensures var a := s.pcs[i].a;
            var signed := SignAfter(p, s.log, a, Draft(a).value, s.pcs[i].prev);
            Next(p, s, Resolve(i)) == Resolved(s, i, signed)
  {
    assert Enabled(s, Resolve(i));
    assert Next(p, s, Resolve(i)) == Apply(p, s, Resolve(i));
  }

  lemma {:induction false} ReadyWrites(p: Primitives, s: System, i: nat)
    requires i < |s.pcs| && s.pcs[i].Ready? && p.marshal(s.pcs[i].signed.record).Some?
    ensures var pc := s.pcs[i];
            Next(p, Next(p, s, Write(i)), Release(i)) ==
            s.(pcs := s.pcs[i := Idle], lock := None, log := Written(p, s.log, pc.signed.record),
               done := s.done + [pc.a])
  {
    var written := Next(p, s, Write(i));
    LeavingReleases(p, written, i);
    assert written.pcs[i := Idle] == s.pcs[i := Idle];
  }

  lemma {:induction false} SignedEncodes(p: Primitives, log: Option<Bytes>, a: Attempt, prev: Bytes)
    requires Draft(a).Ok? && SignAfter(p, log, a, Draft(a).value, prev).Ok?
    ensures p.marshal(SignAfter(p, log, a, Draft(a).value, prev).value.record).Some?
  {
  }

  lemma {:induction false} LeavingReleases(p: Primitives, s: System, i: nat)
    requires i < |s.pcs| && s.pcs[i].Leaving?
    ensures Next(p, s, Resolve(i)) == s && Next(p, s, Write(i)) == s
    ensures Next(p, s, Release(i)) == s.(pcs := s.pcs[i := Idle], lock := None)
  {
  }

  // ------------------------------------------------------- how to stay clean

  // No lock file has been there for longer than a stale one would.
  predicate Prompt(s: System) {
    s.lock.Some? ==> s.now <= s.lock.value.since + STALE
  }

  /** Every holder removes its lock file within 30 seconds: none stalls, and none crashes and
      leaves its file behind for longer. */
  predicate AlwaysPrompt(p: Primitives, n: nat, acts: seq<Action>) {
    acts != [] ==> AlwaysPrompt(p, n, acts[..|acts| - 1]) && Prompt(Exec(p, n, acts))
  }

  lemma {:induction false} PromptSeesNothingStale(p: Primitives, n: nat, acts: seq<Action>)
    requires AlwaysPrompt(p, n, acts)
    ensures var s := Exec(p, n, acts);
            Prompt(s) && forall i | 0 <= i < |s.pcs| :: !s.pcs[i].SawStale?
  {
    if acts != [] {
      PromptSeesNothingStale(p, n, acts[..|acts| - 1]);
    }
  }

  /** What an operator can see to: if no lock file ever gets stale, nothing is reclaimed, so
      every interleaving is clean, exclusive and sequential. */
  lemma {:induction false} PromptRunsAreSequential(p: Primitives, n: nat, acts: seq<Action>)
    requires AlwaysPrompt(p, n, acts)
    ensures Clean(p, n, acts)
    ensures var s := Exec(p, n, acts);
            && Exclusive(s) && s.log == Run(p, s.done).log && |Run(p, s.done).written| == |s.done|
  {
    PromptIsClean(p, n, acts);
    InterleavingsAreSequential(p, n, acts);
  }

  lemma {:induction false} PromptIsClean(p: Primitives, n: nat, acts: seq<Action>)
    requires AlwaysPrompt(p, n, acts)
    ensures Clean(p, n, acts)
  {
    if acts != [] {
      PromptIsClean(p, n, acts[..|acts| - 1]);
      PromptSeesNothingStale(p, n, acts[..|acts| - 1]);
    }
  }

  // ------------------------------------------------------------- no forks

  // The MACs of two records, each under the key that signed it, collide.
  predicate CrossCollision(p: Primitives, s: Signed, t: Signed) {
    && CallOf(p, s.key, s.record).Some? && CallOf(p, t.key, t.record).Some?
    && Collides(p, CallOf(p, s.key, s.record).value, CallOf(p, t.key, t.record).value)
  }

  /** The MAC failed on records of this log, each under the key that signed it. */
  predicate Broken(p: Primitives, written: seq<Signed>) {
    || (exists i, j | 0 <= i < |written| && 0 <= j < |written| :: CollisionAt(p, written, i, j))
    || (exists i | 0 <= i < |written| :: PreimageAt(p, written, i))
  }

  predicate CollisionAt(p: Primitives, written: seq<Signed>, i: nat, j: nat)
    requires i < |written| && j < |written|
  {
    CrossCollision(p, written[i], written[j])
  }

  predicate PreimageAt(p: Primitives, written: seq<Signed>, i: nat)
    requires i < |written|
  {
    ZeroPreimage(p, written[i].key, written[i].record)
  }

  // Record i carries its own key's MAC and names the hash before it, of 64 bytes.
  predicate LinksBack(p: Primitives, written: seq<Signed>, i: nat)
    requires i < |written|
  {
    && Signs(p, written[i].key, written[i].record)
    && written[i].record.prevHash == (if i == 0 then ZERO_HASH else written[i - 1].record.currHash)
    && |written[i].record.prevHash| == 64
  }

  lemma {:induction false} SelfSignedLinksBack(p: Primitives, written: seq<Signed>, i: nat)
    requires Sound(p) && SelfSigned(p, written) && i < |written|
    ensures LinksBack(p, written, i)
  {
    var before := written[..i];
    assert SelfSignedAt(p, written, i);
    if i > 0 {
      LastIsSigned(p, written, i - 1);
      assert RecordsOf(before)[i - 1] == written[i - 1].record;
    }
  }

  lemma {:induction false} LastIsSigned(p: Primitives, written: seq<Signed>, i: nat)
    requires Sound(p) && SelfSigned(p, written) && i < |written|
    ensures |written[i].record.currHash| == 64
  {
    assert SelfSignedAt(p, written, i);
  }

  /** Two records of a run that name one predecessor exhibit a failure of the MAC: their own
      predecessors have one hash, so they collide or are one record, and so on to the start. */
  lemma {:induction false} ForkBreaksMac(p: Primitives, written: seq<Signed>, i: nat, j: nat)
    requires Sound(p) && forall k | 0 <= k < |written| :: LinksBack(p, written, k)
    requires i < j < |written| && written[i].record.prevHash == written[j].record.prevHash
    ensures Broken(p, written)
  {
    assert LinksBack(p, written, i) && LinksBack(p, written, j) && LinksBack(p, written, j - 1);
    if i == 0 {
      SignsIsMac(p, written[j - 1].key, written[j - 1].record);
      assert PreimageAt(p, written, j - 1);
    } else {
      StepBack(p, written, i, j);
      if !CollisionAt(p, written, i - 1, j - 1) {
        ForkBreaksMac(p, written, i - 1, j - 1);
      }
    }
  }

  lemma {:induction false} StepBack(p: Primitives, written: seq<Signed>, i: nat, j: nat)
    requires Sound(p) && forall k | 0 <= k < |written| :: LinksBack(p, written, k)
    requires 0 < i < j < |written| && written[i].record.prevHash == written[j].record.prevHash
    ensures CollisionAt(p, written, i - 1, j - 1) || written[i - 1].record == written[j - 1].record
  {
    assert LinksBack(p, written, i) && LinksBack(p, written, j);
    assert LinksBack(p, written, i - 1) && LinksBack(p, written, j - 1);
    OneHashOneRecord(p, written[i - 1], written[j - 1]);
  }

  lemma {:induction false} OneHashOneRecord(p: Primitives, s: Signed, t: Signed)
    requires Sound(p) && Signs(p, s.key, s.record) && Signs(p, t.key, t.record)
    requires s.record.currHash == t.record.currHash && |s.record.prevHash| == |t.record.prevHash|
    ensures s.record == t.record || CrossCollision(p, s, t)
  {
    SignsIsMac(p, s.key, s.record);
    SignsIsMac(p, t.key, t.record);
    if s.key == t.key {
      SameRecord(p, s.key, s.record, t.record);
    }
  }

  /** And no two records of such a log share a prev_hash, unless the MAC fails: with any mix of
      explicit keys, passwords and key files, and records of any size. */
  lemma {:induction false} InterleavingsNeverFork(p: Primitives, n: nat, acts: seq<Action>, i: nat, j: nat)
    requires Sound(p) && Clean(p, n, acts)
    requires Legible(p, Run(p, Exec(p, n, acts).done).written)
    requires i < j < |Exec(p, n, acts).done|
    ensures var written := Run(p, Exec(p, n, acts).done).written;
            && |written| == |Exec(p, n, acts).done|
            && (written[i].record.prevHash != written[j].record.prevHash || Broken(p, written))
  {
    var s := Exec(p, n, acts);
    InterleavingsAreSequential(p, n, acts);
    EveryRunIsSelfSigned(p, s.done);
    var written := Run(p, s.done).written;
    forall k | 0 <= k < |written|
      ensures LinksBack(p, written, k)
    {
      SelfSignedLinksBack(p, written, k);
    }
    if written[i].record.prevHash == written[j].record.prevHash {
      ForkBreaksMac(p, written, i, j);
    }
  }

  // ------------------------------------------------- reclaiming a live lock

  /** Cleanness is also necessary: removing a live holder's lock lets the remover enter
      beside it in its very next step. */
  lemma {:induction false} DirtyReclaimBreaksExclusion(p: Primitives, s: System, i: nat)
    requires Enabled(s, Reclaim(i)) && !CleanStep(s, Reclaim(i))
    ensures var t := Apply(p, s, Reclaim(i));
            Enabled(t, Acquire(i)) && !Exclusive(Apply(p, t, Acquire(i)))
  {
    var t := Apply(p, s, Reclaim(i));
    var u := Apply(p, t, Acquire(i));
    var h := s.lock.value.owner;
    assert Critical(u.pcs[h]) && Critical(u.pcs[i]) && h != i;
  }

  // A holder crashed 31 seconds ago and two processes wait for its lock.
  predicate Orphaned(s: System, a: Attempt, b: Attempt) {
    s.pcs == [Crashed, Waiting(a), Waiting(b)] && s.lock == Some(Lock(0, 0)) && s.now == 31
  }

  lemma {:induction false} OrphanReachable(p: Primitives, a: Attempt, b: Attempt) returns (acts: seq<Action>)
    requires Draft(a).Ok? && Draft(b).Ok?
    ensures Orphaned(Exec(p, 3, acts), a, b)
  {
    acts := [];
    acts := TwoMore(p, 3, acts, Begin(0, a), Acquire(0));
    acts := TwoMore(p, 3, acts, Crash(0), Tick(31));
    acts := TwoMore(p, 3, acts, Begin(1, a), Begin(2, b));
    OrphanSteps(p, a, b);
  }

  lemma {:induction false} OrphanSteps(p: Primitives, a: Attempt, b: Attempt)
    requires Draft(a).Ok? && Draft(b).Ok?
    ensures var late := AfterCrash(p, a);
            Orphaned(Next(p, Next(p, late, Begin(1, a)), Begin(2, b)), a, b)
  {
    CrashedHolder(p, a);
    var mid := Next(p, AfterCrash(p, a), Begin(1, a));
    assert mid.pcs == [Crashed, Waiting(a), Idle];
  }

  // Process 0 took the lock, crashed, and 31 seconds went by.
  function AfterCrash(p: Primitives, a: Attempt): System {
    var held := Next(p, Next(p, Initial(3), Begin(0, a)), Acquire(0));
    Next(p, Next(p, held, Crash(0)), Tick(31))
  }

  lemma {:induction false} CrashedHolder(p: Primitives, a: Attempt)
    requires Draft(a).Ok?
    ensures var s := AfterCrash(p, a); s.pcs == [Crashed, Idle, Idle] && s.lock == Some(Lock(0, 0)) && s.now == 31
  {
    var begun := Next(p, Initial(3), Begin(0, a));
    assert begun.pcs == [Waiting(a), Idle, Idle];
    var held := Next(p, begun, Acquire(0));
    assert held.pcs == [Entered(a), Idle, Idle];
  }

  lemma {:induction false} TwoMore(p: Primitives, n: nat, acts: seq<Action>, x: Action, y: Action)
    returns (more: seq<Action>)
    ensures more == acts + [x] + [y]
    ensures Exec(p, n, more) == Next(p, Next(p, Exec(p, n, acts), x), y)
  {
    more := acts + [x] + [y];
    assert more[..|more| - 1] == acts + [x] && (acts + [x])[..|acts|] == acts;
  }

  // Both waiters look, one removes the orphan and enters, the other removes that fresh lock.
  function Raced(p: Primitives, s: System): System {
    var looked := Next(p, Next(p, s, Look(1)), Look(2));
    var first := Next(p, Next(p, looked, Reclaim(1)), Acquire(1));
    Next(p, Next(p, first, Reclaim(2)), Acquire(2))
  }

  // The two then go through the critical section side by side.
  function BothRead(p: Primitives, s: System): System {
    Next(p, Next(p, s, ReadLast(1)), ReadLast(2))
  }

  function BothResolve(p: Primitives, s: System): System {
    Next(p, Next(p, s, Resolve(1)), Resolve(2))
  }

  function BothWrite(p: Primitives, s: System): System {
    Next(p, Next(p, s, Write(1)), Write(2))
  }

  /** It happens even when only a crashed process's lock is ever seen as stale and every live
      holder is quick, because the look and the removal are two steps. */
  lemma {:induction false} ReclaimRace(p: Primitives, s: System, a: Attempt, b: Attempt)
    requires Orphaned(s, a, b)
    ensures var both := Raced(p, s);
            both.pcs == [Crashed, Entered(a), Entered(b)] && both.log == s.log && !Exclusive(both)
  {
    var looked := Next(p, Next(p, s, Look(1)), Look(2));
    assert looked.pcs == [Crashed, SawStale(a), SawStale(b)];
    var first := Next(p, Next(p, looked, Reclaim(1)), Acquire(1));
    assert first.pcs == [Crashed, Entered(a), SawStale(b)] && first.lock == Some(Lock(1, 31));
    var both := Next(p, Next(p, first, Reclaim(2)), Acquire(2));
    assert both.pcs == [Crashed, Entered(a), Entered(b)];
    assert Critical(both.pcs[1]) && Critical(both.pcs[2]);
  }

  lemma {:induction false} ReadTogether(p: Primitives, s: System, a: Attempt, b: Attempt, prev: Bytes)
    requires s.pcs == [Crashed, Entered(a), Entered(b)] && LastHash(p, s.log) == Ok(prev)
    ensures var t := BothRead(p, s); t.pcs == [Crashed, HaveLast(a, prev), HaveLast(b, prev)] && t.log == s.log
  {
    var mid := Next(p, s, ReadLast(1));
    assert mid.pcs == [Crashed, HaveLast(a, prev), Entered(b)];
  }

  lemma {:induction false} ResolveTogether(p: Primitives, s: System, x: Pc, y: Pc, sx: Signed, sy: Signed)
    requires s.pcs == [Crashed, x, y] && x.HaveLast? && y.HaveLast? && Draft(x.a).Ok? && Draft(y.a).Ok?
    requires SignAfter(p, s.log, x.a, Draft(x.a).value, x.prev) == Ok(sx)
    requires SignAfter(p, s.log, y.a, Draft(y.a).value, y.prev) == Ok(sy)
    ensures var t := BothResolve(p, s); t.pcs == [Crashed, Ready(x.a, sx), Ready(y.a, sy)] && t.log == s.log
  {
    var mid := Next(p, s, Resolve(1));
    assert mid.pcs == [Crashed, Ready(x.a, sx), y];
  }

  lemma {:induction false} WriteTogether(p: Primitives, s: System, a: Attempt, b: Attempt, sa: Signed, sb: Signed)
    requires s.pcs == [Crashed, Ready(a, sa), Ready(b, sb)]
    requires p.marshal(sa.record).Some? && p.marshal(sb.record).Some?
    ensures BothWrite(p, s).log == Written(p, Written(p, s.log, sa.record), sb.record)
  {
    var mid := Next(p, s, Write(1));
    assert mid.pcs == [Crashed, Leaving, Ready(b, sb)];
  }

  lemma {:induction false} SignsAfterLast(p: Primitives, log: Option<Bytes>, a: Attempt, prev: Bytes)
    requires Append(p, log, a).Ok? && LastHash(p, log) == Ok(prev)
    ensures Draft(a).Ok? && SignAfter(p, log, a, Draft(a).value, prev) == Append(p, log, a)
  {
  }

  /** And it costs the chain: both read the same last hash, and the log ends in two records
      that name it. */
  lemma {:induction false} ReclaimRaceForks(p: Primitives, s: System, a: Attempt, b: Attempt)
    requires Sound(p) && Orphaned(s, a, b) && Append(p, s.log, a).Ok? && Append(p, s.log, b).Ok?
    ensures var r, t := Append(p, s.log, a).value.record, Append(p, s.log, b).value.record;
            && r.prevHash == t.prevHash && p.marshal(r).Some? && p.marshal(t).Some?
            && BothWrite(p, BothResolve(p, BothRead(p, Raced(p, s)))).log == Written(p, Written(p, s.log, r), t)
  {
    var sa, sb := Append(p, s.log, a).value, Append(p, s.log, b).value;
    var prev := LastHash(p, s.log).value;
    SignedLinks(p, s.log, a, prev);
    SignedLinks(p, s.log, b, prev);
    SignsAfterLast(p, s.log, a, prev);
    SignsAfterLast(p, s.log, b, prev);
    ReclaimRace(p, s, a, b);
    var entered := Raced(p, s);
    ReadTogether(p, entered, a, b, prev);
    var read := BothRead(p, entered);
    ResolveTogether(p, read, HaveLast(a, prev), HaveLast(b, prev), sa, sb);
    WriteTogether(p, BothResolve(p, read), a, b, sa, sb);
  }
}
