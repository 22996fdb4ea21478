/** Whole runs of appends: settings, passwords and key files change between calls, and yet
    one key must verify the log. */
module AuditRuns {
  import opened Wrappers
  import opened Text
  import opened AuditRecord
  import opened AuditKeys
  import opened AuditAppend
  import opened AuditVerify

  datatype State = State(log: Option<Bytes>, written: seq<Signed>)

  function Step(p: Primitives, s: State, a: Attempt): State {
    match Append(p, s.log, a)
    case Err => s
    case Ok(signed) => State(Written(p, s.log, signed.record), s.written + [signed])
  }

  // The log, and who signed what, after these calls on a missing log.
  function Run(p: Primitives, attempts: seq<Attempt>): State {
    if attempts == [] then State(None, [])
    else Step(p, Run(p, attempts[..|attempts| - 1]), attempts[|attempts| - 1])
  }

  function RecordsOf(written: seq<Signed>): seq<AuditLog> {
    seq(|written|, i requires 0 <= i < |written| => written[i].record)
  }

  // Two different keys that give one record the same MAC.
  predicate KeyCollision(p: Primitives, k1: Bytes, k2: Bytes, r: AuditLog) {
    k1 != k2 && Signs(p, k1, r) && Signs(p, k2, r)
  }

  lemma {:induction false} KeyCollisionIsExplicit(p: Primitives, k1: Bytes, k2: Bytes, r: AuditLog)
    requires KeyCollision(p, k1, k2, r)
    ensures CallOf(p, k1, r).Some? && CallOf(p, k2, r).Some?
    ensures Collides(p, CallOf(p, k1, r).value, CallOf(p, k2, r).value)
  {
    SignsIsMac(p, k1, r);
    SignsIsMac(p, k2, r);
  }

  // ------------------------------------------------ the file is the records

  lemma {:induction false} HoldsWritten(p: Primitives, log: Option<Bytes>, rs: seq<AuditLog>, r: AuditLog)
    requires Holds(p, log, rs) && p.marshal(r).Some?
    ensures Holds(p, Written(p, log, r), rs + [r])
  {
    var all := rs + [r];
    assert forall x | x in all :: p.marshal(x).Some?;
    var lines := Lines(p, all);
    assert lines[..|lines| - 1] == Lines(p, rs);
    if log.None? {
      assert Unlines(lines) == "" + p.marshal(r).value + "\n";
    }
  }

  // The verifier reads back exactly the records, unless a line is over-long.
  lemma {:induction false} ItemsOfRecords(p: Primitives, log: Option<Bytes>, rs: seq<AuditLog>)
    requires Sound(p) && Holds(p, log, rs) && log.Some?
    requires forall r | r in rs :: |p.marshal(r).value| < MAX_TOKEN
    ensures Items(p, log.value) == AsItems(rs)
  {
    var lines := Lines(p, rs);
    forall i | 0 <= i < |lines|
      ensures '\n' !in lines[i] && Decode(p, lines[i]) == Rec(rs[i])
    {
      assert rs[i] in rs;
      assert Faithful(p, rs[i]);
    }
    ScanUnlines(lines);
  }

  // ----------------------------------------------------------- one append

  lemma {:induction false} SignedLinks(p: Primitives, log: Option<Bytes>, a: Attempt, prev: Bytes)
    requires Sound(p) && Append(p, log, a).Ok? && LastHash(p, log) == Ok(prev)
    ensures var s := Append(p, log, a).value; Linked(p, s.key, prev, s.record) && p.marshal(s.record).Some?
  {
    var s := Append(p, log, a).value;
    assert Cleared(s.record) == Draft(a).value.(prevHash := prev, currHash := "");
  }

  // A signed record names the last hash and carries the MAC of its key.
  lemma {:induction false} AppendLinks(p: Primitives, log: Option<Bytes>, rs: seq<AuditLog>, key: Bytes, a: Attempt)
    requires Sound(p) && Holds(p, log, rs) && Chain(p, key, ZERO_HASH, rs)
    requires SuffixFree(p) || rs == [] || Fits(p, rs[|rs| - 1])
    requires Append(p, log, a).Ok?
    ensures var s := Append(p, log, a).value;
            Linked(p, s.key, Head(ZERO_HASH, rs), s.record) && p.marshal(s.record).Some?
  {
    LastHashOfRecords(p, log, rs);
    if rs != [] {
      ChainLast(p, key, ZERO_HASH, rs);
    }
    SignedLinks(p, log, a, Head(ZERO_HASH, rs));
  }

  /** What a caller must check before an append to a chain under key: the explicit key is
      unset or is the chain's key; and the last record fits the tail window, or the key a
      fresh log would get is the chain's key. */
  predicate Safe(p: Primitives, log: Option<Bytes>, last: AuditLog, key: Bytes, a: Attempt) {
    if a.env.envKey != "" then a.env.envKey == key
    else Fits(p, last) || FreshKey(p, a.env, a.file, a.generated, log) == Ok(key)
  }

  // Which key signs the next record.
  lemma {:induction false} SignerOfAppend(p: Primitives, log: Option<Bytes>, rs: seq<AuditLog>, key: Bytes, a: Attempt)
    requires Sound(p) && Holds(p, log, rs) && rs != [] && Chain(p, key, ZERO_HASH, rs)
    requires SuffixFree(p) || Fits(p, rs[|rs| - 1])
    requires Append(p, log, a).Ok?
    ensures var last, signer := rs[|rs| - 1], Append(p, log, a).value.key;
            && (a.env.envKey != "" ==> signer == a.env.envKey)
            && (a.env.envKey == "" && Fits(p, last) ==> Signs(p, signer, last))
            && (a.env.envKey == "" && !Fits(p, last) ==>
                  Ok(signer) == FreshKey(p, a.env, a.file, a.generated, log))
  {
    KeyOfAppend(p, log, a);
    var last, signer := rs[|rs| - 1], Append(p, log, a).value.key;
    ChainLast(p, key, ZERO_HASH, rs);
    if Fits(p, last) {
      LastRecordOfFit(p, log, rs);
      KeyAfterRecord(p, log, a, last, signer);
    } else {
      LastRecordOfOversize(p, log, rs);
      KeyAfterNothing(p, log, a, signer);
    }
  }

  lemma {:induction false} KeyAfterRecord(p: Primitives, log: Option<Bytes>, a: Attempt, last: AuditLog, signer: Bytes)
    requires LastRecord(p, log) == Some(last) && last.currHash != ""
    requires KeyForAppend(p, a.env, a.file, a.generated, log) == Ok(signer)
    ensures if a.env.envKey != "" then signer == a.env.envKey else Signs(p, signer, last)
  {
    FirstSignerIsFirst(p, Candidates(p, a.env, a.file), last);
  }

  lemma {:induction false} KeyAfterNothing(p: Primitives, log: Option<Bytes>, a: Attempt, signer: Bytes)
    requires LastRecord(p, log) == None && KeyForAppend(p, a.env, a.file, a.generated, log) == Ok(signer)
    ensures if a.env.envKey != "" then signer == a.env.envKey
            else Ok(signer) == FreshKey(p, a.env, a.file, a.generated, log)
  {
  }

  lemma {:induction false} KeyOfAppend(p: Primitives, log: Option<Bytes>, a: Attempt)
    requires Append(p, log, a).Ok?
    ensures KeyForAppend(p, a.env, a.file, a.generated, log) == Ok(Append(p, log, a).value.key)
  {
  }

  /** Exactly when one append keeps the chain verifiable under its key: when it is Safe,
      unless the two keys give the same MAC to the last or to the new record. */
  lemma {:induction false} AppendKeepsKeyIffSafe(p: Primitives, log: Option<Bytes>, rs: seq<AuditLog>, key: Bytes,
                                                 a: Attempt)
    requires Sound(p) && Holds(p, log, rs) && rs != [] && Chain(p, key, ZERO_HASH, rs)
    requires SuffixFree(p) || Fits(p, rs[|rs| - 1])
    requires Append(p, log, a).Ok?
    ensures var last, s := rs[|rs| - 1], Append(p, log, a).value;
            || (Chain(p, key, ZERO_HASH, rs + [s.record]) <==> Safe(p, log, last, key, a))
            || KeyCollision(p, key, s.key, last)
            || KeyCollision(p, key, s.key, s.record)
  {
    var s := Append(p, log, a).value;
    ChainLast(p, key, ZERO_HASH, rs);
    AppendLinks(p, log, rs, key, a);
    SignerOfAppend(p, log, rs, key, a);
    ChainExtends(p, key, ZERO_HASH, rs, s.record);
  }

  /** The whole failing family: after a record whose line overflows the window, an append
      under a different password breaks the chain for its key, for good. */
  lemma {:induction false} OversizeRecordLosesContinuity(p: Primitives, log: Option<Bytes>, rs: seq<AuditLog>,
                                                         key: Bytes, a: Attempt)
    requires Sound(p) && SuffixFree(p) && Holds(p, log, rs) && rs != [] && Chain(p, key, ZERO_HASH, rs)
    requires !Fits(p, rs[|rs| - 1])
    requires a.env.envKey == "" && a.env.password != "" && p.derive(a.env.password) != key
    requires Append(p, log, a).Ok? && !KeyCollision(p, key, p.derive(a.env.password), Append(p, log, a).value.record)
    ensures forall more :: !Chain(p, key, ZERO_HASH, rs + [Append(p, log, a).value.record] + more)
  {
    var s := Append(p, log, a).value;
    SignerOfAppend(p, log, rs, key, a);
    AppendLinks(p, log, rs, key, a);
    ChainExtends(p, key, ZERO_HASH, rs, s.record);
    forall more
      ensures !Chain(p, key, ZERO_HASH, rs + [s.record] + more)
    {
      var all := rs + [s.record] + more;
      assert all[..|rs| + 1] == rs + [s.record];
      if Chain(p, key, ZERO_HASH, all) {
        ChainPrefix(p, key, ZERO_HASH, all, |rs| + 1);
      }
    }
  }

  // --------------------------------------------------------- every run

  // Every call of the run leaves the choice of key to the continuity rule.
  predicate NoEnvKey(attempts: seq<Attempt>) {
    forall i | 0 <= i < |attempts| :: attempts[i].env.envKey == ""
  }

  predicate AllFit(p: Primitives, written: seq<Signed>) {
    forall i | 0 <= i < |written| :: Fits(p, written[i].record)
  }

  // All records so far were signed with the key of the first.
  predicate OneKey(written: seq<Signed>) {
    forall i | 0 <= i < |written| :: written[i].key == written[0].key
  }

  // Somewhere in the run the first record's key and another one gave a record the same MAC.
  predicate SomeCollision(p: Primitives, written: seq<Signed>) {
    exists i, j | 0 <= i < |written| && 0 <= j < |written| ::
      KeyCollision(p, written[0].key, written[i].key, written[j].record)
  }

  // The last hash can be read at every point of the run.
  ghost predicate Legible(p: Primitives, written: seq<Signed>) {
    SuffixFree(p) || AllFit(p, written)
  }

  lemma {:induction false} LegiblePrefix(p: Primitives, written: seq<Signed>, s: Signed)
    requires Legible(p, written + [s])
    ensures Legible(p, written)
  {
    assert forall i | 0 <= i < |written| :: (written + [s])[i] == written[i];
  }

  lemma {:induction false} CollisionGrows(p: Primitives, written: seq<Signed>, s: Signed)
    requires SomeCollision(p, written)
    ensures SomeCollision(p, written + [s])
  {
    var i, j :| && 0 <= i < |written| && 0 <= j < |written|
                && KeyCollision(p, written[0].key, written[i].key, written[j].record);
    var all := written + [s];
    assert KeyCollision(p, all[0].key, all[i].key, all[j].record);
  }

  // ------------------------------------------- exactly which runs keep the key

  // Each record names its predecessor's hash and carries the MAC of its own key.
  predicate SelfSigned(p: Primitives, written: seq<Signed>) {
    forall i | 0 <= i < |written| :: SelfSignedAt(p, written, i)
  }

  predicate SelfSignedAt(p: Primitives, written: seq<Signed>, i: nat)
    requires i < |written|
  {
    Linked(p, written[i].key, Head(ZERO_HASH, RecordsOf(written[..i])), written[i].record)
  }

  /** Every append of the run, after the first that was written, was Safe when it was made. */
  predicate AllSafe(p: Primitives, attempts: seq<Attempt>) {
    attempts != [] ==>
      var before, a := Run(p, attempts[..|attempts| - 1]), attempts[|attempts| - 1];
      && AllSafe(p, attempts[..|attempts| - 1])
      && (before.written != [] ==> SafeStep(p, before, a))
  }

  // The log is its records, each properly linked and signed, whatever the settings were.
  lemma {:induction false} EveryRunIsSelfSigned(p: Primitives, attempts: seq<Attempt>)
    requires Sound(p) && Legible(p, Run(p, attempts).written)
    ensures var s := Run(p, attempts); Holds(p, s.log, RecordsOf(s.written)) && SelfSigned(p, s.written)
  {
    if attempts != [] {
      var n := |attempts| - 1;
      var before, a := Run(p, attempts[..n]), attempts[n];
      InitIsLegible(p, attempts);
      EveryRunIsSelfSigned(p, attempts[..n]);
      if Append(p, before.log, a).Ok? {
        SelfSignedStep(p, before, a);
      }
    }
  }

  lemma {:induction false} InitIsLegible(p: Primitives, attempts: seq<Attempt>)
    requires attempts != [] && Legible(p, Run(p, attempts).written)
    ensures Legible(p, Run(p, attempts[..|attempts| - 1]).written)
  {
    var before, a := Run(p, attempts[..|attempts| - 1]), attempts[|attempts| - 1];
    if Append(p, before.log, a).Ok? {
      LegiblePrefix(p, before.written, Append(p, before.log, a).value);
    }
  }

  lemma {:induction false} SelfSignedStep(p: Primitives, before: State, a: Attempt)
    requires Sound(p) && Legible(p, before.written) && Append(p, before.log, a).Ok?
    requires Holds(p, before.log, RecordsOf(before.written)) && SelfSigned(p, before.written)
    ensures var s := Step(p, before, a); Holds(p, s.log, RecordsOf(s.written)) && SelfSigned(p, s.written)
  {
    var signed := Append(p, before.log, a).value;
    var rs, all := RecordsOf(before.written), before.written + [signed];
    assert RecordsOf(all) == rs + [signed.record];
    HoldsWritten(p, before.log, rs, signed.record);
    NewRecordLinks(p, before, a);
    forall i | 0 <= i < |all|
      ensures SelfSignedAt(p, all, i)
    {
      if i < |rs| {
        assert SelfSignedAt(p, before.written, i);
        assert all[..i] == before.written[..i];
      } else {
        assert all[..i] == before.written;
      }
    }
  }

  lemma {:induction false} NewRecordLinks(p: Primitives, before: State, a: Attempt)
    requires Sound(p) && Legible(p, before.written) && Append(p, before.log, a).Ok?
    requires Holds(p, before.log, RecordsOf(before.written)) && SelfSigned(p, before.written)
    ensures var signed := Append(p, before.log, a).value;
            Linked(p, signed.key, Head(ZERO_HASH, RecordsOf(before.written)), signed.record)
  {
    HeadOfWritten(p, before.log, before.written);
    SignedLinks(p, before.log, a, Head(ZERO_HASH, RecordsOf(before.written)));
  }

  lemma {:induction false} HeadOfWritten(p: Primitives, log: Option<Bytes>, written: seq<Signed>)
    requires Sound(p) && Legible(p, written) && Holds(p, log, RecordsOf(written)) && SelfSigned(p, written)
    ensures LastHash(p, log) == Ok(Head(ZERO_HASH, RecordsOf(written)))
  {
    LastHashIsSet(p, written);
    LastHashOfRecords(p, log, RecordsOf(written));
  }

  lemma {:induction false} LastHashIsSet(p: Primitives, written: seq<Signed>)
    requires Sound(p) && SelfSigned(p, written)
    ensures written != [] ==> RecordsOf(written)[|written| - 1].currHash != ""
  {
    if written != [] {
      var n := |written| - 1;
      assert SelfSignedAt(p, written, n);
    }
  }

  /** Over every run whatsoever, explicit keys and oversized records included: the log
      replays under the key of its first record if and only if every append was Safe; or the
      run exhibits two keys with the same MAC. */
  lemma {:induction false} RunKeepsOneKeyIffSafe(p: Primitives, attempts: seq<Attempt>)
    requires Sound(p) && Legible(p, Run(p, attempts).written) && Run(p, attempts).written != []
    ensures KeptIff(p, Run(p, attempts), AllSafe(p, attempts))
  {
    var n := |attempts| - 1;
    var init, a := attempts[..n], attempts[n];
    InitIsLegible(p, attempts);
    if Run(p, init).written == [] {
      NothingWrittenIsSafe(p, init);
      EveryRunIsSelfSigned(p, attempts);
      FirstIsChain(p, Run(p, attempts).written);
    } else {
      RunKeepsOneKeyIffSafe(p, init);
      EveryRunIsSelfSigned(p, init);
      StepKeptIff(p, Run(p, init), a, AllSafe(p, init));
    }
  }

  // The log replays under its first key exactly when safe says so, barring collisions.
  predicate KeptIff(p: Primitives, s: State, safe: bool)
    requires s.written != []
  {
    SomeCollision(p, s.written) || (Chain(p, s.written[0].key, ZERO_HASH, RecordsOf(s.written)) <==> safe)
  }

  predicate SafeStep(p: Primitives, s: State, a: Attempt)
    requires s.written != []
  {
    Append(p, s.log, a).Ok? ==> Safe(p, s.log, s.written[|s.written| - 1].record, s.written[0].key, a)
  }

  // The longer log is a chain under the first key exactly when the shorter one was and safe
  // says so, barring collisions.
  predicate ExtendsIff(p: Primitives, written: seq<Signed>, signed: Signed, safe: bool)
    requires written != []
  {
    var key, all := written[0].key, written + [signed];
    || SomeCollision(p, all)
    || (Chain(p, key, ZERO_HASH, RecordsOf(all)) <==> Chain(p, key, ZERO_HASH, RecordsOf(written)) && safe)
  }

  lemma {:induction false} StepKeptIff(p: Primitives, before: State, a: Attempt, safe: bool)
    requires Sound(p) && Legible(p, before.written) && before.written != []
    requires Holds(p, before.log, RecordsOf(before.written)) && KeptIff(p, before, safe)
    ensures KeptIff(p, Step(p, before, a), safe && SafeStep(p, before, a))
  {
    if Append(p, before.log, a).Ok? {
      LastStepIffSafe(p, before, a);
      KeptIffExtends(p, before, Step(p, before, a), Append(p, before.log, a).value, safe, SafeStep(p, before, a));
    }
  }

  lemma {:induction false} KeptIffExtends(p: Primitives, before: State, after: State, signed: Signed,
                                          safe: bool, safeStep: bool)
    requires before.written != [] && after.written == before.written + [signed]
    requires KeptIff(p, before, safe) && ExtendsIff(p, before.written, signed, safeStep)
    ensures KeptIff(p, after, safe && safeStep)
  {
    if SomeCollision(p, before.written) {
      CollisionGrows(p, before.written, signed);
    }
  }

  lemma {:induction false} NothingWrittenIsSafe(p: Primitives, attempts: seq<Attempt>)
    requires Run(p, attempts).written == []
    ensures AllSafe(p, attempts)
  {
    if attempts != [] {
      NothingWrittenIsSafe(p, attempts[..|attempts| - 1]);
    }
  }

  lemma {:induction false} FirstIsChain(p: Primitives, written: seq<Signed>)
    requires |written| == 1 && SelfSigned(p, written)
    ensures Chain(p, written[0].key, ZERO_HASH, RecordsOf(written))
  {
    assert SelfSignedAt(p, written, 0) && RecordsOf(written[..0]) == [];
    ChainExtends(p, written[0].key, ZERO_HASH, [], written[0].record);
    assert RecordsOf(written) == [] + [written[0].record];
  }

  lemma {:induction false} LastStepIffSafe(p: Primitives, before: State, a: Attempt)
    requires Sound(p) && Legible(p, before.written) && before.written != [] && Append(p, before.log, a).Ok?
    requires Holds(p, before.log, RecordsOf(before.written))
    ensures ExtendsIff(p, before.written, Append(p, before.log, a).value, SafeStep(p, before, a))
  {
    var key, rs := before.written[0].key, RecordsOf(before.written);
    SafeStepIsSafe(p, before, a);
    ChainStepIff(p, before.log, rs, key, a);
    LongerChainIff(p, before.written, Append(p, before.log, a).value, SafeStep(p, before, a));
  }

  lemma {:induction false} SafeStepIsSafe(p: Primitives, s: State, a: Attempt)
    requires s.written != [] && Append(p, s.log, a).Ok?
    ensures var rs := RecordsOf(s.written); SafeStep(p, s, a) == Safe(p, s.log, rs[|rs| - 1], s.written[0].key, a)
  {
  }

  // What AppendKeepsKeyIffSafe says of the new record of a chain.
  predicate StepIff(p: Primitives, key: Bytes, rs: seq<AuditLog>, signed: Signed, safe: bool)
    requires rs != []
  {
    Chain(p, key, ZERO_HASH, rs) ==>
      || (Chain(p, key, ZERO_HASH, rs + [signed.record]) <==> safe)
      || KeyCollision(p, key, signed.key, rs[|rs| - 1])
      || KeyCollision(p, key, signed.key, signed.record)
  }

  lemma {:induction false} ChainStepIff(p: Primitives, log: Option<Bytes>, rs: seq<AuditLog>, key: Bytes, a: Attempt)
    requires Sound(p) && Holds(p, log, rs) && rs != [] && Append(p, log, a).Ok?
    requires SuffixFree(p) || Fits(p, rs[|rs| - 1])
    ensures StepIff(p, key, rs, Append(p, log, a).value, Safe(p, log, rs[|rs| - 1], key, a))
  {
    if Chain(p, key, ZERO_HASH, rs) {
      AppendKeepsKeyIffSafe(p, log, rs, key, a);
    }
  }

  lemma {:induction false} LongerChainIff(p: Primitives, written: seq<Signed>, signed: Signed, safe: bool)
    requires written != [] && StepIff(p, written[0].key, RecordsOf(written), signed, safe)
    ensures ExtendsIff(p, written, signed, safe)
  {
    assert RecordsOf(written + [signed]) == RecordsOf(written) + [signed.record];
    ChainExtends(p, written[0].key, ZERO_HASH, RecordsOf(written), signed.record);
    CollisionAtEnd(p, written, signed);
  }

  // A collision on the last or the new record is one of the run.
  lemma {:induction false} CollisionAtEnd(p: Primitives, written: seq<Signed>, signed: Signed)
    requires written != []
    ensures || KeyCollision(p, written[0].key, signed.key, written[|written| - 1].record)
            || KeyCollision(p, written[0].key, signed.key, signed.record)
            ==> SomeCollision(p, written + [signed])
  {
    var n, all := |written|, written + [signed];
    if KeyCollision(p, written[0].key, signed.key, written[n - 1].record) {
      assert KeyCollision(p, all[0].key, all[n].key, all[n - 1].record);
    } else if KeyCollision(p, written[0].key, signed.key, signed.record) {
      assert KeyCollision(p, all[0].key, all[n].key, all[n].record);
    }
  }

  /** Equally, every record was signed with the key of the first if and only if every append
      was Safe; or the run exhibits two keys with the same MAC. */
  lemma {:induction false} EveryRunKeepsOneKey(p: Primitives, attempts: seq<Attempt>)
    requires Sound(p) && Legible(p, Run(p, attempts).written)
    ensures var s := Run(p, attempts);
            && Holds(p, s.log, RecordsOf(s.written))
            && (SomeCollision(p, s.written) || (OneKey(s.written) <==> AllSafe(p, attempts)))
  {
    var s := Run(p, attempts);
    EveryRunIsSelfSigned(p, attempts);
    if s.written == [] {
      NothingWrittenIsSafe(p, attempts);
    } else {
      RunKeepsOneKeyIffSafe(p, attempts);
      OneKeyIffChain(p, s.written);
    }
  }

  lemma {:induction false} OneKeyIffChain(p: Primitives, written: seq<Signed>)
    requires written != [] && SelfSigned(p, written)
    ensures || SomeCollision(p, written)
            || (OneKey(written) <==> Chain(p, written[0].key, ZERO_HASH, RecordsOf(written)))
  {
    var key, rs := written[0].key, RecordsOf(written);
    forall i | 0 <= i < |rs|
      ensures || SomeCollision(p, written)
              || (written[i].key == key <==> LinkAt(p, key, ZERO_HASH, rs, i))
    {
      assert SelfSignedAt(p, written, i);
      assert i > 0 ==> RecordsOf(written[..i])[i - 1] == rs[i - 1];
      if written[i].key != key && LinkAt(p, key, ZERO_HASH, rs, i) {
        assert KeyCollision(p, written[0].key, written[i].key, written[i].record);
      }
    }
  }

  /** Runs in which no call sets the explicit key and every record fits the tail window are
      Safe, whatever the passwords and key files were. */
  lemma {:induction false} FittingRunsAreSafe(p: Primitives, attempts: seq<Attempt>)
    requires NoEnvKey(attempts) && AllFit(p, Run(p, attempts).written)
    ensures AllSafe(p, attempts)
  {
    if attempts != [] {
      var n := |attempts| - 1;
      var before, a := Run(p, attempts[..n]), attempts[n];
      if Append(p, before.log, a).Ok? {
        var written := Run(p, attempts).written;
        assert forall i | 0 <= i < |before.written| :: before.written[i] == written[i];
      }
      FittingRunsAreSafe(p, attempts[..n]);
    }
  }

  /** What VerifyAuditChain says after any run, to whoever holds the first record's key: valid
      if and only if every append was Safe; or two keys give a record the same MAC. */
  lemma {:induction false} EveryRunVerifies(p: Primitives, attempts: seq<Attempt>, keys: seq<Bytes>)
    requires Sound(p) && Legible(p, Run(p, attempts).written) && Run(p, attempts).written != []
    requires Run(p, attempts).written[0].key in keys
    requires forall r | r in RecordsOf(Run(p, attempts).written) ::
               p.marshal(r).Some? ==> |p.marshal(r).value| < MAX_TOKEN
    ensures var s := Run(p, attempts);
            || SomeCollision(p, s.written)
            || (exists k | k in keys :: KeyCollision(p, s.written[0].key, k, s.written[0].record))
            || (Verdict(p, keys, s.log).Running? <==> AllSafe(p, attempts))
  {
    var s := Run(p, attempts);
    var key, rs := s.written[0].key, RecordsOf(s.written);
    EveryRunIsSelfSigned(p, attempts);
    RunKeepsOneKeyIffSafe(p, attempts);
    ItemsOfRecords(p, s.log, rs);
    FileAgreesWithMemory(p, keys, s.log.value, rs);
    FirstRecordIsSigned(p, s.written);
    forall k | k in keys && Chain(p, k, ZERO_HASH, rs)
      ensures k == key || KeyCollision(p, key, k, s.written[0].record)
    {
      assert LinkAt(p, k, ZERO_HASH, rs, 0);
    }
  }

  lemma {:induction false} FirstRecordIsSigned(p: Primitives, written: seq<Signed>)
    requires written != [] && SelfSigned(p, written)
    ensures Signs(p, written[0].key, written[0].record)
  {
    assert SelfSignedAt(p, written, 0);
  }

  // -------------------------------------------------- a run that loses its key

  lemma {:induction false} RunOfTwo(p: Primitives, a: Attempt, b: Attempt)
    ensures Run(p, [a, b]) == Step(p, Step(p, State(None, []), a), b)
  {
    assert [a, b][..1] == [a] && [a][..0] == [];
    assert Run(p, [a]) == Step(p, Run(p, []), a);
  }

  // The first record under a password is a chain under its derived key.
  lemma {:induction false} FirstOfRun(p: Primitives, a: Attempt)
    requires Sound(p) && a.env.envKey == "" && a.env.password != "" && Append(p, None, a).Ok?
    ensures var s := Step(p, State(None, []), a);
            && |s.written| == 1 && s.written[0].key == p.derive(a.env.password)
            && RecordsOf(s.written) == [s.written[0].record]
            && Holds(p, s.log, RecordsOf(s.written)) && Chain(p, s.written[0].key, ZERO_HASH, RecordsOf(s.written))
  {
    KeyOfAppend(p, None, a);
    SelfSignedStep(p, State(None, []), a);
    FirstIsChain(p, Step(p, State(None, []), a).written);
  }

  /** The failure is reached from a missing log: two calls under passwords with different
      derived keys, the first of which writes an oversized record. Each record is signed
      with its own call's key, and no continuation replays under the first. */
  lemma {:induction false} OversizeRunLosesKey(p: Primitives, a: Attempt, b: Attempt)
    requires Sound(p) && SuffixFree(p)
    requires a.env.envKey == "" && b.env.envKey == "" && a.env.password != "" && b.env.password != ""
    requires p.derive(a.env.password) != p.derive(b.env.password)
    requires |Run(p, [a, b]).written| == 2 && !Fits(p, Run(p, [a, b]).written[0].record)
    ensures var written := Run(p, [a, b]).written;
            && written[0].key == p.derive(a.env.password) && written[1].key == p.derive(b.env.password)
            && (|| SomeCollision(p, written)
                || forall more :: !Chain(p, written[0].key, ZERO_HASH, RecordsOf(written) + more))
  {
    RunOfTwo(p, a, b);
    var before, written := Step(p, State(None, []), a), Run(p, [a, b]).written;
    var first, second := written[0], written[1];
    FirstOfRun(p, a);
    var rs := RecordsOf(before.written);
    assert RecordsOf(written) == rs + [second.record];
    SignerOfAppend(p, before.log, rs, first.key, b);
    if KeyCollision(p, first.key, second.key, second.record) {
      assert KeyCollision(p, written[0].key, written[1].key, written[1].record);
    } else {
      OversizeRecordLosesContinuity(p, before.log, rs, first.key, b);
    }
  }
}
