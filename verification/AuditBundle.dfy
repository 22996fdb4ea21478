/** The signed export bundle: a chain, or a time slice of one, that verifies on its own. */
module AuditBundle {
  import opened Wrappers
  import opened Text
  import opened AuditRecord
  import opened AuditKeys
  import opened AuditVerify
  import opened TamperEvidence

  const BUNDLE_VERSION := 1

  datatype Filter = Filter(since: Bytes, until: Bytes)

  datatype Manifest = Manifest(recordsSHA256: Bytes, count: nat, filter: Option<Filter>)

  datatype TimeRange = TimeRange(from: Bytes, to: Bytes)

  datatype Bundle = Bundle(
    version: nat, generatedAt: Bytes, recordCount: nat, timeRange: Option<TimeRange>,
    headHash: Bytes, records: seq<AuditLog>, manifest: Manifest, signature: Bytes)

  /** Library code of the bundle: the JSON of the record array and of the signed fields, the
      SHA-256 in hex, and RFC 3339 formatting. */
  datatype Formats = Formats(
    marshalAll: seq<AuditLog> -> Option<Bytes>,
    digest: Bytes -> Bytes,
    payload: (nat, Bytes, Bytes, Manifest) -> Option<Bytes>,
    formatTime: int -> Bytes)

  // ------------------------------------------------------------- building

  function MinTime(rs: seq<AuditLog>): int
    requires rs != []
  {
    var last := rs[|rs| - 1].timestamp;
    if |rs| == 1 then last
    else
      var t := MinTime(rs[..|rs| - 1]);
      if last < t then last else t
  }

  function MaxTime(rs: seq<AuditLog>): int
    requires rs != []
  {
    var last := rs[|rs| - 1].timestamp;
    if |rs| == 1 then last
    else
      var t := MaxTime(rs[..|rs| - 1]);
      if last > t then last else t
  }

  // No record is earlier than from or later than to, and both are timestamps of records.
  predicate Spans(rs: seq<AuditLog>, from: int, to: int) {
    && (forall i | 0 <= i < |rs| :: from <= rs[i].timestamp <= to)
    && (exists i | 0 <= i < |rs| :: rs[i].timestamp == from)
    && (exists i | 0 <= i < |rs| :: rs[i].timestamp == to)
  }

  lemma {:induction false} MinToMax(rs: seq<AuditLog>)
    requires rs != []
    ensures Spans(rs, MinTime(rs), MaxTime(rs))
  {
    var n := |rs| - 1;
    if n > 0 {
      var init := rs[..n];
      MinToMax(init);
      var i :| 0 <= i < n && init[i].timestamp == MinTime(init);
      var j :| 0 <= j < n && init[j].timestamp == MaxTime(init);
      assert rs[i] == init[i] && rs[j] == init[j];
    }
  }

  lemma {:induction false} BoundsNext(rs: seq<AuditLog>, i: nat)
    requires 0 < i < |rs|
    ensures MinTime(rs[..i + 1]) == (if rs[i].timestamp < MinTime(rs[..i]) then rs[i].timestamp else MinTime(rs[..i]))
    ensures MaxTime(rs[..i + 1]) == (if rs[i].timestamp > MaxTime(rs[..i]) then rs[i].timestamp else MaxTime(rs[..i]))
  {
    assert rs[..i + 1][..i] == rs[..i];
  }

  method TimeBounds(rs: seq<AuditLog>) returns (from: int, to: int)
    requires rs != []
    ensures from == MinTime(rs) && to == MaxTime(rs) && Spans(rs, from, to)
  {
    from, to := rs[0].timestamp, rs[0].timestamp;
    var i := 0;
    while i < |rs|
      invariant 0 <= i <= |rs|
      invariant i == 0 ==> from == to == rs[0].timestamp
      invariant i > 0 ==> from == MinTime(rs[..i]) && to == MaxTime(rs[..i])
    {
      if i > 0 {
        BoundsNext(rs, i);
      }
      if rs[i].timestamp < from {
        from := rs[i].timestamp;
      }
      if rs[i].timestamp > to {
        to := rs[i].timestamp;
      }
      i := i + 1;
    }
    assert rs[..i] == rs;
    MinToMax(rs);
  }

  // The bundle before it is signed.
  function Unsigned(f: Formats, rs: seq<AuditLog>, canonical: Bytes, filter: Option<Filter>,
                    generatedAt: Bytes): Bundle {
    Bundle(BUNDLE_VERSION, generatedAt, |rs|,
           if rs == [] then None else Some(TimeRange(f.formatTime(MinTime(rs)), f.formatTime(MaxTime(rs)))),
           Head(ZERO_HASH, rs), rs, Manifest(f.digest(canonical), |rs|, filter), "")
  }

  function PayloadOf(f: Formats, b: Bundle): Option<Bytes> {
    f.payload(b.version, b.generatedAt, b.headHash, b.manifest)
  }

  /** BuildAuditBundle; key is what AuditHMACKey returns. */
  function Build(p: Primitives, f: Formats, key: Bytes, rs: seq<AuditLog>, filter: Option<Filter>,
                 generatedAt: Bytes): Result<Bundle> {
    match f.marshalAll(rs)
    case None => Err
    case Some(canonical) =>
      var b := Unsigned(f, rs, canonical, filter, generatedAt);
      match PayloadOf(f, b)
      case None => Err
      case Some(payload) => Ok(b.(signature := p.hmac(SHA256, key, payload)))
  }

  // The bundle says what its records are: how many, from when to when, up to which hash.
  ghost predicate Describes(f: Formats, rs: seq<AuditLog>, filter: Option<Filter>, generatedAt: Bytes, b: Bundle) {
    && b.version == 1 && b.generatedAt == generatedAt && b.records == rs
    && b.recordCount == |rs| && b.manifest.count == |rs| && b.manifest.filter == filter
    && f.marshalAll(rs).Some? && b.manifest.recordsSHA256 == f.digest(f.marshalAll(rs).value)
    && b.headHash == (if rs == [] then ZERO_HASH else rs[|rs| - 1].currHash)
    && (b.timeRange.None? <==> rs == [])
    && forall from, to | rs != [] && Spans(rs, from, to) ::
         b.timeRange == Some(TimeRange(f.formatTime(from), f.formatTime(to)))
  }

  // The signature is the HMAC-SHA256 of version, time, head hash and manifest.
  predicate SignedWith(p: Primitives, f: Formats, key: Bytes, b: Bundle) {
    var payload := f.payload(b.version, b.generatedAt, b.headHash, b.manifest);
    payload.Some? && b.signature == p.hmac(SHA256, key, payload.value)
  }

  lemma {:induction false} BuildDescribes(p: Primitives, f: Formats, key: Bytes, rs: seq<AuditLog>,
                                          filter: Option<Filter>, generatedAt: Bytes)
    requires Build(p, f, key, rs, filter, generatedAt).Ok?
    ensures var b := Build(p, f, key, rs, filter, generatedAt).value;
            Describes(f, rs, filter, generatedAt, b) && SignedWith(p, f, key, b)
  {
    forall from, to | rs != [] && Spans(rs, from, to)
      ensures from == MinTime(rs) && to == MaxTime(rs)
    {
      MinToMax(rs);
      OneSpan(rs, from, to, MinTime(rs), MaxTime(rs));
    }
  }

  lemma {:induction false} OneSpan(rs: seq<AuditLog>, from: int, to: int, from': int, to': int)
    requires Spans(rs, from, to) && Spans(rs, from', to')
    ensures from == from' && to == to'
  {
  }

  method BuildAuditBundle(p: Primitives, f: Formats, env: Settings, file: KeyFile, rs: seq<AuditLog>,
                          filter: Option<Filter>, generatedAt: Bytes) returns (bundle: Result<Bundle>)
    ensures bundle == Build(p, f, SigningKey(p, env, file), rs, filter, generatedAt)
    ensures bundle.Ok? ==>
              && Describes(f, rs, filter, generatedAt, bundle.value)
              && SignedWith(p, f, SigningKey(p, env, file), bundle.value)
    ensures bundle.Err? <==>
            || f.marshalAll(rs).None?
            || f.payload(1, generatedAt, if rs == [] then ZERO_HASH else rs[|rs| - 1].currHash,
                         Manifest(f.digest(f.marshalAll(rs).value), |rs|, filter)).None?
  {
    if Build(p, f, SigningKey(p, env, file), rs, filter, generatedAt).Ok? {
      BuildDescribes(p, f, SigningKey(p, env, file), rs, filter, generatedAt);
    }
    var canonical := f.marshalAll(rs);
    if canonical.None? {
      return Err;
    }
    var b := Bundle(BUNDLE_VERSION, generatedAt, |rs|, None, ZERO_HASH, rs,
                    Manifest(f.digest(canonical.value), |rs|, filter), "");
    if |rs| > 0 {
      b := b.(headHash := rs[|rs| - 1].currHash);
      var from, to := TimeBounds(rs);
      b := b.(timeRange := Some(TimeRange(f.formatTime(from), f.formatTime(to))));
    }
    var payload := PayloadOf(f, b);
    if payload.None? {
      return Err;
    }
    b := b.(signature := p.hmac(SHA256, SigningKey(p, env, file), payload.value));
    return Ok(b);
  }

  // ------------------------------------------------------------ verifying

  datatype Outcome = Accepted | BadSignature | BadRecordsHash | BadChain

  // Some candidate reproduces the signature.
  predicate SignatureOk(p: Primitives, f: Formats, keys: seq<Bytes>, b: Bundle) {
    PayloadOf(f, b).Some? && exists k | k in keys :: p.hmac(SHA256, k, PayloadOf(f, b).value) == b.signature
  }

  predicate DigestOk(f: Formats, b: Bundle) {
    f.marshalAll(b.records).Some? && f.digest(f.marshalAll(b.records).value) == b.manifest.recordsSHA256
  }

  // An unfiltered bundle must start at the head of the chain.
  predicate Truncated(b: Bundle) {
    b.records != [] && b.manifest.filter.None? && b.records[0].prevHash != ZERO_HASH
  }

  // The hash the first record must name; a slice starts wherever its first record says.
  function FirstExpected(b: Bundle): Bytes {
    if b.records != [] && b.manifest.filter.Some? && b.records[0].prevHash != "" then b.records[0].prevHash
    else ZERO_HASH
  }

  /** VerifyAuditBundle: the checks in order. */
  function Check(p: Primitives, f: Formats, keys: seq<Bytes>, b: Bundle): Outcome
    requires keys != []
  {
    if !SignatureOk(p, f, keys, b) then BadSignature
    else if !DigestOk(f, b) then BadRecordsHash
    else if Truncated(b) then BadChain
    else if !ReplayAny(p, keys, FirstExpected(b), AsItems(b.records)).Running? then BadChain
    else if Head(ZERO_HASH, b.records) != b.headHash then BadChain
    else Accepted
  }

  // The signature loop: some candidate key gives the bundle its signature.
  method VerifySignature(p: Primitives, f: Formats, keys: seq<Bytes>, b: Bundle) returns (sigOk: bool)
    ensures sigOk <==> SignatureOk(p, f, keys, b)
  {
    var payload := PayloadOf(f, b);
    if payload.None? {
      return false;
    }
    var i := 0;
    while i < |keys|
      invariant 0 <= i <= |keys|
      invariant forall j | 0 <= j < i :: p.hmac(SHA256, keys[j], payload.value) != b.signature
    {
      if p.hmac(SHA256, keys[i], payload.value) == b.signature {
        return true;
      }
      i := i + 1;
    }
    return false;
  }

  predicate DigestMatches(f: Formats, b: Bundle) {
    f.marshalAll(b.records).Some? && b.manifest.recordsSHA256 == f.digest(f.marshalAll(b.records).value)
  }

  // The records are a chain under key, from the zero hash unless the bundle is filtered, and
  // the head hash is the last one's.
  predicate WellChained(p: Primitives, key: Bytes, b: Bundle) {
    && b.headHash == (if b.records == [] then ZERO_HASH else b.records[|b.records| - 1].currHash)
    && Chain(p, key, if b.records != [] && b.manifest.filter.Some? && b.records[0].prevHash != ""
                     then b.records[0].prevHash else ZERO_HASH, b.records)
  }

  /** Which check a bundle fails: the signature under every candidate, then the digest, then
      the chain or its head. */
  lemma {:induction false} CheckExactly(p: Primitives, f: Formats, keys: seq<Bytes>, b: Bundle)
    requires keys != []
    ensures var outcome := Check(p, f, keys, b);
            && (outcome == BadSignature <==> forall k | k in keys :: !SignedWith(p, f, k, b))
            && (outcome != BadSignature ==> (outcome == BadRecordsHash <==> !DigestMatches(f, b)))
            && (outcome != BadSignature && outcome != BadRecordsHash ==>
                  (outcome == Accepted <==> exists k | k in keys :: WellChained(p, k, b)))
  {
    SignatureExactly(p, f, keys, b);
    ReplayAnyIsChain(p, keys, FirstExpected(b), b.records);
    if Truncated(b) {
      forall k | k in keys
        ensures !WellChained(p, k, b)
      {
        assert !LinkAt(p, k, ZERO_HASH, b.records, 0);
      }
    }
    forall k | k in keys
      ensures WellChained(p, k, b) <==>
              Head(ZERO_HASH, b.records) == b.headHash && Chain(p, k, FirstExpected(b), b.records)
    {
    }
  }

  lemma {:induction false} SignatureExactly(p: Primitives, f: Formats, keys: seq<Bytes>, b: Bundle)
    ensures SignatureOk(p, f, keys, b) <==> exists k | k in keys :: SignedWith(p, f, k, b)
  {
    if SignatureOk(p, f, keys, b) {
      var k :| k in keys && p.hmac(SHA256, k, PayloadOf(f, b).value) == b.signature;
      assert SignedWith(p, f, k, b);
    }
  }

  method VerifyAuditBundle(p: Primitives, f: Formats, env: Settings, file: KeyFile, b: Bundle)
    returns (outcome: Outcome)
    ensures outcome == Check(p, f, Candidates(p, env, file), b)
    ensures var keys := Candidates(p, env, file);
            && (outcome == BadSignature <==> forall k | k in keys :: !SignedWith(p, f, k, b))
            && (outcome != BadSignature ==> (outcome == BadRecordsHash <==> !DigestMatches(f, b)))
            && (outcome != BadSignature && outcome != BadRecordsHash ==>
                  (outcome == Accepted <==> exists k | k in keys :: WellChained(p, k, b)))
  {
    CheckExactly(p, f, Candidates(p, env, file), b);
    var keys := AuditKeyCandidates(p, env, file);
    var sigOk := VerifySignature(p, f, keys, b);
    if !sigOk {
      return BadSignature;
    }
    var canonical := f.marshalAll(b.records);
    if canonical.None? || f.digest(canonical.value) != b.manifest.recordsSHA256 {
      return BadRecordsHash;
    }
    var firstExpected := ZERO_HASH;
    if |b.records| > 0 {
      if b.manifest.filter.None? {
        if b.records[0].prevHash != ZERO_HASH {
          return BadChain;
        }
      } else if b.records[0].prevHash != "" {
        firstExpected := b.records[0].prevHash;
      }
    }
    var verdict := VerifyAuditRecordChainFrom(p, env, file, b.records, firstExpected);
    if !verdict.Running? {
      return BadChain;
    }
    var expectedHead := if |b.records| > 0 then b.records[|b.records| - 1].currHash else ZERO_HASH;
    if expectedHead != b.headHash {
      return BadChain;
    }
    return Accepted;
  }

  lemma {:induction false} ReplayAnyIsChain(p: Primitives, keys: seq<Bytes>, start: Bytes, rs: seq<AuditLog>)
    requires keys != []
    ensures ReplayAny(p, keys, start, AsItems(rs)).Running? <==> exists k | k in keys :: Chain(p, k, start, rs)
  {
    RecordsOfItems(rs);
    VerdictExact(p, keys, start, AsItems(rs));
    forall k | k in keys
      ensures Replay(p, k, start, AsItems(rs)).Running? <==> Chain(p, k, start, rs)
    {
      ReplayIsChain(p, k, start, AsItems(rs));
    }
  }

  /** A bundle just built, checked under the same settings, stands or falls with its chain. */
  lemma {:induction false} BuiltBundleIsItsChain(p: Primitives, f: Formats, env: Settings, file: KeyFile,
                                                 rs: seq<AuditLog>, filter: Option<Filter>, generatedAt: Bytes)
    requires Sound(p)
    requires Build(p, f, SigningKey(p, env, file), rs, filter, generatedAt).Ok?
    requires filter.Some? && rs != [] ==> rs[0].prevHash != ""
    ensures var b := Build(p, f, SigningKey(p, env, file), rs, filter, generatedAt).value;
            var start := if filter.Some? && rs != [] then rs[0].prevHash else ZERO_HASH;
            Check(p, f, Candidates(p, env, file), b) == Accepted <==>
            exists k | k in Candidates(p, env, file) :: Chain(p, k, start, rs)
  {
    var keys := Candidates(p, env, file);
    var key := SigningKey(p, env, file);
    var b := Build(p, f, key, rs, filter, generatedAt).value;
    CandidatesExact(p, env, file);
    assert keys[0] == key;
    assert PayloadOf(f, b).Some? && p.hmac(SHA256, key, PayloadOf(f, b).value) == b.signature;
    var start := if filter.Some? && rs != [] then rs[0].prevHash else ZERO_HASH;
    assert FirstExpected(b) == start;
    ReplayAnyIsChain(p, keys, start, rs);
    if Truncated(b) {
      forall k | k in keys
        ensures !Chain(p, k, start, rs)
      {
        assert !LinkAt(p, k, start, rs, 0);
      }
    }
  }

  // -------------------------------------------------- what a signature covers

  // The encodings lose nothing: signed fields and record lists are what they encode to.
  ghost predicate Lossless(f: Formats) {
    && (forall v, g, h, m, v', g', h', m' {:trigger f.payload(v, g, h, m), f.payload(v', g', h', m')} ::
          f.payload(v, g, h, m).Some? && f.payload(v, g, h, m) == f.payload(v', g', h', m') ==>
            v == v' && g == g' && h == h' && m == m')
    && (forall rs, rs' {:trigger f.marshalAll(rs), f.marshalAll(rs')} ::
          f.marshalAll(rs).Some? && f.marshalAll(rs) == f.marshalAll(rs') ==> rs == rs')
  }

  // Two different signed payloads with one MAC under candidate keys.
  ghost predicate PayloadCollision(p: Primitives, f: Formats, keys: seq<Bytes>, b: Bundle, c: Bundle) {
    && PayloadOf(f, b).Some? && PayloadOf(f, c).Some? && PayloadOf(f, b) != PayloadOf(f, c)
    && exists k, l | k in keys && l in keys ::
         p.hmac(SHA256, k, PayloadOf(f, b).value) == p.hmac(SHA256, l, PayloadOf(f, c).value)
  }

  // Two different record lists with one digest.
  predicate DigestCollision(f: Formats, b: Bundle, c: Bundle) {
    && f.marshalAll(b.records).Some? && f.marshalAll(c.records).Some?
    && b.records != c.records
    && f.digest(f.marshalAll(b.records).value) == f.digest(f.marshalAll(c.records).value)
  }

  /** Two accepted bundles with one signature differ at most in record_count and time_range;
      or they exhibit a collision of the MAC or of the digest. */
  lemma {:induction false} SignatureFixesBundle(p: Primitives, f: Formats, keys: seq<Bytes>, b: Bundle, c: Bundle)
    requires keys != [] && Lossless(f) && b.signature == c.signature
    requires Check(p, f, keys, b) == Accepted && Check(p, f, keys, c) == Accepted
    ensures || c == b.(recordCount := c.recordCount, timeRange := c.timeRange)
            || PayloadCollision(p, f, keys, b, c)
            || DigestCollision(f, b, c)
  {
    var k :| k in keys && p.hmac(SHA256, k, PayloadOf(f, b).value) == b.signature;
    var l :| l in keys && p.hmac(SHA256, l, PayloadOf(f, c).value) == c.signature;
    assert PayloadOf(f, b) == PayloadOf(f, c) ==> b.manifest == c.manifest;
  }

  /** record_count and time_range are outside the signature and are not checked. */
  lemma {:induction false} CountAndRangeAreFree(p: Primitives, f: Formats, keys: seq<Bytes>, b: Bundle, n: nat,
                                                r: Option<TimeRange>)
    requires keys != []
    ensures Check(p, f, keys, b.(recordCount := n, timeRange := r)) == Check(p, f, keys, b)
  {
  }

  // ------------------------------------------------------------ filtering

  // Both bounds inclusive; a zero time is no bound.
  predicate Keep(r: AuditLog, since: int, until: int) {
    !(since != 0 && r.timestamp < since) && !(until != 0 && r.timestamp > until)
  }

  function Filtered(rs: seq<AuditLog>, since: int, until: int): seq<AuditLog> {
    if rs == [] then []
    else
      var before, last := Filtered(rs[..|rs| - 1], since, until), rs[|rs| - 1];
      if Keep(last, since, until) then before + [last] else before
  }

  // The records at these positions, and no others, are within the inclusive bounds.
  predicate Picks(rs: seq<AuditLog>, since: int, until: int, picked: seq<AuditLog>, at: seq<int>) {
    && Positions(at, |rs|) && |picked| == |at| && (forall k | 0 <= k < |at| :: picked[k] == rs[at[k]])
    && forall i | 0 <= i < |rs| ::
         i in at <==> (since == 0 || since <= rs[i].timestamp) && (until == 0 || rs[i].timestamp <= until)
  }

  lemma {:induction false} FilteredPicks(rs: seq<AuditLog>, since: int, until: int) returns (at: seq<int>)
    ensures Picks(rs, since, until, Filtered(rs, since, until), at)
  {
    at := [];
    if rs != [] {
      var n := |rs| - 1;
      at := FilteredPicks(rs[..n], since, until);
      PicksMore(rs, since, until, Filtered(rs[..n], since, until), at);
      if Keep(rs[n], since, until) {
        at := at + [n];
      }
    }
  }

  lemma {:induction false} PicksMore(rs: seq<AuditLog>, since: int, until: int, picked: seq<AuditLog>, at: seq<int>)
    requires rs != [] && Picks(rs[..|rs| - 1], since, until, picked, at)
    ensures var n := |rs| - 1;
            if (since == 0 || since <= rs[n].timestamp) && (until == 0 || rs[n].timestamp <= until)
            then Picks(rs, since, until, picked + [rs[n]], at + [n]) else Picks(rs, since, until, picked, at)
  {
    var n := |rs| - 1;
    var more := at + [n];
    assert forall i | 0 <= i < n :: rs[..n][i] == rs[i];
    assert forall i :: i in more <==> i in at || i == n;
    assert forall k | 0 <= k < |at| :: at[k] in at;
  }

  method FilterAuditRecords(rs: seq<AuditLog>, since: int, until: int) returns (filtered: seq<AuditLog>)
    ensures filtered == Filtered(rs, since, until)
    ensures exists at :: Picks(rs, since, until, filtered, at)
  {
    ghost var at := FilteredPicks(rs, since, until);
    filtered := [];
    var i := 0;
    while i < |rs|
      invariant 0 <= i <= |rs|
      invariant filtered == Filtered(rs[..i], since, until)
    {
      var r := rs[i];
      assert rs[..i + 1][..i] == rs[..i];
      i := i + 1;
      if since != 0 && r.timestamp < since {
        continue;
      }
      if until != 0 && r.timestamp > until {
        continue;
      }
      filtered := filtered + [r];
    }
    assert rs[..i] == rs;
  }

  // The kept records are exactly those at positions lo to hi.
  predicate KeptRange(rs: seq<AuditLog>, since: int, until: int, lo: nat, hi: nat) {
    lo <= hi <= |rs| && forall i | 0 <= i < |rs| :: Keep(rs[i], since, until) <==> lo <= i < hi
  }

  /** The kept records stand together: no dropped record between two of them. */
  ghost predicate Contiguous(rs: seq<AuditLog>, since: int, until: int) {
    exists lo: nat, hi: nat :: KeptRange(rs, since, until, lo, hi)
  }

  /** Timestamps that never go back make every filter contiguous. */
  lemma {:induction false} OrderedTimesAreContiguous(rs: seq<AuditLog>, since: int, until: int)
    requires forall i, j | 0 <= i < j < |rs| :: rs[i].timestamp <= rs[j].timestamp
    ensures Contiguous(rs, since, until)
  {
    if rs == [] {
      assert KeptRange(rs, since, until, 0, 0);
    } else {
      var n := |rs| - 1;
      OrderedTimesAreContiguous(rs[..n], since, until);
      var lo: nat, hi: nat :| KeptRange(rs[..n], since, until, lo, hi);
      assert forall i | 0 <= i < n :: rs[..n][i] == rs[i];
      if !Keep(rs[n], since, until) {
        assert KeptRange(rs, since, until, lo, hi);
      } else if lo == hi {
        assert KeptRange(rs, since, until, n, n + 1);
      } else {
        forall i | 0 <= i <= n
          ensures Keep(rs[i], since, until) <==> lo <= i
        {
          assert Keep(rs[lo], since, until);
        }
        assert KeptRange(rs, since, until, lo, n + 1);
      }
    }
  }

  // A contiguous selection is a slice.
  lemma {:induction false} ContiguousIsSlice(rs: seq<AuditLog>, since: int, until: int, lo: nat, hi: nat)
    requires KeptRange(rs, since, until, lo, hi)
    ensures Filtered(rs, since, until) == rs[lo..hi]
  {
    if rs != [] {
      var n := |rs| - 1;
      var init := rs[..n];
      if Keep(rs[n], since, until) {
        RangeOfInit(rs, since, until, lo, hi, lo, n);
        ContiguousIsSlice(init, since, until, lo, n);
        SliceOneMore(rs, lo);
      } else {
        var lo', hi' := if lo < hi then lo else 0, if lo < hi then hi else 0;
        RangeOfInit(rs, since, until, lo, hi, lo', hi');
        ContiguousIsSlice(init, since, until, lo', hi');
        SliceOfInit(rs, lo', hi');
        assert lo == hi ==> rs[lo..hi] == [];
      }
    }
  }

  lemma {:induction false} SliceOneMore(rs: seq<AuditLog>, lo: nat)
    requires lo < |rs|
    ensures rs[..|rs| - 1][lo..|rs| - 1] + [rs[|rs| - 1]] == rs[lo..|rs|]
  {
  }

  lemma {:induction false} SliceOfInit(rs: seq<AuditLog>, lo: nat, hi: nat)
    requires rs != [] && lo <= hi <= |rs| - 1
    ensures rs[..|rs| - 1][lo..hi] == rs[lo..hi]
  {
  }

  lemma {:induction false} RangeOfInit(rs: seq<AuditLog>, since: int, until: int, lo: nat, hi: nat, lo': nat, hi': nat)
    requires rs != [] && KeptRange(rs, since, until, lo, hi) && lo' <= hi' <= |rs| - 1
    requires (lo' == lo && hi' == if hi == |rs| then |rs| - 1 else hi) || (lo == hi && lo' == hi')
    ensures KeptRange(rs[..|rs| - 1], since, until, lo', hi')
  {
    var init := rs[..|rs| - 1];
    forall i | 0 <= i < |init|
      ensures Keep(init[i], since, until) <==> lo' <= i < hi'
    {
      assert init[i] == rs[i];
    }
  }

  // A chained selection with a gap means two prefixes of the log share a head.
  lemma {:induction false} GapBreaksMac(p: Primitives, key: Bytes, other: Bytes, start: Bytes, rs: seq<AuditLog>,
                                        since: int, until: int)
    requires Sound(p) && Chain(p, key, ZERO_HASH, rs)
    requires Chain(p, other, start, Filtered(rs, since, until)) && !Contiguous(rs, since, until)
    ensures MacBroken(p, key, rs, rs)
  {
    assert rs == [] ==> KeptRange(rs, since, until, 0, 0);
    var n := |rs| - 1;
    var init := rs[..n];
    ChainLast(p, key, ZERO_HASH, rs);
    if Keep(rs[n], since, until) {
      ChainExtends(p, other, start, Filtered(init, since, until), rs[n]);
    }
    if !Contiguous(init, since, until) {
      GapBreaksMac(p, key, other, start, init, since, until);
      MacBrokenMono(p, key, rs, rs, n, n);
    } else {
      var hi := GapAtEnd(rs, since, until);
      assert Head(start, Filtered(init, since, until)) == rs[hi - 1].currHash;
      ChainPrefix(p, key, ZERO_HASH, rs, hi);
      SameHeadSameLog(p, key, rs[..hi], init);
      MacBrokenMono(p, key, rs, rs, hi, n);
    }
  }

  // The last record is kept, but not the one before it, and some earlier one is.
  lemma {:induction false} GapAtEnd(rs: seq<AuditLog>, since: int, until: int) returns (hi: nat)
    requires rs != [] && !Contiguous(rs, since, until) && Contiguous(rs[..|rs| - 1], since, until)
    ensures 0 < hi < |rs| - 1 && Keep(rs[|rs| - 1], since, until)
    ensures var kept := Filtered(rs[..|rs| - 1], since, until); kept != [] && kept[|kept| - 1] == rs[hi - 1]
  {
    var n := |rs| - 1;
    var init := rs[..n];
    var lo: nat, end: nat :| KeptRange(init, since, until, lo, end);
    hi := end;
    assert forall i | 0 <= i < n :: init[i] == rs[i];
    assert !KeptRange(rs, since, until, lo, hi);
    assert !KeptRange(rs, since, until, n, n + 1);
    assert !KeptRange(rs, since, until, lo, n + 1);
    ContiguousIsSlice(init, since, until, lo, hi);
  }

  /** Exactly when the bundle of a filtered chain passes: when the kept records are
      contiguous in the chain, unless the MAC fails on the chain's own records. */
  lemma {:induction false} FilteredBundlePassesIffContiguous(p: Primitives, f: Formats, env: Settings,
                                                             file: KeyFile, key: Bytes, rs: seq<AuditLog>,
                                                             since: int, until: int, filter: Filter,
                                                             generatedAt: Bytes)
    requires Sound(p) && key in Candidates(p, env, file) && Chain(p, key, ZERO_HASH, rs)
    requires Build(p, f, SigningKey(p, env, file), Filtered(rs, since, until), Some(filter), generatedAt).Ok?
    ensures var b := Build(p, f, SigningKey(p, env, file), Filtered(rs, since, until), Some(filter), generatedAt).value;
            && (Contiguous(rs, since, until) ==> Check(p, f, Candidates(p, env, file), b) == Accepted)
            && (Check(p, f, Candidates(p, env, file), b) == Accepted ==>
                  Contiguous(rs, since, until) || MacBroken(p, key, rs, rs))
  {
    var keys := Candidates(p, env, file);
    var selected := Filtered(rs, since, until);
    if selected != [] {
      var m := FilteredFirst(rs, since, until);
      ChainPrefix(p, key, ZERO_HASH, rs, m);
      HeadLength(p, key, rs[..m]);
    }
    BuiltBundleIsItsChain(p, f, env, file, selected, Some(filter), generatedAt);
    var start := if selected == [] then ZERO_HASH else selected[0].prevHash;
    if Contiguous(rs, since, until) {
      var lo: nat, hi: nat :| KeptRange(rs, since, until, lo, hi);
      ContiguousIsSlice(rs, since, until, lo, hi);
      ChainSlice(p, key, ZERO_HASH, rs, lo, hi);
      if lo < hi {
        assert LinkAt(p, key, Head(ZERO_HASH, rs[..lo]), rs[lo..hi], 0);
        assert start == Head(ZERO_HASH, rs[..lo]);
      } else {
        assert Chain(p, key, start, selected);
      }
    } else if k :| k in keys && Chain(p, k, start, selected) {
      GapBreaksMac(p, key, k, start, rs, since, until);
    }
  }

  lemma {:induction false} FilteredFirst(rs: seq<AuditLog>, since: int, until: int) returns (m: nat)
    requires Filtered(rs, since, until) != []
    ensures m < |rs| && Filtered(rs, since, until)[0] == rs[m]
  {
    var n := |rs| - 1;
    if Filtered(rs[..n], since, until) == [] {
      m := n;
    } else {
      m := FilteredFirst(rs[..n], since, until);
    }
  }

  /** The bundle of a whole chain always passes. */
  lemma {:induction false} FullBundlePasses(p: Primitives, f: Formats, env: Settings, file: KeyFile, key: Bytes,
                                            rs: seq<AuditLog>, generatedAt: Bytes)
    requires Sound(p) && key in Candidates(p, env, file) && Chain(p, key, ZERO_HASH, rs)
    requires Build(p, f, SigningKey(p, env, file), rs, None, generatedAt).Ok?
    ensures var b := Build(p, f, SigningKey(p, env, file), rs, None, generatedAt).value;
            Check(p, f, Candidates(p, env, file), b) == Accepted
  {
    BuiltBundleIsItsChain(p, f, env, file, rs, None, generatedAt);
  }
}
