/** Audit records, the primitives they are signed and stored with, and the hash chain. */
module AuditRecord {
  import opened Wrappers
  import opened Text

  // The prev_hash of the first record: 32 zero bytes in hex.
  const ZERO_HASH: Bytes := "0000000000000000000000000000000000000000000000000000000000000000"

  // Timestamps are instants in nanoseconds; 0 is Go's zero time.
  datatype AuditLog = AuditLog(
    id: Bytes, timestamp: int, action: Bytes, user: Bytes, resource: Bytes, detail: Bytes,
    success: bool, ip: Bytes, userAgent: Bytes, prevHash: Bytes, currHash: Bytes, macAlgo: Bytes)

  datatype Algo = SHA256 | SM3

  /** The library code the log is built on: JSON encoding of a record, HMAC in hex
      and PBKDF2. Nothing is known of them except what Sound states. */
  datatype Primitives = Primitives(
    marshal: AuditLog -> Option<Bytes>,
    unmarshal: Bytes -> Option<AuditLog>,
    hmac: (Algo, Bytes, Bytes) -> Bytes,
    derive: Bytes -> Bytes)

  // An encoded record is one visible line that parses back to the record.
  ghost predicate Faithful(p: Primitives, r: AuditLog) {
    p.marshal(r).Some? ==>
      var line := p.marshal(r).value;
      line != "" && Trimmed(line) && '\n' !in line && p.unmarshal(line) == Some(r)
  }

  ghost predicate Sound(p: Primitives) {
    && (forall r {:trigger p.marshal(r)} :: Faithful(p, r))
    && (forall algo, key, message :: |p.hmac(algo, key, message)| == 64)
    && (forall password :: p.derive(password) != "")
  }

  // No proper suffix of an encoded record parses as a record.
  ghost predicate SuffixFree(p: Primitives) {
    forall r, i | p.marshal(r).Some? && 0 < i < |p.marshal(r).value| ::
      p.unmarshal(p.marshal(r).value[i..]).None?
  }

  function AlgoNamed(name: Bytes): Option<Algo> {
    if name == "" || name == "sha256" then Some(SHA256)
    else if name == "sm3" then Some(SM3)
    else None
  }

  function Cleared(r: AuditLog): AuditLog {
    r.(currHash := "")
  }

  /** computeAuditHash: hex(HMAC(key, prev_hash || record_content)), or an error for a
      record that already has a hash, an unknown algorithm or an unencodable record. */
  function ComputeAuditHash(p: Primitives, key: Bytes, r: AuditLog): Result<Bytes> {
    if r.currHash != "" then Err
    else match AlgoNamed(r.macAlgo)
      case None => Err
      case Some(algo) =>
        match p.marshal(r)
        case None => Err
        case Some(data) => Ok(p.hmac(algo, key, r.prevHash + data))
  }

  // r carries the MAC that key gives it.
  predicate Signs(p: Primitives, key: Bytes, r: AuditLog) {
    ComputeAuditHash(p, key, Cleared(r)) == Ok(r.currHash)
  }

  // One evaluation of the MAC.
  datatype MacCall = MacCall(algo: Algo, key: Bytes, message: Bytes)

  function Mac(p: Primitives, c: MacCall): Bytes {
    p.hmac(c.algo, c.key, c.message)
  }

  // Two different MAC inputs with one output.
  predicate Collides(p: Primitives, c: MacCall, d: MacCall) {
    c != d && Mac(p, c) == Mac(p, d)
  }

  /** The MAC a record carries: over the hash before it and then its whole content without its
      own hash, with the algorithm it names. */
  function CallOf(p: Primitives, key: Bytes, r: AuditLog): Option<MacCall> {
    match (AlgoNamed(r.macAlgo), p.marshal(r.(currHash := "")))
    case (Some(algo), Some(content)) => Some(MacCall(algo, key, r.prevHash + content))
    case _ => None
  }

  lemma {:induction false} SignsIsMac(p: Primitives, key: Bytes, r: AuditLog)
    ensures Signs(p, key, r) <==> CallOf(p, key, r).Some? && Mac(p, CallOf(p, key, r).value) == r.currHash
  {
  }

  /** A record is signed by key exactly when its hash is the HMAC, by the algorithm it names,
      of its prev_hash followed by its encoding without curr_hash. */
  lemma {:induction false} SignsExactly(p: Primitives, key: Bytes, r: AuditLog)
    ensures var content := p.marshal(r.(currHash := ""));
            Signs(p, key, r) <==>
            && (r.macAlgo == "" || r.macAlgo == "sha256" || r.macAlgo == "sm3") && content.Some?
            && r.currHash == p.hmac(if r.macAlgo == "sm3" then SM3 else SHA256, key, r.prevHash + content.value)
  {
    assert "sm3"[0] == 's' && |"sm3"| != |"sha256"|;
  }

  /** The hash cannot be computed exactly for a record that already has one, names an unknown
      algorithm or does not encode. */
  lemma {:induction false} HashFailsIff(p: Primitives, key: Bytes, r: AuditLog)
    ensures ComputeAuditHash(p, key, r).Err? <==>
            || r.currHash != "" || p.marshal(r).None?
            || (r.macAlgo != "" && r.macAlgo != "sha256" && r.macAlgo != "sm3")
  {
  }

  // A record written before records carried hashes.
  predicate Legacy(r: AuditLog) {
    r.prevHash == "" && r.currHash == ""
  }

  // The hash the next record must name.
  function Head(start: Bytes, rs: seq<AuditLog>): Bytes {
    if rs == [] then start else rs[|rs| - 1].currHash
  }

  predicate Linked(p: Primitives, key: Bytes, prev: Bytes, r: AuditLog) {
    !Legacy(r) && r.prevHash == prev && Signs(p, key, r)
  }

  // Record i names the hash before it and carries the MAC of key.
  predicate LinkAt(p: Primitives, key: Bytes, start: Bytes, rs: seq<AuditLog>, i: nat)
    requires i < |rs|
  {
    Linked(p, key, if i == 0 then start else rs[i - 1].currHash, rs[i])
  }

  /** The chain that verification accepts: every record names its predecessor's hash and
      carries the MAC of one and the same key. */
  predicate Chain(p: Primitives, key: Bytes, start: Bytes, rs: seq<AuditLog>) {
    forall i | 0 <= i < |rs| :: LinkAt(p, key, start, rs, i)
  }

  // The last record of a chain, and the chain before it.
  lemma {:induction false} ChainLast(p: Primitives, key: Bytes, start: Bytes, rs: seq<AuditLog>)
    requires rs != []
    ensures var init := rs[..|rs| - 1];
            Chain(p, key, start, rs) <==>
            Chain(p, key, start, init) && Linked(p, key, Head(start, init), rs[|rs| - 1])
  {
    var init := rs[..|rs| - 1];
    if Chain(p, key, start, rs) {
      assert LinkAt(p, key, start, rs, |rs| - 1);
      forall i | 0 <= i < |init|
        ensures LinkAt(p, key, start, init, i)
      {
        assert LinkAt(p, key, start, rs, i);
      }
    } else {
      var i :| 0 <= i < |rs| && !LinkAt(p, key, start, rs, i);
      if i < |init| {
        assert !LinkAt(p, key, start, init, i);
      }
    }
  }

  lemma {:induction false} ChainExtends(p: Primitives, key: Bytes, start: Bytes, rs: seq<AuditLog>, r: AuditLog)
    ensures Chain(p, key, start, rs + [r]) <==>
            Chain(p, key, start, rs) && Linked(p, key, Head(start, rs), r)
  {
    ChainLast(p, key, start, rs + [r]);
    assert (rs + [r])[..|rs|] == rs;
  }

  // A contiguous slice of a chain is a chain from the hash its first record names.
  lemma {:induction false} ChainSlice(p: Primitives, key: Bytes, start: Bytes, rs: seq<AuditLog>, lo: nat, hi: nat)
    requires lo <= hi <= |rs| && Chain(p, key, start, rs)
    ensures Chain(p, key, Head(start, rs[..lo]), rs[lo..hi])
  {
    var slice := rs[lo..hi];
    forall i | 0 <= i < |slice|
      ensures LinkAt(p, key, Head(start, rs[..lo]), slice, i)
    {
      assert LinkAt(p, key, start, rs, lo + i);
    }
  }

  // Every prefix of a valid chain is valid.
  lemma {:induction false} ChainPrefix(p: Primitives, key: Bytes, start: Bytes, rs: seq<AuditLog>, n: nat)
    requires n <= |rs| && Chain(p, key, start, rs)
    ensures Chain(p, key, start, rs[..n])
    ensures n < |rs| ==> Linked(p, key, Head(start, rs[..n]), rs[n])
  {
    ChainSlice(p, key, start, rs, 0, n);
    assert rs[0..n] == rs[..n];
    if n < |rs| {
      assert LinkAt(p, key, start, rs, n);
    }
  }
}
