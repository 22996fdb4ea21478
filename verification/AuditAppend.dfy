/** Appending one record: the last hash, the signing key, the signature and the write. */
module AuditAppend {
  import opened Wrappers
  import opened Text
  import opened AuditRecord
  import opened AuditKeys

  // -------------------------------------------------------- the last hash

  /** lastHashFromTail: the hash of the last visible line; the zero hash when there is none
      or it is a legacy record; an error when it does not parse. */
  function TailHash(p: Primitives, content: Bytes): Result<Bytes> {
    match LastVisible(Split(content))
    case None => Ok(ZERO_HASH)
    case Some(line) =>
      match p.unmarshal(line)
      case None => Err
      case Some(r) => Ok(if r.currHash == "" then ZERO_HASH else r.currHash)
  }

  // What the last line says: its record's hash, the zero hash for a legacy record or no line
  // at all, and an error for a line that is no record.
  predicate HashOfLine(p: Primitives, line: Option<Bytes>, hash: Result<Bytes>) {
    if line.None? then hash == Ok(ZERO_HASH)
    else if p.unmarshal(line.value).None? then hash.Err?
    else if p.unmarshal(line.value).value.currHash == "" then hash == Ok(ZERO_HASH)
    else hash == Ok(p.unmarshal(line.value).value.currHash)
  }

  method LastHashFromTail(p: Primitives, content: Bytes) returns (hash: Result<Bytes>)
    ensures hash == TailHash(p, content)
    ensures exists line :: IsLastVisible(Split(content), line) && HashOfLine(p, line, hash)
  {
    LastVisibleIsLast(Split(content));
    assert HashOfLine(p, LastVisible(Split(content)), TailHash(p, content));
    var lines := Split(content);
    var i := |lines| - 1;
    assert lines[..i + 1] == lines;
    while i >= 0
      invariant -1 <= i < |lines|
      invariant LastVisible(lines[..i + 1]) == LastVisible(lines)
    {
      var line := TrimSpace(lines[i]);
      assert lines[..i + 1][..i] == lines[..i];
      if line != "" {
        var entry := p.unmarshal(line);
        if entry.None? {
          return Err;
        }
        return Ok(if entry.value.currHash == "" then ZERO_HASH else entry.value.currHash);
      }
      i := i - 1;
    }
    return Ok(ZERO_HASH);
  }

  /** readLastAuditHash: the tail window first, the whole file when the window fails. */
  function LastHash(p: Primitives, log: Option<Bytes>): Result<Bytes> {
    if log.None? || log.value == "" then Ok(ZERO_HASH)
    else if TailHash(p, Window(log.value)).Ok? then TailHash(p, Window(log.value))
    else TailHash(p, log.value)
  }

  method ReadLastAuditHash(p: Primitives, log: Option<Bytes>) returns (hash: Result<Bytes>)
    ensures hash == LastHash(p, log)
  {
    if log.None? || log.value == "" {
      return Ok(ZERO_HASH);
    }
    hash := LastHashFromTail(p, Window(log.value));
    if hash.Err? {
      hash := LastHashFromTail(p, log.value);
    }
  }

  // ----------------------------------------------------- logs of records

  function Lines(p: Primitives, rs: seq<AuditLog>): seq<Bytes>
    requires forall r | r in rs :: p.marshal(r).Some?
  {
    seq(|rs|, i requires 0 <= i < |rs| => p.marshal(rs[i]).value)
  }

  /** The file is exactly these records, one complete line each. */
  ghost predicate Holds(p: Primitives, log: Option<Bytes>, rs: seq<AuditLog>) {
    && (forall r | r in rs :: p.marshal(r).Some?)
    && (if log.None? then rs == [] else log.value == Unlines(Lines(p, rs)))
  }

  // The record's line and its newline fit in the tail window.
  predicate Fits(p: Primitives, r: AuditLog) {
    p.marshal(r).Some? && |p.marshal(r).value| + 1 <= WINDOW
  }

  lemma {:induction false} HoldsLast(p: Primitives, log: Option<Bytes>, rs: seq<AuditLog>)
    returns (before: Bytes, line: Bytes)
    requires Sound(p) && Holds(p, log, rs) && rs != []
    ensures log == Some(before + line + "\n") && LineBoundary(before)
    ensures p.marshal(rs[|rs| - 1]) == Some(line)
    ensures line != "" && Trimmed(line) && '\n' !in line && p.unmarshal(line) == Some(rs[|rs| - 1])
  {
    var last := rs[|rs| - 1];
    line := p.marshal(last).value;
    var lines := Lines(p, rs);
    before := Unlines(lines[..|lines| - 1]);
    UnlinesBoundary(lines[..|lines| - 1]);
    assert lines[|lines| - 1] == line;
    assert Faithful(p, last);
  }

  // A window that holds the whole last line ends in that line.
  lemma {:induction false} WindowOfFit(before: Bytes, line: Bytes)
    requires LineBoundary(before) && line != "" && Trimmed(line) && '\n' !in line
    requires |line| + 1 <= WINDOW
    ensures LastVisible(Split(Window(before + line + "\n"))) == Some(line)
  {
    var content := before + line + "\n";
    var cut := |content| - |Window(content)|;
    assert cut <= |before|;
    assert Window(content) == before[cut..] + line + "\n";
    LastVisibleOfLine(before[cut..], line);
  }

  // A window that starts inside the last line holds only a proper suffix of it.
  lemma {:induction false} WindowOfOversize(before: Bytes, line: Bytes) returns (i: nat)
    requires line != "" && Trimmed(line) && '\n' !in line
    requires |line| + 1 > WINDOW
    ensures 0 < i < |line|
    ensures LastVisible(Split(Window(before + line + "\n"))) == Some(line[i..])
  {
    var content := before + line + "\n";
    var k := |line| + 1 - WINDOW;
    var rest := line[k..];
    assert Window(content) == rest + "\n";
    TrimOfVisibleEnd(rest);
    var visible := TrimSpace(rest);
    i := |line| - |visible|;
    assert visible == line[i..];
    SplitWithoutNewline(rest);
    SplitAtNewline(rest, "");
    assert rest + "\n" + "" == rest + "\n";
    assert [rest, ""][..1] == [rest];
  }

  /** The tail read finds the last record's hash however long its line is. */
  lemma {:induction false} LastHashOfRecords(p: Primitives, log: Option<Bytes>, rs: seq<AuditLog>)
    requires Sound(p) && Holds(p, log, rs)
    requires SuffixFree(p) || rs == [] || Fits(p, rs[|rs| - 1])
    ensures LastHash(p, log) == Ok(if rs == [] || rs[|rs| - 1].currHash == "" then ZERO_HASH else rs[|rs| - 1].currHash)
  {
    if rs != [] {
      var before, line := HoldsLast(p, log, rs);
      LastVisibleOfLine(before, line);
      if |line| + 1 <= WINDOW {
        WindowOfFit(before, line);
      } else {
        var i := WindowOfOversize(before, line);
      }
    }
  }

  /** A torn last line is never taken for a record: the append is refused. */
  lemma {:induction false} TornTailIsRefused(p: Primitives, before: Bytes, torn: Bytes)
    requires LineBoundary(before) && '\n' !in torn && torn != "" && !IsSpace(torn[|torn| - 1])
    requires forall i | 0 <= i < |torn| :: p.unmarshal(torn[i..]).None?
    ensures LastHash(p, Some(before + torn)) == Err
  {
    var content := before + torn;
    TornTailHash(p, before, torn);
    if |content| > WINDOW {
      var cut := |content| - WINDOW;
      if cut <= |before| {
        assert Window(content) == before[cut..] + torn;
        TornTailHash(p, before[cut..], torn);
      } else {
        var k := cut - |before|;
        assert Window(content) == "" + torn[k..];
        assert forall i | 0 <= i < |torn[k..]| :: torn[k..][i..] == torn[k + i..];
        TornTailHash(p, "", torn[k..]);
      }
    }
  }

  lemma {:induction false} TornTailHash(p: Primitives, before: Bytes, torn: Bytes)
    requires LineBoundary(before) && '\n' !in torn && torn != "" && !IsSpace(torn[|torn| - 1])
    requires forall i | 0 <= i < |torn| :: p.unmarshal(torn[i..]).None?
    ensures TailHash(p, before + torn) == Err
  {
    TrimOfVisibleEnd(torn);
    var pieces := LastPieceOf(before, torn);
    assert LastVisible(Split(before + torn)) == Some(TrimSpace(torn));
  }

  // Without a newline the text after a line boundary is the last piece.
  lemma {:induction false} LastPieceOf(before: Bytes, torn: Bytes) returns (pieces: seq<Bytes>)
    requires LineBoundary(before) && '\n' !in torn
    ensures Split(before + torn) == pieces + [torn]
  {
    SplitWithoutNewline(torn);
    pieces := [];
    if before == "" {
      assert before + torn == torn;
    } else {
      var y := before[..|before| - 1];
      assert before + torn == y + "\n" + torn;
      SplitAtNewline(y, torn);
      pieces := Split(y);
    }
  }

  // Key continuity looks only at the window: it sees the last record when that fits ...
  lemma {:induction false} LastRecordOfFit(p: Primitives, log: Option<Bytes>, rs: seq<AuditLog>)
    requires Sound(p) && Holds(p, log, rs) && rs != [] && Fits(p, rs[|rs| - 1])
    ensures LastRecord(p, log) == Some(rs[|rs| - 1])
  {
    var before, line := HoldsLast(p, log, rs);
    WindowOfFit(before, line);
  }

  // ... and no record at all when it does not.
  lemma {:induction false} LastRecordOfOversize(p: Primitives, log: Option<Bytes>, rs: seq<AuditLog>)
    requires Sound(p) && SuffixFree(p) && Holds(p, log, rs) && rs != [] && !Fits(p, rs[|rs| - 1])
    ensures LastRecord(p, log) == None
  {
    var before, line := HoldsLast(p, log, rs);
    var i := WindowOfOversize(before, line);
  }

  // ------------------------------------------------------------ one append

  /** One call of AppendAuditLog and all it depends on: the entry, the settings and the key
      file it finds, the random key, the id and the time it would use. */
  datatype Attempt = Attempt(entry: AuditLog, env: Settings, file: KeyFile, generated: Bytes, newId: Bytes, now: int)

  datatype Signed = Signed(key: Bytes, record: AuditLog)

  function Lower(s: Bytes): Bytes {
    seq(|s|, i requires 0 <= i < |s| => if 'A' <= s[i] <= 'Z' then (s[i] as int + 32) as char else s[i])
  }

  /** resolveAuditMACAlgo */
  function ResolveAlgo(value: Bytes): Result<Algo> {
    var name := Lower(TrimSpace(value));
    if name == "" || name == "sha256" then Ok(SHA256)
    else if name == "sm3" then Ok(SM3)
    else Err
  }

  // The same letters, capital or small.
  predicate SameLetters(s: Bytes, lower: Bytes) {
    |s| == |lower| && forall i | 0 <= i < |s| ::
      s[i] == lower[i] || ('A' <= s[i] <= 'Z' && s[i] as int + 32 == lower[i] as int)
  }

  /** The setting names SM3 or SHA-256 in any case and with any white space around it; blank
      means SHA-256; anything else is an error. */
  lemma {:induction false} AlgoSettings(before: Bytes, name: Bytes, after: Bytes)
    requires AllSpace(before) && AllSpace(after) && Trimmed(name)
    ensures ResolveAlgo(before + name + after) ==
            if SameLetters(name, "sm3") then Ok(SM3)
            else if name == "" || SameLetters(name, "sha256") then Ok(SHA256)
            else Err
  {
    TrimPadded(before, name, after);
    LowerIs(name, "sm3");
    LowerIs(name, "sha256");
    assert Lower(name) == "" <==> name == "";
    assert |"sm3"| != |"sha256"|;
  }

  lemma {:induction false} LowerIs(s: Bytes, lower: Bytes)
    requires forall i | 0 <= i < |lower| :: !('A' <= lower[i] <= 'Z')
    ensures Lower(s) == lower <==> SameLetters(s, lower)
  {
    if SameLetters(s, lower) {
      forall i | 0 <= i < |s|
        ensures Lower(s)[i] == lower[i]
      {
      }
    } else if Lower(s) == lower {
      assert |s| == |lower|;
      forall i | 0 <= i < |s|
        ensures s[i] == lower[i] || ('A' <= s[i] <= 'Z' && s[i] as int + 32 == lower[i] as int)
      {
        assert Lower(s)[i] == lower[i];
      }
    }
  }

  /** The entry with its id, time and algorithm filled in: nothing else of it changes, and
      verification will use the algorithm the setting named. */
  function Draft(a: Attempt): (draft: Result<AuditLog>)
    ensures draft.Ok? <==> ResolveAlgo(a.env.algo).Ok?
    ensures draft.Ok? ==> AlgoNamed(draft.value.macAlgo) == Some(ResolveAlgo(a.env.algo).value)
    ensures draft.Ok? ==>
              draft.value.(id := a.entry.id, timestamp := a.entry.timestamp, macAlgo := a.entry.macAlgo) == a.entry
    ensures draft.Ok? ==> draft.value.macAlgo == "" || draft.value.macAlgo == "sm3"
    ensures draft.Ok? && a.entry.id != "" ==> draft.value.id == a.entry.id
    ensures draft.Ok? && a.entry.id == "" ==> draft.value.id == a.newId
    ensures draft.Ok? && a.entry.timestamp != 0 ==> draft.value.timestamp == a.entry.timestamp
    ensures draft.Ok? && a.entry.timestamp == 0 ==> draft.value.timestamp == a.now
  {
    match ResolveAlgo(a.env.algo)
    case Err => Err
    case Ok(algo) =>
      Ok(a.entry.(
         id := if a.entry.id == "" then a.newId else a.entry.id,
         timestamp := if a.entry.timestamp == 0 then a.now else a.entry.timestamp,
         macAlgo := if algo == SM3 then "sm3" else ""))
  }

  function Sign(p: Primitives, key: Bytes, prev: Bytes, draft: AuditLog): Result<AuditLog> {
    var unsigned := draft.(prevHash := prev, currHash := "");
    match ComputeAuditHash(p, key, unsigned)
    case Err => Err
    case Ok(hash) =>
      var signed := unsigned.(currHash := hash);
      if p.marshal(signed).None? then Err else Ok(signed)
  }

  // The last two steps: resolve the key and sign.
  function SignAfter(p: Primitives, log: Option<Bytes>, a: Attempt, draft: AuditLog, prev: Bytes): Result<Signed> {
    match KeyForAppend(p, a.env, a.file, a.generated, log)
    case Err => Err
    case Ok(key) =>
      match Sign(p, key, prev, draft)
      case Err => Err
      case Ok(signed) => Ok(Signed(key, signed))
  }

  /** AppendAuditLog up to the write: the signed record, or a refusal. */
  function Append(p: Primitives, log: Option<Bytes>, a: Attempt): Result<Signed> {
    match Draft(a)
    case Err => Err
    case Ok(draft) =>
      match LastHash(p, log)
      case Err => Err
      case Ok(prev) => SignAfter(p, log, a, draft, prev)
  }

  // The file after a record was written to it.
  function Written(p: Primitives, log: Option<Bytes>, r: AuditLog): Option<Bytes>
    requires p.marshal(r).Some?
  {
    Some((if log.None? then "" else log.value) + p.marshal(r).value + "\n")
  }

  function LogAfter(p: Primitives, log: Option<Bytes>, a: Attempt): Option<Bytes> {
    match Append(p, log, a)
    case Err => log
    case Ok(signed) => Written(p, log, signed.record)
  }

  /** What is written is the caller's entry: only the id, the time, the algorithm and the two
      hashes are filled in. */
  lemma {:induction false} AppendedIsEntry(p: Primitives, log: Option<Bytes>, a: Attempt)
    requires Append(p, log, a).Ok?
    ensures var r, e := Append(p, log, a).value.record, a.entry;
            && r.action == e.action && r.user == e.user && r.resource == e.resource && r.detail == e.detail
            && r.success == e.success && r.ip == e.ip && r.userAgent == e.userAgent
            && r.id == (if e.id == "" then a.newId else e.id)
            && r.timestamp == (if e.timestamp == 0 then a.now else e.timestamp)
            && AlgoNamed(r.macAlgo) == Some(ResolveAlgo(a.env.algo).value)
  {
    assert Draft(a).Ok?;
    var key := KeyForAppend(p, a.env, a.file, a.generated, log).value;
    assert Append(p, log, a) == SignAfter(p, log, a, Draft(a).value, LastHash(p, log).value);
    assert Sign(p, key, LastHash(p, log).value, Draft(a).value) == Ok(Append(p, log, a).value.record);
  }

  method FillIn(a: Attempt) returns (draft: Result<AuditLog>)
    ensures draft == Draft(a)
  {
    var entry := a.entry;
    if entry.id == "" {
      entry := entry.(id := a.newId);
    }
    if entry.timestamp == 0 {
      entry := entry.(timestamp := a.now);
    }
    var algo := ResolveAlgo(a.env.algo);
    if algo.Err? {
      return Err;
    }
    entry := entry.(macAlgo := if algo.value == SM3 then "sm3" else "");
    return Ok(entry);
  }

  /** A signed entry links to prev under key, differs from the draft only in the two hashes,
      and encodes; signing fails only for an unknown algorithm or an unencodable entry. */
  method SignEntry(p: Primitives, key: Bytes, prev: Bytes, draft: AuditLog) returns (signed: Result<AuditLog>)
    ensures signed == Sign(p, key, prev, draft)
    ensures Sound(p) && signed.Ok? ==> Linked(p, key, prev, signed.value) && p.marshal(signed.value).Some?
    ensures signed.Ok? ==> signed.value.(prevHash := "", currHash := "") == draft.(prevHash := "", currHash := "")
    ensures signed.Err? ==> || AlgoNamed(draft.macAlgo).None?
                            || exists hash :: p.marshal(draft.(prevHash := prev, currHash := hash)).None?
  {
    var entry := draft.(prevHash := prev);
    entry := entry.(currHash := "");
    var hash := ComputeAuditHash(p, key, entry);
    if hash.Err? {
      return Err;
    }
    entry := entry.(currHash := hash.value);
    if p.marshal(entry).None? {
      return Err;
    }
    return Ok(entry);
  }

  /** The history directory: the log and the key file, updated in place. */
  class HistoryDir {
    const p: Primitives
    var log: Option<Bytes>
    var file: KeyFile

    constructor (p: Primitives)
      ensures this.p == p && log == None && file == Missing
    {
      this.p := p;
      log, file := None, Missing;
    }

    /** A refused append leaves the log as it was; a successful one adds one line. */
    method AppendAuditLog(entry: AuditLog, env: Settings, generated: Bytes, newId: Bytes, now: int)
      returns (ok: bool)
      modifies this
      ensures var a := Attempt(entry, env, old(file), generated, newId, now);
              && ok == Append(p, old(log), a).Ok?
              && log == LogAfter(p, old(log), a)
              && file == if Draft(a).Err? || LastHash(p, old(log)).Err? then old(file)
                         else KeyFileAfter(p, env, old(file), generated, old(log))
      ensures !ok ==> log == old(log)
    {
      var a := Attempt(entry, env, file, generated, newId, now);
      var draft := FillIn(a);
      if draft.Err? {
        return false;
      }
      var prev := ReadLastAuditHash(p, log);
      if prev.Err? {
        return false;
      }
      var key;
      key, file := AuditKeyForAppend(p, env, file, generated, log);
      if key.Err? {
        return false;
      }
      var signed := SignEntry(p, key.value, prev.value, draft.value);
      if signed.Err? {
        return false;
      }
      log := Some((if log.None? then "" else log.value) + p.marshal(signed.value).value + "\n");
      return true;
    }
  }
}
