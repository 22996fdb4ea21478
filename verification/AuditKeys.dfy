/** Which key signs and which keys verify: candidates, the last record of the log, and the
    rule that a chain goes on under the key its last record was signed with. */
module AuditKeys {
  import opened Wrappers
  import opened Text
  import opened AuditRecord

  const DEFAULT_KEY: Bytes := "aflare-default-audit-hmac-key-v1"

  // How much of the end of the log is read to find its last record.
  const WINDOW := 8192

  // AFLARE_AUDIT_HMAC_KEY, AFLARE_SECRETS_PASSWORD, AFLARE_AUDIT_HMAC_ALGO; "" when unset.
  datatype Settings = Settings(envKey: Bytes, password: Bytes, algo: Bytes)

  datatype KeyFile = Missing | Unreadable | Present(data: Bytes)

  /** readAuditKeyFile: a missing file is no key, an empty one an error. */
  function ReadKeyFile(file: KeyFile): Result<Option<Bytes>> {
    match file
    case Missing => Ok(None)
    case Unreadable => Err
    case Present(data) => if TrimSpace(data) == "" then Err else Ok(Some(TrimSpace(data)))
  }

  /** A key read from the file is its content without surrounding white space, and never
      empty; there is none exactly when there is no file. */
  lemma {:induction false} KeyFileExact(file: KeyFile) returns (before: Bytes, after: Bytes)
    ensures ReadKeyFile(file) == Ok(None) <==> file == Missing
    ensures ReadKeyFile(file).Err? <==> file == Unreadable || (file.Present? && AllSpace(file.data))
    ensures ReadKeyFile(file).Ok? && file.Present? ==>
              && ReadKeyFile(file).value.Some?
              && var key := ReadKeyFile(file).value.value;
                 && key != "" && Trimmed(key)
                 && AllSpace(before) && AllSpace(after) && file.data == before + key + after
  {
    before, after := "", "";
    if file.Present? {
      before, after := TrimIsExact(file.data);
      var key := TrimSpace(file.data);
      if key == "" {
        assert file.data == before + after;
      } else {
        assert file.data[|before|] == key[0];
      }
    }
  }

  // ------------------------------------------------------------- candidates

  function AddKey(keys: seq<Bytes>, key: Bytes): seq<Bytes> {
    if key == "" || key in keys then keys else keys + [key]
  }

  /** auditKeyCandidates: never empty, since the public default is always tried last. */
  function Candidates(p: Primitives, env: Settings, file: KeyFile): (keys: seq<Bytes>)
    ensures DEFAULT_KEY in keys
  {
    var fromEnv := AddKey([], env.envKey);
    var withPassword := if env.password == "" then fromEnv else AddKey(fromEnv, p.derive(env.password));
    var withFile :=
      match ReadKeyFile(file)
      case Ok(Some(key)) => AddKey(withPassword, key)
      case _ => withPassword;
    AddKey(withFile, DEFAULT_KEY)
  }

  /** AuditHMACKey: the key new material (an export bundle) is signed with. */
  function SigningKey(p: Primitives, env: Settings, file: KeyFile): Bytes {
    if env.envKey != "" then env.envKey
    else if env.password != "" then p.derive(env.password)
    else match ReadKeyFile(file)
      case Ok(Some(key)) => key
      case _ => DEFAULT_KEY
  }

  // A key the settings can produce at all.
  predicate Available(p: Primitives, env: Settings, file: KeyFile, key: Bytes) {
    || (key == env.envKey && key != "")
    || (env.password != "" && key == p.derive(env.password))
    || ReadKeyFile(file) == Ok(Some(key))
    || key == DEFAULT_KEY
  }

  predicate Distinct(keys: seq<Bytes>) {
    forall i, j | 0 <= i < j < |keys| :: keys[i] != keys[j]
  }

  // Where a key comes from: the explicit key, the password, the key file, the default.
  function Rank(p: Primitives, env: Settings, file: KeyFile, key: Bytes): nat {
    if key == env.envKey then 0
    else if env.password != "" && key == p.derive(env.password) then 1
    else if ReadKeyFile(file) == Ok(Some(key)) then 2
    else 3
  }

  // Sorted by source, from sources before n.
  predicate InOrder(p: Primitives, env: Settings, file: KeyFile, keys: seq<Bytes>, n: nat) {
    && (forall i | 0 <= i < |keys| :: Rank(p, env, file, keys[i]) < n)
    && forall i, j | 0 <= i < j < |keys| :: Rank(p, env, file, keys[i]) < Rank(p, env, file, keys[j])
  }

  lemma {:induction false} AddInOrder(p: Primitives, env: Settings, file: KeyFile, keys: seq<Bytes>, n: nat, key: Bytes)
    requires InOrder(p, env, file, keys, n) && (key == "" || key in keys || Rank(p, env, file, key) == n)
    ensures InOrder(p, env, file, AddKey(keys, key), n + 1)
  {
    var more := AddKey(keys, key);
    assert forall i | 0 <= i < |more| :: if i < |keys| then more[i] == keys[i] else more[i] == key;
  }

  /** The candidates come in the order explicit key, password, key file, default. */
  lemma {:induction false} CandidatesInOrder(p: Primitives, env: Settings, file: KeyFile)
    requires Sound(p)
    ensures InOrder(p, env, file, Candidates(p, env, file), 4)
  {
    var b := AddKey(AddKey([], env.envKey), FromPassword(p, env));
    FirstTwoInOrder(p, env, file);
    var c := AddKey(b, FromFile(file));
    AddInOrder(p, env, file, b, 2, FromFile(file));
    AddKeyHas(b, FromFile(file));
    DefaultIsLast(p, env, file, c);
    AddInOrder(p, env, file, c, 3, DEFAULT_KEY);
    CandidatesAdded(p, env, file);
  }

  lemma {:induction false} FirstTwoInOrder(p: Primitives, env: Settings, file: KeyFile)
    requires Sound(p)
    ensures var b := AddKey(AddKey([], env.envKey), FromPassword(p, env));
            && InOrder(p, env, file, b, 2)
            && (env.envKey != "" ==> env.envKey in b)
            && (FromPassword(p, env) != "" ==> FromPassword(p, env) in b)
  {
    var a := AddKey([], env.envKey);
    AddInOrder(p, env, file, [], 0, env.envKey);
    AddKeyHas([], env.envKey);
    AddInOrder(p, env, file, a, 1, FromPassword(p, env));
    AddKeyHas(a, FromPassword(p, env));
  }

  // The key of each source, or "" for none.
  function FromPassword(p: Primitives, env: Settings): Bytes {
    if env.password == "" then "" else p.derive(env.password)
  }

  function FromFile(file: KeyFile): Bytes {
    if ReadKeyFile(file).Ok? && ReadKeyFile(file).value.Some? then ReadKeyFile(file).value.value else ""
  }

  lemma {:induction false} CandidatesAdded(p: Primitives, env: Settings, file: KeyFile)
    ensures Candidates(p, env, file) ==
            AddKey(AddKey(AddKey(AddKey([], env.envKey), FromPassword(p, env)), FromFile(file)), DEFAULT_KEY)
  {
  }

  lemma {:induction false} AddKeyHas(keys: seq<Bytes>, key: Bytes)
    ensures key != "" ==> key in AddKey(keys, key)
    ensures forall k | k in keys :: k in AddKey(keys, key)
  {
  }

  lemma {:induction false} DefaultIsLast(p: Primitives, env: Settings, file: KeyFile, keys: seq<Bytes>)
    requires env.envKey != "" ==> env.envKey in keys
    requires FromPassword(p, env) != "" ==> FromPassword(p, env) in keys
    requires FromFile(file) != "" ==> FromFile(file) in keys
    ensures DEFAULT_KEY in keys || Rank(p, env, file, DEFAULT_KEY) == 3
  {
    assert DEFAULT_KEY[0] == 'a';
  }

  /** The candidates are exactly the available keys, each once, the signing key first. */
  lemma {:induction false} CandidatesExact(p: Primitives, env: Settings, file: KeyFile)
    requires Sound(p)
    ensures Distinct(Candidates(p, env, file))
    ensures forall key :: key in Candidates(p, env, file) <==> Available(p, env, file, key)
    ensures Candidates(p, env, file)[0] == SigningKey(p, env, file)
  {
    var a := AddKey([], env.envKey);
    AddKeyAdds([], env.envKey);
    var b := if env.password == "" then a else AddKey(a, p.derive(env.password));
    AddKeyAdds(a, p.derive(env.password));
    var f := if ReadKeyFile(file).Ok? && ReadKeyFile(file).value.Some? then ReadKeyFile(file).value.value else "";
    var c := AddKey(b, f);
    AddKeyAdds(b, f);
    AddKeyAdds(c, DEFAULT_KEY);
    assert Candidates(p, env, file) == AddKey(c, DEFAULT_KEY);
  }

  lemma {:induction false} AddKeyAdds(keys: seq<Bytes>, key: Bytes)
    requires Distinct(keys)
    ensures Distinct(AddKey(keys, key)) && keys <= AddKey(keys, key)
    ensures forall k :: k in AddKey(keys, key) <==> k in keys || (k == key && key != "")
  {
  }

  method Add(candidates: seq<Bytes>, seen: set<Bytes>, key: Bytes)
    returns (candidates': seq<Bytes>, seen': set<Bytes>)
    requires forall k :: k in seen <==> k in candidates
    ensures candidates' == AddKey(candidates, key)
    ensures forall k :: k in seen' <==> k in candidates'
  {
    candidates', seen' := candidates, seen;
    if key == "" || key in seen {
      return;
    }
    seen' := seen' + {key};
    candidates' := candidates' + [key];
  }

  method AuditKeyCandidates(p: Primitives, env: Settings, file: KeyFile) returns (candidates: seq<Bytes>)
    ensures candidates == Candidates(p, env, file)
  {
    candidates := [];
    var seen: set<Bytes> := {};
    if env.envKey != "" {
      candidates, seen := Add(candidates, seen, env.envKey);
    }
    if env.password != "" {
      candidates, seen := Add(candidates, seen, p.derive(env.password));
    }
    match ReadKeyFile(file) {
      case Ok(Some(key)) => candidates, seen := Add(candidates, seen, key);
      case _ =>
    }
    candidates, seen := Add(candidates, seen, DEFAULT_KEY);
  }

  /** deriveAuditKeyFromPassword: the one-entry cache never changes the answer. */
  class PasswordKeys {
    const p: Primitives
    var cachePass: Bytes
    var cacheKey: Bytes

    ghost predicate Valid() reads this {
      cacheKey != "" ==> cacheKey == p.derive(cachePass)
    }

    constructor (p: Primitives)
      ensures Valid() && this.p == p
    {
      this.p := p;
      cachePass, cacheKey := "", "";
    }

    method Derive(password: Bytes) returns (key: Bytes)
      requires Valid()
      modifies this
      ensures Valid() && key == p.derive(password)
    {
      if cachePass == password && cacheKey != "" {
        return cacheKey;
      }
      key := p.derive(password);
      cachePass, cacheKey := password, key;
    }
  }

  // ---------------------------------------------------- the last record

  function Window(content: Bytes): Bytes {
    if |content| <= WINDOW then content else content[|content| - WINDOW..]
  }

  /** lastAuditRecord: the last visible line of the window, if it parses. */
  function LastRecord(p: Primitives, log: Option<Bytes>): Option<AuditLog> {
    if log.None? || log.value == "" then None
    else match LastVisible(Split(Window(log.value)))
      case None => None
      case Some(line) => p.unmarshal(line)
  }

  lemma {:induction false} EmptyHasNoLine(content: Bytes)
    ensures content == "" ==> LastVisible(Split(content)) == None
  {
    assert [""][..0] == [];
  }

  /** The record of the last visible line in the last 8 KiB; none if there is no visible line
      or it does not parse. */
  method LastAuditRecord(p: Primitives, log: Option<Bytes>) returns (entry: Option<AuditLog>)
    ensures entry == LastRecord(p, log)
    ensures log.None? ==> entry == None
    ensures log.Some? ==>
              var tail := if |log.value| <= 8192 then log.value else log.value[|log.value| - 8192..];
              exists line ::
                && IsLastVisible(Split(tail), line)
                && entry == if line.None? then None else p.unmarshal(line.value)
  {
    if log.Some? {
      LastVisibleIsLast(Split(Window(log.value)));
      EmptyHasNoLine(log.value);
    }
    if log.None? || log.value == "" {
      return None;
    }
    var lines := Split(Window(log.value));
    var i := |lines| - 1;
    assert lines[..i + 1] == lines;
    while i >= 0
      invariant -1 <= i < |lines|
      invariant LastVisible(lines[..i + 1]) == LastVisible(lines)
    {
      var line := TrimSpace(lines[i]);
      assert lines[..i + 1][..i] == lines[..i];
      if line != "" {
        return p.unmarshal(line);
      }
      i := i - 1;
    }
    return None;
  }

  // ------------------------------------------------------ key continuity

  // The first candidate that signs r as it stands.
  function FirstSigner(p: Primitives, keys: seq<Bytes>, r: AuditLog): Option<Bytes> {
    if keys == [] then None
    else if Signs(p, keys[0], r) then Some(keys[0])
    else FirstSigner(p, keys[1..], r)
  }

  lemma {:induction false} FirstSignerIsFirst(p: Primitives, keys: seq<Bytes>, r: AuditLog)
    ensures FirstSigner(p, keys, r).None? <==> forall k | k in keys :: !Signs(p, k, r)
    ensures FirstSigner(p, keys, r).Some? ==>
              exists i | 0 <= i < |keys| ::
                && keys[i] == FirstSigner(p, keys, r).value
                && Signs(p, keys[i], r)
                && forall j | 0 <= j < i :: !Signs(p, keys[j], r)
  {
    if keys != [] && !Signs(p, keys[0], r) {
      FirstSignerIsFirst(p, keys[1..], r);
      if FirstSigner(p, keys, r).Some? {
        var i :| && 0 <= i < |keys[1..]| && keys[1..][i] == FirstSigner(p, keys, r).value
                 && Signs(p, keys[1..][i], r) && forall j | 0 <= j < i :: !Signs(p, keys[1..][j], r);
        assert keys[i + 1] == keys[1..][i];
        forall j | 0 <= j < i + 1
          ensures !Signs(p, keys[j], r)
        {
          assert j > 0 ==> keys[j] == keys[1..][j - 1];
        }
      }
    }
  }

  /** chainContinuityKey: Ok(Some(key)) to go on with key, Ok(None) when there is no chain
      to continue, Err when no candidate signed the last record. */
  function ContinuityKey(p: Primitives, candidates: seq<Bytes>, log: Option<Bytes>): Result<Option<Bytes>> {
    match LastRecord(p, log)
    case None => Ok(None)
    case Some(r) =>
      if r.currHash == "" then Ok(None)
      else match FirstSigner(p, candidates, r)
        case None => Err
        case Some(key) => Ok(Some(key))
  }

  method ChainContinuityKey(p: Primitives, env: Settings, file: KeyFile, log: Option<Bytes>)
    returns (key: Result<Option<Bytes>>)
    ensures key == ContinuityKey(p, Candidates(p, env, file), log)
    ensures key == Ok(None) <==> LastRecord(p, log).None? || LastRecord(p, log).value.currHash == ""
    ensures key.Ok? && key.value.Some? ==>
              key.value.value in Candidates(p, env, file) && Signs(p, key.value.value, LastRecord(p, log).value)
    ensures key.Err? ==> forall k | k in Candidates(p, env, file) :: !Signs(p, k, LastRecord(p, log).value)
  {
    var last := LastAuditRecord(p, log);
    if last.None? {
      return Ok(None);
    }
    var entry := last.value;
    if entry.currHash == "" {
      return Ok(None);
    }
    var keys := AuditKeyCandidates(p, env, file);
    FirstSignerIsFirst(p, keys, last.value);
    var i := 0;
    while i < |keys|
      invariant 0 <= i <= |keys|
      invariant entry == last.value
      invariant FirstSigner(p, keys[i..], entry) == FirstSigner(p, keys, entry)
    {
      var savedHash := entry.currHash;
      entry := entry.(currHash := "");
      var computed := ComputeAuditHash(p, keys[i], entry);
      entry := entry.(currHash := savedHash);
      assert keys[i..][1..] == keys[i + 1..];
      if computed.Ok? && computed.value == savedHash {
        return Ok(Some(keys[i]));
      }
      i := i + 1;
    }
    return Err;
  }

  // The key of a log that has no chain to continue.
  function FreshKey(p: Primitives, env: Settings, file: KeyFile, generated: Bytes, log: Option<Bytes>): Result<Bytes> {
    if env.password != "" then Ok(p.derive(env.password))
    else match ReadKeyFile(file)
      case Err => Err
      case Ok(Some(key)) => Ok(key)
      case Ok(None) => if GeneratesKey(env, file, log) then Ok(generated) else Ok(DEFAULT_KEY)
  }

  // A new log with nothing configured gets a random key file.
  predicate GeneratesKey(env: Settings, file: KeyFile, log: Option<Bytes>) {
    env.password == "" && file.Missing? && (log.None? || log.value == "")
  }

  /** auditKeyForAppend; generated is the random key a new key file would hold. */
  function KeyForAppend(p: Primitives, env: Settings, file: KeyFile, generated: Bytes,
                        log: Option<Bytes>): Result<Bytes> {
    if env.envKey != "" then Ok(env.envKey)
    else match ContinuityKey(p, Candidates(p, env, file), log)
      case Err => Err
      case Ok(Some(key)) => Ok(key)
      case Ok(None) => FreshKey(p, env, file, generated, log)
  }

  // The key file after auditKeyForAppend.
  function KeyFileAfter(p: Primitives, env: Settings, file: KeyFile, generated: Bytes, log: Option<Bytes>): KeyFile {
    if env.envKey == "" && ContinuityKey(p, Candidates(p, env, file), log) == Ok(None) && GeneratesKey(env, file, log)
    then Present(generated)
    else file
  }

  method AuditKeyForAppend(p: Primitives, env: Settings, file: KeyFile, generated: Bytes, log: Option<Bytes>)
    returns (key: Result<Bytes>, file': KeyFile)
    ensures key == KeyForAppend(p, env, file, generated, log)
    ensures file' == KeyFileAfter(p, env, file, generated, log)
  {
    file' := file;
    if env.envKey != "" {
      return Ok(env.envKey), file;
    }
    var continuity := ChainContinuityKey(p, env, file, log);
    if continuity.Err? {
      return Err, file;
    }
    if continuity.value.Some? {
      return Ok(continuity.value.value), file;
    }
    if env.password != "" {
      return Ok(p.derive(env.password)), file;
    }
    var onDisk := ReadKeyFile(file);
    if onDisk.Err? {
      return Err, file;
    }
    if onDisk.value.Some? {
      return Ok(onDisk.value.value), file;
    }
    if log.None? || log.value == "" {
      return Ok(generated), Present(generated);
    }
    return Ok(DEFAULT_KEY), file;
  }

  /** The key of a new log: the explicit key, the password's, the key file's, or a random one,
      in that order; an unreadable or blank key file is an error, never passed over. */
  lemma {:induction false} NewLogKey(p: Primitives, env: Settings, file: KeyFile, generated: Bytes, log: Option<Bytes>)
    requires log.None? || log.value == ""
    ensures KeyForAppend(p, env, file, generated, log) ==
            if env.envKey != "" then Ok(env.envKey)
            else if env.password != "" then Ok(p.derive(env.password))
            else if file.Missing? then Ok(generated)
            else if file.Unreadable? || TrimSpace(file.data) == "" then Err
            else Ok(TrimSpace(file.data))
  {
  }

  /** A log that gets no generated key gets exactly the key new material is signed with,
      unless that would mean passing over an unreadable key file, which is refused. */
  lemma {:induction false} FreshKeyIsSigningKey(p: Primitives, env: Settings, file: KeyFile, generated: Bytes,
                                                log: Option<Bytes>)
    requires env.envKey == ""
    ensures FreshKey(p, env, file, generated, log) ==
            if env.password == "" && file.Missing? && (log.None? || log.value == "") then Ok(generated)
            else if env.password == "" && ReadKeyFile(file).Err? then Err
            else Ok(SigningKey(p, env, file))
  {
  }

  /** A key file is only ever created, for a new log with nothing configured, and then holds
      the key that signs. */
  lemma {:induction false} KeyFileOnlyForNewLog(p: Primitives, env: Settings, file: KeyFile, generated: Bytes,
                                                log: Option<Bytes>)
    ensures var file' := KeyFileAfter(p, env, file, generated, log);
            file' == if env.envKey == "" && env.password == "" && file.Missing? && (log.None? || log.value == "")
                     then Present(generated) else file
    ensures KeyFileAfter(p, env, file, generated, log) != file ==>
              KeyForAppend(p, env, file, generated, log) == Ok(generated)
  {
  }

  /** Whatever key signs, the same settings find it again: it is among the candidates that
      verification and the next append will try. */
  lemma {:induction false} SignerIsCandidate(p: Primitives, env: Settings, file: KeyFile, generated: Bytes,
                                             log: Option<Bytes>)
    requires Sound(p) && generated != "" && Trimmed(generated)
    requires KeyForAppend(p, env, file, generated, log).Ok?
    ensures KeyForAppend(p, env, file, generated, log).value in
            Candidates(p, env, KeyFileAfter(p, env, file, generated, log))
  {
    var key := KeyForAppend(p, env, file, generated, log).value;
    CandidatesExact(p, env, KeyFileAfter(p, env, file, generated, log));
    CandidatesExact(p, env, file);
    var continuity := ContinuityKey(p, Candidates(p, env, file), log);
    if env.envKey == "" && continuity.Ok? && continuity.value.Some? {
      FirstSignerIsFirst(p, Candidates(p, env, file), LastRecord(p, log).value);
    } else if env.envKey == "" {
      FreshKeyIsSigningKey(p, env, file, generated, log);
      assert TrimSpace(generated) == generated;
    }
  }

  /** A new log never gets the public default, unless it is configured on purpose. */
  lemma {:induction false} NewLogAvoidsDefault(p: Primitives, env: Settings, file: KeyFile, generated: Bytes,
                                               log: Option<Bytes>)
    requires log.None? || log.value == ""
    requires KeyForAppend(p, env, file, generated, log) == Ok(DEFAULT_KEY)
    ensures || env.envKey == DEFAULT_KEY
            || (env.password != "" && p.derive(env.password) == DEFAULT_KEY)
            || ReadKeyFile(file) == Ok(Some(DEFAULT_KEY))
            || generated == DEFAULT_KEY
  {
  }
}
