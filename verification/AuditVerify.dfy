/** Replaying a chain under every candidate key: over the lines of the log file and over
    records in memory. */
module AuditVerify {
  import opened Wrappers
  import opened Text
  import opened AuditRecord
  import opened AuditKeys

  // The scanner gives up on a line this long.
  const MAX_TOKEN := 1024 * 1024

  // What one line of the file is to the verifier.
  datatype Item = Blank | TooLong | Garbage | Rec(entry: AuditLog)

  function Decode(p: Primitives, line: Bytes): Item {
    if |line| >= MAX_TOKEN then TooLong
    else if TrimSpace(line) == "" then Blank
    else match p.unmarshal(TrimSpace(line))
      case None => Garbage
      case Some(r) => Rec(r)
  }

  function Items(p: Primitives, content: Bytes): seq<Item> {
    var lines := ScanLines(content);
    seq(|lines|, i requires 0 <= i < |lines| => Decode(p, lines[i]))
  }

  /** Where a replay stands: still running with the hash the next record must name, or
      stopped. A mismatch depends on the key; a fault (parse, format or read error) does not. */
  datatype Progress = Running(prev: Bytes) | Mismatch(at: nat) | Fault(at: nat)

  // One record against the hash it must name.
  function CheckRecord(p: Primitives, key: Bytes, prev: Bytes, r: AuditLog, at: nat): Progress {
    if Legacy(r) then Fault(at)
    else if r.prevHash != prev then Mismatch(at)
    else match ComputeAuditHash(p, key, Cleared(r))
      case Err => Fault(at)
      case Ok(hash) => if hash != r.currHash then Mismatch(at) else Running(r.currHash)
  }

  // One item, the at-th of its file counted from 1. An over-long line ends the scan
  // before it is counted.
  function CheckItem(p: Primitives, key: Bytes, prev: Bytes, item: Item, at: nat): Progress
    requires at >= 1
  {
    match item
    case Blank => Running(prev)
    case TooLong => Fault(at - 1)
    case Garbage => Fault(at)
    case Rec(r) => CheckRecord(p, key, prev, r, at)
  }

  /** verifyAuditLines under one key. */
  function Replay(p: Primitives, key: Bytes, start: Bytes, items: seq<Item>): Progress {
    if items == [] then Running(start)
    else match Replay(p, key, start, items[..|items| - 1])
      case Running(prev) => CheckItem(p, key, prev, items[|items| - 1], |items|)
      case stopped => stopped
  }

  lemma {:induction false} ReplayNext(p: Primitives, key: Bytes, start: Bytes, items: seq<Item>, i: nat)
    requires i < |items| && Replay(p, key, start, items[..i]).Running?
    ensures Replay(p, key, start, items[..i + 1]) ==
            CheckItem(p, key, Replay(p, key, start, items[..i]).prev, items[i], i + 1)
  {
    assert items[..i + 1][..i] == items[..i];
  }

  lemma {:induction false} ReplayStops(p: Primitives, key: Bytes, start: Bytes, items: seq<Item>, n: nat)
    requires n <= |items| && !Replay(p, key, start, items[..n]).Running?
    ensures Replay(p, key, start, items) == Replay(p, key, start, items[..n])
  {
    if n < |items| {
      var init := items[..|items| - 1];
      assert init[..n] == items[..n];
      ReplayStops(p, key, start, init, n);
    } else {
      assert items[..n] == items;
    }
  }

  method VerifyAuditLines(p: Primitives, content: Bytes, key: Bytes) returns (progress: Progress)
    ensures progress == Replay(p, key, ZERO_HASH, Items(p, content))
  {
    var lines := ScanLines(content);
    ghost var items := Items(p, content);
    var expectedPrev := ZERO_HASH;
    var lineNum := 0;
    while lineNum < |lines|
      invariant 0 <= lineNum <= |lines|
      invariant Replay(p, key, ZERO_HASH, items[..lineNum]) == Running(expectedPrev)
    {
      var item := Decode(p, lines[lineNum]);
      ReplayNext(p, key, ZERO_HASH, items, lineNum);
      if item.TooLong? {
        ReplayStops(p, key, ZERO_HASH, items, lineNum + 1);
        return Fault(lineNum);
      }
      lineNum := lineNum + 1;
      if item.Blank? {
        continue;
      }
      if item.Garbage? {
        ReplayStops(p, key, ZERO_HASH, items, lineNum);
        return Fault(lineNum);
      }
      progress := CheckEntry(p, key, expectedPrev, item.entry, lineNum);
      if !progress.Running? {
        ReplayStops(p, key, ZERO_HASH, items, lineNum);
        return;
      }
      expectedPrev := progress.prev;
    }
    assert items[..lineNum] == items;
    return Running(expectedPrev);
  }

  /** The replay goes on exactly past a record that links to expectedPrev under key; a fault,
      unlike a mismatch, is one under every key. */
  method CheckEntry(p: Primitives, key: Bytes, expectedPrev: Bytes, r: AuditLog, at: nat) returns (progress: Progress)
    ensures progress == CheckRecord(p, key, expectedPrev, r, at)
    ensures progress.Running? <==> Linked(p, key, expectedPrev, r)
    ensures progress.Running? ==> progress.prev == r.currHash
    ensures progress.Fault? ==> forall k :: !Linked(p, k, expectedPrev, r)
    ensures progress.Fault? <==>
            || (r.prevHash == "" && r.currHash == "")
            || (r.prevHash == expectedPrev
                && (|| p.marshal(r.(currHash := "")).None?
                    || (r.macAlgo != "" && r.macAlgo != "sha256" && r.macAlgo != "sm3")))
    ensures !progress.Running? ==> progress.at == at
  {
    var entry := r;
    if entry.prevHash == "" && entry.currHash == "" {
      return Fault(at);
    }
    if entry.prevHash != expectedPrev {
      return Mismatch(at);
    }
    var savedHash := entry.currHash;
    entry := entry.(currHash := "");
    var computed := ComputeAuditHash(p, key, entry);
    if computed.Err? {
      return Fault(at);
    }
    if computed.value != savedHash {
      return Mismatch(at);
    }
    return Running(savedHash);
  }

  // -------------------------------------------- what one replay establishes

  function Records(items: seq<Item>): seq<AuditLog> {
    if items == [] then []
    else
      var before, last := Records(items[..|items| - 1]), items[|items| - 1];
      if last.Rec? then before + [last.entry] else before
  }

  predicate Readable(items: seq<Item>) {
    forall i | 0 <= i < |items| :: items[i].Blank? || items[i].Rec?
  }

  /** A replay runs to the end exactly on a readable file whose records are a chain. */
  lemma {:induction false} ReplayIsChain(p: Primitives, key: Bytes, start: Bytes, items: seq<Item>)
    ensures Replay(p, key, start, items).Running? <==>
            Readable(items) && Chain(p, key, start, Records(items))
    ensures Replay(p, key, start, items).Running? ==>
              Replay(p, key, start, items).prev == Head(start, Records(items))
  {
    if items != [] {
      var n := |items| - 1;
      var init, last := items[..n], items[n];
      ReplayIsChain(p, key, start, init);
      assert Readable(items) <==> Readable(init) && (last.Blank? || last.Rec?) by {
        assert items == init + [last];
      }
      if last.Rec? {
        ChainExtends(p, key, start, Records(init), last.entry);
      }
    }
  }

  /** A mismatch or fault names the item just past the longest prefix that replays. */
  lemma {:induction false} StopsAfterLongestPrefix(p: Primitives, key: Bytes, start: Bytes, items: seq<Item>)
    returns (n: nat)
    requires !Replay(p, key, start, items).Running?
    ensures n < |items|
    ensures forall m | 0 <= m <= |items| :: Replay(p, key, start, items[..m]).Running? <==> m <= n
    ensures Replay(p, key, start, items).Mismatch? ==> Replay(p, key, start, items).at == n + 1
    ensures Replay(p, key, start, items).Fault? ==>
              Replay(p, key, start, items).at == if items[n].TooLong? then n else n + 1
  {
    var last := |items| - 1;
    var init := items[..last];
    if Replay(p, key, start, init).Running? {
      n := last;
      forall m | 0 <= m <= |items|
        ensures Replay(p, key, start, items[..m]).Running? <==> m <= n
      {
        if m <= last {
          assert init[..m] == items[..m];
          if !Replay(p, key, start, items[..m]).Running? {
            ReplayStops(p, key, start, init, m);
          }
        } else {
          assert items[..m] == items;
        }
      }
    } else {
      n := StopsAfterLongestPrefix(p, key, start, init);
      forall m | 0 <= m <= |items|
        ensures Replay(p, key, start, items[..m]).Running? <==> m <= n
      {
        if m <= last {
          assert init[..m] == items[..m];
        } else {
          assert items[..m] == items;
        }
      }
    }
  }

  // Under another key the replay can only stop earlier, or at the same fault.
  lemma {:induction false} FaultsIgnoreTheKey(p: Primitives, k1: Bytes, k2: Bytes, start: Bytes, items: seq<Item>)
    ensures Replay(p, k1, start, items).Fault? ==> !Replay(p, k2, start, items).Running?
    ensures Replay(p, k1, start, items).Running? && Replay(p, k2, start, items).Running? ==>
              Replay(p, k1, start, items) == Replay(p, k2, start, items)
  {
    if items != [] {
      FaultsIgnoreTheKey(p, k1, k2, start, items[..|items| - 1]);
    }
  }

  // ------------------------------------------------------------ many keys

  /** The verdict over all candidates: the first replay that does not merely mismatch, or
      the top-priority key's mismatch. */
  function ReplayAny(p: Primitives, keys: seq<Bytes>, start: Bytes, items: seq<Item>): Progress
    requires keys != []
  {
    var first := Replay(p, keys[0], start, items);
    if !first.Mismatch? || |keys| == 1 then first
    else
      var rest := ReplayAny(p, keys[1..], start, items);
      if rest.Mismatch? then first else rest
  }

  /** Stopping at a fault never hides a good key: the verdict is valid exactly when some
      candidate replays everything; otherwise it is the first candidate's mismatch, or a
      fault that some candidate met. */
  lemma {:induction false} VerdictExact(p: Primitives, keys: seq<Bytes>, start: Bytes, items: seq<Item>)
    requires keys != []
    ensures ReplayAny(p, keys, start, items).Running? <==>
            exists k | k in keys :: Replay(p, k, start, items).Running?
    ensures ReplayAny(p, keys, start, items).Mismatch? ==>
              && ReplayAny(p, keys, start, items) == Replay(p, keys[0], start, items)
              && forall k | k in keys :: Replay(p, k, start, items).Mismatch?
    ensures ReplayAny(p, keys, start, items).Fault? ==>
              exists k | k in keys :: Replay(p, k, start, items) == ReplayAny(p, keys, start, items)
  {
    var first := Replay(p, keys[0], start, items);
    if first.Fault? {
      forall k | k in keys
        ensures !Replay(p, k, start, items).Running?
      {
        FaultsIgnoreTheKey(p, keys[0], k, start, items);
      }
    } else if first.Mismatch? && |keys| > 1 {
      VerdictExact(p, keys[1..], start, items);
      assert forall k :: k in keys <==> k == keys[0] || k in keys[1..];
    }
  }

  /** VerifyAuditChain: a missing file is intact. */
  function Verdict(p: Primitives, keys: seq<Bytes>, log: Option<Bytes>): Progress
    requires keys != []
  {
    if log.None? then Running(ZERO_HASH) else ReplayAny(p, keys, ZERO_HASH, Items(p, log.value))
  }

  method VerifyAuditChain(p: Primitives, env: Settings, file: KeyFile, log: Option<Bytes>) returns (verdict: Progress)
    ensures verdict == Verdict(p, Candidates(p, env, file), log)
  {
    if log.None? {
      return Running(ZERO_HASH);
    }
    var keys := AuditKeyCandidates(p, env, file);
    verdict := TryKeys(p, keys, log.value);
  }

  // The first conclusive result, or the first mismatch.
  method TryKeys(p: Primitives, keys: seq<Bytes>, content: Bytes) returns (verdict: Progress)
    requires keys != []
    ensures verdict == ReplayAny(p, keys, ZERO_HASH, Items(p, content))
  {
    ghost var items := Items(p, content);
    var results: seq<Progress> := [];
    var i := 0;
    while i < |keys|
      invariant 0 <= i <= |keys| && |results| == i
      invariant forall j | 0 <= j < i :: Replay(p, keys[j], ZERO_HASH, items).Mismatch?
      invariant i > 0 ==> results[0] == Replay(p, keys[0], ZERO_HASH, items)
    {
      var result := VerifyAuditLines(p, content, keys[i]);
      results := results + [result];
      if !result.Mismatch? {
        FirstConclusive(p, keys, ZERO_HASH, items, i);
        return result;
      }
      i := i + 1;
    }
    AllMismatch(p, keys, ZERO_HASH, items);
    return results[0];
  }

  lemma {:induction false} FirstConclusive(p: Primitives, keys: seq<Bytes>, start: Bytes, items: seq<Item>, i: nat)
    requires i < |keys| && !Replay(p, keys[i], start, items).Mismatch?
    requires forall j | 0 <= j < i :: Replay(p, keys[j], start, items).Mismatch?
    ensures ReplayAny(p, keys, start, items) == Replay(p, keys[i], start, items)
  {
    if i > 0 {
      assert forall j | 0 <= j < i - 1 :: keys[1..][j] == keys[j + 1];
      FirstConclusive(p, keys[1..], start, items, i - 1);
    }
  }

  lemma {:induction false} AllMismatch(p: Primitives, keys: seq<Bytes>, start: Bytes, items: seq<Item>)
    requires keys != [] && forall j | 0 <= j < |keys| :: Replay(p, keys[j], start, items).Mismatch?
    ensures ReplayAny(p, keys, start, items) == Replay(p, keys[0], start, items)
  {
    if |keys| > 1 {
      assert forall j | 0 <= j < |keys| - 1 :: keys[1..][j] == keys[j + 1];
      AllMismatch(p, keys[1..], start, items);
    }
  }

  // A line the verifier gets past: shorter than 1 MiB, and blank or a record.
  predicate GoodLine(p: Primitives, line: Bytes) {
    |line| < 1024 * 1024 && (TrimSpace(line) == "" || p.unmarshal(TrimSpace(line)).Some?)
  }

  /** A file is valid exactly when every line is good and the records are a chain under some
      candidate; a missing file is valid. */
  lemma {:induction false} ValidFileExact(p: Primitives, keys: seq<Bytes>, log: Option<Bytes>)
    requires keys != []
    ensures Verdict(p, keys, log).Running? <==>
            log.Some? ==>
              && (forall i | 0 <= i < |ScanLines(log.value)| :: GoodLine(p, ScanLines(log.value)[i]))
              && exists k | k in keys :: Chain(p, k, ZERO_HASH, Records(Items(p, log.value)))
  {
    if log.Some? {
      var lines, items := ScanLines(log.value), Items(p, log.value);
      VerdictExact(p, keys, ZERO_HASH, items);
      forall k | k in keys
        ensures Replay(p, k, ZERO_HASH, items).Running? <==> Readable(items) && Chain(p, k, ZERO_HASH, Records(items))
      {
        ReplayIsChain(p, k, ZERO_HASH, items);
      }
      GoodIsReadable(p, lines, items);
    }
  }

  lemma {:induction false} GoodIsReadable(p: Primitives, lines: seq<Bytes>, items: seq<Item>)
    requires |items| == |lines| && forall i | 0 <= i < |lines| :: items[i] == Decode(p, lines[i])
    ensures Readable(items) <==> forall i | 0 <= i < |lines| :: GoodLine(p, lines[i])
  {
    forall i | 0 <= i < |lines|
      ensures GoodLine(p, lines[i]) <==> items[i].Blank? || items[i].Rec?
    {
    }
    if !Readable(items) {
      var i :| 0 <= i < |items| && !(items[i].Blank? || items[i].Rec?);
      assert !GoodLine(p, lines[i]);
    }
  }

  // ------------------------------------------------------------- in memory

  function AsItems(rs: seq<AuditLog>): seq<Item> {
    seq(|rs|, i requires 0 <= i < |rs| => Rec(rs[i]))
  }

  lemma {:induction false} RecordsOfItems(rs: seq<AuditLog>)
    ensures Records(AsItems(rs)) == rs
  {
    if rs != [] {
      var n := |rs| - 1;
      assert AsItems(rs)[..n] == AsItems(rs[..n]);
      RecordsOfItems(rs[..n]);
      assert rs == rs[..n] + [rs[n]];
    }
  }

  /** verifyAuditRecordChainFrom: the same rules over records in memory. */
  method VerifyAuditRecordChainFrom(p: Primitives, env: Settings, file: KeyFile, rs: seq<AuditLog>, start: Bytes)
    returns (verdict: Progress)
    ensures verdict == ReplayAny(p, Candidates(p, env, file), start, AsItems(rs))
  {
    var keys := AuditKeyCandidates(p, env, file);
    ghost var items := AsItems(rs);
    var firstMismatch: Option<Progress> := None;
    var i := 0;
    while i < |keys|
      invariant 0 <= i <= |keys|
      invariant forall j | 0 <= j < i :: Replay(p, keys[j], start, items).Mismatch?
      invariant if i == 0 then firstMismatch == None
                else firstMismatch == Some(Replay(p, keys[0], start, items))
    {
      var result := ReplayRecords(p, keys[i], rs, start);
      if !result.Mismatch? {
        FirstConclusive(p, keys, start, items, i);
        return result;
      }
      if firstMismatch.None? {
        firstMismatch := Some(result);
      }
      i := i + 1;
    }
    AllMismatch(p, keys, start, items);
    return firstMismatch.value;
  }

  method ReplayRecords(p: Primitives, key: Bytes, rs: seq<AuditLog>, start: Bytes) returns (progress: Progress)
    ensures progress == Replay(p, key, start, AsItems(rs))
  {
    ghost var items := AsItems(rs);
    var expectedPrev := start;
    var i := 0;
    while i < |rs|
      invariant 0 <= i <= |rs|
      invariant Replay(p, key, start, items[..i]) == Running(expectedPrev)
    {
      ReplayNext(p, key, start, items, i);
      progress := CheckEntry(p, key, expectedPrev, rs[i], i + 1);
      if !progress.Running? {
        ReplayStops(p, key, start, items, i + 1);
        return;
      }
      expectedPrev := progress.prev;
      i := i + 1;
    }
    assert items[..i] == items;
    return Running(expectedPrev);
  }

  /** On a file without blank, over-long or unparsable lines both verifiers say the same:
      same verdict, same position. */
  lemma {:induction false} FileAgreesWithMemory(p: Primitives, keys: seq<Bytes>, content: Bytes, rs: seq<AuditLog>)
    requires keys != []
    requires Items(p, content) == AsItems(rs)
    ensures Verdict(p, keys, Some(content)) == ReplayAny(p, keys, ZERO_HASH, AsItems(rs))
    ensures Verdict(p, keys, Some(content)).Running? <==> exists k | k in keys :: Chain(p, k, ZERO_HASH, rs)
  {
    var items := AsItems(rs);
    RecordsOfItems(rs);
    VerdictExact(p, keys, ZERO_HASH, items);
    forall k | k in keys
      ensures Replay(p, k, ZERO_HASH, items).Running? <==> Chain(p, k, ZERO_HASH, rs)
    {
      ReplayIsChain(p, k, ZERO_HASH, items);
    }
  }
}
