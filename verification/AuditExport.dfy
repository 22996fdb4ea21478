/** "aflare audit export": verify the log, read it, filter it, build and sign the bundle. */
module AuditExport {
  import opened Wrappers
  import opened Text
  import opened AuditRecord
  import opened AuditKeys
  import opened AuditVerify
  import opened AuditBundle
  import opened TamperEvidence

  // A day less a nanosecond: a bare --until date covers its whole day.
  const END_OF_DAY := 24 * 3600 * 1000000000 - 1

  // --since and --until as typed; parseTime gives the instant and whether it was a bare date.
  datatype Options = Options(since: Bytes, until: Bytes, parseTime: Bytes -> Option<(int, bool)>)

  function SinceTime(opts: Options): Result<int> {
    if opts.since == "" then Ok(0)
    else match opts.parseTime(opts.since)
      case None => Err
      case Some((t, _)) => Ok(t)
  }

  function UntilTime(opts: Options): Result<int> {
    if opts.until == "" then Ok(0)
    else match opts.parseTime(opts.until)
      case None => Err
      case Some((t, dateOnly)) => Ok(if dateOnly then t + END_OF_DAY else t)
  }

  function FilterOf(opts: Options): Option<Filter> {
    if opts.since != "" || opts.until != "" then Some(Filter(opts.since, opts.until)) else None
  }

  // -------------------------------------------------------------- reading

  // The records of nonblank lines, which are parsed untrimmed here.
  function ParseLines(p: Primitives, lines: seq<Bytes>): Result<seq<AuditLog>> {
    if lines == [] then Ok([])
    else
      var line := lines[|lines| - 1];
      match ParseLines(p, lines[..|lines| - 1])
      case Err => Err
      case Ok(before) =>
        if TrimSpace(line) == "" then Ok(before)
        else match p.unmarshal(line)
          case None => Err
          case Some(r) => Ok(before + [r])
  }

  /** ReadAuditLogFile */
  function ReadFile(p: Primitives, log: Option<Bytes>): Result<seq<AuditLog>> {
    if log.None? then Ok([]) else ParseLines(p, Split(log.value))
  }

  // The records are those of the nonblank lines, in order.
  predicate Parses(p: Primitives, lines: seq<Bytes>, rs: seq<AuditLog>, at: seq<int>) {
    && Positions(at, |lines|) && |rs| == |at|
    && (forall k | 0 <= k < |at| :: p.unmarshal(lines[at[k]]) == Some(rs[k]))
    && forall i | 0 <= i < |lines| :: i in at <==> TrimSpace(lines[i]) != ""
  }

  lemma {:induction false} ParsedLines(p: Primitives, lines: seq<Bytes>) returns (at: seq<int>)
    ensures ParseLines(p, lines).Ok? <==>
            forall i | 0 <= i < |lines| :: TrimSpace(lines[i]) == "" || p.unmarshal(lines[i]).Some?
    ensures ParseLines(p, lines).Ok? ==> Parses(p, lines, ParseLines(p, lines).value, at)
  {
    at := [];
    if lines != [] {
      var n := |lines| - 1;
      at := ParsedLines(p, lines[..n]);
      assert forall i | 0 <= i < n :: lines[..n][i] == lines[i];
      if ParseLines(p, lines[..n]).Ok? {
        ParsesMore(p, lines, ParseLines(p, lines[..n]).value, at);
      }
      if TrimSpace(lines[n]) != "" {
        at := at + [n];
      }
    }
  }

  lemma {:induction false} ParsesMore(p: Primitives, lines: seq<Bytes>, rs: seq<AuditLog>, at: seq<int>)
    requires lines != [] && Parses(p, lines[..|lines| - 1], rs, at)
    ensures var n := |lines| - 1;
            && (TrimSpace(lines[n]) == "" ==> Parses(p, lines, rs, at))
            && (TrimSpace(lines[n]) != "" && p.unmarshal(lines[n]).Some? ==>
                  Parses(p, lines, rs + [p.unmarshal(lines[n]).value], at + [n]))
  {
    var n := |lines| - 1;
    var more := at + [n];
    assert forall i | 0 <= i < n :: lines[..n][i] == lines[i];
    assert forall i :: i in more <==> i in at || i == n;
    assert forall k | 0 <= k < |at| :: at[k] in at;
  }

  // Every nonblank line is a record and these are they, or one is not.
  ghost predicate ReadExactly(p: Primitives, lines: seq<Bytes>, records: Result<seq<AuditLog>>) {
    if records.Ok? then exists at :: Parses(p, lines, records.value, at)
    else exists i | 0 <= i < |lines| :: TrimSpace(lines[i]) != "" && p.unmarshal(lines[i]).None?
  }

  lemma {:induction false} ParsedExactly(p: Primitives, lines: seq<Bytes>)
    ensures ReadExactly(p, lines, ParseLines(p, lines))
  {
    var at := ParsedLines(p, lines);
  }

  /** All nonblank lines parsed in file order, or an error when one does not parse; a missing
      file has no records. */
  method ReadAuditLogFile(p: Primitives, log: Option<Bytes>) returns (records: Result<seq<AuditLog>>)
    ensures records == ReadFile(p, log)
    ensures log.None? ==> records == Ok([])
    ensures log.Some? ==> ReadExactly(p, Split(log.value), records)
  {
    if log.Some? {
      ParsedExactly(p, Split(log.value));
    }
    if log.None? {
      return Ok([]);
    }
    var lines := Split(log.value);
    var logs: seq<AuditLog> := [];
    var i := 0;
    while i < |lines|
      invariant 0 <= i <= |lines|
      invariant ParseLines(p, lines[..i]) == Ok(logs)
    {
      assert lines[..i + 1][..i] == lines[..i];
      var line := lines[i];
      i := i + 1;
      if TrimSpace(line) == "" {
        continue;
      }
      var r := p.unmarshal(line);
      if r.None? {
        ParseFails(p, lines, i);
        return Err;
      }
      logs := logs + [r.value];
    }
    assert lines[..i] == lines;
    return Ok(logs);
  }

  lemma {:induction false} ParseFails(p: Primitives, lines: seq<Bytes>, n: nat)
    requires n <= |lines| && ParseLines(p, lines[..n]).Err?
    ensures ParseLines(p, lines).Err?
  {
    if n < |lines| {
      assert lines[..|lines| - 1][..n] == lines[..n];
      ParseFails(p, lines[..|lines| - 1], n);
    } else {
      assert lines[..n] == lines;
    }
  }

  // The lines parse the same with and without the white space around them.
  predicate SpaceInsensitive(p: Primitives, content: Bytes) {
    forall i | 0 <= i < |Split(content)| ::
      TrimSpace(Split(content)[i]) != "" ==> p.unmarshal(Split(content)[i]) == p.unmarshal(TrimSpace(Split(content)[i]))
  }

  lemma {:induction false} ParseIsRecords(p: Primitives, lines: seq<Bytes>)
    requires forall i | 0 <= i < |lines| ::
               TrimSpace(lines[i]) != "" ==> p.unmarshal(lines[i]) == p.unmarshal(TrimSpace(lines[i]))
    requires Readable(seq(|lines|, i requires 0 <= i < |lines| => Decode(p, lines[i])))
    ensures ParseLines(p, lines) == Ok(Records(seq(|lines|, i requires 0 <= i < |lines| => Decode(p, lines[i]))))
  {
    if lines != [] {
      var n := |lines| - 1;
      var init := lines[..n];
      var items := seq(|lines|, i requires 0 <= i < |lines| => Decode(p, lines[i]));
      var inits := seq(|init|, i requires 0 <= i < |init| => Decode(p, init[i]));
      assert items[..n] == inits;
      assert forall i | 0 <= i < n :: items[i] == inits[i];
      ParseIsRecords(p, init);
      assert items[n] == Decode(p, lines[n]);
    }
  }

  /** What is read back is exactly what was verified. */
  lemma {:induction false} ReadsWhatWasVerified(p: Primitives, content: Bytes)
    requires SpaceInsensitive(p, content) && Readable(Items(p, content))
    ensures ReadFile(p, Some(content)) == Ok(Records(Items(p, content)))
  {
    var lines, scanned := Split(content), ScanLines(content);
    ParseIsRecords(p, scanned);
    if |scanned| < |lines| {
      assert lines[..|lines| - 1] == scanned && lines[|lines| - 1] == "";
    }
  }

  // ------------------------------------------------------------ exporting

  /** runAuditExport up to writing the file. */
  function Export(p: Primitives, f: Formats, env: Settings, file: KeyFile, log: Option<Bytes>, opts: Options,
                  generatedAt: Bytes): Result<Bundle> {
    if !Verdict(p, Candidates(p, env, file), log).Running? then Err
    else match (ReadFile(p, log), SinceTime(opts), UntilTime(opts))
      case (Ok(all), Ok(since), Ok(until)) =>
        Build(p, f, SigningKey(p, env, file), Filtered(all, since, until), FilterOf(opts), generatedAt)
      case _ => Err
  }

  // What --since or --until was parsed to; a bare date given to --until covers its whole day.
  predicate Bounds(opts: Options, since: int, until: int) {
    && (if opts.since == "" then since == 0
        else opts.parseTime(opts.since).Some? && since == opts.parseTime(opts.since).value.0)
    && (if opts.until == "" then until == 0
        else
          && opts.parseTime(opts.until).Some?
          && var (t, dateOnly) := opts.parseTime(opts.until).value;
             until == if dateOnly then t + 86400000000000 - 1 else t)
  }

  /** What an export holds: it is made only from a valid log, its records are exactly those
      read that lie within the bounds given, and its manifest names those bounds. */
  lemma {:induction false} ExportIsSelection(p: Primitives, f: Formats, env: Settings, file: KeyFile,
                                             log: Option<Bytes>, opts: Options, generatedAt: Bytes)
    returns (since: int, until: int, at: seq<int>)
    requires Export(p, f, env, file, log, opts, generatedAt).Ok?
    ensures var b := Export(p, f, env, file, log, opts, generatedAt).value;
            && Verdict(p, Candidates(p, env, file), log).Running? && ReadFile(p, log).Ok?
            && Bounds(opts, since, until) && Picks(ReadFile(p, log).value, since, until, b.records, at)
            && b.manifest.filter == (if opts.since == "" && opts.until == "" then None
                                     else Some(Filter(opts.since, opts.until)))
            && b.generatedAt == generatedAt
  {
    since, until := SinceTime(opts).value, UntilTime(opts).value;
    var all := ReadFile(p, log).value;
    at := FilteredPicks(all, since, until);
    BuildDescribes(p, f, SigningKey(p, env, file), Filtered(all, since, until), FilterOf(opts), generatedAt);
  }

  /** And it is refused exactly when the log is not valid or not readable, a bound does not
      parse, or the bundle cannot be encoded. */
  lemma {:induction false} ExportRefusedIff(p: Primitives, f: Formats, env: Settings, file: KeyFile,
                                            log: Option<Bytes>, opts: Options, generatedAt: Bytes)
    ensures Export(p, f, env, file, log, opts, generatedAt).Err? <==>
            || !Verdict(p, Candidates(p, env, file), log).Running? || ReadFile(p, log).Err?
            || (opts.since != "" && opts.parseTime(opts.since).None?)
            || (opts.until != "" && opts.parseTime(opts.until).None?)
            || Build(p, f, SigningKey(p, env, file),
                     Filtered(ReadFile(p, log).value, SinceTime(opts).value, UntilTime(opts).value),
                     FilterOf(opts), generatedAt).Err?
  {
  }

  method RunAuditExport(p: Primitives, f: Formats, env: Settings, file: KeyFile, log: Option<Bytes>, opts: Options,
                        generatedAt: Bytes)
    returns (bundle: Result<Bundle>)
    ensures bundle == Export(p, f, env, file, log, opts, generatedAt)
  {
    var verdict := VerifyAuditChain(p, env, file, log);
    if !verdict.Running? {
      return Err;
    }
    var all := ReadAuditLogFile(p, log);
    if all.Err? {
      return Err;
    }
    var since := SinceTime(opts);
    if since.Err? {
      return Err;
    }
    var until := UntilTime(opts);
    if until.Err? {
      return Err;
    }
    var selected := FilterAuditRecords(all.value, since.value, until.value);
    bundle := BuildAuditBundle(p, f, env, file, selected, FilterOf(opts), generatedAt);
  }

  // The log verifies, so some candidate key chains its records.
  lemma {:induction false} VerifiedLogHasKey(p: Primitives, keys: seq<Bytes>, content: Bytes) returns (key: Bytes)
    requires keys != [] && Verdict(p, keys, Some(content)).Running?
    ensures key in keys && Readable(Items(p, content)) && Chain(p, key, ZERO_HASH, Records(Items(p, content)))
  {
    VerdictExact(p, keys, ZERO_HASH, Items(p, content));
    key :| key in keys && Replay(p, key, ZERO_HASH, Items(p, content)).Running?;
    ReplayIsChain(p, key, ZERO_HASH, Items(p, content));
  }

  lemma {:induction false} NoFilterKeepsAll(rs: seq<AuditLog>)
    ensures Filtered(rs, 0, 0) == rs
  {
    if rs != [] {
      NoFilterKeepsAll(rs[..|rs| - 1]);
      assert rs == rs[..|rs| - 1] + [rs[|rs| - 1]];
    }
  }

  // An unfiltered bundle holds the whole log and passes; a filtered one passes exactly when
  // the filter keeps a contiguous part of the log, or the MAC fails on the log.
  ghost predicate RoundTrips(p: Primitives, f: Formats, keys: seq<Bytes>, all: seq<AuditLog>, opts: Options, b: Bundle)
    requires keys != [] && SinceTime(opts).Ok? && UntilTime(opts).Ok?
  {
    var since, until := SinceTime(opts).value, UntilTime(opts).value;
    && b.records == Filtered(all, since, until)
    && (FilterOf(opts).None? ==> b.records == all && Check(p, f, keys, b) == Accepted)
    && (Contiguous(all, since, until) ==> Check(p, f, keys, b) == Accepted)
    && (Check(p, f, keys, b) == Accepted ==>
          Contiguous(all, since, until) || exists key | key in keys :: MacBroken(p, key, all, all))
  }

  /** Export round trip: whenever an export is made at all, an unfiltered one holds the whole
      log and verifies; a filtered one verifies exactly when the filter keeps a contiguous part
      of the log. */
  lemma {:induction false} ExportRoundTrip(p: Primitives, f: Formats, env: Settings, file: KeyFile, content: Bytes,
                                           opts: Options, generatedAt: Bytes)
    requires Sound(p) && SpaceInsensitive(p, content)
    ensures var bundle := Export(p, f, env, file, Some(content), opts, generatedAt);
            bundle.Ok? ==>
              && SinceTime(opts).Ok? && UntilTime(opts).Ok?
              && RoundTrips(p, f, Candidates(p, env, file), Records(Items(p, content)), opts, bundle.value)
  {
    if Export(p, f, env, file, Some(content), opts, generatedAt).Ok? {
      var keys, all := Candidates(p, env, file), Records(Items(p, content));
      var key := VerifiedLogHasKey(p, keys, content);
      ReadsWhatWasVerified(p, content);
      var since, until := SinceTime(opts).value, UntilTime(opts).value;
      if FilterOf(opts).None? {
        NoFilterKeepsAll(all);
        FullBundlePasses(p, f, env, file, key, all, generatedAt);
        assert KeptRange(all, since, until, 0, |all|);
      } else {
        FilteredBundlePassesIffContiguous(p, f, env, file, key, all, since, until, FilterOf(opts).value, generatedAt);
      }
    }
  }

  predicate Ordered(rs: seq<AuditLog>) {
    forall i, j | 0 <= i < j < |rs| :: rs[i].timestamp <= rs[j].timestamp
  }

  lemma {:induction false} OrderedPasses(p: Primitives, f: Formats, keys: seq<Bytes>, all: seq<AuditLog>,
                                         opts: Options, b: Bundle)
    requires keys != [] && SinceTime(opts).Ok? && UntilTime(opts).Ok?
    requires RoundTrips(p, f, keys, all, opts, b) && Ordered(all)
    ensures Check(p, f, keys, b) == Accepted
  {
    OrderedTimesAreContiguous(all, SinceTime(opts).value, UntilTime(opts).value);
  }

  /** So with timestamps in chain order every export verifies, whatever the filter. */
  lemma {:induction false} OrderedExportVerifies(p: Primitives, f: Formats, env: Settings, file: KeyFile,
                                                 content: Bytes, opts: Options, generatedAt: Bytes)
    requires Sound(p) && SpaceInsensitive(p, content) && Ordered(Records(Items(p, content)))
    ensures var bundle := Export(p, f, env, file, Some(content), opts, generatedAt);
            bundle.Ok? ==> Check(p, f, Candidates(p, env, file), bundle.value) == Accepted
  {
    ExportRoundTrip(p, f, env, file, content, opts, generatedAt);
    var bundle := Export(p, f, env, file, Some(content), opts, generatedAt);
    if bundle.Ok? {
      OrderedPasses(p, f, Candidates(p, env, file), Records(Items(p, content)), opts, bundle.value);
    }
  }
}
