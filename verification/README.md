# aflare, verified

A Dafny model of the parts of aflare whose correctness spans many calls: the tamper-evident
audit log (signing, key continuity, locking, verification, export, tail), the LRU cache, the
edit distance behind command suggestions, the rotating log writer, the delegation protocol
with its circuit breaker, the session manager and the file watcher's diff. Each operation is
a method or function that follows the source branch by branch; the theorems are about every
input, every run or every interleaving. `dafny verify dfyconfig.toml` checks everything.

| file | what it holds |
|---|---|
| Wrappers.dfy, Text.dfy | options and results; byte strings, white space, lines |
| AuditRecord.dfy, TamperEvidence.dfy | records, the hash chain, what a head hash proves |
| AuditKeys.dfy, AuditAppend.dfy | key candidates, key continuity, the tail window, one append |
| AuditVerify.dfy, AuditRuns.dfy | replay under many keys; whole runs of appends |
| AuditLock.dfy | interleavings of processes around the lock file |
| AuditBundle.dfy, AuditExport.dfy | the signed export bundle and the export command |
| AuditTail.dfy | the backward scan and the follower |
| LruRuns.dfy, LruInclusion.dfy, LruCache.dfy | the cache as a list, two caches compared, the cache as a class |
| Levenshtein.dfy, LogRotation.dfy | edit distance; size rotation |
| Breaker.dfy, A2A.dfy | circuit breaker; retries, submission, polling |
| Sessions.dfy, FileWatch.dfy | session eviction; snapshot diff |

Time, randomness, the network, map iteration order and the settings in the environment are
parameters. HMAC, PBKDF2, SHA-256 and JSON are function-valued parameters (`Primitives`,
`Formats`); all that is used of them is stated in two predicates. `Sound`: an encoded record
is one visible line that parses back to the same record, a MAC is 64 bytes of hex, a derived
key is not empty. `SuffixFree`: no proper suffix of an encoded record parses; it matters only
for records longer than the tail window (`Legible`: it holds, or every record fits). The MAC
is never taken to be injective: where that would be needed, the theorem ends in "or here are
the two inputs with the same MAC" (`MacBroken`, `KeyCollision`, `SomeCollision`, `Broken`),
each a pair of different (algorithm, key, message) arguments of `hmac` with one result.

## What turned out not to hold

* Key continuity looks only at the last 8192 bytes. After a record whose line does not fit
  there, the next append picks its key as for a fresh log and can break the chain for good
  (`OversizeRecordLosesContinuity`); two calls on a missing log are enough to get there
  (`OversizeRunLosesKey`). `AppendKeepsKeyIffSafe` and `RunKeepsOneKeyIffSafe` give
  the exact condition for one append and for whole runs, `Safe`, which a caller can check.
  The comment on `auditKeyForAppend` promises continuity without this condition.
* Reclaiming a stale lock looks at the file and removes it in two steps. Two waiters can both
  see a crashed holder's lock, and the slower one then removes the faster one's fresh lock
  (`ReclaimRace`); the log then ends in two records that name the same predecessor
  (`ReclaimRaceForks`). Exclusion holds in every interleaving in which no live holder's lock is
  removed, and any such removal breaks it in the remover's next step. No process can check
  that, but an operator can see to a condition that implies it: no lock file ever gets older
  than 30 seconds (`PromptRunsAreSequential`).
* A filtered export verifies exactly when the filter keeps a contiguous part of the log.
  Timestamps are supplied by callers, so nothing makes them follow the chain order.
* The bundle signature does not cover `record_count` and `time_range`, and verification does
  not look at them (`CountAndRangeAreFree`); everything else it fixes (`SignatureFixesBundle`).
* `audit tail -n 0` on a file with a torn last line later emits the rest of that line as a
  line of its own (`FollowOnlySplitsTornLine`). It is exact for every way the file may grow if
  and only if the file ends in a newline when opened (`FollowOnlyExactIff`).
* The smaller of two caches is not always a prefix of the larger, because a `Get` that misses
  does not insert. `PrefixKeptIff` says which operation breaks it and `PrefixThroughoutIff`
  which runs never do; as a subsequence, and for hits, inclusion holds over every run.
* The LRU scan of the session manager uses the empty string for "nothing found". It names a
  least recently used session in every map order exactly when the empty session id is not
  itself the one oldest (`EvictsOldestIff`); `LimitKeptIff` says exactly when a new session
  keeps the limit in every map order.

## Model

| member | source | states |
|---|---|---|
| Text.SplitIsExact | internal/history/history_append.go:229 | no piece holds a newline and the pieces joined are the text again |
| Text.TrimIsExact | internal/history/history_verify.go:124 | trimming takes away white space only and leaves none at either end |
| Text.LastVisibleIsLast | internal/history/history_append.go:228-236 | a backward walk over lines gets the last one that is not blank, trimmed, or nothing |
| AuditRecord.SignsExactly | internal/history/history_append.go:145-166 | a record is signed exactly when its hash is the HMAC, by the algorithm it names, of prev_hash followed by the record's encoding without curr_hash |
| AuditRecord.HashFailsIff | internal/history/history_append.go:145-166 | the hash is refused exactly for a record that has one, names an unknown algorithm or does not encode |
| AuditRecord.ChainPrefix | internal/history/history_verify.go:119-157 | every prefix of a chain that replays also replays, and the next record links to its head |
| AuditRecord.ChainSlice | internal/history/bundle.go:328-334 | a contiguous slice of a chain is a chain from the hash its first record names |
| TamperEvidence.SameRecord | internal/history/history_append.go:145-166 | two signed records with one hash and prev_hashes of one length are the same record, or a MAC collision |
| TamperEvidence.ChangeShows | internal/history/history_append.go:145-166 | a record changed in any field under its old hash is no longer signed, or the change is an explicit MAC collision |
| TamperEvidence.SameHeadSameLog | internal/history/history_append.go:145-166 | two logs that replay under one key and end in one hash are the same log, or exhibit a MAC collision or a preimage of the zero hash |
| TamperEvidence.PrevHashesDistinct | internal/history/history_verify.go:139-151 | no two records of a valid log name the same predecessor, or the MAC failed |
| AuditKeys.CandidatesExact | internal/history/history_keys.go:128-159 | the candidates are exactly the keys the settings can produce, each once, the signing key first |
| AuditKeys.CandidatesInOrder | internal/history/history_keys.go:128-159 | they come in the order explicit key, password, key file, default |
| AuditKeys.KeyFileExact | internal/history/history_keys.go:83-101 | the key file's key is its trimmed content and never empty; a blank or unreadable file is an error, a missing one no key |
| AuditKeys.AuditKeyCandidates | internal/history/history_keys.go:132-159 | the in-place list with its seen set computes those candidates |
| AuditKeys.PasswordKeys.Derive | internal/history/history_keys.go:314-324 | the one-entry cache never changes the derived key |
| AuditKeys.LastAuditRecord | internal/history/history_keys.go:256-288 | the record of the last visible line in the last 8192 bytes, none if that does not parse |
| AuditKeys.FirstSignerIsFirst | internal/history/history_keys.go:236-248 | the continuity key is the first candidate that signs the record, and there is none exactly when none signs it |
| AuditKeys.ChainContinuityKey | internal/history/history_keys.go:227-249 | goes on with a candidate that signs the last record; nothing to continue exactly when there is no such record or it has no hash; refuses when no candidate signs it |
| AuditKeys.AuditKeyForAppend | internal/history/history_keys.go:181-207 | the key an append signs with and the key file afterwards |
| AuditKeys.NewLogKey | internal/history/history_keys.go:181-207 | a new log gets the explicit key, the password's, the key file's or a random one, in that order; an unreadable or blank key file refuses |
| AuditKeys.KeyFileOnlyForNewLog | internal/history/history_keys.go:190-206 | a key file is only ever created, for a new log with nothing configured, and holds the key that signs |
| AuditKeys.FreshKeyIsSigningKey | internal/history/history_keys.go:190-206 | a log without a chain gets the generated key or the bundle signing key; an unreadable key file is an error |
| AuditKeys.SignerIsCandidate | internal/history/history_keys.go:161-207 | the key that signs is among the candidates of the same settings afterwards |
| AuditKeys.NewLogAvoidsDefault | internal/history/history_keys.go:175-177 | a new log gets the public default key only if it was configured on purpose |
| AuditAppend.LastHashFromTail | internal/history/history_append.go:228-246 | hash of the last visible line's record, zero hash for no line or a legacy record, error for a line that is no record |
| AuditAppend.ReadLastAuditHash | internal/history/history_append.go:175-223 | the window first, the whole file when the window fails |
| AuditAppend.LastHashOfRecords | internal/history/history_append.go:168-223 | on a log of complete records it is the last record's hash, however long its line |
| AuditAppend.TornTailIsRefused | internal/history/history_append.go:168-174 | a torn last line is an error at every length, never a fork |
| AuditAppend.LastRecordOfFit | internal/history/history_keys.go:251-288 | continuity sees the last record when its line fits the window |
| AuditAppend.LastRecordOfOversize | internal/history/history_keys.go:251-288 | and sees no record at all when it does not |
| AuditAppend.Draft | internal/history/history_append.go:266-290 | id, time and algorithm are filled in, nothing else changes, and verification will use the algorithm chosen |
| AuditAppend.AlgoSettings | internal/history/history_append.go:127-137 | the setting names SM3 or SHA-256 in any case with any white space around it, blank means SHA-256, anything else is an error |
| AuditAppend.AppendedIsEntry | internal/history/history_append.go:256-349 | what is written is the caller's entry with only id, time, algorithm and hashes filled in |
| AuditAppend.FillIn | internal/history/history_append.go:266-290 | the in-place filling computes the draft |
| AuditAppend.SignEntry | internal/history/history_append.go:310-328 | a signed entry links to prev under key, differs from the draft only in its two hashes and encodes; signing fails only for an unknown algorithm or an unencodable entry |
| AuditAppend.HistoryDir.AppendAuditLog | internal/history/history_append.go:256-349 | a refused append leaves the log as it was; a successful one adds one signed line; the key file is created only for a new log |
| AuditVerify.VerifyAuditLines | internal/history/history_verify.go:119-157 | the scan loop computes the replay under one key |
| AuditVerify.CheckEntry | internal/history/history_verify.go:134-151 | the replay goes on exactly past a record that links to the expected hash under the key, with its hash; a fault is exactly a record without hashes, or one that links but has an unknown algorithm or does not encode |
| AuditVerify.ReplayIsChain | internal/history/history_verify.go:119-157 | a replay runs to the end exactly on a readable file whose records are a chain under that key |
| AuditVerify.StopsAfterLongestPrefix | internal/history/history_verify.go:107-112 | the reported position is just past the longest prefix that replays |
| AuditVerify.FaultsIgnoreTheKey | internal/history/history_verify.go:80-84 | a fault under one key means no key replays the file |
| AuditVerify.VerdictExact | internal/history/history_verify.go:85-113 | valid exactly when some candidate replays everything; otherwise the first candidate's mismatch, or a fault some candidate met |
| AuditVerify.ValidFileExact | internal/history/history_verify.go:119-157 | a file is valid exactly when every line is under 1 MiB and blank or a record, and the records are a chain under some candidate; a missing file is valid |
| AuditVerify.VerifyAuditChain | internal/history/history_verify.go:65-114 | the candidate loop with early exit computes that verdict |
| AuditVerify.TryKeys | internal/history/history_verify.go:85-113 | the loop over the candidates returns the first conclusive result, or the first candidate's mismatch |
| AuditVerify.ReplayRecords | internal/history/bundle.go:165-187 | the inner loop replays records in memory |
| AuditVerify.VerifyAuditRecordChainFrom | internal/history/bundle.go:160-199 | the in-memory verdict over all candidates from any starting hash |
| AuditVerify.FileAgreesWithMemory | internal/history/bundle.go:143-152 | on files without blank, over-long or unparsable lines both verifiers give the same verdict and position |
| AuditRuns.ItemsOfRecords | internal/history/history_verify.go:122-133 | the verifier reads back exactly the records that were written |
| AuditRuns.AppendLinks | internal/history/history_append.go:306-328 | a written record names the log's head and carries its key's MAC |
| AuditRuns.SignerOfAppend | internal/history/history_keys.go:181-207 | which key signs the next record of a chain |
| AuditRuns.AppendKeepsKeyIffSafe | internal/history/history_keys.go:161-207 | one append keeps the chain under its key if and only if it is Safe, or two keys collide |
| AuditRuns.OversizeRecordLosesContinuity | internal/history/history_keys.go:251-288 | after an oversized record, an append under another password breaks the chain for good |
| AuditRuns.OversizeRunLosesKey | internal/history/history_keys.go:190-206 | reached from a missing log: two calls under different passwords, the first writing an oversized record, are signed with their own keys and no continuation replays under the first, or two keys collide |
| AuditRuns.EveryRunIsSelfSigned | internal/history/history_append.go:250-255 | over every run whatsoever each record links to its predecessor and carries its own key's MAC |
| AuditRuns.RunKeepsOneKeyIffSafe | internal/history/history_keys.go:161-207 | over every run, explicit keys and oversized records included, the log replays under its first key if and only if every append was Safe, or two keys collide |
| AuditRuns.EveryRunKeepsOneKey | internal/history/history_keys.go:161-207 | over every run the log is the written records, and all of them were signed with the first one's key if and only if every append was Safe, or two keys collide |
| AuditRuns.FittingRunsAreSafe | internal/history/history_keys.go:161-180 | runs without an explicit key whose records fit the window are Safe, however passwords and key files change |
| AuditRuns.EveryRunVerifies | internal/history/history_verify.go:56-114 | after any run, under any candidate list that holds the first key, VerifyAuditChain says valid if and only if every append was Safe, or two keys collide |
| AuditLock.StepKeepsInv | internal/history/history_append.go:294-349 | every step keeps: critical means owning the lock file, what a process read is still true, the log is a sequential run |
| AuditLock.InterleavingsAreSequential | internal/history/history_append.go:351-389 | in every interleaving with clean reclaims at most one process is critical and the log is the sequential run of the appends that reached it |
| AuditLock.LocksAreOwned | internal/history/history_append.go:360-373 | in every interleaving, dirty reclaims included, only a process that is inside or crashed leaves a lock file behind |
| AuditLock.WaiterCanEnter | internal/history/history_append.go:360-373 | so a waiter can enter whenever no process is inside or crashed, and stamps the lock with the time |
| AuditLock.HolderFinishes | internal/history/history_append.go:300-349 | whoever is inside is out in four steps: the append is made or refused as a whole, and the lock file is gone |
| AuditLock.MayTryAgain | internal/history/history_append.go:384-386 | giving up the wait changes nothing, and the process may append again |
| AuditLock.PromptRunsAreSequential | internal/history/history_append.go:104-106 | if no lock file ever gets older than the stale limit, every interleaving is clean, exclusive and sequential |
| AuditLock.InterleavingsNeverFork | internal/history/history_append.go:294-349 | and no two records share a prev_hash, with any mix of keys and record sizes, unless the run exhibits a MAC collision or a preimage of the zero hash |
| AuditLock.ForkBreaksMac | internal/history/history_append.go:145-166 | two records of one log, each signed with its own key, that name the same predecessor exhibit that failure of the MAC |
| AuditLock.DirtyReclaimBreaksExclusion | internal/history/history_append.go:378-383 | removing a live holder's lock breaks exclusion in the remover's next step |
| AuditLock.OrphanReachable | internal/history/history_append.go:104-106 | a crashed holder's stale lock with two waiters is reachable |
| AuditLock.ReclaimRace | internal/history/history_append.go:378-383 | from there both waiters can enter, although only the orphan was ever seen as stale |
| AuditLock.ReclaimRaceForks | internal/history/history_append.go:306-349 | and both then write a record naming the same predecessor, one after the other |
| AuditBundle.TimeBounds | internal/history/bundle.go:229-244 | the loop finds the least and greatest timestamp |
| AuditBundle.BuildAuditBundle | internal/history/bundle.go:205-281 | count, time range from the earliest to the latest record, head hash, digest and filter of exactly these records, signed with the signing key; refused exactly when an encoding fails |
| AuditBundle.VerifySignature | internal/history/bundle.go:339-370 | the signature is good exactly when some candidate key gives it |
| AuditBundle.VerifyAuditBundle | internal/history/bundle.go:339-404 | fails on the signature exactly when no candidate gives it, else on the digest exactly when it differs, else exactly when the records with the head hash are no chain under any candidate |
| AuditBundle.BuiltBundleIsItsChain | internal/history/bundle.go:321-338 | a bundle just built is accepted exactly when its records are a chain under some candidate |
| AuditBundle.SignatureFixesBundle | internal/history/bundle.go:339-370 | two accepted bundles with one signature differ at most in record_count and time_range, or a MAC or digest collides |
| AuditBundle.CountAndRangeAreFree | internal/history/bundle.go:252-268 | record_count and time_range are outside the signature and are not checked |
| AuditBundle.FilterAuditRecords | internal/cli/audit.go:204-216 | keeps exactly the records at the positions within both inclusive bounds, in order |
| AuditBundle.OrderedTimesAreContiguous | internal/cli/audit.go:202-216 | with timestamps in chain order every filter keeps a contiguous part |
| AuditBundle.FullBundlePasses | internal/history/bundle.go:328-329 | the bundle of a whole chain always passes |
| AuditBundle.FilteredBundlePassesIffContiguous | internal/history/bundle.go:330-334 | a filtered bundle passes if and only if the kept records are contiguous, or the MAC fails |
| AuditExport.ReadAuditLogFile | internal/history/bundle.go:116-141 | exactly the nonblank lines' records in file order, or an error when one does not parse |
| AuditExport.ReadsWhatWasVerified | internal/history/bundle.go:111-115 | what is read is exactly what was verified |
| AuditExport.RunAuditExport | internal/cli/audit.go:245-307 | the steps in source order compute the export that the next rows describe |
| AuditExport.ExportIsSelection | internal/cli/audit.go:254-297 | an export is made only from a valid log, holds exactly the records read within the bounds typed, a bare --until date covering its whole day, and names those bounds |
| AuditExport.ExportRefusedIff | internal/cli/audit.go:257-297 | and is refused exactly when the log is invalid or unreadable, a bound does not parse or the bundle does not encode |
| AuditExport.ExportRoundTrip | internal/cli/audit.go:254-297 | an unfiltered export holds the whole log and verifies; a filtered one verifies exactly when contiguous |
| AuditExport.OrderedExportVerifies | internal/cli/audit.go:254-297 | with timestamps in chain order every export verifies |
| AuditTail.AuditTailOffset | internal/cli/audit_tail.go:171-207 | the offset after the (n+1)-th newline from the end, or 0, whatever the chunk size |
| AuditTail.SnapshotIsLastLines | internal/cli/audit_tail.go:163-170 | the snapshot covers exactly the last min(n, all) complete lines |
| AuditTail.Follower.EmitAuditLines | internal/cli/audit_tail.go:216-256 | one poll emits the nonblank complete lines past the offset; a shrunken file is read again |
| AuditTail.VisibleShows | internal/cli/audit_tail.go:240-243 | what is shown of some lines is exactly the nonblank ones, in order and unchanged |
| AuditTail.FollowerIsExact | internal/cli/audit_tail.go:209-215 | for an append-only file and any schedule of polls, nothing is lost, repeated or split |
| AuditTail.TailIsExact | internal/cli/audit_tail.go:141-161 | output is exactly the last n complete lines found on opening and all completed later, whatever was appended before the first poll |
| AuditTail.RunAuditTail | internal/cli/audit_tail.go:124-161 | locate and follow together do that on a growing file; on any other the output is that of the polls from the offset |
| AuditTail.RestartIsExact | internal/cli/audit_tail.go:221-224 | a file found shorter is emitted again from its start, in full, on top of what came before |
| AuditTail.FollowOnlySplitsTornLine | internal/cli/audit_tail.go:176-179 | with n = 0 and a torn last line a line is split |
| AuditTail.FollowOnlyExactIff | internal/cli/audit_tail.go:163-179 | following with n = 0 is exact for every way the file may grow if and only if it ends in a newline when opened |
| LruRuns.RunsKeepShape | internal/cache/cache.go:97-183 | every reachable list has distinct keys and at most max items |
| LruRuns.GetExactly | internal/cache/cache.go:97-125 | a Get leaves the other keys alone and keeps its own exactly when it hits: an expired entry goes |
| LruRuns.SetExactly | internal/cache/cache.go:129-161 | a Set stores the value until now + ttl; the others stay, except the least recently used when a new key meets a full cache |
| LruRuns.RemovalsExactly | internal/cache/cache.go:164-227 | Delete removes its key alone, Clear everything, cleanup exactly what expired |
| LruRuns.HitIsLatestSet | internal/cache/cache.go:97-172 | a hit is the latest Set since any Delete or Clear and never past its expiry |
| LruRuns.RecentKeySurvives | internal/cache/cache.go:129-161 | an unexpired key survives fewer than max distinct other keys |
| LruRuns.TouchGoesFirst | internal/cache/cache.go:122-161 | a Set or a hit puts its key at the front |
| LruRuns.SurvivesSinceTouch | internal/cache/cache.go:97-161 | so a key survives from its last touch on |
| LruInclusion.SmallerInsideLarger | internal/cache/cache.go:97-183 | over every run the smaller cache is the larger one with some keys missing, same values, expiries and order |
| LruInclusion.LargerHitsToo | internal/cache/cache.go:97-125 | every hit in the smaller is a hit with the same value in the larger |
| LruInclusion.PrefixKeptIff | internal/cache/cache.go:97-125 | the prefix relation is kept by a step if and only if it is not a Get that hits only in the larger |
| LruInclusion.PrefixThroughoutIff | internal/cache/cache.go:97-183 | over every run the smaller list is a prefix after every operation if and only if no operation is such a Get |
| LruInclusion.PrefixCounterexample | internal/cache/cache.go:97-161 | three operations after which the smaller list is no prefix |
| LruCache.Cache.constructor | internal/cache/cache.go:71-83 | defaults for capacity and expiry |
| LruCache.Cache.Get | internal/cache/cache.go:97-125 | value, recency, removal of an expired entry and counters; map and list stay in step |
| LruCache.Cache.Set | internal/cache/cache.go:129-161 | rewrite in place or evict and add; map and list stay in step |
| LruCache.Cache.Delete | internal/cache/cache.go:164-172 | removes the key, and only it |
| LruCache.Cache.Clear | internal/cache/cache.go:175-183 | empties cache and counters |
| LruCache.Cache.Sweep | internal/cache/cache.go:216-227 | the backward walk removes exactly the expired entries |
| LruCache.Cache.CleanupExpired | internal/cache/cache.go:216-227 | and keeps the whole invariant |
| LruCache.Cache.Stats | internal/cache/cache.go:186-202 | hits are the Gets that hit, hits plus misses all Gets, since the last Clear, and their rate |
| LruCache.RateIsShare | internal/cache/cache.go:190-194 | the rate lies between 0 and 1 and times the total is the hits; 0 when there were none |
| Levenshtein.Compute | internal/cli/cli.go:211-236 | the two swapped rows compute the recurrence |
| Levenshtein.FillRow | internal/cli/cli.go:225-232 | one row from the one before |
| Levenshtein.ShortestScript | internal/cli/cli.go:209-210 | there is an edit script of exactly that length |
| Levenshtein.NoShorterScript | internal/cli/cli.go:209-210 | and none shorter |
| Levenshtein.ZeroIffEqual | internal/cli/cli.go:211-236 | zero exactly on equal strings |
| Levenshtein.Symmetric | internal/cli/cli.go:211-236 | symmetric |
| Levenshtein.Triangle | internal/cli/cli.go:211-236 | triangle inequality |
| Levenshtein.LengthBound | internal/cli/cli.go:211-236 | between the length difference and the longer length |
| LogRotation.RotatingWriter.Write | internal/logger/logger.go:151-166 | the files are always exactly the newest segments of everything written |
| LogRotation.RotatingWriter.RotateLocked | internal/logger/logger.go:169-201 | the rename cascade moves every backup up one place, drops the oldest and touches no other file |
| LogRotation.RotatingWriter.Close | internal/logger/logger.go:209-218 | closes without changing a file |
| LogRotation.SegmentsFlatten | internal/logger/logger.go:148-166 | the cutting loses, repeats and reorders nothing |
| LogRotation.SegmentsFit | internal/logger/logger.go:148-150 | every segment fits or is a single write |
| LogRotation.CutsAreNeeded | internal/logger/logger.go:155-161 | a cut is made only where the next write did not fit |
| LogRotation.RotateIsNewSegment | internal/logger/logger.go:168-201 | rotating the files is starting an empty segment |
| LogRotation.WriteIsLastSegment | internal/logger/logger.go:165 | appending to the file is appending to the newest segment |
| LogRotation.RetainedIsTail | internal/logger/logger.go:116-120 | the backups oldest to newest and the current file are the tail of everything written |
| LogRotation.FilesFit | internal/logger/logger.go:148-150 | every file is within the limit or is one oversized write |
| Breaker.OthersUntouched | internal/agentx/breaker.go:92-98 | steps on one agent never change another's entry |
| Breaker.ClosedCountsFailures | internal/agentx/breaker.go:166-196 | in every interleaving a closed circuit counts the failures since the last success, below the threshold |
| Breaker.TripsExactlyAtThreshold | internal/agentx/breaker.go:181-187 | it opens on exactly the threshold-th failure in a row |
| Breaker.OpenRejectsUntilCooled | internal/agentx/breaker.go:131-136 | an open circuit without a success rejects every caller until the cool-down is over |
| Breaker.RecoveryAfterCooldown | internal/agentx/breaker.go:137-160 | then the next caller gets through (an A2A agent after a probe), and every other one until an outcome is recorded, whatever happens in between; success closes, failure opens again |
| Breaker.FailedProbeReopens | internal/agentx/breaker.go:144-151 | a failed probe opens the circuit again from that moment, so every caller is rejected for another cool-down |
| Breaker.OutcomesExactly | internal/agentx/breaker.go:166-196 | a success closes from any state; a failure while open changes nothing, while half-open opens again, while closed adds one to the count |
| Breaker.AdmissionExactly | internal/agentx/breaker.go:120-160 | asking for admission only turns an open circuit past its cool-down half-open |
| Breaker.AgentBreakerSet.Allow | internal/agentx/breaker.go:120-160 | the decision and the step it takes |
| Breaker.AgentBreakerSet.FinishProbe | internal/agentx/breaker.go:141-153 | a failed probe opens, a good one closes |
| Breaker.AgentBreakerSet.RecordOutcome | internal/agentx/breaker.go:166-196 | one outcome is one step |
| A2A.RetriesExactly | internal/agentx/a2a.go:80-99 | every call before the last failed in a way the policy allows to retry, and the last one ends it for a reason |
| A2A.CallRetried | internal/agentx/a2a.go:84-99 | at most three calls, all of the given method, and the last one's reply |
| A2A.ReadsRetriedIff | internal/agentx/a2a.go:65-99 | a read is tried again exactly after a transport failure or a 5xx, three calls in all |
| A2A.SubmitsRetriedIff | internal/agentx/a2a.go:60-99 | a submit only after a dial error |
| A2A.SubmitCreatesOnce | internal/agentx/a2a.go:290-322 | whatever the network does, a submit creates at most one remote task |
| A2A.SubmitIsBounded | internal/agentx/a2a.go:303-321 | in at least one and at most three calls per method name |
| A2A.EndOfTwo | internal/agentx/a2a.go:303-321 | a submit is one retried call, and a second one exactly when the first name is unknown |
| A2A.SendTask | internal/agentx/a2a.go:293-322 | message/send first, tasks/send exactly when that is unknown; succeeds exactly with an answered task that has an id |
| A2A.AwaitedBounded | internal/agentx/a2a.go:324-352 | at most three calls a poll, the task id is never lost, and a wait ends early only after a failed poll |
| A2A.FinalStates | internal/agentx/a2a.go:328-332 | exactly the states completed, failed, canceled and rejected need no poll |
| A2A.PollTask | internal/agentx/a2a.go:339-350 | one poll is one retried tasks/get: the wait goes on with the answered state and the known id, or ends with the old task |
| A2A.AwaitTerminal | internal/agentx/a2a.go:328-352 | polls to a terminal state, the deadline or a failed poll |
| A2A.Conclude | internal/agentx/a2a.go:231-245 | a submitted task that is not seen to end is always asked to be cancelled, by one to three calls of tasks/cancel and nothing else; one that ends never is |
| A2A.RunTask | internal/agentx/a2a.go:223-273 | submit, wait and cancel together: at most one remote task, completed exactly when it was seen so in time |
| A2A.Dispatch | internal/agentx/a2a.go:223-273 | exactly one breaker outcome, a success exactly when the task completed |
| A2A.SendMessage | internal/agentx/a2a.go:199-273 | a refused delegation makes no call and records nothing |
| Sessions.EvictsOldestIff | internal/agent/session_manager.go:173-190 | the scan names a least recently used session in every map order if and only if the empty id is not the one oldest |
| Sessions.NamesSomeIff | internal/agent/session_manager.go:173-190 | it names some session in every map order exactly then |
| Sessions.LimitKeptIff | internal/agent/session_manager.go:88-118 | a new session keeps the limit in every map order if and only if there was room, or the table was just full and the empty id not the one oldest |
| Sessions.FindOldest | internal/agent/session_manager.go:175-186 | the loop over the map computes the scan of some order that visits every session once |
| Sessions.SessionManager.EvictLru | internal/agent/session_manager.go:175-190 | removes what the scan named in some map order |
| Sessions.SessionManager.EvictExpired | internal/agent/session_manager.go:163-171 | removes exactly the sessions idle for longer than the limit |
| Sessions.SessionManager.GetOrCreate | internal/agent/session_manager.go:88-118 | a new id gets a session of its own, different from every other; an existing one evicts nothing; a new one drops the expired and, when full, one oldest; the table after it is one that some map order gives, which LimitKeptIff judges; the bound is kept for nonempty ids |
| Sessions.SessionManager.Remove | internal/agent/session_manager.go:132-138 | removes the session, and only it |
| Sessions.SessionManager.SetMaxSessions | internal/agent/session_manager.go:142-152 | only removes sessions, none when within the limit; without an empty id it gets within the limit and every evicted session was used no later than every survivor |
| FileWatch.Diff | internal/filewatch/watcher.go:188-231 | strictly sorted by type and path, each changed path once and no other |
| FileWatch.DiffIsDeterministic | internal/filewatch/watcher.go:222-228 | there is only one such list, so map order does not show |
| FileWatch.ReportsExactly | internal/filewatch/watcher.go:192-220 | every event tells what happened to its path, and the paths told of are exactly those present in one snapshot only or with another time or size |
| FileWatch.SortedByKind | internal/filewatch/watcher.go:222-228 | creates come first, then deletes, then modifies, each in path order |
| FileWatch.LessIsLexical | internal/filewatch/watcher.go:227 | that order is byte order |
| FileWatch.DiffReplays | internal/filewatch/watcher.go:187-231 | replaying it over the older sizes gives the newer sizes |
| FileWatch.AllDiffsReplay | internal/filewatch/watcher.go:103-125 | so do all diffs of any sequence of snapshots, when no event is dropped |

## Left out

- Sessions.SessionManager.SetMaxSessions: takes the number of eviction passes to make, because with an empty session id the source's loop ends only by luck of the map order.
- Texts that are not valid UTF-8: the JSON encoder replaces them, so such a record does not parse back to itself and `Sound` does not cover it.
- White space beyond ASCII: TrimSpace here trims the six ASCII space characters only.
- The in-process mutex, which only removes interleavings of AuditLock.dfy; each append sees its own, arbitrary, snapshot of the key file.
- Failing or partial file operations (short writes, chmod, rename and open errors) and path resolution.
- The kinds of error inside a refusal: a fault, a refused append or a failed export is one case each, without its message.
- JSON-indented writing and reading of the bundle file, and the default output names.
- The text that `audit tail` prints for one record, and errors of the output writer.
- The error text the breaker keeps, metrics, audit entries of delegations and the text extracted from a finished task.
- HTTP, agent-card fetching, SSRF defence and URL checks; a call ends in one of six replies.
- Conversation contents of a session, its reset, and logging.
- Walking the file tree for a snapshot, and events dropped when the channel is full.
- The workflow engine (its dependency graph, cycle search and batched order), scheduler, compression, configuration, agents' capabilities and the rest of the command line are not modelled.
