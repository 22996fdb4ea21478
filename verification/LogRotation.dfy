/** The size-rotating log writer: a cascade of renames over the log file and its numbered
    backups, against the plain idea of cutting everything written into segments. */
module LogRotation {

  // The files by number: 0 is the log file itself, k is its k-th backup.
  type Files = map<nat, string>

  function Backups(maxBackups: int): nat {
    if maxBackups <= 0 then 0 else maxBackups
  }

  // ------------------------------------------------------------- segments

  function Join(writes: seq<string>): string {
    if writes == [] then "" else Join(writes[..|writes| - 1]) + writes[|writes| - 1]
  }

  function Flatten(segments: seq<seq<string>>): seq<string> {
    if segments == [] then [] else Flatten(segments[..|segments| - 1]) + segments[|segments| - 1]
  }

  /** Everything written, cut at write boundaries: a write that would not fit starts the next
      segment. */
  function Segments(maxSize: int, writes: seq<string>): (segments: seq<seq<string>>)
    ensures segments != []
  {
    if writes == [] then [[]]
    else
      var before, p := Segments(maxSize, writes[..|writes| - 1]), writes[|writes| - 1];
      var current := before[|before| - 1];
      if maxSize > 0 && |Join(current)| + |p| > maxSize then before + [[p]]
      else before[..|before| - 1] + [current + [p]]
  }

  lemma {:induction false} JoinSnoc(writes: seq<string>, p: string)
    ensures Join(writes + [p]) == Join(writes) + p
  {
    assert (writes + [p])[..|writes|] == writes;
  }

  lemma {:induction false} FlattenSnoc(segments: seq<seq<string>>, last: seq<string>)
    ensures Flatten(segments + [last]) == Flatten(segments) + last
  {
    assert (segments + [last])[..|segments|] == segments;
  }

  /** Nothing is lost, repeated or reordered by the cutting. */
  lemma {:induction false} SegmentsFlatten(maxSize: int, writes: seq<string>)
    ensures Flatten(Segments(maxSize, writes)) == writes
  {
    if writes == [] {
      var one: seq<seq<string>> := [[]];
      assert one[..0] == [] && Flatten(one[..0]) == [];
    } else {
      var init, p := writes[..|writes| - 1], writes[|writes| - 1];
      SegmentsFlatten(maxSize, init);
      FlattenOneMore(Segments(maxSize, init), p);
      assert writes == init + [p];
    }
  }

  // A write reaches the end of the whole, in a new segment or in the last one.
  lemma {:induction false} FlattenOneMore(segments: seq<seq<string>>, p: string)
    requires segments != []
    ensures var older, current := segments[..|segments| - 1], segments[|segments| - 1];
            && Flatten(segments + [[p]]) == Flatten(segments) + [p]
            && Flatten(older + [current + [p]]) == Flatten(segments) + [p]
  {
    var older, current := segments[..|segments| - 1], segments[|segments| - 1];
    FlattenSnoc(segments, [p]);
    FlattenSnoc(older, current + [p]);
    assert Flatten(older) + (current + [p]) == Flatten(older) + current + [p];
  }

  /** Every segment fits, or is a single oversized write. */
  lemma {:induction false} SegmentsFit(maxSize: int, writes: seq<string>)
    requires maxSize > 0
    ensures forall i | 0 <= i < |Segments(maxSize, writes)| ::
              |Join(Segments(maxSize, writes)[i])| <= maxSize || |Segments(maxSize, writes)[i]| == 1
  {
    if writes != [] {
      var p := writes[|writes| - 1];
      var before := Segments(maxSize, writes[..|writes| - 1]);
      SegmentsFit(maxSize, writes[..|writes| - 1]);
      JoinSnoc(before[|before| - 1], p);
    }
  }

  // The first write of segment i did not fit in the segment before it.
  predicate Needed(maxSize: int, segments: seq<seq<string>>, i: nat)
    requires 0 < i < |segments|
  {
    maxSize > 0 && segments[i] != [] && |Join(segments[i - 1])| + |segments[i][0]| > maxSize
  }

  /** A cut is made only where the next write did not fit. */
  lemma {:induction false} CutsAreNeeded(maxSize: int, writes: seq<string>)
    ensures forall i | 0 < i < |Segments(maxSize, writes)| :: Needed(maxSize, Segments(maxSize, writes), i)
  {
    if writes != [] {
      var before := Segments(maxSize, writes[..|writes| - 1]);
      CutsAreNeeded(maxSize, writes[..|writes| - 1]);
      var all := Segments(maxSize, writes);
      forall i | 0 < i < |all|
        ensures Needed(maxSize, all, i)
      {
        if i < |before| {
          assert Needed(maxSize, before, i);
          assert all[i - 1] == before[i - 1];
        }
      }
    }
  }

  // -------------------------------------------------------- files on disk

  // The k-th newest segment as text.
  function FromNewest(segments: seq<seq<string>>, k: nat): string
    requires k < |segments|
  {
    Join(segments[|segments| - 1 - k])
  }

  // File k holds the k-th newest segment, if that is among those kept.
  predicate HoldsAt(files: Files, segments: seq<seq<string>>, backups: nat, k: nat) {
    && (k in files <==> k < |segments| && k <= backups)
    && (k in files ==> files[k] == FromNewest(segments, k))
  }

  /** The files hold the newest backups + 1 segments, newest in the log file, and no more. */
  ghost predicate Holds(files: Files, segments: seq<seq<string>>, backups: nat) {
    forall k: nat :: HoldsAt(files, segments, backups, k)
  }

  // Key k of f holds what key j of g holds.
  predicate SameAt(f: Files, k: nat, g: Files, j: nat) {
    (k in f <==> j in g) && (k in f ==> f[k] == g[j])
  }

  // Backup k now holds what the one before it held.
  predicate MovedUp(files: Files, was: Files, k: nat) {
    k >= 1 && SameAt(files, k, was, k - 1)
  }

  predicate ShiftedAt(files: Files, was: Files, backups: nat, k: nat) {
    if k == 0 then 0 in files && files[0] == ""
    else if k <= backups then MovedUp(files, was, k)
    else SameAt(files, k, was, k)
  }

  /** Every backup moved up one place, the oldest dropped, the log file new and empty; files
      beyond the limit are not touched. */
  ghost predicate Shifted(files: Files, was: Files, backups: nat) {
    forall k: nat :: ShiftedAt(files, was, backups, k)
  }

  /** Rotating the files is starting an empty segment. */
  lemma {:induction false} RotateIsNewSegment(files: Files, was: Files, segments: seq<seq<string>>, backups: nat)
    requires segments != [] && Holds(was, segments, backups) && Shifted(files, was, backups)
    ensures Holds(files, segments + [[]], backups)
  {
    var all := segments + [[]];
    forall k: nat
      ensures HoldsAt(files, all, backups, k)
    {
      assert ShiftedAt(files, was, backups, k);
      if k == 0 {
        assert FromNewest(all, 0) == Join([]);
      } else {
        assert HoldsAt(was, segments, backups, k - 1) && HoldsAt(was, segments, backups, k);
        if k <= |segments| {
          assert FromNewest(all, k) == FromNewest(segments, k - 1);
        }
      }
    }
  }

  /** Appending to the log file is appending to the newest segment. */
  lemma {:induction false} WriteIsLastSegment(files: Files, segments: seq<seq<string>>, backups: nat, p: string)
    requires segments != [] && Holds(files, segments, backups)
    ensures 0 in files && files[0] == Join(segments[|segments| - 1])
    ensures Holds(files[0 := files[0] + p], segments[..|segments| - 1] + [segments[|segments| - 1] + [p]], backups)
  {
    var n := |segments| - 1;
    var all := segments[..n] + [segments[n] + [p]];
    JoinSnoc(segments[n], p);
    assert HoldsAt(files, segments, backups, 0);
    var files' := files[0 := files[0] + p];
    forall k: nat
      ensures HoldsAt(files', all, backups, k)
    {
      assert HoldsAt(files, segments, backups, k);
      if 0 < k <= n {
        assert FromNewest(all, k) == FromNewest(segments, k);
      }
    }
  }

  /** The retained segments are the tail of everything written. */
  lemma {:induction false} RetainedIsTail(maxSize: int, backups: nat, writes: seq<string>, files: Files)
    requires Holds(files, Segments(maxSize, writes), backups)
    ensures var segments := Segments(maxSize, writes);
            var kept := if |segments| <= backups then |segments| else backups + 1;
            var first := |segments| - kept;
            && (forall k: nat | k < kept :: k in files)
            && Join(writes) == Join(Flatten(segments[..first])) + OldestFirst(files, kept)
  {
    var segments := Segments(maxSize, writes);
    var kept := if |segments| <= backups then |segments| else backups + 1;
    var first := |segments| - kept;
    SegmentsFlatten(maxSize, writes);
    assert segments == segments[..first] + segments[first..];
    FlattenOfConcat(segments[..first], segments[first..]);
    JoinOfConcat(Flatten(segments[..first]), Flatten(segments[first..]));
    forall k: nat | k < kept
      ensures k in files && files[k] == FromNewest(segments, k)
    {
      assert HoldsAt(files, segments, backups, k);
    }
    OldestFirstIsTail(files, segments, kept);
  }

  /** Every file on disk is within the limit, or is one write that alone exceeds it. */
  lemma {:induction false} FilesFit(maxSize: int, backups: nat, writes: seq<string>, files: Files, k: nat)
    requires maxSize > 0 && Holds(files, Segments(maxSize, writes), backups) && k in files
    ensures |files[k]| <= maxSize || files[k] in writes
  {
    assert HoldsAt(files, Segments(maxSize, writes), backups, k);
    SegmentFits(maxSize, writes, |Segments(maxSize, writes)| - 1 - k);
  }

  lemma {:induction false} SegmentFits(maxSize: int, writes: seq<string>, i: nat)
    requires maxSize > 0 && i < |Segments(maxSize, writes)|
    ensures var text := Join(Segments(maxSize, writes)[i]); |text| <= maxSize || text in writes
  {
    SegmentsFit(maxSize, writes);
    SegmentsFlatten(maxSize, writes);
    SingleIsWrite(Segments(maxSize, writes), i);
  }

  lemma {:induction false} SingleIsWrite(segments: seq<seq<string>>, i: nat)
    requires i < |segments|
    ensures |segments[i]| == 1 ==> Join(segments[i]) in Flatten(segments)
  {
    if |segments[i]| == 1 {
      var p := segments[i][0];
      assert segments[i] == [] + [p];
      JoinSnoc([], p);
      assert Join(segments[i]) == "" + p == p;
      InFlatten(segments, i, p);
    }
  }

  lemma {:induction false} InFlatten(segments: seq<seq<string>>, i: nat, p: string)
    requires i < |segments| && p in segments[i]
    ensures p in Flatten(segments)
  {
    if i < |segments| - 1 {
      InFlatten(segments[..|segments| - 1], i, p);
    }
  }

  // The first n files read oldest to newest.
  function OldestFirst(files: Files, n: nat): string
    requires forall k: nat | k < n :: k in files
  {
    if n == 0 then "" else files[n - 1] + OldestFirst(files, n - 1)
  }

  lemma {:induction false} JoinCons(first: seq<string>, rest: seq<seq<string>>)
    ensures Join(Flatten([first] + rest)) == Join(first) + Join(Flatten(rest))
  {
    FlattenOfConcat([first], rest);
    assert [first][..0] == [];
    assert Flatten([first]) == [] + first == first;
    JoinOfConcat(first, Flatten(rest));
  }

  lemma {:induction false} OldestFirstIsTail(files: Files, segments: seq<seq<string>>, n: nat)
    requires n <= |segments|
    requires forall k: nat | k < n :: k in files && files[k] == FromNewest(segments, k)
    ensures OldestFirst(files, n) == Join(Flatten(segments[|segments| - n..]))
  {
    if n > 0 {
      OldestFirstIsTail(files, segments, n - 1);
      var m := |segments| - n;
      assert segments[m..] == [segments[m]] + segments[m + 1..];
      JoinCons(segments[m], segments[m + 1..]);
      assert files[n - 1] == FromNewest(segments, n - 1);
    }
  }

  lemma {:induction false} FlattenOfConcat(a: seq<seq<string>>, b: seq<seq<string>>)
    ensures Flatten(a + b) == Flatten(a) + Flatten(b)
  {
    if b == [] {
      assert a + b == a;
    } else {
      FlattenOfConcat(a, b[..|b| - 1]);
      assert (a + b)[..|a + b| - 1] == a + b[..|b| - 1];
    }
  }

  lemma {:induction false} JoinOfConcat(a: seq<string>, b: seq<string>)
    ensures Join(a + b) == Join(a) + Join(b)
  {
    if b == [] {
      assert a + b == a;
    } else {
      JoinOfConcat(a, b[..|b| - 1]);
      assert (a + b)[..|a + b| - 1] == a + b[..|b| - 1];
    }
  }

  // --------------------------------------------------------------- writer

  // os.Rename: a missing source changes nothing.
  function Renamed(files: Files, src: nat, dst: nat): Files
    requires src != dst
  {
    if src in files then files[dst := files[src]] - {src} else files
  }

  // Renaming to a free name moves one file and touches no other.
  lemma {:induction false} RenameMoves(files: Files, src: nat, dst: nat)
    requires src != dst && dst !in files
    ensures src !in Renamed(files, src, dst) && SameAt(Renamed(files, src, dst), dst, files, src)
    ensures forall k: nat | k != src && k != dst :: SameAt(Renamed(files, src, dst), k, files, k)
  {
  }

  // How the files stand when backups i + 1 and up have been dealt with.
  ghost predicate Cascade(files: Files, was: Files, max: nat, i: nat) {
    && (forall k: nat | k > max || k <= i :: SameAt(files, k, was, k))
    && (i < max ==> i + 1 !in files)
    && (forall k: nat | i + 2 <= k <= max :: MovedUp(files, was, k))
  }

  lemma {:induction false} CascadeStep(before: Files, files: Files, was: Files, max: nat, i: nat)
    requires 1 <= i <= max && Cascade(before, was, max, i)
    requires i !in files && forall k: nat | k != i && k != i + 1 :: SameAt(files, k, before, k)
    requires if i == max then SameAt(files, i + 1, before, i + 1) else SameAt(files, i + 1, before, i)
    ensures Cascade(files, was, max, i - 1)
  {
    assert SameAt(before, i, was, i);
    forall k: nat | k > max || k <= i - 1
      ensures SameAt(files, k, was, k)
    {
      assert SameAt(before, k, was, k);
      assert k != i + 1 ==> SameAt(files, k, before, k);
    }
    forall k: nat | i + 1 <= k <= max
      ensures MovedUp(files, was, k)
    {
      if k > i + 1 {
        assert MovedUp(before, was, k) && SameAt(files, k, before, k);
      }
    }
  }

  lemma {:induction false} SegmentsSnoc(maxSize: int, writes: seq<string>, p: string)
    ensures var before := Segments(maxSize, writes);
            var older, current := before[..|before| - 1], before[|before| - 1];
            Segments(maxSize, writes + [p]) ==
            if maxSize > 0 && |Join(current)| + |p| > maxSize then before + [[p]] else older + [current + [p]]
    ensures var before := Segments(maxSize, writes);
            (before + [[]])[..|before|] + [(before + [[]])[|before|] + [p]] == before + [[p]]
  {
    assert (writes + [p])[..|writes|] == writes;
    var empty: seq<string> := [];
    assert empty + [p] == [p];
  }

  // The files are exactly the newest segments of everything written.
  ghost predicate Retains(files: Files, maxSize: int, backups: nat, writes: seq<string>) {
    Holds(files, Segments(maxSize, writes), backups)
  }

  lemma {:induction false} LogFileIsNewest(files: Files, maxSize: int, backups: nat, writes: seq<string>)
    requires Retains(files, maxSize, backups, writes)
    ensures var segments := Segments(maxSize, writes);
            0 in files && files[0] == Join(segments[|segments| - 1])
  {
    assert HoldsAt(files, Segments(maxSize, writes), backups, 0);
  }

  // One file per retained segment: the log file and at most maxBackups backups.
  lemma {:induction false} RetainedFiles(files: Files, maxSize: int, maxBackups: int, writes: seq<string>)
    requires Retains(files, maxSize, Backups(maxBackups), writes)
    ensures forall k: nat :: k in files <==> k < |Segments(maxSize, writes)| && (k == 0 || k <= maxBackups)
  {
    forall k: nat
      ensures k in files <==> k < |Segments(maxSize, writes)| && (k == 0 || k <= maxBackups)
    {
      assert HoldsAt(files, Segments(maxSize, writes), Backups(maxBackups), k);
    }
  }

  lemma {:induction false} PlainWrite(files: Files, maxSize: int, backups: nat, writes: seq<string>, p: string)
    requires Retains(files, maxSize, backups, writes) && 0 in files
    requires maxSize <= 0 || |files[0]| + |p| <= maxSize
    ensures Retains(files[0 := files[0] + p], maxSize, backups, writes + [p])
  {
    LogFileIsNewest(files, maxSize, backups, writes);
    WriteIsLastSegment(files, Segments(maxSize, writes), backups, p);
    SegmentsSnoc(maxSize, writes, p);
  }

  lemma {:induction false} RotatedWrite(files: Files, was: Files, maxSize: int, backups: nat, writes: seq<string>,
                                        p: string)
    requires Retains(was, maxSize, backups, writes) && 0 in was && Shifted(files, was, backups)
    requires maxSize > 0 && |was[0]| + |p| > maxSize
    ensures 0 in files && Retains(files[0 := files[0] + p], maxSize, backups, writes + [p])
  {
    LogFileIsNewest(was, maxSize, backups, writes);
    var segments := Segments(maxSize, writes);
    RotateIsNewSegment(files, was, segments, backups);
    WriteIsLastSegment(files, segments + [[]], backups, p);
    SegmentsSnoc(maxSize, writes, p);
  }

  class RotatingWriter {
    const maxSize: int
    const maxBackups: int
    var files: Files
    var open: bool
    ghost var writes: seq<string>   // everything written so far

    /** The files are always exactly the newest segments of everything written. */
    ghost predicate Valid()
      reads this
    {
      Retains(files, maxSize, Backups(maxBackups), writes)
    }

    constructor (maxSize: int, maxBackups: int)
      ensures Valid() && open && writes == [] && this.maxSize == maxSize && this.maxBackups == maxBackups
    {
      this.maxSize, this.maxBackups := maxSize, maxBackups;
      files, open, writes := map[0 := ""], true, [];
    }

    method Write(p: string) returns (ok: bool)
      requires Valid()
      modifies this
      ensures Valid() && ok == old(open) && open == old(open)
      ensures writes == if ok then old(writes) + [p] else old(writes)
      ensures forall k: nat ::
                k in files <==> k < |Segments(maxSize, writes)| && (k == 0 || k <= maxBackups)
    {
      RetainedFiles(files, maxSize, maxBackups, writes);
      if !open {
        return false;
      }
      ghost var backups := Backups(maxBackups);
      LogFileIsNewest(files, maxSize, backups, writes);
      if maxSize > 0 && |files[0]| + |p| > maxSize {
        ghost var was := files;
        RotateLocked();
        RotatedWrite(files, was, maxSize, backups, writes, p);
      } else {
        PlainWrite(files, maxSize, backups, writes, p);
      }
      files := files[0 := files[0] + p];
      writes := writes + [p];
      RetainedFiles(files, maxSize, maxBackups, writes);
      return true;
    }

    /** rotateLocked: the rename cascade moves every backup up one place. */
    method RotateLocked()
      requires 0 in files
      modifies this`files, this`open
      ensures Shifted(files, old(files), Backups(maxBackups)) && open
    {
      open := false;
      if maxBackups <= 0 {
        files := files - {0};
      } else {
        ghost var was := files;
        var i := maxBackups;
        while i >= 1
          invariant 0 <= i <= maxBackups && Cascade(files, was, maxBackups, i)
        {
          ghost var before := files;
          if i == maxBackups {
            files := files - {i};
          } else {
            RenameMoves(files, i, i + 1);
            files := Renamed(files, i, i + 1);
          }
          CascadeStep(before, files, was, maxBackups, i);
          i := i - 1;
        }
        ghost var before := files;
        RenameMoves(files, 0, 1);
        files := Renamed(files, 0, 1);
        ghost var reopened := files[0 := ""];
        forall k: nat
          ensures ShiftedAt(reopened, was, maxBackups, k)
        {
          assert SameAt(before, 0, was, 0) && (k > maxBackups ==> SameAt(before, k, was, k));
          assert 2 <= k <= maxBackups ==> MovedUp(before, was, k);
          assert k > 1 ==> SameAt(files, k, before, k);
        }
      }
      files := files[0 := ""];
      open := true;
    }

    method Close()
      requires Valid()
      modifies this`open
      ensures Valid() && !open
    {
      open := false;
    }
  }
}
