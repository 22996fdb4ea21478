/** The file watcher's diff of two snapshots: which changes it reports, in what order, and
    that replaying them reproduces the newer snapshot. */
module FileWatch {

  datatype Meta = Meta(modTime: int, size: int)

  type Snapshot = map<string, Meta>

  // A delete carries no size.
  datatype Event = Event(kind: string, path: string, timestamp: int, size: int)

  // -------------------------------------------------------- order of strings

  // Go's < on strings.
  predicate Less(a: string, b: string) {
    b != "" && (a == "" || a[0] < b[0] || (a[0] == b[0] && Less(a[1..], b[1..])))
  }

  /** Less is byte order: at the first difference the smaller byte decides, and a proper prefix
      comes first. */
  lemma {:induction false} LessIsLexical(a: string, b: string)
    ensures Less(a, b) <==> exists k: nat :: DecidedAt(a, b, k)
  {
    forall k: nat | DecidedAt(a, b, k)
      ensures b != "" && (a == "" || a[0] < b[0] || (k > 0 && a[0] == b[0]))
    {
      DecidedStart(a, b, k);
    }
    if b != "" && (a == "" || a[0] < b[0]) {
      assert DecidedAt(a, b, 0);
    } else if b != "" && a[0] == b[0] {
      LessIsLexical(a[1..], b[1..]);
      if Less(a, b) {
        var k: nat :| DecidedAt(a[1..], b[1..], k);
        DecidedLater(a, b, k);
      }
      forall k: nat | DecidedAt(a, b, k)
        ensures Less(a, b)
      {
        DecidedLater(a, b, k - 1);
      }
    }
  }

  lemma {:induction false} DecidedStart(a: string, b: string, k: nat)
    requires DecidedAt(a, b, k)
    ensures b != "" && (a == "" || a[0] < b[0] || (k > 0 && a[0] == b[0]))
  {
    if k > 0 {
      assert a[..k][0] == b[..k][0];
    }
  }

  predicate DecidedAt(a: string, b: string, k: nat) {
    k <= |a| && k < |b| && a[..k] == b[..k] && (k == |a| || a[k] < b[k])
  }

  lemma {:induction false} DecidedLater(a: string, b: string, k: nat)
    requires a != "" && b != "" && a[0] == b[0]
    ensures DecidedAt(a, b, k + 1) <==> DecidedAt(a[1..], b[1..], k)
  {
    if k + 1 <= |a| && k + 1 <= |b| {
      assert a[..k + 1] == [a[0]] + a[1..][..k] && b[..k + 1] == [b[0]] + b[1..][..k];
      assert a[1..][..k] == a[..k + 1][1..] && b[1..][..k] == b[..k + 1][1..];
    }
  }

  lemma {:induction false} LessIrreflexive(a: string)
    ensures !Less(a, a)
  {
    if a != "" {
      LessIrreflexive(a[1..]);
    }
  }

  lemma {:induction false} LessTransitive(a: string, b: string, c: string)
    requires Less(a, b) && Less(b, c)
    ensures Less(a, c)
  {
    if a != "" && a[0] == b[0] && b[0] == c[0] {
      LessTransitive(a[1..], b[1..], c[1..]);
    }
  }

  lemma {:induction false} LessTotal(a: string, b: string)
    ensures Less(a, b) || a == b || Less(b, a)
  {
    if a != "" && b != "" && a[0] == b[0] {
      LessTotal(a[1..], b[1..]);
      assert a == [a[0]] + a[1..] && b == [b[0]] + b[1..];
    }
  }

  // By type, then by path.
  predicate Before(x: Event, y: Event) {
    if x.kind != y.kind then Less(x.kind, y.kind) else Less(x.path, y.path)
  }

  lemma {:induction false} BeforeIrreflexive(x: Event)
    ensures !Before(x, x)
  {
    LessIrreflexive(x.path);
  }

  lemma {:induction false} BeforeTransitive(x: Event, y: Event, z: Event)
    requires Before(x, y) && Before(y, z)
    ensures Before(x, z)
  {
    if x.kind == y.kind && y.kind == z.kind {
      LessTransitive(x.path, y.path, z.path);
    } else if x.kind != y.kind && y.kind != z.kind {
      LessTransitive(x.kind, y.kind, z.kind);
      LessIrreflexive(x.kind);
    }
  }

  lemma {:induction false} BeforeTotal(x: Event, y: Event)
    ensures Before(x, y) || Before(y, x) || (x.kind == y.kind && x.path == y.path)
  {
    LessTotal(x.kind, y.kind);
    LessTotal(x.path, y.path);
  }

  predicate Sorted(events: seq<Event>) {
    forall i, j | 0 <= i < j < |events| :: Before(events[i], events[j])
  }

  // ------------------------------------------------------------- the changes

  /** The event for one path, if it changed. */
  function Change(before: Snapshot, now: Snapshot, path: string, t: int): (e: seq<Event>) {
    if path in now then
      if path !in before then [Event("create", path, t, now[path].size)]
      else if before[path] != now[path] then [Event("modify", path, t, now[path].size)]
      else []
    else if path in before then [Event("delete", path, t, 0)]
    else []
  }

  // The events report exactly the changes, each once.
  ghost predicate Reports(events: seq<Event>, before: Snapshot, now: Snapshot, t: int) {
    && (forall e | e in events :: Change(before, now, e.path, t) == [e])
    && (forall path | Change(before, now, path, t) != [] :: Change(before, now, path, t)[0] in events)
  }

  // What happened to a path, as the watcher tells it.
  predicate Tells(e: Event, before: Snapshot, now: Snapshot, t: int) {
    && e.timestamp == t
    && (if e.path !in before then e.kind == "create" && e.path in now && e.size == now[e.path].size
        else if e.path !in now then e.kind == "delete" && e.size == 0
        else
          && e.kind == "modify" && e.size == now[e.path].size
          && (before[e.path].modTime != now[e.path].modTime || before[e.path].size != now[e.path].size))
  }

  // Present in one snapshot only, or with another time or size.
  predicate Differs(before: Snapshot, now: Snapshot, path: string) {
    || (path in before && path !in now) || (path !in before && path in now)
    || (path in before && path in now
        && (before[path].modTime != now[path].modTime || before[path].size != now[path].size))
  }

  /** Every event tells what happened to its path, and the paths told of are exactly those
      that differ. */
  lemma {:induction false} ReportsExactly(events: seq<Event>, before: Snapshot, now: Snapshot, t: int)
    requires Reports(events, before, now, t)
    ensures forall e | e in events :: Tells(e, before, now, t)
    ensures forall path :: Differs(before, now, path) <==> exists e | e in events :: e.path == path
  {
    forall path
      ensures Differs(before, now, path) <==> Change(before, now, path, t) != []
    {
    }
    forall path | Differs(before, now, path)
      ensures exists e | e in events :: e.path == path
    {
      assert Change(before, now, path, t)[0] in events;
    }
  }

  /** In a report all creates come first, then deletes, then modifies, each in path order. */
  lemma {:induction false} SortedByKind(events: seq<Event>, before: Snapshot, now: Snapshot, t: int, i: nat, j: nat)
    requires Sorted(events) && Reports(events, before, now, t) && i < j < |events|
    ensures events[i].kind == "modify" ==> events[j].kind == "modify"
    ensures events[i].kind == "delete" ==> events[j].kind != "create"
    ensures events[i].kind == events[j].kind ==> Less(events[i].path, events[j].path)
  {
    assert events[i] in events && events[j] in events;
    ReportsExactly(events, before, now, t);
    assert Before(events[i], events[j]);
    assert "create"[0] == 'c' && "delete"[0] == 'd' && "modify"[0] == 'm';
  }

  /** There is only one sorted report: the result does not depend on map order. */
  lemma {:induction false} DiffIsDeterministic(xs: seq<Event>, ys: seq<Event>, before: Snapshot, now: Snapshot, t: int)
    requires Sorted(xs) && Reports(xs, before, now, t)
    requires Sorted(ys) && Reports(ys, before, now, t)
    ensures xs == ys
  {
    forall e
      ensures e in xs <==> e in ys
    {
      assert e in xs || e in ys ==> Change(before, now, e.path, t) == [e];
    }
    SortedSameElements(xs, ys);
  }

  lemma {:induction false} SortedSameElements(xs: seq<Event>, ys: seq<Event>)
    requires Sorted(xs) && Sorted(ys) && forall e :: e in xs <==> e in ys
    ensures xs == ys
    decreases |xs|
  {
    if ys != [] {
      SomeElement(xs, ys);
    }
    if xs != [] {
      assert xs[0] in xs && xs[0] in ys;
      var i :| 0 <= i < |ys| && ys[i] == xs[0];
      assert ys[0] in ys && ys[0] in xs;
      var j :| 0 <= j < |xs| && xs[j] == ys[0];
      SameFirst(xs, ys, i, j);
      var xs', ys' := xs[1..], ys[1..];
      SortedTail(xs);
      SortedTail(ys);
      forall e
        ensures e in xs' <==> e in ys'
      {
        assert e in xs <==> e == xs[0] || e in xs';
        assert e in ys <==> e == ys[0] || e in ys';
      }
      SortedSameElements(xs', ys');
      assert xs == [xs[0]] + xs' && ys == [ys[0]] + ys';
    }
  }

  lemma {:induction false} SomeElement(xs: seq<Event>, ys: seq<Event>)
    requires ys != [] && forall e :: e in ys ==> e in xs
    ensures xs != []
  {
    assert ys[0] in ys;
  }

  lemma {:induction false} SameFirst(xs: seq<Event>, ys: seq<Event>, i: nat, j: nat)
    requires Sorted(xs) && Sorted(ys) && i < |ys| && j < |xs| && xs != [] && ys != []
    requires ys[i] == xs[0] && xs[j] == ys[0]
    ensures xs[0] == ys[0]
  {
    if i > 0 && j > 0 {
      assert Before(ys[0], ys[i]) && Before(xs[0], xs[j]);
      BeforeTransitive(xs[0], ys[0], xs[0]);
      BeforeIrreflexive(xs[0]);
    }
  }

  lemma {:induction false} SortedTail(xs: seq<Event>)
    requires xs != [] && Sorted(xs)
    ensures Sorted(xs[1..]) && xs[0] !in xs[1..]
  {
    var rest := xs[1..];
    forall i | 0 <= i < |rest|
      ensures rest[i] != xs[0]
    {
      assert Before(xs[0], xs[i + 1]);
      BeforeIrreflexive(xs[0]);
    }
  }

  // ------------------------------------------------------------- computing

  // Different events of one diff are about different paths, so the order is strict.
  ghost predicate OnePerPath(events: seq<Event>) {
    forall i, j | 0 <= i < j < |events| :: events[i].path != events[j].path
  }

  /** sort.Slice: insertion into a sorted list, one event at a time. */
  method Sort(events: seq<Event>) returns (sorted: seq<Event>)
    requires OnePerPath(events)
    ensures Sorted(sorted) && forall e :: e in sorted <==> e in events
  {
    sorted := [];
    var i := 0;
    while i < |events|
      invariant 0 <= i <= |events| && Sorted(sorted)
      invariant forall e :: e in sorted <==> e in events[..i]
    {
      var x := events[i];
      forall y | y in sorted
        ensures y.path != x.path
      {
        assert y in events[..i];
        var j :| 0 <= j < i && events[j] == y;
      }
      sorted := Insert(sorted, x);
      assert events[..i + 1] == events[..i] + [x];
      i := i + 1;
    }
    assert events[..i] == events;
  }

  method Insert(sorted: seq<Event>, x: Event) returns (longer: seq<Event>)
    requires Sorted(sorted) && forall y | y in sorted :: y.path != x.path
    ensures Sorted(longer) && forall e :: e in longer <==> e in sorted || e == x
  {
    var k := 0;
    while k < |sorted| && Before(sorted[k], x)
      invariant 0 <= k <= |sorted|
      invariant forall i | 0 <= i < k :: Before(sorted[i], x)
    {
      k := k + 1;
    }
    forall i | k <= i < |sorted|
      ensures Before(x, sorted[i])
    {
      assert sorted[k] in sorted;
      BeforeTotal(x, sorted[k]);
      if i > k {
        BeforeTransitive(x, sorted[k], sorted[i]);
      }
    }
    longer := sorted[..k] + [x] + sorted[k..];
  }

  /** Watcher.diff: two loops over the maps in any order, then a sort. */
  method Diff(before: Snapshot, now: Snapshot, t: int) returns (events: seq<Event>)
    ensures Sorted(events) && Reports(events, before, now, t)
    ensures forall e | e in events :: Tells(e, before, now, t)
    ensures forall path :: Differs(before, now, path) <==> exists e | e in events :: e.path == path
  {
    events := Written(before, now, t);
    events := Deleted(before, now, t, events);
    events := Sort(events);
    ReportsExactly(events, before, now, t);
  }

  // The events so far are right, one for each path in done.
  ghost predicate Covers(events: seq<Event>, before: Snapshot, now: Snapshot, t: int, done: set<string>) {
    && OnePerPath(events)
    && (forall e | e in events :: e.path in done && Change(before, now, e.path, t) == [e])
    && (forall p | p in done && Change(before, now, p, t) != [] :: Change(before, now, p, t)[0] in events)
  }

  lemma {:induction false} CoversMore(events: seq<Event>, before: Snapshot, now: Snapshot, t: int,
                                      done: set<string>, path: string)
    requires Covers(events, before, now, t, done) && path !in done
    ensures Covers(events + Change(before, now, path, t), before, now, t, done + {path})
  {
    var more := events + Change(before, now, path, t);
    forall i, j | 0 <= i < j < |more|
      ensures more[i].path != more[j].path
    {
      assert i < |events| && events[i] in events;
    }
    if Change(before, now, path, t) != [] {
      assert more[|events|] == Change(before, now, path, t)[0];
    }
  }

  // The loop over the newer snapshot: create and modify.
  method Written(before: Snapshot, now: Snapshot, t: int) returns (events: seq<Event>)
    ensures Covers(events, before, now, t, now.Keys)
  {
    events := [];
    var rest := now.Keys;
    ghost var done := {};
    while rest != {}
      invariant rest + done == now.Keys && rest !! done
      invariant Covers(events, before, now, t, done)
      decreases |rest|
    {
      var path :| path in rest;
      CoversMore(events, before, now, t, done, path);
      rest := rest - {path};
      done := done + {path};
      if path !in before {
        events := events + [Event("create", path, t, now[path].size)];
      } else if before[path].modTime != now[path].modTime || before[path].size != now[path].size {
        events := events + [Event("modify", path, t, now[path].size)];
      } else {
        assert events + [] == events;
      }
    }
  }

  // The loop over the older snapshot: delete.
  method Deleted(before: Snapshot, now: Snapshot, t: int, written: seq<Event>) returns (events: seq<Event>)
    requires Covers(written, before, now, t, now.Keys)
    ensures OnePerPath(events) && Reports(events, before, now, t)
  {
    events := written;
    var rest := before.Keys;
    ghost var done := now.Keys;
    while rest != {}
      invariant rest <= before.Keys
      invariant forall path :: path in done <==> path in now || (path in before && path !in rest)
      invariant Covers(events, before, now, t, done)
      decreases |rest|
    {
      var path :| path in rest;
      if path !in now {
        CoversMore(events, before, now, t, done, path);
        assert Change(before, now, path, t) == [Event("delete", path, t, 0)];
        events := events + [Event("delete", path, t, 0)];
        done := done + {path};
      }
      rest := rest - {path};
    }
    assert done == now.Keys + before.Keys;
    CoversAll(events, before, now, t);
  }

  lemma {:induction false} CoversAll(events: seq<Event>, before: Snapshot, now: Snapshot, t: int)
    requires Covers(events, before, now, t, now.Keys + before.Keys)
    ensures OnePerPath(events) && Reports(events, before, now, t)
  {
    forall path | Change(before, now, path, t) != []
      ensures Change(before, now, path, t)[0] in events
    {
      assert path in now.Keys + before.Keys;
    }
  }

  // -------------------------------------------------------------- replaying

  type Sizes = map<string, int>

  function SizesOf(s: Snapshot): Sizes {
    map path | path in s :: s[path].size
  }

  // A reader of the event stream keeping track of sizes.
  function Replay(sizes: Sizes, events: seq<Event>): Sizes {
    if events == [] then sizes
    else
      var before, e := Replay(sizes, events[..|events| - 1]), events[|events| - 1];
      if e.kind == "delete" then before - {e.path} else before[e.path := e.size]
  }

  // Events about other paths leave a path alone.
  lemma {:induction false} ReplayElsewhere(sizes: Sizes, events: seq<Event>, path: string)
    requires forall i | 0 <= i < |events| :: events[i].path != path
    ensures path in Replay(sizes, events) <==> path in sizes
    ensures path in sizes ==> Replay(sizes, events)[path] == sizes[path]
  {
    if events != [] {
      var n := |events| - 1;
      assert forall i | 0 <= i < n :: events[..n][i] == events[i];
      ReplayElsewhere(sizes, events[..n], path);
    }
  }

  // The one event about a path decides what becomes of it.
  lemma {:induction false} ReplayAt(sizes: Sizes, events: seq<Event>, k: nat)
    requires OnePerPath(events) && k < |events|
    ensures var e := events[k];
            if e.kind == "delete" then e.path !in Replay(sizes, events)
            else e.path in Replay(sizes, events) && Replay(sizes, events)[e.path] == e.size
  {
    var n := |events| - 1;
    if k < n {
      assert forall i | 0 <= i < n :: events[..n][i] == events[i];
      assert events[k].path != events[n].path;
      ReplayAt(sizes, events[..n], k);
    }
  }

  /** Replaying the diff over the older sizes gives the newer sizes. */
  lemma {:induction false} DiffReplays(before: Snapshot, now: Snapshot, events: seq<Event>, t: int)
    requires Sorted(events) && Reports(events, before, now, t)
    ensures Replay(SizesOf(before), events) == SizesOf(now)
  {
    ReportPathsDistinct(events, before, now, t);
    var result := Replay(SizesOf(before), events);
    assert "create" != "delete" && "modify" != "delete" by {
      assert "create"[0] != "delete"[0] && "modify"[0] != "delete"[0];
    }
    forall path
      ensures path in result <==> path in now
      ensures path in now ==> result[path] == now[path].size
    {
      if Change(before, now, path, t) != [] {
        assert Change(before, now, path, t)[0] in events;
        var k :| 0 <= k < |events| && events[k] == Change(before, now, path, t)[0];
        ReplayAt(SizesOf(before), events, k);
      } else {
        assert forall i | 0 <= i < |events| :: events[i] in events;
        ReplayElsewhere(SizesOf(before), events, path);
      }
    }
  }

  lemma {:induction false} ReportPathsDistinct(events: seq<Event>, before: Snapshot, now: Snapshot, t: int)
    requires Sorted(events) && Reports(events, before, now, t)
    ensures OnePerPath(events)
  {
    forall i, j | 0 <= i < j < |events|
      ensures events[i].path != events[j].path
    {
      assert events[i] in events && events[j] in events;
      BeforeIrreflexive(events[i]);
    }
  }

  // The diffs of consecutive snapshots, one after the other.
  ghost predicate Diffs(snapshots: seq<Snapshot>, diffs: seq<seq<Event>>, times: seq<int>) {
    && |snapshots| == |diffs| + 1 && |times| == |diffs|
    && forall i | 0 <= i < |diffs| :: DiffAt(snapshots, diffs, times, i)
  }

  ghost predicate DiffAt(snapshots: seq<Snapshot>, diffs: seq<seq<Event>>, times: seq<int>, i: nat)
    requires i < |diffs| && |snapshots| == |diffs| + 1 && |times| == |diffs|
  {
    Sorted(diffs[i]) && Reports(diffs[i], snapshots[i], snapshots[i + 1], times[i])
  }

  function ReplayAll(sizes: Sizes, diffs: seq<seq<Event>>): Sizes {
    if diffs == [] then sizes else Replay(ReplayAll(sizes, diffs[..|diffs| - 1]), diffs[|diffs| - 1])
  }

  /** Over any sequence of snapshots, replaying all diffs over the first one's sizes
      reproduces the last one's. */
  lemma {:induction false} AllDiffsReplay(snapshots: seq<Snapshot>, diffs: seq<seq<Event>>, times: seq<int>)
    requires Diffs(snapshots, diffs, times)
    ensures ReplayAll(SizesOf(snapshots[0]), diffs) == SizesOf(snapshots[|snapshots| - 1])
    decreases |diffs|
  {
    if diffs != [] {
      var n := |diffs| - 1;
      var ss, ds, ts := snapshots[..n + 1], diffs[..n], times[..n];
      forall i | 0 <= i < n
        ensures DiffAt(ss, ds, ts, i)
      {
        assert DiffAt(snapshots, diffs, times, i);
      }
      AllDiffsReplay(ss, ds, ts);
      assert DiffAt(snapshots, diffs, times, n);
      DiffReplays(snapshots[n], snapshots[n + 1], diffs[n], times[n]);
    }
  }
}
