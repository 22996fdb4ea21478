/** "aflare audit tail": a backward scan in chunks for where the last n lines start, then a
    follower that emits every line once it is complete. */
module AuditTail {
  import opened Wrappers
  import opened Text

  function Newlines(s: Bytes): nat {
    if s == "" then 0 else (if s[0] == '\n' then 1 else 0) + Newlines(s[1..])
  }

  // The lines of s that a newline closes.
  function CompleteLines(s: Bytes): seq<Bytes> {
    Split(s)[..|Split(s)| - 1]
  }

  lemma {:induction false} CompleteLinesCount(s: Bytes)
    ensures |CompleteLines(s)| == Newlines(s)
  {
    if s != "" {
      CompleteLinesCount(s[1..]);
    }
  }

  lemma {:induction false} NewlinesOfConcat(a: Bytes, b: Bytes)
    ensures Newlines(a + b) == Newlines(a) + Newlines(b)
  {
    if a == "" {
      assert a + b == b;
    } else {
      NewlinesOfConcat(a[1..], b);
      assert (a + b)[1..] == a[1..] + b;
    }
  }

  // Cut at a line boundary, the complete lines are those before and those after.
  lemma {:induction false} CompleteLinesAt(s: Bytes, off: nat)
    requires off <= |s| && LineBoundary(s[..off])
    ensures CompleteLines(s) == CompleteLines(s[..off]) + CompleteLines(s[off..])
  {
    if off == 0 {
      assert s[off..] == s && CompleteLines(s[..off]) == [];
    } else {
      var a, b := s[..off - 1], s[off..];
      assert s == a + "\n" + b && s[..off] == a + "\n" + "";
      SplitAtNewline(a, b);
      SplitAtNewline(a, "");
    }
  }

  // ------------------------------------------------- where the last n lines start

  /** auditTailOffset: just after the (n+1)-th newline from the end, or the start of the
      file, or its end for n == 0; whatever the chunk size. */
  method AuditTailOffset(content: Bytes, n: int, chunk: nat) returns (off: nat)
    requires chunk >= 1
    ensures off <= |content|
    ensures n <= 0 ==> off == |content|
    ensures n > 0 ==> LineBoundary(content[..off])
                      && Newlines(content[off..]) == if Newlines(content) <= n then Newlines(content) else n
    ensures n > 0 && Newlines(content) <= n ==> off == 0
  {
    if n <= 0 {
      return |content|;
    }
    var offset := |content|;
    var newlines := 0;
    while offset > 0
      invariant 0 <= offset <= |content| && newlines <= n
      invariant newlines == Newlines(content[offset..])
    {
      var start := if offset < chunk then 0 else offset - chunk;
      var i := offset - 1;
      while i >= start
        invariant start - 1 <= i < offset && newlines <= n
        invariant newlines == Newlines(content[i + 1..])
      {
        assert content[i..][1..] == content[i + 1..];
        if content[i] == '\n' {
          newlines := newlines + 1;
          if newlines > n {
            NewlinesOfConcat(content[..i], content[i..]);
            assert content == content[..i] + content[i..];
            return i + 1;
          }
        }
        i := i - 1;
      }
      offset := start;
    }
    assert content[0..] == content;
    return 0;
  }

  /** For n >= 1 the snapshot covers exactly the last min(n, all) complete lines. */
  lemma {:induction false} SnapshotIsLastLines(content: Bytes, n: nat, off: nat)
    requires off <= |content| && LineBoundary(content[..off])
    requires Newlines(content[off..]) == if Newlines(content) <= n then Newlines(content) else n
    ensures var all := CompleteLines(content);
            CompleteLines(content[off..]) == if |all| <= n then all else all[|all| - n..]
  {
    CompleteLinesAt(content, off);
    CompleteLinesCount(content);
    CompleteLinesCount(content[off..]);
  }

  // ------------------------------------------------------------- following

  // The length of s up to and including its last newline.
  function CompletePart(s: Bytes): (n: nat)
    ensures n <= |s|
  {
    if s == "" then 0
    else if s[|s| - 1] == '\n' then |s|
    else CompletePart(s[..|s| - 1])
  }

  // It ends a line, and no newline follows.
  lemma {:induction false} CompletePartEndsLine(s: Bytes)
    ensures var n := CompletePart(s); LineBoundary(s[..n]) && '\n' !in s[n..]
  {
    if s != "" && s[|s| - 1] != '\n' {
      var init := s[..|s| - 1];
      CompletePartEndsLine(init);
      var n := CompletePart(init);
      assert s[..n] == init[..n] && s[n..] == init[n..] + [s[|s| - 1]];
    }
  }

  function Visible(lines: seq<Bytes>): seq<Bytes> {
    if lines == [] then []
    else
      var before, last := Visible(lines[..|lines| - 1]), lines[|lines| - 1];
      if TrimSpace(last) == "" then before else before + [last]
  }

  lemma {:induction false} VisibleOfConcat(a: seq<Bytes>, b: seq<Bytes>)
    ensures Visible(a + b) == Visible(a) + Visible(b)
  {
    if b == [] {
      assert a + b == a;
    } else {
      VisibleOfConcat(a, b[..|b| - 1]);
      assert (a + b)[..|a + b| - 1] == a + b[..|b| - 1];
    }
  }

  // The nonblank lines, in order.
  predicate Shows(lines: seq<Bytes>, shown: seq<Bytes>, at: seq<int>) {
    && Positions(at, |lines|) && |shown| == |at| && (forall k | 0 <= k < |at| :: shown[k] == lines[at[k]])
    && forall i | 0 <= i < |lines| :: i in at <==> TrimSpace(lines[i]) != ""
  }

  /** What is shown of some lines is exactly the nonblank ones, in order and unchanged. */
  lemma {:induction false} VisibleShows(lines: seq<Bytes>) returns (at: seq<int>)
    ensures Shows(lines, Visible(lines), at)
  {
    at := [];
    if lines != [] {
      var n := |lines| - 1;
      at := VisibleShows(lines[..n]);
      ShowsMore(lines, Visible(lines[..n]), at);
      if TrimSpace(lines[n]) != "" {
        at := at + [n];
      }
    }
  }

  lemma {:induction false} ShowsMore(lines: seq<Bytes>, shown: seq<Bytes>, at: seq<int>)
    requires lines != [] && Shows(lines[..|lines| - 1], shown, at)
    ensures var n := |lines| - 1;
            if TrimSpace(lines[n]) == "" then Shows(lines, shown, at) else Shows(lines, shown + [lines[n]], at + [n])
  {
    var n := |lines| - 1;
    var more := at + [n];
    assert forall i | 0 <= i < n :: lines[..n][i] == lines[i];
    assert forall i :: i in more <==> i in at || i == n;
    assert forall k | 0 <= k < |at| :: at[k] in at;
  }

  // How far the follower has read and the lines it has emitted.
  datatype Follow = Follow(offset: nat, emitted: seq<Bytes>)

  /** emitAuditLines: a file that shrank is read again from the start. */
  function Poll(content: Bytes, st: Follow): Follow {
    var from := if |content| < st.offset then 0 else st.offset;
    var k := CompletePart(content[from..]);
    if k == 0 then Follow(from, st.emitted)
    else Follow(from + k, st.emitted + Visible(Split(content[from..][..k - 1])))
  }

  class Follower {
    var offset: nat
    var emitted: seq<Bytes>

    constructor (offset: nat)
      ensures this.offset == offset && emitted == []
    {
      this.offset, emitted := offset, [];
    }

    method EmitAuditLines(content: Bytes)
      modifies this
      ensures Follow(offset, emitted) == Poll(content, old(Follow(offset, emitted)))
    {
      if |content| < offset {
        offset := 0;
      }
      if |content| == offset {
        return;
      }
      var buf := content[offset..];
      var end := CompletePart(buf);
      if end == 0 {
        return;
      }
      offset := offset + end;
      var lines := Split(buf[..end - 1]);
      ghost var before := emitted;
      var i := 0;
      while i < |lines|
        invariant 0 <= i <= |lines|
        invariant offset == old(if |content| < offset then 0 else offset) + end
        invariant emitted == before + Visible(lines[..i])
      {
        assert lines[..i + 1][..i] == lines[..i];
        if TrimSpace(lines[i]) != "" {
          emitted := emitted + [lines[i]];
        }
        i := i + 1;
      }
      assert lines[..i] == lines;
    }
  }

  function Polls(contents: seq<Bytes>, st: Follow): Follow {
    if contents == [] then st
    else Poll(contents[|contents| - 1], Polls(contents[..|contents| - 1], st))
  }

  predicate Grew(contents: seq<Bytes>, i: nat)
    requires 0 < i < |contents|
  {
    contents[i - 1] <= contents[i]
  }

  predicate AppendOnly(contents: seq<Bytes>) {
    forall i | 0 < i < |contents| :: Grew(contents, i)
  }

  lemma {:induction false} AppendOnlyInit(contents: seq<Bytes>)
    requires |contents| > 1 && AppendOnly(contents)
    ensures AppendOnly(contents[..|contents| - 1])
    ensures contents[|contents| - 2] <= contents[|contents| - 1]
  {
    var init := contents[..|contents| - 1];
    forall i | 0 < i < |init|
      ensures Grew(init, i)
    {
      assert Grew(contents, i);
    }
    assert Grew(contents, |contents| - 1);
  }

  // The emitted part of a text is its complete lines.
  lemma {:induction false} CompletePartLines(s: Bytes)
    ensures var k := CompletePart(s);
            CompleteLines(s) == if k == 0 then [] else Split(s[..k - 1])
  {
    var k := CompletePart(s);
    CompletePartEndsLine(s);
    SplitWithoutNewline(s[k..]);
    if k == 0 {
      assert s[k..] == s;
    } else {
      assert s == s[..k - 1] + "\n" + s[k..];
      SplitAtNewline(s[..k - 1], s[k..]);
    }
  }

  // A poll that finds the file no shorter emits what is complete past the offset.
  lemma {:induction false} PollEmits(content: Bytes, st: Follow)
    requires st.offset <= |content|
    ensures var added := content[st.offset..];
            Poll(content, st) == Follow(st.offset + CompletePart(added), st.emitted + Visible(CompleteLines(added)))
  {
    CompletePartLines(content[st.offset..]);
    assert st.emitted + [] == st.emitted;
  }

  // After growth, what is newly complete follows what was complete.
  lemma {:induction false} LinesGrow(s: Bytes, t: Bytes)
    requires s <= t
    ensures CompleteLines(t) == CompleteLines(s) + CompleteLines(t[CompletePart(s)..])
  {
    var k := CompletePart(s);
    CompletePartEndsLine(s);
    assert t[..k] == s[..k];
    CompleteLinesAt(t, k);
    CompleteLinesAt(s, k);
    SplitWithoutNewline(s[k..]);
  }

  lemma {:induction false} CompletePartGrows(s: Bytes, t: Bytes)
    requires s <= t
    ensures CompletePart(t) == CompletePart(s) + CompletePart(t[CompletePart(s)..])
  {
    var k := CompletePart(s);
    CompletePartEndsLine(s);
    var m := CompletePart(t[k..]);
    CompletePartEndsLine(t[k..]);
    CutTwice(s, t, k, m);
    CompletePartUnique(t, k + m);
  }

  lemma {:induction false} CutTwice(s: Bytes, t: Bytes, k: nat, m: nat)
    requires s <= t && k <= |s| && k + m <= |t|
    requires LineBoundary(s[..k]) && LineBoundary(t[k..][..m])
    ensures LineBoundary(t[..k + m]) && t[k..][m..] == t[k + m..]
  {
    if m > 0 {
      assert t[k..][..m][m - 1] == t[k + m - 1];
    } else {
      assert t[..k] == s[..k];
    }
  }

  lemma {:induction false} CompletePartUnique(s: Bytes, n: nat)
    requires n <= |s| && LineBoundary(s[..n]) && '\n' !in s[n..]
    ensures CompletePart(s) == n
  {
    if n < |s| {
      var init := s[..|s| - 1];
      assert s[n..][|s| - 1 - n] == s[|s| - 1];
      assert init[..n] == s[..n];
      forall i | 0 <= i < |init[n..]|
        ensures init[n..][i] != '\n'
      {
        assert init[n..][i] == s[n..][i];
      }
      CompletePartUnique(init, n);
    } else {
      assert s[..n] == s;
    }
  }

  // Everything complete since start has been emitted, and nothing else.
  function CaughtUp(content: Bytes, start: nat): Follow
    requires start <= |content|
  {
    Follow(start + CompletePart(content[start..]), Visible(CompleteLines(content[start..])))
  }

  lemma {:induction false} FirstPoll(content: Bytes, start: nat)
    requires start <= |content|
    ensures Poll(content, Follow(start, [])) == CaughtUp(content, start)
  {
    PollEmits(content, Follow(start, []));
    assert [] + Visible(CompleteLines(content[start..])) == Visible(CompleteLines(content[start..]));
  }

  /** Follower exactness: for an append-only file and any schedule of polls, the output is
      exactly the nonblank complete lines from the starting offset on: none lost, repeated
      or split at a poll; and the offset is the end of the last complete line. */
  lemma {:induction false} FollowerIsExact(contents: seq<Bytes>, start: nat)
    requires contents != [] && AppendOnly(contents) && start <= |contents[0]|
    ensures var last := contents[|contents| - 1];
            && start <= |last|
            && Polls(contents, Follow(start, [])) == CaughtUp(last, start)
  {
    var n := |contents| - 1;
    var last := contents[n];
    if n == 0 {
      PollsSnoc(contents, Follow(start, []));
      FirstPoll(last, start);
    } else {
      var init := contents[..n];
      AppendOnlyInit(contents);
      FollowerIsExact(init, start);
      PollsSnoc(contents, Follow(start, []));
      PollAfterGrowth(init[n - 1], last, start);
    }
  }

  lemma {:induction false} PollsSnoc(contents: seq<Bytes>, st: Follow)
    requires contents != []
    ensures Polls(contents, st) == Poll(contents[|contents| - 1], Polls(contents[..|contents| - 1], st))
    ensures |contents| == 1 ==> Polls(contents[..|contents| - 1], st) == st
  {
  }

  lemma {:induction false} PollAfterGrowth(before: Bytes, now: Bytes, start: nat)
    requires before <= now && start <= |before|
    ensures Poll(now, CaughtUp(before, start)) == CaughtUp(now, start)
  {
    var s, t := before[start..], now[start..];
    DropPrefix(before, now, start);
    var k, emitted := CompletePart(s), Visible(CompleteLines(s));
    CaughtUpGrows(s, t);
    calc {
      Poll(now, CaughtUp(before, start));
      Poll(now, Follow(start + k, emitted));
      { PollFrom(now, start, k, emitted); }
      Follow(start + k + CompletePart(t[k..]), emitted + Visible(CompleteLines(t[k..])));
      CaughtUp(now, start);
    }
  }

  lemma {:induction false} PollFrom(now: Bytes, start: nat, k: nat, emitted: seq<Bytes>)
    requires start + k <= |now|
    ensures var added := now[start..][k..];
            Poll(now, Follow(start + k, emitted)) ==
            Follow(start + k + CompletePart(added), emitted + Visible(CompleteLines(added)))
  {
    assert now[start..][k..] == now[start + k..];
    PollEmits(now, Follow(start + k, emitted));
  }

  lemma {:induction false} CaughtUpGrows(s: Bytes, t: Bytes)
    requires s <= t
    ensures var k := CompletePart(s);
            && CompletePart(t) == k + CompletePart(t[k..])
            && Visible(CompleteLines(t)) == Visible(CompleteLines(s)) + Visible(CompleteLines(t[k..]))
  {
    CompletePartGrows(s, t);
    LinesGrow(s, t);
    VisibleOfConcat(CompleteLines(s), CompleteLines(t[CompletePart(s)..]));
  }

  lemma {:induction false} DropPrefix(before: Bytes, now: Bytes, start: nat)
    requires before <= now && start <= |before|
    ensures before[start..] <= now[start..]
  {
  }

  // What was emitted before a poll stays in front of what is emitted from then on.
  lemma {:induction false} PollsAppend(contents: seq<Bytes>, start: nat, emitted: seq<Bytes>)
    ensures var later := Polls(contents, Follow(start, []));
            Polls(contents, Follow(start, emitted)) == Follow(later.offset, emitted + later.emitted)
  {
    if contents == [] {
      assert emitted + [] == emitted;
    } else {
      var n := |contents| - 1;
      PollsAppend(contents[..n], start, emitted);
      var later := Polls(contents[..n], Follow(start, []));
      PollAppends(contents[n], later.offset, emitted, later.emitted);
    }
  }

  lemma {:induction false} PollAppends(content: Bytes, offset: nat, before: seq<Bytes>, emitted: seq<Bytes>)
    ensures var next := Poll(content, Follow(offset, emitted));
            Poll(content, Follow(offset, before + emitted)) == Follow(next.offset, before + next.emitted)
  {
    var from := if |content| < offset then 0 else offset;
    var k := CompletePart(content[from..]);
    if k > 0 {
      var lines := Visible(Split(content[from..][..k - 1]));
      assert (before + emitted) + lines == before + (emitted + lines);
    }
  }

  /** A file found shorter than what was read is read again from the start: on top of what
      was emitted before come exactly its nonblank complete lines, as it grows from there. */
  lemma {:induction false} RestartIsExact(contents: seq<Bytes>, st: Follow)
    requires contents != [] && AppendOnly(contents) && |contents[0]| < st.offset
    ensures Polls(contents, st).emitted == st.emitted + Visible(CompleteLines(contents[|contents| - 1]))
  {
    var last := contents[|contents| - 1];
    FollowerIsExact(contents, 0);
    assert last[0..] == last;
    PollsAppend(contents, 0, st.emitted);
    RestartAtZero(contents, st);
  }

  lemma {:induction false} RestartAtZero(contents: seq<Bytes>, st: Follow)
    requires contents != [] && |contents[0]| < st.offset
    ensures Polls(contents, st) == Polls(contents, st.(offset := 0))
  {
    var n := |contents| - 1;
    if n == 0 {
      PollsSnoc(contents, st);
      PollsSnoc(contents, st.(offset := 0));
    } else {
      RestartAtZero(contents[..n], st);
    }
  }

  /** End to end: "tail -n N" on a file that grows emits exactly the nonblank ones among the
      last N complete lines it found when it was opened and all lines completed later, however
      much was appended before the first poll; for N == 0 this needs the file to end in a
      newline when it is opened. */
  lemma {:induction false} TailIsExact(initial: Bytes, contents: seq<Bytes>, n: nat, off: nat)
    requires contents != [] && AppendOnly([initial] + contents)
    requires off <= |initial| && LineBoundary(initial[..off])
    requires n == 0 ==> off == |initial|
    requires n > 0 ==> Newlines(initial[off..]) == if Newlines(initial) <= n then Newlines(initial) else n
    ensures LastAndLater(initial, contents, n, Polls(contents, Follow(off, [])).emitted)
  {
    var d := contents[|contents| - 1];
    InitialIsPrefix(initial, contents);
    FollowerIsExact(contents, off);
    CompleteLinesCount(initial);
    CompleteLinesCount(initial[off..]);
    CompleteLinesAt(initial, off);
    assert d[..off] == initial[..off];
    CompleteLinesAt(d, off);
    if n == 0 {
      assert initial[off..] == "";
    }
  }

  // The nonblank ones among the last n complete lines of the initial content and all completed since.
  predicate LastAndLater(initial: Bytes, contents: seq<Bytes>, n: nat, emitted: seq<Bytes>)
    requires contents != []
  {
    var first, last := CompleteLines(initial), CompleteLines(contents[|contents| - 1]);
    var skipped := if |first| <= n then 0 else |first| - n;
    skipped <= |last| && emitted == Visible(last[skipped..])
  }

  lemma {:induction false} InitialIsPrefix(initial: Bytes, contents: seq<Bytes>)
    requires contents != [] && AppendOnly([initial] + contents)
    ensures AppendOnly(contents) && initial <= contents[0] && initial <= contents[|contents| - 1]
  {
    var all := [initial] + contents;
    assert Grew(all, 1);
    forall i | 0 < i < |contents|
      ensures Grew(contents, i)
    {
      assert Grew(all, i + 1);
    }
    FirstIsPrefix(contents);
  }

  lemma {:induction false} FirstIsPrefix(contents: seq<Bytes>)
    requires contents != [] && AppendOnly(contents)
    ensures contents[0] <= contents[|contents| - 1]
  {
    var n := |contents| - 1;
    if n > 0 {
      AppendOnlyInit(contents);
      FirstIsPrefix(contents[..n]);
    }
  }

  /** runAuditTail: locates the offset in the file as it is when opened, then follows it over
      what it shows at each poll, growing or not. */
  method RunAuditTail(initial: Bytes, contents: seq<Bytes>, n: nat, chunk: nat)
    returns (offset: nat, emitted: seq<Bytes>)
    requires chunk >= 1
    ensures offset <= |initial| && emitted == Polls(contents, Follow(offset, [])).emitted
    ensures contents != [] && AppendOnly([initial] + contents) && (n > 0 || LineBoundary(initial)) ==>
              LastAndLater(initial, contents, n, emitted)
  {
    offset := AuditTailOffset(initial, n, chunk);
    emitted := PollAll(contents, offset);
    if contents != [] && AppendOnly([initial] + contents) && (n > 0 || LineBoundary(initial)) {
      assert n == 0 ==> initial[..offset] == initial;
      TailIsExact(initial, contents, n, offset);
    }
  }

  method PollAll(contents: seq<Bytes>, offset: nat) returns (emitted: seq<Bytes>)
    ensures emitted == Polls(contents, Follow(offset, [])).emitted
  {
    var follower := new Follower(offset);
    var i := 0;
    while i < |contents|
      invariant 0 <= i <= |contents|
      invariant Follow(follower.offset, follower.emitted) == Polls(contents[..i], Follow(offset, []))
    {
      follower.EmitAuditLines(contents[i]);
      PollsSnoc(contents[..i + 1], Follow(offset, []));
      assert contents[..i + 1][..i] == contents[..i];
      i := i + 1;
    }
    assert contents[..i] == contents;
    return follower.emitted;
  }

  /** With N == 0 and a torn last line the follower does split a line: it emits the rest of
      the line as if it were a line of its own. */
  lemma {:induction false} FollowOnlySplitsTornLine(c: Bytes, rest: Bytes)
    requires !LineBoundary(c) && '\n' !in rest && TrimSpace(rest) != ""
    ensures var grown := c + rest + "\n";
            && Polls([c, grown], Follow(|c|, [])).emitted == [rest]
            && CompleteLines(grown) != [] && CompleteLines(grown)[|CompleteLines(grown)| - 1] != rest
  {
    var grown := c + rest + "\n";
    GrowsOnce(c, grown);
    FollowerIsExact([c, grown], |c|);
    assert grown[|c|..] == rest + "\n";
    OneLine(rest);
    TornLineCompleted(c, rest);
    TornEndIsNotEmpty(c);
    assert |c[CompletePart(c)..] + rest| > |rest|;
  }

  lemma {:induction false} GrowsOnce(c: Bytes, grown: Bytes)
    requires c <= grown
    ensures AppendOnly([c, grown]) && AppendOnly([c] + [c, grown])
  {
    var contents := [c, grown];
    var all := [c] + contents;
    assert all[0] == c && all[1] == c && all[2] == grown;
  }

  lemma {:induction false} TornEndIsNotEmpty(c: Bytes)
    requires !LineBoundary(c)
    ensures CompletePart(c) <= |c| && c[CompletePart(c)..] != ""
  {
    CompletePartEndsLine(c);
    WholePartIsBoundary(c);
  }

  lemma {:induction false} WholePartIsBoundary(c: Bytes)
    ensures CompletePart(c) == |c| ==> LineBoundary(c)
  {
    CompletePartEndsLine(c);
    if CompletePart(c) == |c| {
      assert c[..|c|] == c;
    }
  }

  /** So following only is exact, for every way the file may grow, if and only if the file
      ends in a newline (or is empty) when it is opened. */
  lemma {:induction false} FollowOnlyExactIff(initial: Bytes)
    ensures LineBoundary(initial) <==>
            forall contents | contents != [] && AppendOnly([initial] + contents) ::
              LastAndLater(initial, contents, 0, Polls(contents, Follow(|initial|, [])).emitted)
  {
    if LineBoundary(initial) {
      assert initial[..|initial|] == initial;
      forall contents | contents != [] && AppendOnly([initial] + contents)
        ensures LastAndLater(initial, contents, 0, Polls(contents, Follow(|initial|, [])).emitted)
      {
        TailIsExact(initial, contents, 0, |initial|);
      }
    } else {
      TornIsNotExact(initial);
    }
  }

  lemma {:induction false} TornIsNotExact(initial: Bytes)
    requires !LineBoundary(initial)
    ensures exists contents ::
              && contents != [] && AppendOnly([initial] + contents)
              && !LastAndLater(initial, contents, 0, Polls(contents, Follow(|initial|, [])).emitted)
  {
    var contents := [initial, initial + "x" + "\n"];
    GrowsOnce(initial, contents[1]);
    FollowOnlySplitsTornLine(initial, "x");
    TornLineCompleted(initial, "x");
    TornEndIsNotEmpty(initial);
    LongerLineLast(CompleteLines(initial), initial[CompletePart(initial)..]);
    assert !LastAndLater(initial, contents, 0, Polls(contents, Follow(|initial|, [])).emitted);
  }

  lemma {:induction false} LongerLineLast(first: seq<Bytes>, torn: Bytes)
    requires torn != ""
    ensures Visible((first + [torn + "x"])[|first|..]) != ["x"]
  {
    var line := torn + "x";
    assert (first + [line])[|first|..] == [line] && [line][..0] == [];
    assert Visible([line]) == [] || Visible([line]) == [line];
    assert |[line][0]| > |["x"][0]|;
  }

  // The completed line is the torn start and the rest together.
  lemma {:induction false} TornLineCompleted(c: Bytes, rest: Bytes)
    requires '\n' !in rest
    ensures CompleteLines(c + rest + "\n") == CompleteLines(c) + [c[CompletePart(c)..] + rest]
  {
    var grown := c + rest + "\n";
    var k := CompletePart(c);
    CompletePartEndsLine(c);
    assert grown[..k] == c[..k];
    DropFromConcat(c, rest, k);
    CompleteLinesAt(grown, k);
    CompleteLinesAt(c, k);
    OneLine(c[k..] + rest);
    SplitWithoutNewline(c[k..]);
  }

  lemma {:induction false} DropFromConcat(c: Bytes, rest: Bytes, k: nat)
    requires k <= |c|
    ensures (c + rest + "\n")[k..] == c[k..] + rest + "\n"
  {
  }

  lemma {:induction false} OneLine(line: Bytes)
    requires '\n' !in line
    ensures CompleteLines(line + "\n") == [line]
    ensures TrimSpace(line) != "" ==> Visible([line]) == [line]
  {
    assert line + "\n" == line + "\n" + "";
    SplitAtNewline(line, "");
    SplitWithoutNewline(line);
    assert [line][..0] == [];
  }
}
