/** Byte strings, white space and lines: what strings.Split(s, "\n"), strings.TrimSpace
    and a newline-terminated log file mean. */
module Text {
  import opened Wrappers

  // A Go string is a sequence of bytes; a char here stands for one byte.
  type Bytes = string

  predicate IsSpace(c: char) {
    c == ' ' || c == '\t' || c == '\n' || c == '\r' || c == 11 as char || c == 12 as char
  }

  function TrimLeft(s: Bytes): Bytes {
    if s != "" && IsSpace(s[0]) then TrimLeft(s[1..]) else s
  }

  function TrimRight(s: Bytes): Bytes {
    if s != "" && IsSpace(s[|s| - 1]) then TrimRight(s[..|s| - 1]) else s
  }

  function TrimSpace(s: Bytes): Bytes {
    TrimRight(TrimLeft(s))
  }

  // Neither end is white space, so trimming changes nothing.
  predicate Trimmed(s: Bytes) {
    s == "" || (!IsSpace(s[0]) && !IsSpace(s[|s| - 1]))
  }

  predicate AllSpace(s: Bytes) {
    forall i | 0 <= i < |s| :: IsSpace(s[i])
  }

  /** strings.TrimSpace: only white space goes, and none is left at either end. */
  lemma {:induction false} TrimIsExact(s: Bytes) returns (before: Bytes, after: Bytes)
    ensures s == before + TrimSpace(s) + after
    ensures AllSpace(before) && AllSpace(after) && Trimmed(TrimSpace(s))
  {
    before := TrimLeftIsExact(s);
    var rest := TrimLeft(s);
    after := TrimRightIsExact(rest);
    assert s == before + (TrimSpace(s) + after);
    assert TrimSpace(s) != "" ==> TrimSpace(s)[0] == rest[0];
  }

  lemma {:induction false} TrimLeftIsExact(s: Bytes) returns (before: Bytes)
    ensures s == before + TrimLeft(s) && AllSpace(before)
    ensures TrimLeft(s) != "" ==> !IsSpace(TrimLeft(s)[0])
  {
    before := "";
    if s != "" && IsSpace(s[0]) {
      var rest := TrimLeftIsExact(s[1..]);
      before := [s[0]] + rest;
    }
  }

  lemma {:induction false} TrimRightIsExact(s: Bytes) returns (after: Bytes)
    ensures s == TrimRight(s) + after && AllSpace(after)
    ensures TrimRight(s) != "" ==> !IsSpace(TrimRight(s)[|TrimRight(s)| - 1])
  {
    after := "";
    if s != "" && IsSpace(s[|s| - 1]) {
      var rest := TrimRightIsExact(s[..|s| - 1]);
      after := rest + [s[|s| - 1]];
    }
  }

  lemma {:induction false} TrimPadded(before: Bytes, s: Bytes, after: Bytes)
    requires AllSpace(before) && AllSpace(after) && Trimmed(s)
    ensures TrimSpace(before + s + after) == s
  {
    TrimLeftPadded(before, s + after);
    assert before + s + after == before + (s + after);
    if s == "" {
      assert s + after == after;
      TrimLeftPadded(after, "");
      assert after + "" == after;
    } else {
      assert TrimLeft(s + after) == s + after;
      TrimRightPadded(s, after);
    }
  }

  lemma {:induction false} TrimLeftPadded(before: Bytes, s: Bytes)
    requires AllSpace(before)
    ensures TrimLeft(before + s) == TrimLeft(s)
  {
    if before == "" {
      assert before + s == s;
    } else {
      assert (before + s)[1..] == before[1..] + s;
      TrimLeftPadded(before[1..], s);
    }
  }

  lemma {:induction false} TrimRightPadded(s: Bytes, after: Bytes)
    requires AllSpace(after) && s != "" && !IsSpace(s[|s| - 1])
    ensures TrimRight(s + after) == s
  {
    if after == "" {
      assert s + after == s;
    } else {
      var n := |after| - 1;
      assert (s + after)[..|s + after| - 1] == s + after[..n];
      TrimRightPadded(s, after[..n]);
    }
  }

  // Positions in a list of n, each once and in order.
  predicate Positions(at: seq<int>, n: nat) {
    && (forall k | 0 <= k < |at| :: 0 <= at[k] < n)
    && forall k, l | 0 <= k < l < |at| :: at[k] < at[l]
  }

  // A suffix that ends in a visible byte is trimmed to a nonempty suffix of it.
  lemma {:induction false} TrimOfVisibleEnd(s: Bytes)
    requires s != "" && !IsSpace(s[|s| - 1])
    ensures TrimSpace(s) != "" && |TrimSpace(s)| <= |s|
    ensures TrimSpace(s) == s[|s| - |TrimSpace(s)|..]
  {
    if IsSpace(s[0]) {
      TrimOfVisibleEnd(s[1..]);
    }
  }

  /** strings.Split(s, "\n"): the pieces between newlines; always at least one. */
  function Split(s: Bytes): (pieces: seq<Bytes>)
    ensures |pieces| >= 1
  {
    if s == "" then [""]
    else if s[0] == '\n' then [""] + Split(s[1..])
    else Prepend(s[0], Split(s[1..]))
  }

  // The first piece, one byte longer.
  function Prepend(c: char, pieces: seq<Bytes>): (longer: seq<Bytes>)
    requires |pieces| >= 1
    ensures |longer| == |pieces|
  {
    [[c] + pieces[0]] + pieces[1..]
  }

  lemma {:induction false} PrependOfConcat(c: char, x: seq<Bytes>, y: seq<Bytes>)
    requires |x| >= 1
    ensures Prepend(c, x + y) == Prepend(c, x) + y && [""] + (x + y) == [""] + x + y
  {
  }

  // Splitting at a newline splits the two sides separately.
  lemma {:induction false} SplitAtNewline(a: Bytes, b: Bytes)
    ensures Split(a + "\n" + b) == Split(a) + Split(b)
  {
    var whole := a + "\n" + b;
    if a == "" {
      assert whole[1..] == b;
    } else {
      SplitAtNewline(a[1..], b);
      assert whole[0] == a[0] && whole[1..] == a[1..] + "\n" + b;
      PrependOfConcat(a[0], Split(a[1..]), Split(b));
    }
  }

  lemma {:induction false} SplitWithoutNewline(a: Bytes)
    requires '\n' !in a
    ensures Split(a) == [a]
  {
    if a != "" {
      SplitWithoutNewline(a[1..]);
      assert [a[0]] + a[1..] == a;
    }
  }

  // The pieces with a newline between each two.
  function Joined(pieces: seq<Bytes>): Bytes {
    if pieces == [] then ""
    else if |pieces| == 1 then pieces[0]
    else pieces[0] + "\n" + Joined(pieces[1..])
  }

  /** Splitting is exact: no piece holds a newline, and joined again they are the text. */
  lemma {:induction false} SplitIsExact(s: Bytes)
    ensures Joined(Split(s)) == s
    ensures forall i | 0 <= i < |Split(s)| :: '\n' !in Split(s)[i]
  {
    if s != "" {
      var rest := Split(s[1..]);
      SplitIsExact(s[1..]);
      assert s == [s[0]] + s[1..];
      if s[0] == '\n' {
        assert ([""] + rest)[1..] == rest;
      } else {
        assert Prepend(s[0], rest)[1..] == rest[1..];
      }
    }
  }

  /** The last line that is not blank, trimmed: what a backward walk over the lines finds. */
  function LastVisible(lines: seq<Bytes>): Option<Bytes> {
    if lines == [] then None
    else
      var line := TrimSpace(lines[|lines| - 1]);
      if line != "" then Some(line) else LastVisible(lines[..|lines| - 1])
  }

  // Line i is visible, and none after it is.
  predicate LastAt(lines: seq<Bytes>, i: nat)
    requires i < |lines|
  {
    TrimSpace(lines[i]) != "" && NoneVisible(lines[i + 1..])
  }

  predicate NoneVisible(lines: seq<Bytes>) {
    forall i | 0 <= i < |lines| :: TrimSpace(lines[i]) == ""
  }

  // What a reader of the last visible line gets: the line without white space around it.
  ghost predicate IsLastVisible(lines: seq<Bytes>, line: Option<Bytes>) {
    if line.None? then NoneVisible(lines)
    else exists i | 0 <= i < |lines| :: LastAt(lines, i) && TrimSpace(lines[i]) == line.value
  }

  lemma {:induction false} LastVisibleIsLast(lines: seq<Bytes>)
    ensures IsLastVisible(lines, LastVisible(lines))
  {
    if lines != [] {
      var n := |lines| - 1;
      var init := lines[..n];
      LastVisibleIsLast(init);
      if TrimSpace(lines[n]) != "" {
        assert lines[n + 1..] == [] && LastAt(lines, n);
      } else if LastVisible(init).Some? {
        var i :| 0 <= i < n && LastAt(init, i) && TrimSpace(init[i]) == LastVisible(init).value;
        VisibleStays(lines, i);
      } else {
        assert lines == init + [lines[n]];
      }
    }
  }

  lemma {:induction false} VisibleStays(lines: seq<Bytes>, i: nat)
    requires i < |lines| - 1 && LastAt(lines[..|lines| - 1], i) && TrimSpace(lines[|lines| - 1]) == ""
    ensures LastAt(lines, i) && lines[i] == lines[..|lines| - 1][i]
  {
    var n := |lines| - 1;
    assert lines[i + 1..] == lines[..n][i + 1..] + [lines[n]];
  }

  // x is empty or ends a line.
  predicate LineBoundary(x: Bytes) {
    x == "" || x[|x| - 1] == '\n'
  }

  // The last complete line of a text that ends in one.
  lemma {:induction false} LastVisibleOfLine(x: Bytes, line: Bytes)
    requires LineBoundary(x) && line != "" && Trimmed(line) && '\n' !in line
    ensures LastVisible(Split(x + line + "\n")) == Some(line)
  {
    SplitWithoutNewline(line);
    SplitAtNewline(line, "");
    assert line + "\n" + "" == line + "\n";
    if x == "" {
      assert x + line + "\n" == line + "\n";
      LastVisibleEnd([], line);
    } else {
      var y := x[..|x| - 1];
      SplitAtNewline(y, line + "\n");
      assert x + line + "\n" == y + "\n" + (line + "\n");
      assert Split(y) + [line, ""] == Split(y) + [line] + [""];
      LastVisibleEnd(Split(y), line);
    }
  }

  lemma {:induction false} LastVisibleEnd(before: seq<Bytes>, line: Bytes)
    requires line != "" && Trimmed(line)
    ensures LastVisible(before + [line] + [""]) == Some(line)
  {
    var all := before + [line] + [""];
    assert all[..|all| - 1] == before + [line];
  }

  /** bufio.ScanLines over a whole file: no empty piece after a final newline. */
  function ScanLines(content: Bytes): seq<Bytes> {
    var pieces := Split(content);
    if pieces[|pieces| - 1] == "" then pieces[..|pieces| - 1] else pieces
  }

  // Newline-free lines, each closed by a newline.
  function Unlines(lines: seq<Bytes>): Bytes {
    if lines == [] then "" else Unlines(lines[..|lines| - 1]) + lines[|lines| - 1] + "\n"
  }

  lemma {:induction false} UnlinesBoundary(lines: seq<Bytes>)
    ensures LineBoundary(Unlines(lines))
  {
  }

  lemma {:induction false} SplitUnlines(lines: seq<Bytes>)
    requires forall i | 0 <= i < |lines| :: '\n' !in lines[i]
    ensures Split(Unlines(lines)) == lines + [""]
  {
    if lines != [] {
      var init, last := lines[..|lines| - 1], lines[|lines| - 1];
      SplitUnlines(init);
      UnlinesBoundary(init);
      SplitOneMore(Unlines(init), last);
      OneMorePiece(lines);
    }
  }

  lemma {:induction false} OneMorePiece(lines: seq<Bytes>)
    requires lines != []
    ensures var init, last := lines[..|lines| - 1], lines[|lines| - 1];
            (init + [""])[..|init|] + [last, ""] == lines + [""]
  {
    var n := |lines| - 1;
    assert (lines[..n] + [""])[..n] == lines[..n];
    assert lines == lines[..n] + [lines[n]];
  }

  // One more complete line after complete lines.
  lemma {:induction false} SplitOneMore(body: Bytes, last: Bytes)
    requires LineBoundary(body) && '\n' !in last
    ensures var before := Split(body); Split(body + last + "\n") == before[..|before| - 1] + [last, ""]
  {
    SplitWithoutNewline(last);
    SplitAtNewline(last, "");
    assert last + "\n" + "" == last + "\n";
    if body == "" {
      assert body + last + "\n" == last + "\n";
    } else {
      var y := body[..|body| - 1];
      assert body == y + "\n" + "";
      SplitAtNewline(y, "");
      SplitAtNewline(y, last + "\n");
      assert body + last + "\n" == y + "\n" + (last + "\n");
    }
  }

  // A file of complete lines scans back to exactly those lines.
  lemma {:induction false} ScanUnlines(lines: seq<Bytes>)
    requires forall i | 0 <= i < |lines| :: '\n' !in lines[i]
    ensures ScanLines(Unlines(lines)) == lines
  {
    SplitUnlines(lines);
  }
}
