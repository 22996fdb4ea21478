/** The edit distance behind command suggestions: the two-row computation yields the length
    of a shortest script of single-character edits, and is a metric. */
module Levenshtein {
  import opened Wrappers

  function Min3(a: int, b: int, c: int): int {
    var m := if b < a then b else a;
    if c < m then c else m
  }

  function Init(s: string): string
    requires s != ""
  {
    s[..|s| - 1]
  }

  function Last(s: string): char
    requires s != ""
  {
    s[|s| - 1]
  }

  function Cost(x: char, y: char): nat {
    if x == y then 0 else 1
  }

  /** The textbook recurrence over prefixes. */
  function Dist(a: string, b: string): (d: nat)
    decreases |a| + |b|
  {
    if a == "" then |b|
    else if b == "" then |a|
    else Min3(Dist(Init(a), b) + 1, Dist(a, Init(b)) + 1, Dist(Init(a), Init(b)) + Cost(Last(a), Last(b)))
  }

  // The same recurrence over prefix lengths, as the table holds it.
  function Table(a: string, b: string, i: nat, j: nat): nat
    requires i <= |a| && j <= |b|
  {
    if i == 0 then j
    else if j == 0 then i
    else Min3(Table(a, b, i - 1, j) + 1, Table(a, b, i, j - 1) + 1,
              Table(a, b, i - 1, j - 1) + Cost(a[i - 1], b[j - 1]))
  }

  lemma {:induction false} TableIsDist(a: string, b: string, i: nat, j: nat)
    requires i <= |a| && j <= |b|
    ensures Table(a, b, i, j) == Dist(a[..i], b[..j])
  {
    if i > 0 && j > 0 {
      DistOfPrefixes(a, b, i, j);
      TableIsDist(a, b, i - 1, j);
      TableIsDist(a, b, i, j - 1);
      TableIsDist(a, b, i - 1, j - 1);
      DistOfNonempty(a[..i], b[..j]);
    }
  }

  lemma {:induction false} DistOfNonempty(a: string, b: string)
    requires a != "" && b != ""
    ensures Dist(a, b) ==
            Min3(Dist(Init(a), b) + 1, Dist(a, Init(b)) + 1, Dist(Init(a), Init(b)) + Cost(Last(a), Last(b)))
  {
    var x, y, z := Dist(Init(a), b), Dist(a, Init(b)), Dist(Init(a), Init(b));
    assert Dist(a, b) == Min3(x + 1, y + 1, z + Cost(Last(a), Last(b)));
  }

  lemma {:induction false} DistOfPrefixes(a: string, b: string, i: nat, j: nat)
    requires 1 <= i <= |a| && 1 <= j <= |b|
    ensures Init(a[..i]) == a[..i - 1] && Last(a[..i]) == a[i - 1]
    ensures Init(b[..j]) == b[..j - 1] && Last(b[..j]) == b[j - 1]
  {
  }

  // The first n cells of row i of the table.
  ghost predicate Row(row: array<nat>, n: nat, a: string, b: string, i: nat)
    reads row
  {
    i <= |a| && row.Length == |b| + 1 && n <= |b| + 1 && forall k | 0 <= k < n :: row[k] == Table(a, b, i, k)
  }

  /** levenshtein: two rows, swapped after each is filled. */
  method Compute(a: string, b: string) returns (d: nat)
    ensures d == Dist(a, b)
  {
    var la, lb := |a|, |b|;
    if la == 0 {
      return lb;
    }
    if lb == 0 {
      return la;
    }
    var prev := new nat[lb + 1];
    var curr := new nat[lb + 1];
    for j := 0 to lb + 1
      invariant Row(prev, j, a, b, 0)
    {
      prev[j] := j;
    }
    for i := 1 to la + 1
      invariant prev != curr && fresh(prev) && fresh(curr) && curr.Length == lb + 1
      invariant Row(prev, lb + 1, a, b, i - 1)
    {
      FillRow(a, b, i, prev, curr);
      prev, curr := curr, prev;
    }
    TableIsDist(a, b, la, lb);
    assert a[..la] == a && b[..lb] == b;
    return prev[lb];
  }

  method FillRow(a: string, b: string, i: nat, prev: array<nat>, curr: array<nat>)
    requires 1 <= i <= |a| && prev != curr && curr.Length == |b| + 1
    requires Row(prev, |b| + 1, a, b, i - 1)
    modifies curr
    ensures Row(curr, |b| + 1, a, b, i)
  {
    curr[0] := i;
    for j := 1 to |b| + 1
      invariant Row(prev, |b| + 1, a, b, i - 1)
      invariant Row(curr, j, a, b, i)
    {
      var cost := 1;
      if a[i - 1] == b[j - 1] {
        cost := 0;
      }
      curr[j] := Min3(prev[j] + 1, curr[j - 1] + 1, prev[j - 1] + cost);
    }
  }

  // ------------------------------------------------------------- scripts

  datatype Edit = Insert(at: nat, c: char) | Delete(at: nat) | Substitute(at: nat, c: char)

  predicate Applies(s: string, e: Edit) {
    if e.Insert? then e.at <= |s| else e.at < |s|
  }

  function Apply(s: string, e: Edit): string
    requires Applies(s, e)
  {
    match e
    case Insert(at, c) => s[..at] + [c] + s[at..]
    case Delete(at) => s[..at] + s[at + 1..]
    case Substitute(at, c) => s[..at] + [c] + s[at + 1..]
  }

  // What a script turns s into, if every edit applies.
  function Outcome(s: string, script: seq<Edit>): Option<string>
    decreases |script|
  {
    if script == [] then Some(s)
    else if Applies(s, script[0]) then Outcome(Apply(s, script[0]), script[1..])
    else None
  }

  lemma {:induction false} OutcomeOfConcat(s: string, x: seq<Edit>, y: seq<Edit>)
    requires Outcome(s, x).Some?
    ensures Outcome(s, x + y) == Outcome(Outcome(s, x).value, y)
    decreases |x|
  {
    if x == [] {
      assert x + y == y;
    } else {
      assert (x + y)[1..] == x[1..] + y && (x + y)[0] == x[0];
      OutcomeOfConcat(Apply(s, x[0]), x[1..], y);
    }
  }

  // A script works the same in front of one more character.
  lemma {:induction false} OutcomeInFront(s: string, script: seq<Edit>, c: char)
    requires Outcome(s, script).Some?
    ensures Outcome(s + [c], script) == Some(Outcome(s, script).value + [c])
    decreases |script|
  {
    if script != [] {
      var e := script[0];
      ApplyInFront(s, e, c);
      OutcomeInFront(Apply(s, e), script[1..], c);
    }
  }

  lemma {:induction false} ApplyInFront(s: string, e: Edit, c: char)
    requires Applies(s, e)
    ensures Applies(s + [c], e) && Apply(s + [c], e) == Apply(s, e) + [c]
  {
    assert (s + [c])[..e.at] == s[..e.at];
    assert (s + [c])[e.at..] == s[e.at..] + [c];
    if !e.Insert? {
      assert (s + [c])[e.at + 1..] == s[e.at + 1..] + [c];
    }
  }

  /** There is a script of exactly that length. */
  lemma {:induction false} ShortestScript(a: string, b: string) returns (script: seq<Edit>)
    ensures Outcome(a, script) == Some(b) && |script| == Dist(a, b)
    decreases |a| + |b|
  {
    if a == "" && b == "" {
      script := [];
    } else if b != "" && Dist(a, b) == Dist(a, Init(b)) + 1 {
      script := ShortestScript(a, Init(b));
      script := ThenEdit(a, script, Init(b), Insert(|b| - 1, Last(b)));
      InsertLast(b);
    } else if a != "" && Dist(a, b) == Dist(Init(a), b) + 1 {
      var rest := ShortestScript(Init(a), b);
      script := DeleteFirst(a, b, rest);
    } else {
      var inner := ShortestScript(Init(a), Init(b));
      script := ThenMatchLast(a, b, inner);
    }
  }

  lemma {:induction false} InsertLast(b: string)
    requires b != ""
    ensures Apply(Init(b), Insert(|b| - 1, Last(b))) == b
  {
  }

  lemma {:induction false} DeleteFirst(a: string, b: string, rest: seq<Edit>) returns (script: seq<Edit>)
    requires a != "" && Outcome(Init(a), rest) == Some(b)
    ensures |script| == |rest| + 1 && Outcome(a, script) == Some(b)
  {
    var e := Delete(|a| - 1);
    script := [e] + rest;
    assert Apply(a, e) == Init(a) && script[1..] == rest;
  }

  lemma {:induction false} ThenMatchLast(a: string, b: string, inner: seq<Edit>) returns (script: seq<Edit>)
    requires a != "" && b != "" && Outcome(Init(a), inner) == Some(Init(b))
    ensures |script| == |inner| + Cost(Last(a), Last(b)) && Outcome(a, script) == Some(b)
  {
    var x, y := Last(a), Last(b);
    OutcomeInFront(Init(a), inner, x);
    InitAndLast(a);
    InitAndLast(b);
    var mid := Init(b) + [x];
    assert Outcome(a, inner) == Some(mid);
    if x == y {
      script := inner;
    } else {
      script := ThenEdit(a, inner, mid, Substitute(|b| - 1, y));
      SubstituteLast(b, x);
    }
  }

  lemma {:induction false} InitAndLast(s: string)
    requires s != ""
    ensures Init(s) + [Last(s)] == s
  {
  }

  lemma {:induction false} SubstituteLast(b: string, x: char)
    requires b != ""
    ensures Applies(Init(b) + [x], Substitute(|b| - 1, Last(b)))
    ensures Apply(Init(b) + [x], Substitute(|b| - 1, Last(b))) == b
  {
  }

  lemma {:induction false} ThenEdit(a: string, script: seq<Edit>, mid: string, e: Edit) returns (longer: seq<Edit>)
    requires Outcome(a, script) == Some(mid) && Applies(mid, e)
    ensures |longer| == |script| + 1 && Outcome(a, longer) == Some(Apply(mid, e))
  {
    longer := script + [e];
    OutcomeOfConcat(a, script, [e]);
    assert [e][1..] == [];
  }

  // ------------------------------------------------- no script is shorter

  // y comes from x by at most one edit, described from the end.
  predicate Adjacent(x: string, y: string)
    decreases |x|
  {
    || x == y
    || (x != "" && Init(x) == y)
    || (y != "" && x == Init(y))
    || (x != "" && y != "" && Init(x) == Init(y))
    || (x != "" && y != "" && Last(x) == Last(y) && Adjacent(Init(x), Init(y)))
  }

  lemma {:induction false} EditIsAdjacent(s: string, e: Edit)
    requires Applies(s, e)
    ensures Adjacent(s, Apply(s, e))
    decreases |s|
  {
    var t := Apply(s, e);
    if e.at + 1 < |s| || (e.Insert? && e.at < |s|) {
      ApplyInFront(Init(s), e, Last(s));
      assert Init(s) + [Last(s)] == s;
      assert Init(t) == Apply(Init(s), e);
      EditIsAdjacent(Init(s), e);
    } else if e.Insert? {
      assert Init(t) == s;
    } else if e.Delete? {
      assert t == Init(s);
    } else {
      assert Init(t) == Init(s);
    }
  }

  lemma {:induction false} DistSteps(a: string, c: string)
    ensures a != "" ==> Dist(a, c) <= Dist(Init(a), c) + 1
    ensures c != "" ==> Dist(a, c) <= Dist(a, Init(c)) + 1
    ensures a != "" && c != "" ==> Dist(a, c) <= Dist(Init(a), Init(c)) + Cost(Last(a), Last(c))
  {
  }

  // Dropping the last character costs at most one.
  lemma {:induction false} DropLast(a: string, c: string)
    requires a != ""
    ensures Dist(Init(a), c) <= Dist(a, c) + 1
    decreases |c|
  {
    DistSteps(Init(a), c);
    if c != "" {
      DropLast(a, Init(c));
    }
  }

  // So does replacing it.
  lemma {:induction false} ReplaceLast(x: string, y: string, c: string)
    requires x != "" && y != "" && Init(x) == Init(y)
    ensures Dist(x, c) <= Dist(y, c) + 1
    decreases |c|
  {
    DistSteps(x, c);
    if c != "" {
      ReplaceLast(x, y, Init(c));
    }
  }

  /** One edit changes the distance to anything by at most one. */
  lemma {:induction false} AdjacentMovesOne(x: string, y: string, c: string)
    requires Adjacent(x, y)
    ensures Dist(x, c) <= Dist(y, c) + 1
    decreases |x| + |c|
  {
    DistSteps(x, c);
    if x == y {
    } else if x != "" && Init(x) == y {
    } else if y != "" && x == Init(y) {
      DropLast(y, c);
    } else if Init(x) == Init(y) {
      ReplaceLast(x, y, c);
    } else {
      AdjacentMovesOne(Init(x), Init(y), c);
      if c != "" {
        AdjacentMovesOne(x, y, Init(c));
        AdjacentMovesOne(Init(x), Init(y), Init(c));
      } else {
        LengthBound(x, c);
        LengthBound(y, c);
        LengthBound(Init(x), c);
        LengthBound(Init(y), c);
      }
    }
  }

  lemma {:induction false} LengthBound(a: string, b: string)
    ensures |a| - |b| <= Dist(a, b) && |b| - |a| <= Dist(a, b)
    ensures Dist(a, b) <= if |a| < |b| then |b| else |a|
    decreases |a| + |b|
  {
    if a != "" && b != "" {
      LengthBound(Init(a), b);
      LengthBound(a, Init(b));
      LengthBound(Init(a), Init(b));
    }
  }

  /** No script that turns a into b is shorter. */
  lemma {:induction false} NoShorterScript(a: string, b: string, script: seq<Edit>)
    requires Outcome(a, script) == Some(b)
    ensures Dist(a, b) <= |script|
    decreases |script|
  {
    if script == [] {
      SelfDist(a);
    } else {
      var next := Apply(a, script[0]);
      NoShorterScript(next, b, script[1..]);
      EditIsAdjacent(a, script[0]);
      AdjacentMovesOne(a, next, b);
    }
  }

  lemma {:induction false} SelfDist(a: string)
    ensures Dist(a, a) == 0
  {
    if a != "" {
      SelfDist(Init(a));
    }
  }

  /** Zero exactly on equal strings. */
  lemma {:induction false} ZeroIffEqual(a: string, b: string)
    ensures Dist(a, b) == 0 <==> a == b
  {
    SelfDist(a);
    var script := ShortestScript(a, b);
  }

  lemma {:induction false} Symmetric(a: string, b: string)
    ensures Dist(a, b) == Dist(b, a)
    decreases |a| + |b|
  {
    if a != "" && b != "" {
      Symmetric(Init(a), b);
      Symmetric(a, Init(b));
      Symmetric(Init(a), Init(b));
    }
  }

  /** Editing by way of a third string is never shorter. */
  lemma {:induction false} Triangle(a: string, b: string, c: string)
    ensures Dist(a, c) <= Dist(a, b) + Dist(b, c)
  {
    var first := ShortestScript(a, b);
    var second := ShortestScript(b, c);
    OutcomeOfConcat(a, first, second);
    NoShorterScript(a, c, first + second);
  }
}
