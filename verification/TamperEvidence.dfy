/** What the hash chain proves: changing any record, or dropping, adding or moving one,
    changes the head hash, unless the changer exhibits a failure of the MAC itself. */
module TamperEvidence {
  import opened Wrappers
  import opened Text
  import opened AuditRecord

  // The MACs of the two records collide: different inputs, one output.
  predicate MacCollision(p: Primitives, key: Bytes, r: AuditLog, s: AuditLog) {
    && CallOf(p, key, r).Some? && CallOf(p, key, s).Some?
    && Collides(p, CallOf(p, key, r).value, CallOf(p, key, s).value)
  }

  // The MAC of the record is the zero hash.
  predicate ZeroPreimage(p: Primitives, key: Bytes, r: AuditLog) {
    CallOf(p, key, r).Some? && Mac(p, CallOf(p, key, r).value) == ZERO_HASH
  }

  /** The MAC failed on records of these two logs. */
  ghost predicate MacBroken(p: Primitives, key: Bytes, rs: seq<AuditLog>, ss: seq<AuditLog>) {
    || (exists i, j | 0 <= i < |rs| && 0 <= j < |ss| :: MacCollision(p, key, rs[i], ss[j]))
    || (exists i | 0 <= i < |rs| :: ZeroPreimage(p, key, rs[i]))
    || (exists j | 0 <= j < |ss| :: ZeroPreimage(p, key, ss[j]))
  }

  // The head of a chain that starts at the zero hash is always 64 bytes long.
  lemma {:induction false} HeadLength(p: Primitives, key: Bytes, rs: seq<AuditLog>)
    requires Sound(p) && Chain(p, key, ZERO_HASH, rs)
    ensures |Head(ZERO_HASH, rs)| == 64
  {
    if rs != [] {
      ChainLast(p, key, ZERO_HASH, rs);
    }
  }

  lemma {:induction false} HeadIsMac(p: Primitives, key: Bytes, rs: seq<AuditLog>)
    requires rs != [] && Chain(p, key, ZERO_HASH, rs)
    ensures Head(ZERO_HASH, rs) == ZERO_HASH ==> ZeroPreimage(p, key, rs[|rs| - 1])
  {
    ChainLast(p, key, ZERO_HASH, rs);
    SignsIsMac(p, key, rs[|rs| - 1]);
  }

  // Two signed records with one hash and prev_hashes of equal length are one record.
  lemma {:induction false} SameRecord(p: Primitives, key: Bytes, r: AuditLog, s: AuditLog)
    requires Sound(p) && Signs(p, key, r) && Signs(p, key, s)
    requires r.currHash == s.currHash && |r.prevHash| == |s.prevHash|
    ensures r == s || MacCollision(p, key, r, s)
  {
    SignsIsMac(p, key, r);
    SignsIsMac(p, key, s);
    if CallOf(p, key, r) == CallOf(p, key, s) {
      var a, b := r.(currHash := ""), s.(currHash := "");
      var x, y := p.marshal(a).value, p.marshal(b).value;
      var n := |r.prevHash|;
      assert x == (r.prevHash + x)[n..] && y == (s.prevHash + y)[n..];
      assert Faithful(p, a) && Faithful(p, b);
    }
  }

  lemma {:induction false} SameLast(p: Primitives, key: Bytes, rs: seq<AuditLog>, ss: seq<AuditLog>)
    requires Sound(p) && rs != [] && ss != []
    requires Chain(p, key, ZERO_HASH, rs) && Chain(p, key, ZERO_HASH, ss)
    requires Head(ZERO_HASH, rs) == Head(ZERO_HASH, ss)
    ensures Chain(p, key, ZERO_HASH, rs[..|rs| - 1]) && Chain(p, key, ZERO_HASH, ss[..|ss| - 1])
    ensures || MacCollision(p, key, rs[|rs| - 1], ss[|ss| - 1])
            || (rs[|rs| - 1] == ss[|ss| - 1]
                && Head(ZERO_HASH, rs[..|rs| - 1]) == Head(ZERO_HASH, ss[..|ss| - 1]))
  {
    ChainLast(p, key, ZERO_HASH, rs);
    ChainLast(p, key, ZERO_HASH, ss);
    HeadLength(p, key, rs[..|rs| - 1]);
    HeadLength(p, key, ss[..|ss| - 1]);
    SameRecord(p, key, rs[|rs| - 1], ss[|ss| - 1]);
  }

  /** One record changed in any way is no longer signed as it stands, unless the changer found
      two contents with the same MAC: keeping the hash means colliding. */
  lemma {:induction false} ChangeShows(p: Primitives, key: Bytes, r: AuditLog, changed: AuditLog)
    requires Sound(p) && Signs(p, key, r)
    requires changed != r && changed.currHash == r.currHash && changed.prevHash == r.prevHash
    ensures !Signs(p, key, changed) || MacCollision(p, key, r, changed)
  {
    if Signs(p, key, changed) {
      SameRecord(p, key, r, changed);
    }
  }

  /** Two logs that replay under the same key and end in the same hash are the same log,
      or they exhibit a MAC collision or a preimage of the zero hash. */
  lemma {:induction false} SameHeadSameLog(p: Primitives, key: Bytes, rs: seq<AuditLog>, ss: seq<AuditLog>)
    requires Sound(p)
    requires Chain(p, key, ZERO_HASH, rs) && Chain(p, key, ZERO_HASH, ss)
    requires Head(ZERO_HASH, rs) == Head(ZERO_HASH, ss)
    ensures rs == ss || MacBroken(p, key, rs, ss)
  {
    if rs == [] && ss != [] {
      HeadIsMac(p, key, ss);
    } else if rs != [] && ss == [] {
      HeadIsMac(p, key, rs);
    } else if rs != [] && ss != [] {
      var m, n := |rs| - 1, |ss| - 1;
      SameLast(p, key, rs, ss);
      if rs[m] == ss[n] {
        SameHeadSameLog(p, key, rs[..m], ss[..n]);
        assert rs == rs[..m] + [rs[m]] && ss == ss[..n] + [ss[n]];
        MacBrokenMono(p, key, rs, ss, m, n);
      } else {
        assert MacCollision(p, key, rs[m], ss[n]);
      }
    }
  }

  lemma {:induction false} MacBrokenMono(p: Primitives, key: Bytes, rs: seq<AuditLog>, ss: seq<AuditLog>, m: nat,
                                         n: nat)
    requires m <= |rs| && n <= |ss|
    ensures MacBroken(p, key, rs[..m], ss[..n]) ==> MacBroken(p, key, rs, ss)
  {
    if MacBroken(p, key, rs[..m], ss[..n]) {
      if i, j :| 0 <= i < m && 0 <= j < n && MacCollision(p, key, rs[..m][i], ss[..n][j]) {
        assert MacCollision(p, key, rs[i], ss[j]);
      } else if i :| 0 <= i < m && ZeroPreimage(p, key, rs[..m][i]) {
        assert ZeroPreimage(p, key, rs[i]);
      } else {
        var j :| 0 <= j < n && ZeroPreimage(p, key, ss[..n][j]);
        assert ZeroPreimage(p, key, ss[j]);
      }
    }
  }

  /** No two positions of a valid log name the same predecessor. */
  lemma {:induction false} PrevHashesDistinct(p: Primitives, key: Bytes, rs: seq<AuditLog>, i: nat, j: nat)
    requires Sound(p) && Chain(p, key, ZERO_HASH, rs)
    requires i < j < |rs| && rs[i].prevHash == rs[j].prevHash
    ensures MacBroken(p, key, rs, rs)
  {
    ChainPrefix(p, key, ZERO_HASH, rs, i);
    ChainPrefix(p, key, ZERO_HASH, rs, j);
    SameHeadSameLog(p, key, rs[..i], rs[..j]);
    MacBrokenMono(p, key, rs, rs, i, j);
  }
}
