/** Two caches of different capacity under the same timed operations: everything the smaller
    one holds the larger one holds too, in the same order of recency. */
module LruInclusion {
  import opened LruRuns
  import opened Wrappers

  // The items of list with a key in keep, in order.
  function Restrict(list: seq<Item>, keep: set<string>): seq<Item> {
    if list == [] then []
    else if list[0].key in keep then [list[0]] + Restrict(list[1..], keep)
    else Restrict(list[1..], keep)
  }

  lemma {:induction false} RestrictSame(list: seq<Item>, k1: set<string>, k2: set<string>)
    requires forall k | k in Keys(list) :: k in k1 <==> k in k2
    ensures Restrict(list, k1) == Restrict(list, k2)
  {
    if list != [] {
      KeysOfCons(list[0], list[1..]);
      assert list == [list[0]] + list[1..];
      RestrictSame(list[1..], k1, k2);
    }
  }

  lemma {:induction false} RestrictWithout(list: seq<Item>, keep: set<string>, key: string)
    ensures Restrict(Without(list, key), keep) == Without(Restrict(list, keep), key)
  {
    if list != [] {
      RestrictWithout(list[1..], keep, key);
    }
  }

  lemma {:induction false} RestrictLookup(list: seq<Item>, keep: set<string>, key: string)
    ensures Lookup(Restrict(list, keep), key) == if key in keep then Lookup(list, key) else None
  {
    if list != [] {
      RestrictLookup(list[1..], keep, key);
    }
  }

  lemma {:induction false} RestrictLive(list: seq<Item>, keep: set<string>, now: int)
    ensures Restrict(Live(list, now), keep) == Live(Restrict(list, keep), now)
    ensures |Live(list, now)| - |Live(Restrict(list, keep), now)| <= |list| - |Restrict(list, keep)|
  {
    if list != [] {
      RestrictLive(list[1..], keep, now);
    }
  }

  lemma {:induction false} RestrictKeys(list: seq<Item>, keep: set<string>)
    ensures Keys(Restrict(list, keep)) == Keys(list) * keep
    ensures |Restrict(list, keep)| <= |list|
    ensures DistinctKeys(list) ==> DistinctKeys(Restrict(list, keep))
  {
    if list != [] {
      var rest := list[1..];
      RestrictKeys(rest, keep);
      assert list == [list[0]] + rest;
      KeysOfCons(list[0], rest);
      DistinctCons(list[0], rest);
      KeysOfCons(list[0], Restrict(rest, keep));
      DistinctCons(list[0], Restrict(rest, keep));
    }
  }

  lemma {:induction false} RestrictSnoc(list: seq<Item>, item: Item, keep: set<string>)
    ensures Restrict(list + [item], keep) == Restrict(list, keep) + if item.key in keep then [item] else []
  {
    if list == [] {
      assert list + [item] == [item] && [item][1..] == [];
    } else {
      RestrictSnoc(list[1..], item, keep);
      assert (list + [item])[1..] == list[1..] + [item];
    }
  }

  // Dropping the last kept item is keeping one key less.
  lemma {:induction false} RestrictDropLast(list: seq<Item>, keep: set<string>)
    requires DistinctKeys(list) && Restrict(list, keep) != []
    ensures var a := Restrict(list, keep);
            a[..|a| - 1] == Restrict(list, keep - {a[|a| - 1].key})
    ensures var kept := Restrict(list, keep);
            list != [] && (list[|list| - 1].key in keep ==> list[|list| - 1] == kept[|kept| - 1])
  {
    var n := |list| - 1;
    var init, y := list[..n], list[n];
    assert list == init + [y];
    RestrictSnoc(init, y, keep);
    var a := Restrict(list, keep);
    var z := a[|a| - 1].key;
    RestrictSnoc(init, y, keep - {z});
    PrefixFacts(list, n);
    if y.key in keep {
      assert y.key !in Keys(init);
      RestrictSame(init, keep, keep - {z});
    } else {
      RestrictDropLast(init, keep);
    }
  }

  /** a is b with some keys missing, and b has at most spare items more than a. */
  predicate Inside(a: seq<Item>, b: seq<Item>, keep: set<string>, spare: nat) {
    a == Restrict(b, keep) && |b| - |a| <= spare
  }

  // Moving the same item to the front of both, new or not.
  lemma {:induction false} FrontInside(a: seq<Item>, b: seq<Item>, keep: set<string>, spare: nat, item: Item)
    requires DistinctKeys(b) && Inside(a, b, keep, spare) && (item.key in keep <==> item.key in Keys(a))
    requires item.key in Keys(a)
    ensures Inside(Front(item, a), Front(item, b), keep, spare)
  {
    RestrictWithout(b, keep, item.key);
    RestrictKeys(b, keep);
    WithoutFacts(a, item.key);
    WithoutFacts(b, item.key);
    assert Front(item, b)[1..] == Without(b, item.key);
  }

  // Touching in b alone a key that a does not keep.
  lemma {:induction false} OtherTouched(a: seq<Item>, b: seq<Item>, keep: set<string>, spare: nat, item: Item)
    requires DistinctKeys(b) && Inside(a, b, keep, spare) && item.key !in keep
    ensures item.key in Keys(b) ==> Inside(a, Front(item, b), keep, spare)
    ensures Inside(a, Without(b, item.key), keep, spare)
  {
    var key := item.key;
    RestrictWithout(b, keep, key);
    RestrictKeys(b, keep);
    WithoutFacts(a, key);
    WithoutFacts(b, key);
    assert Front(item, b)[1..] == Without(b, key);
  }

  // A new front item on both, where only a had to make room.
  lemma {:induction false} PushInside(a: seq<Item>, b: seq<Item>, keep: set<string>, spare: nat, item: Item)
    requires Inside(a, b, keep, spare) && item.key !in Keys(b)
    ensures Inside([item] + a, [item] + b, keep + {item.key}, spare)
  {
    RestrictSame(b, keep, keep + {item.key});
    assert ([item] + b)[1..] == b;
  }

  lemma {:induction false} GetInside(m: nat, n: nat, ttl: int, a: seq<Item>, b: seq<Item>, keep: set<string>,
                                     key: string, now: int)
    requires 1 <= m <= n && DistinctKeys(b) && Inside(a, b, keep, n - m)
    ensures var t := Timed(Get(key), now); Inside(After(m, ttl, a, t), After(n, ttl, b, t), keep, n - m)
  {
    RestrictLookup(b, keep, key);
    LookupFacts(b, key);
    LookupFacts(a, key);
    RestrictKeys(b, keep);
    if Lookup(b, key).Some? {
      var item := Lookup(b, key).value;
      if key !in keep {
        OtherTouched(a, b, keep, n - m, item);
      } else if Expired(item, now) {
        DeleteInside(a, b, keep, n - m, key);
      } else {
        FrontInside(a, b, keep, n - m, item);
      }
    }
  }

  lemma {:induction false} DeleteInside(a: seq<Item>, b: seq<Item>, keep: set<string>, spare: nat, key: string)
    requires DistinctKeys(b) && Inside(a, b, keep, spare)
    ensures Inside(Without(a, key), Without(b, key), keep, spare)
  {
    RestrictWithout(b, keep, key);
    RestrictKeys(b, keep);
    WithoutFacts(a, key);
    WithoutFacts(b, key);
  }

  // Making room in both: b is full only when a is.
  lemma {:induction false} RoomInside(m: nat, n: nat, a: seq<Item>, b: seq<Item>, keep: set<string>)
    returns (keep': set<string>)
    requires 1 <= m <= n && DistinctKeys(b) && |a| <= m && |b| <= n && Inside(a, b, keep, n - m)
    ensures keep' <= keep && Inside(Room(m, a), Room(n, b), keep', n - m)
  {
    keep' := keep;
    if |a| >= m {
      RestrictDropLast(b, keep);
      keep' := keep - {a[|a| - 1].key};
      if |b| >= n {
        var init, y := b[..|b| - 1], b[|b| - 1];
        assert b == init + [y];
        RestrictSnoc(init, y, keep');
      } else {
        RestrictKeys(b, keep');
      }
    }
  }

  lemma {:induction false} SetInside(m: nat, n: nat, a: seq<Item>, b: seq<Item>, keep: set<string>, item: Item)
    returns (keep': set<string>)
    requires 1 <= m <= n && DistinctKeys(b) && |a| <= m && |b| <= n && Inside(a, b, keep, n - m)
    ensures Inside(Stored(m, a, item), Stored(n, b, item), keep', n - m)
  {
    var key := item.key;
    LookupFacts(b, key);
    LookupFacts(a, key);
    RestrictKeys(b, keep);
    if key in Keys(a) {
      FrontInside(a, b, keep, n - m, item);
      keep' := keep;
    } else if key in Keys(b) {
      keep' := SetPresentInside(m, n, a, b, keep, item);
    } else {
      keep' := SetAbsentInside(m, n, a, b, keep, item);
    }
  }

  lemma {:induction false} SetAbsentInside(m: nat, n: nat, a: seq<Item>, b: seq<Item>, keep: set<string>, item: Item)
    returns (keep': set<string>)
    requires 1 <= m <= n && DistinctKeys(b) && |a| <= m && |b| <= n && Inside(a, b, keep, n - m)
    requires item.key !in Keys(b)
    ensures Inside([item] + Room(m, a), [item] + Room(n, b), keep', n - m)
  {
    var k := RoomInside(m, n, a, b, keep);
    RoomKeys(n, b);
    PushInside(Room(m, a), Room(n, b), k, n - m, item);
    keep' := k + {item.key};
  }

  lemma {:induction false} RoomKeys(max: nat, list: seq<Item>)
    requires max >= 1
    ensures Keys(Room(max, list)) <= Keys(list)
  {
    if |list| >= max {
      PrefixFacts(list, |list| - 1);
    }
  }

  // The key is in b but not in a: b moves it, a takes it in and may have to make room.
  lemma {:induction false} SetPresentInside(m: nat, n: nat, a: seq<Item>, b: seq<Item>, keep: set<string>, item: Item)
    returns (keep': set<string>)
    requires 1 <= m <= n && DistinctKeys(b) && |a| <= m && |b| <= n && Inside(a, b, keep, n - m)
    requires item.key !in keep && item.key in Keys(b)
    ensures Inside([item] + Room(m, a), Front(item, b), keep', n - m)
  {
    var key := item.key;
    var rest := Without(b, key);
    WithoutFacts(b, key);
    WithoutFacts(a, key);
    RestrictWithout(b, keep, key);
    RestrictKeys(b, keep);
    assert a == Restrict(rest, keep);
    var k := keep;
    if |a| >= m {
      RestrictDropLast(rest, keep);
      k := keep - {a[|a| - 1].key};
    }
    assert Room(m, a) == Restrict(rest, k);
    RestrictKeys(rest, k);
    PushInside(Room(m, a), rest, k, n - m, item);
    keep' := k + {key};
  }

  lemma {:induction false} AfterInside(m: nat, n: nat, ttl: int, a: seq<Item>, b: seq<Item>, keep: set<string>,
                                       t: Timed)
    returns (keep': set<string>)
    requires 1 <= m <= n && DistinctKeys(b) && |a| <= m && |b| <= n && Inside(a, b, keep, n - m)
    ensures Inside(After(m, ttl, a, t), After(n, ttl, b, t), keep', n - m)
  {
    keep' := keep;
    match t.op
    case Get(key) => GetInside(m, n, ttl, a, b, keep, key, t.now);
    case Set(key, value) => keep' := SetInside(m, n, a, b, keep, Item(key, value, t.now + ttl));
    case Delete(key) => DeleteInside(a, b, keep, n - m, key);
    case Clear =>
    case Cleanup => RestrictLive(b, keep, t.now);
  }

  /** Over every run, what the smaller cache holds is what the larger holds with some keys
      missing: same values, same expiries, same order. */
  lemma {:induction false} SmallerInsideLarger(m: nat, n: nat, ttl: int, ops: seq<Timed>) returns (keep: set<string>)
    requires 1 <= m <= n
    ensures Inside(Runs(m, ttl, [], ops), Runs(n, ttl, [], ops), keep, n - m)
  {
    if ops == [] {
      keep := {};
    } else {
      var init := ops[..|ops| - 1];
      var k := SmallerInsideLarger(m, n, ttl, init);
      RunsKeepShape(m, ttl, [], init);
      RunsKeepShape(n, ttl, [], init);
      keep := AfterInside(m, n, ttl, Runs(m, ttl, [], init), Runs(n, ttl, [], init), k, ops[|ops| - 1]);
    }
  }

  /** So every hit in the smaller cache is a hit with the same value in the larger. */
  lemma {:induction false} LargerHitsToo(m: nat, n: nat, ttl: int, ops: seq<Timed>, key: string, now: int)
    requires 1 <= m <= n && Answer(Runs(m, ttl, [], ops), key, now).Some?
    ensures Answer(Runs(n, ttl, [], ops), key, now) == Answer(Runs(m, ttl, [], ops), key, now)
  {
    var keep := SmallerInsideLarger(m, n, ttl, ops);
    RestrictLookup(Runs(n, ttl, [], ops), keep, key);
  }

  // --------------------------------------------------------------- prefixes

  // A Get that hits in the larger cache only, while the smaller one holds something.
  predicate HitsOnlyLarger(a: seq<Item>, b: seq<Item>, t: Timed) {
    t.op.Get? && Answer(b, t.op.key, t.now).Some? && t.op.key !in Keys(a) && a != []
  }

  /** The stronger claim that the smaller list is a prefix of the larger is kept by every
      operation except a Get that hits only in the larger cache, which always breaks it
      (unless the smaller one is empty). */
  lemma {:induction false} PrefixKeptIff(m: nat, n: nat, ttl: int, a: seq<Item>, b: seq<Item>, t: Timed)
    requires 1 <= m <= n && DistinctKeys(b) && |a| <= m && |b| <= n && a <= b
    ensures After(m, ttl, a, t) <= After(n, ttl, b, t) <==> !HitsOnlyLarger(a, b, t)
  {
    PrefixFacts(b, |a|);
    match t.op
    case Get(key) =>
      PrefixLookup(a, b, key);
      PrefixWithout(a, b, key);
      LookupFacts(a, key);
      LookupFacts(b, key);
      WithoutFacts(a, key);
      assert a != [] ==> a[0].key in Keys(a);
    case Set(key, value) =>
      PrefixLookup(a, b, key);
      PrefixWithout(a, b, key);
      LookupFacts(a, key);
      LookupFacts(b, key);
      WithoutFacts(a, key);
    case Delete(key) => PrefixWithout(a, b, key);
    case Clear =>
    case Cleanup => PrefixLive(a, b, t.now);
  }

  // After the first i operations the smaller list is a prefix of the larger.
  predicate PrefixAt(m: nat, n: nat, ttl: int, ops: seq<Timed>, i: nat)
    requires 1 <= m <= n && i <= |ops|
  {
    Runs(m, ttl, [], ops[..i]) <= Runs(n, ttl, [], ops[..i])
  }

  // Operation i is a Get that hits only in the larger cache.
  predicate OnlyLargerHitsAt(m: nat, n: nat, ttl: int, ops: seq<Timed>, i: nat)
    requires 1 <= m <= n && i < |ops|
  {
    HitsOnlyLarger(Runs(m, ttl, [], ops[..i]), Runs(n, ttl, [], ops[..i]), ops[i])
  }

  /** Over every run: the smaller list is a prefix of the larger after every operation if and
      only if no operation is a Get that hits only in the larger while the smaller holds
      something. */
  lemma {:induction false} PrefixThroughoutIff(m: nat, n: nat, ttl: int, ops: seq<Timed>)
    requires 1 <= m <= n
    ensures (forall i | 0 <= i <= |ops| :: PrefixAt(m, n, ttl, ops, i)) <==>
            (forall i | 0 <= i < |ops| :: !OnlyLargerHitsAt(m, n, ttl, ops, i))
  {
    if forall i | 0 <= i < |ops| :: !OnlyLargerHitsAt(m, n, ttl, ops, i) {
      forall i | 0 <= i <= |ops|
        ensures PrefixAt(m, n, ttl, ops, i)
      {
        PrefixWhileShared(m, n, ttl, ops, i);
      }
    } else {
      var i :| 0 <= i < |ops| && OnlyLargerHitsAt(m, n, ttl, ops, i);
      if PrefixAt(m, n, ttl, ops, i) {
        PrefixStepIff(m, n, ttl, ops, i);
      }
    }
  }

  lemma {:induction false} PrefixStepIff(m: nat, n: nat, ttl: int, ops: seq<Timed>, i: nat)
    requires 1 <= m <= n && i < |ops| && PrefixAt(m, n, ttl, ops, i)
    ensures PrefixAt(m, n, ttl, ops, i + 1) <==> !OnlyLargerHitsAt(m, n, ttl, ops, i)
  {
    var init := ops[..i];
    assert ops[..i + 1][..i] == init;
    RunsKeepShape(m, ttl, [], init);
    RunsKeepShape(n, ttl, [], init);
    PrefixKeptIff(m, n, ttl, Runs(m, ttl, [], init), Runs(n, ttl, [], init), ops[i]);
  }

  lemma {:induction false} PrefixWhileShared(m: nat, n: nat, ttl: int, ops: seq<Timed>, i: nat)
    requires 1 <= m <= n && i <= |ops|
    requires forall j | 0 <= j < i :: !OnlyLargerHitsAt(m, n, ttl, ops, j)
    ensures PrefixAt(m, n, ttl, ops, i)
  {
    if i > 0 {
      PrefixWhileShared(m, n, ttl, ops, i - 1);
      PrefixStepIff(m, n, ttl, ops, i - 1);
    }
  }

  lemma {:induction false} PrefixLookup(a: seq<Item>, b: seq<Item>, key: string)
    requires a <= b
    ensures Lookup(a, key).Some? ==> Lookup(b, key) == Lookup(a, key)
  {
    if a != [] {
      PrefixLookup(a[1..], b[1..], key);
    }
  }

  lemma {:induction false} PrefixWithout(a: seq<Item>, b: seq<Item>, key: string)
    requires a <= b
    ensures Without(a, key) <= Without(b, key)
  {
    if a != [] {
      PrefixWithout(a[1..], b[1..], key);
    }
  }

  lemma {:induction false} PrefixLive(a: seq<Item>, b: seq<Item>, now: int)
    requires a <= b
    ensures Live(a, now) <= Live(b, now)
  {
    if a != [] {
      PrefixLive(a[1..], b[1..], now);
    }
  }

  /** A run that breaks it: three operations, capacities one and two. */
  lemma {:induction false} PrefixCounterexample()
    ensures var ops := [Timed(Set("k", "1"), 0), Timed(Set("x", "2"), 0), Timed(Get("k"), 0)];
            && Runs(1, 10, [], ops) == [Item("x", "2", 10)]
            && Runs(2, 10, [], ops) == [Item("k", "1", 10), Item("x", "2", 10)]
            && !(Runs(1, 10, [], ops) <= Runs(2, 10, [], ops))
  {
    var ops := [Timed(Set("k", "1"), 0), Timed(Set("x", "2"), 0), Timed(Get("k"), 0)];
    var k, x := Item("k", "1", 10), Item("x", "2", 10);
    assert k.key[0] != x.key[0];
    assert [x, k][1..] == [k] && [k][1..] == [];
    assert ops[..2] == [ops[0], ops[1]] && ops[..2][..1] == [ops[0]] && [ops[0]][..0] == [];
    assert Lookup([k], "x") == Lookup([], "x") == None;
    assert After(1, 10, [k], ops[1]) == [x] + Room(1, [k]) == [x];
    assert After(2, 10, [k], ops[1]) == [x] + Room(2, [k]) == [x, k];
    assert Runs(1, 10, [], [ops[0]]) == [k] && Runs(2, 10, [], [ops[0]]) == [k];
    assert Runs(1, 10, [], ops[..2]) == [x] && Runs(2, 10, [], ops[..2]) == [x, k];
    assert Lookup([x], "k") == Lookup([], "k") == None && Lookup([x, k], "k") == Lookup([k], "k") == Some(k);
    assert Without([x, k], "k") == [x] + Without([k], "k") == [x];
    assert After(2, 10, [x, k], ops[2]) == Front(k, [x, k]) == [k, x];
  }
}
