/** The LRU cache with expiry as a recency list, and what holds over whole runs of timed
    operations: hits are fresh, recent keys survive, and a larger cache hits whenever a
    smaller one does. */
module LruRuns {
  import opened Wrappers

  // Most recently used first.
  datatype Item = Item(key: string, value: string, expiresAt: int)

  function Keys(list: seq<Item>): set<string> {
    set i | 0 <= i < |list| :: list[i].key
  }

  predicate DistinctKeys(list: seq<Item>) {
    forall i, j | 0 <= i < j < |list| :: list[i].key != list[j].key
  }

  function Without(list: seq<Item>, key: string): seq<Item> {
    if list == [] then []
    else if list[0].key == key then Without(list[1..], key)
    else [list[0]] + Without(list[1..], key)
  }

  function Lookup(list: seq<Item>, key: string): Option<Item> {
    if list == [] then None
    else if list[0].key == key then Some(list[0])
    else Lookup(list[1..], key)
  }

  predicate Expired(item: Item, now: int) {
    now > item.expiresAt
  }

  function Live(list: seq<Item>, now: int): seq<Item> {
    if list == [] then []
    else if Expired(list[0], now) then Live(list[1..], now)
    else [list[0]] + Live(list[1..], now)
  }

  function Front(item: Item, list: seq<Item>): seq<Item> {
    [item] + Without(list, item.key)
  }

  // A full list loses its last item.
  function Room(max: nat, list: seq<Item>): seq<Item>
    requires max >= 1
  {
    if |list| >= max then list[..|list| - 1] else list
  }

  // The list after item was set: moved if its key was there, else added at the front.
  function Stored(max: nat, list: seq<Item>, item: Item): seq<Item>
    requires max >= 1
  {
    if Lookup(list, item.key).Some? then Front(item, list) else [item] + Room(max, list)
  }

  datatype Op = Get(key: string) | Set(key: string, value: string) | Delete(key: string) | Clear | Cleanup

  datatype Timed = Timed(op: Op, now: int)

  // The recency list after one operation on an enabled cache.
  function After(max: nat, ttl: int, list: seq<Item>, t: Timed): seq<Item>
    requires max >= 1
  {
    match t.op
    case Get(key) =>
      (match Lookup(list, key)
       case None => list
       case Some(item) => if Expired(item, t.now) then Without(list, key) else Front(item, list))
    case Set(key, value) => Stored(max, list, Item(key, value, t.now + ttl))
    case Delete(key) => Without(list, key)
    case Clear => []
    case Cleanup => Live(list, t.now)
  }

  // What a Get returns.
  function Answer(list: seq<Item>, key: string, now: int): Option<string> {
    match Lookup(list, key)
    case None => None
    case Some(item) => if Expired(item, now) then None else Some(item.value)
  }

  // The recency list after these operations on an enabled cache that held list.
  function Runs(max: nat, ttl: int, list: seq<Item>, ops: seq<Timed>): seq<Item>
    requires max >= 1
  {
    if ops == [] then list else After(max, ttl, Runs(max, ttl, list, ops[..|ops| - 1]), ops[|ops| - 1])
  }

  // ------------------------------------------------------------ list facts

  lemma {:induction false} LookupFacts(list: seq<Item>, key: string)
    ensures Lookup(list, key).Some? <==> key in Keys(list)
    ensures Lookup(list, key).Some? ==>
              exists i | 0 <= i < |list| :: list[i] == Lookup(list, key).value && list[i].key == key
  {
    if list != [] && list[0].key != key {
      LookupFacts(list[1..], key);
      assert forall i | 0 <= i < |list| - 1 :: list[1..][i] == list[i + 1];
      if key in Keys(list) {
        var i :| 0 <= i < |list| && list[i].key == key;
        assert list[1..][i - 1].key == key;
      }
    }
  }

  lemma {:induction false} WithoutFacts(list: seq<Item>, key: string)
    ensures Keys(Without(list, key)) == Keys(list) - {key}
    ensures forall x :: x in Without(list, key) <==> x in list && x.key != key
    ensures DistinctKeys(list) ==> DistinctKeys(Without(list, key))
    ensures |Without(list, key)| <= |list|
    ensures DistinctKeys(list) && key in Keys(list) ==> |Without(list, key)| == |list| - 1
    ensures key !in Keys(list) ==> Without(list, key) == list
  {
    WithoutMembers(list, key);
    WithoutShape(list, key);
  }

  lemma {:induction false} WithoutMembers(list: seq<Item>, key: string)
    ensures Keys(Without(list, key)) == Keys(list) - {key}
    ensures forall x :: x in Without(list, key) <==> x in list && x.key != key
  {
    if list != [] {
      var first, rest := list[0], list[1..];
      WithoutMembers(rest, key);
      assert list == [first] + rest;
      KeysOfCons(first, rest);
      if first.key != key {
        KeysOfCons(first, Without(rest, key));
      }
    }
  }

  lemma {:induction false} WithoutShape(list: seq<Item>, key: string)
    ensures DistinctKeys(list) ==> DistinctKeys(Without(list, key))
    ensures |Without(list, key)| <= |list|
    ensures DistinctKeys(list) && key in Keys(list) ==> |Without(list, key)| == |list| - 1
    ensures key !in Keys(list) ==> Without(list, key) == list
  {
    if list != [] {
      var first, rest := list[0], list[1..];
      WithoutShape(rest, key);
      assert list == [first] + rest;
      KeysOfCons(first, rest);
      DistinctCons(first, rest);
      if first.key != key {
        WithoutMembers(rest, key);
        DistinctCons(first, Without(rest, key));
      }
    }
  }

  lemma {:induction false} KeysOfCons(item: Item, list: seq<Item>)
    ensures Keys([item] + list) == {item.key} + Keys(list)
  {
    var all := [item] + list;
    forall k
      ensures k in Keys(all) <==> k == item.key || k in Keys(list)
    {
      if k in Keys(all) {
        var i :| 0 <= i < |all| && all[i].key == k;
        assert i > 0 ==> list[i - 1].key == k;
      }
      if k in Keys(list) {
        var i :| 0 <= i < |list| && list[i].key == k;
        assert all[i + 1].key == k;
      }
      assert all[0].key == item.key;
    }
  }

  lemma {:induction false} DistinctCons(item: Item, list: seq<Item>)
    ensures DistinctKeys([item] + list) <==> DistinctKeys(list) && item.key !in Keys(list)
  {
    var all := [item] + list;
    assert forall i | 0 <= i < |list| :: all[i + 1] == list[i];
    if DistinctKeys(all) {
      forall i | 0 <= i < |list|
        ensures list[i].key != item.key
      {
        assert all[0].key != all[i + 1].key;
      }
    }
  }

  lemma {:induction false} LiveFacts(list: seq<Item>, now: int)
    ensures Keys(Live(list, now)) <= Keys(list)
    ensures forall x :: x in Live(list, now) <==> x in list && !Expired(x, now)
    ensures DistinctKeys(list) ==> DistinctKeys(Live(list, now))
    ensures |Live(list, now)| <= |list|
  {
    if list != [] {
      var rest := list[1..];
      LiveFacts(rest, now);
      KeysOfCons(list[0], rest);
      KeysOfCons(list[0], Live(rest, now));
      DistinctCons(list[0], rest);
      DistinctCons(list[0], Live(rest, now));
      assert list == [list[0]] + rest;
    }
  }

  lemma {:induction false} PrefixFacts(list: seq<Item>, n: nat)
    requires n <= |list|
    ensures Keys(list[..n]) <= Keys(list)
    ensures DistinctKeys(list) ==> DistinctKeys(list[..n])
  {
    forall k | k in Keys(list[..n])
      ensures k in Keys(list)
    {
      var i :| 0 <= i < n && list[..n][i].key == k;
      assert list[i].key == k;
    }
  }

  lemma {:induction false} StoredKeepsShape(max: nat, list: seq<Item>, item: Item)
    requires max >= 1 && DistinctKeys(list) && |list| <= max
    ensures DistinctKeys(Stored(max, list, item)) && |Stored(max, list, item)| <= max
  {
    LookupFacts(list, item.key);
    if Lookup(list, item.key).Some? {
      WithoutFacts(list, item.key);
      DistinctCons(item, Without(list, item.key));
    } else {
      if |list| >= max {
        PrefixFacts(list, |list| - 1);
      }
      DistinctCons(item, Room(max, list));
    }
  }

  /** Every reachable list has distinct keys and at most max items. */
  lemma {:induction false} AfterKeepsShape(max: nat, ttl: int, list: seq<Item>, t: Timed)
    requires max >= 1 && DistinctKeys(list) && |list| <= max
    ensures DistinctKeys(After(max, ttl, list, t)) && |After(max, ttl, list, t)| <= max
  {
    match t.op
    case Get(key) =>
      LookupFacts(list, key);
      WithoutFacts(list, key);
      if Lookup(list, key).Some? {
        DistinctCons(Lookup(list, key).value, Without(list, key));
      }
    case Set(key, value) => StoredKeepsShape(max, list, Item(key, value, t.now + ttl));
    case Delete(key) => WithoutFacts(list, key);
    case Clear =>
    case Cleanup => LiveFacts(list, t.now);
  }

  lemma {:induction false} RunsKeepShape(max: nat, ttl: int, list: seq<Item>, ops: seq<Timed>)
    requires max >= 1 && DistinctKeys(list) && |list| <= max
    ensures DistinctKeys(Runs(max, ttl, list, ops)) && |Runs(max, ttl, list, ops)| <= max
  {
    if ops != [] {
      RunsKeepShape(max, ttl, list, ops[..|ops| - 1]);
      AfterKeepsShape(max, ttl, Runs(max, ttl, list, ops[..|ops| - 1]), ops[|ops| - 1]);
    }
  }

  // ------------------------------------------------------ one operation

  // Nothing changes for the other keys, not even their order.
  predicate OthersSame(before: seq<Item>, after: seq<Item>, key: string) {
    Without(after, key) == Without(before, key)
  }

  lemma {:induction false} WithoutTwice(list: seq<Item>, key: string)
    ensures Without(Without(list, key), key) == Without(list, key)
  {
    WithoutFacts(list, key);
    WithoutFacts(Without(list, key), key);
  }

  lemma {:induction false} FrontFacts(item: Item, list: seq<Item>)
    ensures item.key in Keys(Front(item, list)) && Lookup(Front(item, list), item.key) == Some(item)
    ensures OthersSame(list, Front(item, list), item.key)
  {
    var rest := Without(list, item.key);
    assert ([item] + rest)[1..] == rest;
    WithoutTwice(list, item.key);
    KeysOfCons(item, rest);
  }

  /** A Get leaves the other keys alone, and its own key in the list exactly when it hits: an
      expired item goes. */
  lemma {:induction false} GetExactly(max: nat, ttl: int, list: seq<Item>, key: string, now: int)
    requires max >= 1
    ensures var after := After(max, ttl, list, Timed(Get(key), now));
            && OthersSame(list, after, key)
            && (key in Keys(after) <==> Answer(list, key, now).Some?)
            && (Answer(list, key, now).Some? <==> exists x :: Lookup(list, key) == Some(x) && now <= x.expiresAt)
  {
    LookupFacts(list, key);
    WithoutFacts(list, key);
    WithoutTwice(list, key);
    if Lookup(list, key).Some? {
      FrontFacts(Lookup(list, key).value, list);
    }
  }

  /** A Set stores the value until now + ttl. The other keys stay as they were, except that a
      new key in a full cache costs the least recently used one its place. */
  lemma {:induction false} SetExactly(max: nat, ttl: int, list: seq<Item>, key: string, value: string, now: int)
    requires 1 <= max && |list| <= max
    ensures var after := After(max, ttl, list, Timed(Set(key, value), now));
            && Lookup(after, key) == Some(Item(key, value, now + ttl))
            && (if key in Keys(list) || |list| < max then OthersSame(list, after, key)
                else after[1..] == list[..max - 1])
  {
    var item := Item(key, value, now + ttl);
    LookupFacts(list, key);
    if key in Keys(list) {
      FrontFacts(item, list);
    } else {
      ConsFacts(item, Room(max, list));
      if |list| < max {
        WithoutFacts(list, key);
      }
    }
  }

  lemma {:induction false} ConsFacts(item: Item, list: seq<Item>)
    ensures ([item] + list)[1..] == list && Lookup([item] + list, item.key) == Some(item)
    ensures Without([item] + list, item.key) == Without(list, item.key)
  {
    assert ([item] + list)[1..] == list;
  }

  /** A Delete removes its key and nothing else; a Clear removes everything; a cleanup removes
      exactly what has expired. */
  lemma {:induction false} RemovalsExactly(max: nat, ttl: int, list: seq<Item>, key: string, now: int)
    requires max >= 1
    ensures var after := After(max, ttl, list, Timed(Delete(key), now));
            OthersSame(list, after, key) && key !in Keys(after)
    ensures After(max, ttl, list, Timed(Clear, now)) == []
    ensures var after := After(max, ttl, list, Timed(Cleanup, now));
            forall x :: x in after <==> x in list && now <= x.expiresAt
  {
    WithoutFacts(list, key);
    WithoutTwice(list, key);
    LiveFacts(list, now);
  }

  // ------------------------------------------------------- hits are fresh

  /** The latest Set of a key since any Delete of it or Clear. */
  function LastSet(ttl: int, ops: seq<Timed>, key: string): Option<Item> {
    if ops == [] then None
    else
      var t := ops[|ops| - 1];
      if t.op.Set? && t.op.key == key then Some(Item(key, t.op.value, t.now + ttl))
      else if t.op.Clear? || (t.op.Delete? && t.op.key == key) then None
      else LastSet(ttl, ops[..|ops| - 1], key)
  }

  // Where an item of the new list comes from.
  lemma {:induction false} AfterOrigin(max: nat, ttl: int, list: seq<Item>, t: Timed, x: Item)
    requires max >= 1 && x in After(max, ttl, list, t)
    ensures !t.op.Clear? && !(t.op.Delete? && t.op.key == x.key)
    ensures if t.op.Set? && t.op.key == x.key then x == Item(x.key, t.op.value, t.now + ttl) else x in list
  {
    match t.op
    case Get(key) =>
      LookupFacts(list, key);
      WithoutFacts(list, key);
    case Set(key, value) =>
      LookupFacts(list, key);
      WithoutFacts(list, key);
      if x in list {
        var i :| 0 <= i < |list| && list[i] == x;
        assert x.key in Keys(list);
      }
    case Delete(key) => WithoutFacts(list, key);
    case Clear =>
    case Cleanup => LiveFacts(list, t.now);
  }

  lemma {:induction false} ItemsAreLatest(max: nat, ttl: int, ops: seq<Timed>, x: Item)
    requires max >= 1 && x in Runs(max, ttl, [], ops)
    ensures LastSet(ttl, ops, x.key) == Some(x)
  {
    var n := |ops| - 1;
    var before := Runs(max, ttl, [], ops[..n]);
    AfterOrigin(max, ttl, before, ops[n], x);
    if !(ops[n].op.Set? && ops[n].op.key == x.key) {
      ItemsAreLatest(max, ttl, ops[..n], x);
    }
  }

  /** A hit returns the value of the latest Set of that key since any Delete or Clear, and
      never past its expiry. */
  lemma {:induction false} HitIsLatestSet(max: nat, ttl: int, ops: seq<Timed>, key: string, now: int)
    requires max >= 1 && Answer(Runs(max, ttl, [], ops), key, now).Some?
    ensures LastSet(ttl, ops, key).Some?
    ensures var latest := LastSet(ttl, ops, key).value;
            Answer(Runs(max, ttl, [], ops), key, now) == Some(latest.value) && now <= latest.expiresAt
  {
    var list := Runs(max, ttl, [], ops);
    LookupFacts(list, key);
    ItemsAreLatest(max, ttl, ops, Lookup(list, key).value);
  }

  // -------------------------------------------------- recent keys survive

  // Keys used more recently than key.
  function Ahead(list: seq<Item>, key: string): set<string> {
    if list == [] || list[0].key == key then {} else {list[0].key} + Ahead(list[1..], key)
  }

  // Other keys that these operations read or wrote.
  function Touched(ops: seq<Timed>, key: string): set<string> {
    set i | 0 <= i < |ops| && (ops[i].op.Get? || ops[i].op.Set?) && ops[i].op.key != key :: ops[i].op.key
  }

  // Nothing removes or rewrites key, and it stays unexpired.
  predicate Undisturbed(ops: seq<Timed>, item: Item) {
    forall i | 0 <= i < |ops| ::
      && !ops[i].op.Clear? && ops[i].now <= item.expiresAt
      && (ops[i].op.Delete? || ops[i].op.Set? ==> ops[i].op.key != item.key)
  }

  lemma {:induction false} AheadWithout(list: seq<Item>, key: string, other: string)
    requires other != key
    ensures Ahead(Without(list, other), key) <= Ahead(list, key)
    ensures Lookup(Without(list, other), key) == Lookup(list, key)
  {
    if list != [] && list[0].key != key {
      AheadWithout(list[1..], key, other);
    }
  }

  lemma {:induction false} AheadLive(list: seq<Item>, key: string, now: int)
    requires Lookup(list, key).Some? && !Expired(Lookup(list, key).value, now)
    ensures Ahead(Live(list, now), key) <= Ahead(list, key)
    ensures Lookup(Live(list, now), key) == Lookup(list, key)
  {
    if list[0].key != key {
      AheadLive(list[1..], key, now);
    }
  }

  // A key at the very end has every other key ahead of it.
  lemma {:induction false} AheadOfLast(list: seq<Item>, key: string)
    requires list != [] && DistinctKeys(list) && list[|list| - 1].key == key
    ensures |Ahead(list, key)| == |list| - 1 && Ahead(list, key) <= Keys(list)
  {
    if |list| > 1 {
      var rest := list[1..];
      assert list == [list[0]] + rest;
      DistinctCons(list[0], rest);
      KeysOfCons(list[0], rest);
      AheadOfLast(rest, key);
      assert list[0].key !in Ahead(rest, key);
    }
  }

  // Dropping another item off the end changes nothing for key.
  lemma {:induction false} AheadOfOther(list: seq<Item>, key: string)
    requires list != [] && list[|list| - 1].key != key
    ensures Lookup(list[..|list| - 1], key) == Lookup(list, key)
    ensures Lookup(list, key).Some? ==> Ahead(list[..|list| - 1], key) == Ahead(list, key)
  {
    if |list| > 1 && list[0].key != key {
      var rest := list[1..];
      AheadOfOther(rest, key);
      assert list[..|list| - 1][1..] == rest[..|rest| - 1];
    }
  }

  // One operation: the key stays, and only the touched key can get ahead of it.
  lemma {:induction false} AfterKeepsKey(max: nat, ttl: int, list: seq<Item>, t: Timed, item: Item,
                                         touched: set<string>)
    requires max >= 1 && DistinctKeys(list) && |list| <= max
    requires Lookup(list, item.key) == Some(item) && Ahead(list, item.key) <= touched
    requires Undisturbed([t], item)
    requires |touched + Touched([t], item.key)| < max
    ensures Lookup(After(max, ttl, list, t), item.key) == Some(item)
    ensures Ahead(After(max, ttl, list, t), item.key) <= touched + Touched([t], item.key)
  {
    assert [t][0] == t;
    var key := item.key;
    match t.op
    case Get(other) =>
      LookupFacts(list, other);
      if other != key {
        AheadWithout(list, key, other);
        assert other in Touched([t], key);
      }
    case Set(other, value) =>
      assert other != key && other in Touched([t], key);
      AheadWithout(list, key, other);
      LookupFacts(list, other);
      if Lookup(list, other).None? && |list| >= max {
        RoomKeepsKey(max, list, key, other, touched + Touched([t], key));
      }
    case Delete(other) => AheadWithout(list, key, other);
    case Clear =>
    case Cleanup => AheadLive(list, key, t.now);
  }

  lemma {:induction false} RoomKeepsKey(max: nat, list: seq<Item>, key: string, other: string, touched: set<string>)
    requires max >= 1 && DistinctKeys(list) && |list| >= max && Lookup(list, key).Some?
    requires other !in Keys(list) && other in touched && Ahead(list, key) <= touched && |touched| < max
    ensures Lookup(list[..|list| - 1], key) == Lookup(list, key)
    ensures Ahead(list[..|list| - 1], key) == Ahead(list, key)
  {
    if list[|list| - 1].key == key {
      AheadOfLast(list, key);
      SmallerSet(Ahead(list, key) + {other}, touched);
    } else {
      AheadOfOther(list, key);
    }
  }

  lemma {:induction false} SmallerSet(a: set<string>, b: set<string>)
    requires a <= b
    ensures |a| <= |b|
  {
    assert b == a + (b - a);
  }

  /** An unexpired key survives while fewer than max distinct other keys have been touched
      since it was last at the front. */
  lemma {:induction false} RecentKeySurvives(max: nat, ttl: int, list: seq<Item>, ops: seq<Timed>, item: Item)
    requires max >= 1 && DistinctKeys(list) && |list| <= max
    requires list != [] && list[0] == item
    requires Undisturbed(ops, item) && |Touched(ops, item.key)| < max
    ensures Lookup(Runs(max, ttl, list, ops), item.key) == Some(item)
    ensures Ahead(Runs(max, ttl, list, ops), item.key) <= Touched(ops, item.key)
  {
    if ops != [] {
      var n := |ops| - 1;
      var init, t := ops[..n], ops[n];
      assert forall i | 0 <= i < n :: init[i] == ops[i];
      TouchedSnoc(init, t, item.key);
      assert ops == init + [t];
      SmallerSet(Touched(init, item.key), Touched(ops, item.key));
      RecentKeySurvives(max, ttl, list, init, item);
      RunsKeepShape(max, ttl, list, init);
      AfterKeepsKey(max, ttl, Runs(max, ttl, list, init), t, item, Touched(init, item.key));
    }
  }

  /** A Set, or a Get that hits, puts its key at the front. */
  lemma {:induction false} TouchGoesFirst(max: nat, ttl: int, list: seq<Item>, t: Timed)
    requires max >= 1
    requires t.op.Set? || (t.op.Get? && Answer(list, t.op.key, t.now).Some?)
    ensures var after := After(max, ttl, list, t);
            && after != [] && after[0].key == t.op.key
            && after[0] == if t.op.Set? then Item(t.op.key, t.op.value, t.now + ttl) else Lookup(list, t.op.key).value
  {
    LookupFacts(list, t.op.key);
  }

  /** So a key that was set or hit is still there while it is undisturbed, unexpired and
      fewer than max distinct other keys have been touched since. */
  lemma {:induction false} SurvivesSinceTouch(max: nat, ttl: int, before: seq<Timed>, t: Timed, since: seq<Timed>)
    requires max >= 1
    requires t.op.Set? || (t.op.Get? && Answer(Runs(max, ttl, [], before), t.op.key, t.now).Some?)
    requires var list := Runs(max, ttl, [], before + [t]);
             list != [] ==> Undisturbed(since, list[0]) && |Touched(since, t.op.key)| < max
    ensures Lookup(Runs(max, ttl, Runs(max, ttl, [], before + [t]), since), t.op.key).Some?
  {
    var list := Runs(max, ttl, [], before + [t]);
    assert (before + [t])[..|before|] == before;
    TouchGoesFirst(max, ttl, Runs(max, ttl, [], before), t);
    RunsKeepShape(max, ttl, [], before + [t]);
    RecentKeySurvives(max, ttl, list, since, list[0]);
  }

  lemma {:induction false} TouchedSnoc(ops: seq<Timed>, t: Timed, key: string)
    ensures Touched(ops + [t], key) == Touched(ops, key) + Touched([t], key)
  {
    var all := ops + [t];
    forall k
      ensures k in Touched(all, key) <==> k in Touched(ops, key) || k in Touched([t], key)
    {
      if k in Touched(ops, key) {
        var i :| 0 <= i < |ops| && (ops[i].op.Get? || ops[i].op.Set?) && ops[i].op.key != key && ops[i].op.key == k;
        assert all[i] == ops[i];
      }
      if k in Touched([t], key) {
        assert all[|ops|] == t;
      }
    }
  }
}
