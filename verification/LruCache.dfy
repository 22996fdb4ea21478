/** The cache as the program keeps it: a map from keys to entries and a list of the same
    entries, updated in place. */
module LruCache {
  import opened LruRuns
  import opened Wrappers

  const DEFAULT_MAX := 100
  const DEFAULT_TTL := 3600 * 1000000000

  class Entry {
    const key: string
    var value: string
    var expiresAt: int

    constructor (key: string, value: string, expiresAt: int)
      ensures this.key == key && this.value == value && this.expiresAt == expiresAt
    {
      this.key, this.value, this.expiresAt := key, value, expiresAt;
    }
  }

  // Gets since the last Clear, and those of them that hit.
  function Gets(ops: seq<Timed>): nat {
    if ops == [] then 0
    else
      var t := ops[|ops| - 1];
      if t.op.Clear? then 0 else Gets(ops[..|ops| - 1]) + if t.op.Get? then 1 else 0
  }

  function Hits(max: nat, ttl: int, ops: seq<Timed>): nat
    requires max >= 1
  {
    if ops == [] then 0
    else
      var t, init := ops[|ops| - 1], ops[..|ops| - 1];
      if t.op.Clear? then 0
      else Hits(max, ttl, init) + if t.op.Get? && Answer(Runs(max, ttl, [], init), t.op.key, t.now).Some? then 1 else 0
  }

  function Rate(hits: nat, total: nat): real {
    if total > 0 then hits as real / total as real else 0.0
  }

  // A share of the total between none and all of it.
  lemma {:induction false} RateIsShare(hits: nat, total: nat)
    requires hits <= total
    ensures var rate := Rate(hits, total); 0.0 <= rate <= 1.0 && rate * total as real == hits as real
  {
    if total > 0 {
      var h, t := hits as real, total as real;
      assert h / t * t == h;
    }
  }

  function View(es: seq<Entry>): seq<Item>
    reads es
  {
    if es == [] then [] else [Item(es[0].key, es[0].value, es[0].expiresAt)] + View(es[1..])
  }

  predicate DistinctEntries(es: seq<Entry>) {
    forall i, j | 0 <= i < j < |es| :: es[i].key != es[j].key
  }

  lemma {:induction false} ViewAt(es: seq<Entry>, i: nat)
    requires i < |es|
    ensures |View(es)| == |es| && View(es)[i] == Item(es[i].key, es[i].value, es[i].expiresAt)
  {
    if i > 0 {
      ViewAt(es[1..], i - 1);
    } else if |es| > 1 {
      ViewAt(es[1..], 0);
    }
  }

  lemma {:induction false} ViewIsPointwise(es: seq<Entry>)
    ensures |View(es)| == |es|
    ensures forall i | 0 <= i < |es| :: View(es)[i] == Item(es[i].key, es[i].value, es[i].expiresAt)
  {
    if es != [] {
      ViewAt(es, 0);
    }
    forall i | 0 <= i < |es|
      ensures View(es)[i] == Item(es[i].key, es[i].value, es[i].expiresAt)
    {
      ViewAt(es, i);
    }
  }

  // The list and the counters are those of a run of ops.
  ghost predicate Tallies(enabled: bool, max: nat, ttl: int, ops: seq<Timed>, view: seq<Item>, hits: nat, misses: nat)
    requires max >= 1
  {
    && view == (if enabled then Runs(max, ttl, [], ops) else [])
    && hits == (if enabled then Hits(max, ttl, ops) else 0)
    && hits + misses == Gets(ops)
  }

  // One more operation, on the list and on the counters.
  lemma {:induction false} TallyStep(enabled: bool, max: nat, ttl: int, ops: seq<Timed>, view: seq<Item>,
                                     hits: nat, misses: nat, t: Timed)
    requires max >= 1 && Tallies(enabled, max, ttl, ops, view, hits, misses)
    ensures var hit := enabled && t.op.Get? && Answer(view, t.op.key, t.now).Some?;
            Tallies(enabled, max, ttl, ops + [t], if enabled then After(max, ttl, view, t) else [],
                    if t.op.Clear? then 0 else if hit then hits + 1 else hits,
                    if t.op.Clear? then 0 else if t.op.Get? && !hit then misses + 1 else misses)
  {
    assert (ops + [t])[..|ops|] == ops;
  }

  lemma {:induction false} ViewShape(es: seq<Entry>)
    ensures |View(es)| == |es|
    ensures DistinctEntries(es) ==> DistinctKeys(View(es))
    ensures forall k :: k in Keys(View(es)) <==> exists i | 0 <= i < |es| :: es[i].key == k
  {
    if es != [] {
      ViewAt(es, 0);
    }
    forall i | 0 <= i < |es|
      ensures View(es)[i].key == es[i].key
    {
      ViewAt(es, i);
    }
  }

  lemma {:induction false} ViewOfCons(e: Entry, es: seq<Entry>)
    ensures View([e] + es) == [Item(e.key, e.value, e.expiresAt)] + View(es)
  {
    assert ([e] + es)[1..] == es;
  }

  lemma {:induction false} ViewOfConcat(a: seq<Entry>, b: seq<Entry>)
    ensures View(a + b) == View(a) + View(b)
  {
    ViewIsPointwise(a);
    ViewIsPointwise(b);
    ViewIsPointwise(a + b);
  }

  lemma {:induction false} WithoutOfConcat(a: seq<Item>, b: seq<Item>, key: string)
    ensures Without(a + b, key) == Without(a, key) + Without(b, key)
  {
    if a == [] {
      assert a + b == b;
    } else {
      var first, rest := a[0], a[1..];
      WithoutOfConcat(rest, b, key);
      WithoutOfCons(first, rest, key);
      WithoutOfCons(first, rest + b, key);
      assert a == [first] + rest && a + b == [first] + (rest + b);
    }
  }

  lemma {:induction false} WithoutOfCons(first: Item, rest: seq<Item>, key: string)
    ensures Without([first] + rest, key) == (if first.key == key then [] else [first]) + Without(rest, key)
  {
    assert ([first] + rest)[1..] == rest;
  }

  // Unlinking an element removes its key from the view, and nothing else.
  lemma {:induction false} ViewUnlinked(es: seq<Entry>, i: nat)
    requires DistinctEntries(es) && i < |es|
    ensures View(es[..i] + es[i + 1..]) == Without(View(es), es[i].key)
  {
    var a, e, b := es[..i], es[i], es[i + 1..];
    assert es == a + ([e] + b);
    assert ([e] + b)[1..] == b;
    ViewOfConcat(a, [e] + b);
    ViewOfConcat(a, b);
    var item := Item(e.key, e.value, e.expiresAt);
    WithoutOfConcat(View(a), [item] + View(b), e.key);
    assert ([item] + View(b))[1..] == View(b);
    ViewShape(a);
    ViewShape(b);
    WithoutFacts(View(a), e.key);
    WithoutFacts(View(b), e.key);
  }

  // Moving an element to the front keeps the elements.
  lemma {:induction false} MovedFacts(es: seq<Entry>, i: nat)
    requires DistinctEntries(es) && i < |es|
    ensures var moved := [es[i]] + (es[..i] + es[i + 1..]);
            && |moved| == |es| && DistinctEntries(moved)
            && forall e :: e in moved <==> e in es
  {
    var rest := es[..i] + es[i + 1..];
    var moved := [es[i]] + rest;
    assert es == es[..i] + [es[i]] + es[i + 1..];
    forall j | 0 <= j < |moved|
      ensures moved[j] == es[if j == 0 then i else if j <= i then j - 1 else j]
    {
    }
  }

  // What stays of the list from i on is its i-th entry, if live, and what stays after it.
  ghost predicate TailAt(es: seq<Entry>, now: int, kept: seq<seq<Entry>>, i: nat)
    requires i < |es| && |kept| == |es| + 1
    reads es
  {
    kept[i] == (if now > es[i].expiresAt then [] else [es[i]]) + kept[i + 1]
  }

  lemma {:induction false} LiveTails(es: seq<Entry>, now: int) returns (kept: seq<seq<Entry>>)
    ensures |kept| == |es| + 1 && kept[0] == LiveEntries(es, now) && kept[|es|] == []
    ensures forall i | 0 <= i < |es| :: TailAt(es, now, kept, i)
  {
    if es == [] {
      kept := [[]];
    } else {
      var rest := LiveTails(es[1..], now);
      kept := [LiveEntries(es, now)] + rest;
      forall i | 0 <= i < |es|
        ensures TailAt(es, now, kept, i)
      {
        if i > 0 {
          assert TailAt(es[1..], now, rest, i - 1);
        }
      }
    }
  }

  // One step of the sweep on the list as it stands.
  lemma {:induction false} SweepStep(es: seq<Entry>, list: seq<Entry>, i: nat, dead: bool, after: seq<Entry>,
                                     kept: seq<Entry>)
    requires i < |list| && es == list[..i + 1] + after
    requires kept == (if dead then [] else [list[i]]) + after
    ensures |es| > i && es[i] == list[i]
    ensures (if dead then es[..i] + es[i + 1..] else es) == list[..i] + kept
  {
    assert list[..i + 1] == list[..i] + [list[i]];
  }

  function LiveEntries(es: seq<Entry>, now: int): seq<Entry>
    reads es
  {
    if es == [] then []
    else if now > es[0].expiresAt then LiveEntries(es[1..], now)
    else [es[0]] + LiveEntries(es[1..], now)
  }

  lemma {:induction false} LiveIsPart(es: seq<Entry>, now: int)
    ensures forall e | e in LiveEntries(es, now) :: e in es
  {
    if es != [] {
      LiveIsPart(es[1..], now);
    }
  }

  lemma {:induction false} ViewOfLive(es: seq<Entry>, now: int)
    ensures View(LiveEntries(es, now)) == Live(View(es), now)
  {
    if es != [] {
      ViewOfLive(es[1..], now);
      assert View(es)[1..] == View(es[1..]);
      if now <= es[0].expiresAt {
        assert LiveEntries(es, now)[1..] == LiveEntries(es[1..], now);
      }
    }
  }

  // Rewriting the item of key changes nothing for the other keys.
  lemma {:induction false} WithoutRewritten(list: seq<Item>, i: nat, item: Item)
    requires i < |list| && list[i].key == item.key
    ensures Without(list[i := item], item.key) == Without(list, item.key)
  {
    if i == 0 {
      assert list[i := item][1..] == list[1..];
    } else {
      assert list[i := item][1..] == list[1..][i - 1 := item];
      WithoutRewritten(list[1..], i - 1, item);
    }
  }

  // The map and the list describe the same entries, no key twice.
  predicate Agree(items: map<string, Entry>, es: seq<Entry>) {
    && DistinctEntries(es)
    && (forall e | e in es :: e.key in items && items[e.key] == e)
    && (forall k | k in items :: items[k] in es && items[k].key == k)
  }

  lemma {:induction false} AgreeMoved(items: map<string, Entry>, es: seq<Entry>, i: nat)
    requires Agree(items, es) && i < |es|
    ensures Agree(items, [es[i]] + (es[..i] + es[i + 1..]))
  {
    MovedFacts(es, i);
  }

  lemma {:induction false} AgreeUnlinked(items: map<string, Entry>, es: seq<Entry>, i: nat)
    requires Agree(items, es) && i < |es|
    ensures Agree(items - {es[i].key}, es[..i] + es[i + 1..])
    ensures forall e | e in es[..i] + es[i + 1..] :: e in es
  {
    var gone, rest := es[i], es[..i] + es[i + 1..];
    UnlinkedHas(es, i);
    forall k | k in items && k != gone.key
      ensures items[k] in rest
    {
      var j :| 0 <= j < |es| && es[j] == items[k];
      assert rest[if j < i then j else j - 1] == es[j];
    }
  }

  // What stays are entries of the list with other keys, still distinct.
  lemma {:induction false} UnlinkedHas(es: seq<Entry>, i: nat)
    requires DistinctEntries(es) && i < |es|
    ensures var rest := es[..i] + es[i + 1..];
            DistinctEntries(rest) && forall e | e in rest :: e in es && e.key != es[i].key
  {
    var rest := es[..i] + es[i + 1..];
    forall j | 0 <= j < |rest|
      ensures rest[j] == es[if j < i then j else j + 1]
    {
    }
  }

  lemma {:induction false} AgreeAdded(items: map<string, Entry>, es: seq<Entry>, e: Entry)
    requires Agree(items, es) && e.key !in items
    ensures Agree(items[e.key := e], [e] + es)
  {
    forall j | 0 <= j < |es|
      ensures es[j].key != e.key
    {
      assert es[j] in es;
    }
  }

  class Cache {
    const enabled: bool
    const max: nat
    const ttl: int
    var items: map<string, Entry>
    var lruList: seq<Entry>
    var hits: nat
    var misses: nat
    ghost var ops: seq<Timed>   // everything done so far

    // The map and the list describe the same entries, at most max of them, no key twice.
    ghost predicate Shape()
      reads this
    {
      max >= 1 && |lruList| <= max && Agree(items, lruList)
    }

    ghost predicate Valid()
      reads this, lruList
    {
      && Shape()
      && Tallies(enabled, max, ttl, ops, View(lruList), hits, misses)
    }

    constructor (enabled: bool, max: int, ttl: int)
      ensures Valid() && ops == [] && this.enabled == enabled
      ensures this.max == (if max <= 0 then DEFAULT_MAX else max)
      ensures this.ttl == (if enabled && ttl <= 0 then DEFAULT_TTL else ttl)
    {
      this.enabled := enabled;
      this.max := if max <= 0 then DEFAULT_MAX else max;
      this.ttl := if enabled && ttl <= 0 then DEFAULT_TTL else ttl;
      items, lruList, hits, misses, ops := map[], [], 0, 0, [];
    }

    lemma {:induction false} Find(key: string)
      requires Shape()
      ensures key in items <==> Lookup(View(lruList), key).Some?
      ensures key in items ==>
                Lookup(View(lruList), key).value == Item(key, items[key].value, items[key].expiresAt)
    {
      LookupFacts(View(lruList), key);
      ViewShape(lruList);
      if key in items {
        var i :| 0 <= i < |lruList| && lruList[i] == items[key];
        ViewAt(lruList, i);
        var view := View(lruList);
        var j :| 0 <= j < |view| && view[j] == Lookup(view, key).value && view[j].key == key;
        ViewAt(lruList, j);
      }
    }

    // The element's place in the list, which the element itself knows.
    method Place(elem: Entry) returns (i: nat)
      requires elem in lruList
      ensures i < |lruList| && lruList[i] == elem
    {
      i :| 0 <= i < |lruList| && lruList[i] == elem;
    }

    method MoveToFront(elem: Entry)
      requires Shape() && elem in lruList
      modifies this`lruList
      ensures Shape() && View(lruList) == Front(Item(elem.key, elem.value, elem.expiresAt), old(View(lruList)))
      ensures forall e :: e in lruList <==> e in old(lruList)
    {
      var i := Place(elem);
      ViewUnlinked(lruList, i);
      AgreeMoved(items, lruList, i);
      MovedFacts(lruList, i);
      ViewOfCons(elem, lruList[..i] + lruList[i + 1..]);
      var moved := [elem] + (lruList[..i] + lruList[i + 1..]);
      ghost var view := View(moved);
      lruList := moved;
      assert View(lruList) == view;
    }

    method RemoveElement(elem: Entry)
      requires Shape() && elem in lruList
      modifies this`lruList, this`items
      ensures Shape() && View(lruList) == Without(old(View(lruList)), elem.key)
      ensures items == old(items) - {elem.key}
      ensures forall e | e in lruList :: e in old(lruList)
    {
      var i := Place(elem);
      ViewUnlinked(lruList, i);
      ghost var view := View(lruList[..i] + lruList[i + 1..]);
      RemoveAt(i);
      assert View(lruList) == view;
    }

    /** Get: a hit moves the entry to the front; an expired entry is removed. */
    method Get(key: string, now: int) returns (value: string, ok: bool)
      requires Valid()
      modifies this
      ensures Valid() && ops == old(ops) + [Timed(LruRuns.Get(key), now)]
      ensures forall e | e in lruList :: e in old(lruList)
      ensures ok <==> enabled && Answer(old(View(lruList)), key, now).Some?
      ensures ok ==> Answer(old(View(lruList)), key, now) == Some(value)
      ensures !ok ==> value == ""
      ensures hits == old(hits) + (if ok then 1 else 0) && misses == old(misses) + (if ok then 0 else 1)
    {
      ghost var before := View(lruList);
      if !enabled {
        Count(false, Timed(LruRuns.Get(key), now), before);
        return "", false;
      }
      value, ok := Access(key, now);
      Count(ok, Timed(LruRuns.Get(key), now), before);
    }

    // Counts a Get and records it.
    method Count(hit: bool, ghost t: Timed, ghost before: seq<Item>)
      requires Shape() && Tallies(enabled, max, ttl, ops, before, hits, misses) && t.op.Get?
      requires hit <==> enabled && Answer(before, t.op.key, t.now).Some?
      requires View(lruList) == if enabled then After(max, ttl, before, t) else []
      modifies this`hits, this`misses, this`ops
      ensures Valid() && ops == old(ops) + [t]
      ensures hits == old(hits) + (if hit then 1 else 0) && misses == old(misses) + (if hit then 0 else 1)
    {
      TallyStep(enabled, max, ttl, ops, before, hits, misses, t);
      ghost var view := View(lruList);
      if hit {
        hits := hits + 1;
      } else {
        misses := misses + 1;
      }
      ops := ops + [t];
      assert View(lruList) == view;
    }

    // Records an operation that is not counted.
    ghost method Record(t: Timed, before: seq<Item>)
      requires Shape() && Tallies(enabled, max, ttl, ops, before, hits, misses) && !t.op.Get? && !t.op.Clear?
      requires View(lruList) == if enabled then After(max, ttl, before, t) else []
      modifies this`ops
      ensures Valid() && ops == old(ops) + [t]
    {
      TallyStep(enabled, max, ttl, ops, before, hits, misses, t);
      ghost var view := View(lruList);
      ops := ops + [t];
      assert View(lruList) == view;
    }

    method Access(key: string, now: int) returns (value: string, ok: bool)
      requires Shape()
      modifies this`lruList, this`items
      ensures Shape() && View(lruList) == After(max, ttl, old(View(lruList)), Timed(LruRuns.Get(key), now))
      ensures forall e | e in lruList :: e in old(lruList)
      ensures Answer(old(View(lruList)), key, now) == if ok then Some(value) else None
      ensures !ok ==> value == ""
    {
      Find(key);
      if key !in items {
        return "", false;
      }
      var e := items[key];
      if now > e.expiresAt {
        RemoveElement(e);
        return "", false;
      }
      MoveToFront(e);
      return e.value, true;
    }

    /** Set: rewrites an entry in place, or evicts the last one when full and adds. */
    method Set(key: string, value: string, now: int)
      requires Valid()
      modifies this, lruList
      ensures Valid() && ops == old(ops) + [Timed(LruRuns.Set(key, value), now)]
      ensures hits == old(hits) && misses == old(misses)
      ensures forall e | e in lruList :: e in old(lruList) || fresh(e)
    {
      ghost var before := View(lruList);
      if enabled {
        Store(key, value, now);
      }
      Record(Timed(LruRuns.Set(key, value), now), before);
    }

    method Store(key: string, value: string, now: int)
      requires Shape()
      modifies this`lruList, this`items, lruList
      ensures Shape() && View(lruList) == After(max, ttl, old(View(lruList)), Timed(LruRuns.Set(key, value), now))
      ensures forall e | e in lruList :: e in old(lruList) || fresh(e)
    {
      Find(key);
      if key in items {
        Rewrite(items[key], value, now + ttl);
        return;
      }
      StoreNew(key, value, now + ttl);
    }

    method StoreNew(key: string, value: string, expiresAt: int)
      requires Shape() && key !in items
      modifies this`lruList, this`items
      ensures Shape() && View(lruList) == [Item(key, value, expiresAt)] + Room(max, old(View(lruList)))
      ensures forall e | e in lruList :: e in old(lruList) || fresh(e)
    {
      MakeRoom();
      ghost var view := View(lruList);
      var e := new Entry(key, value, expiresAt);
      assert View(lruList) == view;
      AddFront(e);
    }

    method MakeRoom()
      requires Shape()
      modifies this`lruList, this`items
      ensures Shape() && |lruList| < max && View(lruList) == Room(max, old(View(lruList)))
      ensures items.Keys <= old(items).Keys && lruList <= old(lruList)
    {
      ViewShape(lruList);
      if |lruList| >= max {
        EvictOldest();
      }
    }

    method AddFront(e: Entry)
      requires Shape() && e.key !in items && |lruList| < max
      modifies this`lruList, this`items
      ensures Shape() && lruList == [e] + old(lruList)
      ensures View(lruList) == [Item(e.key, e.value, e.expiresAt)] + old(View(lruList))
    {
      ViewOfCons(e, lruList);
      AgreeAdded(items, lruList, e);
      lruList := [e] + lruList;
      items := items[e.key := e];
    }

    method Rewrite(e: Entry, value: string, expiresAt: int)
      requires Shape() && e in lruList
      modifies this`lruList, e
      ensures Shape() && View(lruList) == Front(Item(e.key, value, expiresAt), old(View(lruList)))
      ensures forall x :: x in lruList <==> x in old(lruList)
    {
      var i := Place(e);
      Refresh(i, value, expiresAt);
      WithoutRewritten(old(View(lruList)), i, Item(e.key, value, expiresAt));
      MoveToFront(e);
    }

    method Refresh(i: nat, value: string, expiresAt: int)
      requires Shape() && i < |lruList|
      modifies lruList[i]
      ensures Shape() && i < |old(View(lruList))| && old(View(lruList))[i].key == lruList[i].key
      ensures View(lruList) == old(View(lruList))[i := Item(lruList[i].key, value, expiresAt)]
      ensures lruList[i].value == value && lruList[i].expiresAt == expiresAt
    {
      ViewIsPointwise(lruList);
      lruList[i].value := value;
      lruList[i].expiresAt := expiresAt;
      ViewIsPointwise(lruList);
    }

    // Unlinks the i-th entry from the list and the map.
    method RemoveAt(i: nat)
      requires Shape() && i < |lruList|
      modifies this`lruList, this`items
      ensures Shape() && lruList == old(lruList)[..i] + old(lruList)[i + 1..]
      ensures items == old(items) - {old(lruList)[i].key}
      ensures forall e | e in lruList :: e in old(lruList)
    {
      AgreeUnlinked(items, lruList, i);
      items := items - {lruList[i].key};
      lruList := lruList[..i] + lruList[i + 1..];
    }

    method EvictOldest()
      requires Shape() && lruList != []
      modifies this`lruList, this`items
      ensures Shape() && lruList == old(lruList)[..|old(lruList)| - 1]
      ensures |old(View(lruList))| == |old(lruList)|
      ensures View(lruList) == old(View(lruList))[..|old(lruList)| - 1]
      ensures items.Keys <= old(items).Keys
    {
      var n := |lruList| - 1;
      ghost var list := lruList;
      assert list == list[..n] + [list[n]];
      ViewOfConcat(list[..n], [list[n]]);
      ViewShape(list[..n]);
      RemoveAt(n);
      assert lruList == list[..n];
    }

    method Delete(key: string, now: int)
      requires Valid()
      modifies this
      ensures Valid() && ops == old(ops) + [Timed(LruRuns.Delete(key), now)]
      ensures hits == old(hits) && misses == old(misses)
      ensures forall e | e in lruList :: e in old(lruList)
    {
      ghost var before := View(lruList);
      Drop(key);
      Record(Timed(LruRuns.Delete(key), now), before);
    }

    method Drop(key: string)
      requires Shape()
      modifies this`lruList, this`items
      ensures Shape() && View(lruList) == Without(old(View(lruList)), key)
      ensures forall e | e in lruList :: e in old(lruList)
    {
      if key in items {
        RemoveElement(items[key]);
      } else {
        Find(key);
        LookupFacts(View(lruList), key);
        WithoutFacts(View(lruList), key);
      }
    }

    method Clear(now: int)
      requires Valid()
      modifies this
      ensures Valid() && ops == old(ops) + [Timed(LruRuns.Clear, now)]
      ensures hits == 0 && misses == 0 && lruList == []
    {
      TallyStep(enabled, max, ttl, ops, View(lruList), hits, misses, Timed(LruRuns.Clear, now));
      ops := ops + [Timed(LruRuns.Clear, now)];
      items, lruList, hits, misses := map[], [], 0, 0;
    }

    method CleanupExpired(now: int)
      requires Valid()
      modifies this
      ensures Valid() && ops == old(ops) + [Timed(LruRuns.Cleanup, now)]
      ensures hits == old(hits) && misses == old(misses)
      ensures forall e | e in lruList :: e in old(lruList)
    {
      ghost var before := View(lruList);
      DropExpired(now);
      Record(Timed(LruRuns.Cleanup, now), before);
    }

    method DropExpired(now: int)
      requires Shape()
      modifies this`lruList, this`items
      ensures Shape() && View(lruList) == Live(old(View(lruList)), now)
      ensures forall e | e in lruList :: e in old(lruList)
    {
      ViewOfLive(lruList, now);
      Sweep(now);
    }

    /** cleanupExpired: walks from the back and removes every expired entry. */
    method Sweep(now: int)
      requires Shape()
      modifies this`lruList, this`items
      ensures Shape() && lruList == old(LiveEntries(lruList, now))
      ensures forall e | e in lruList :: e in old(lruList)
    {
      ghost var list := lruList;
      ghost var kept := LiveTails(list, now);
      var i := |lruList|;
      while i > 0
        invariant 0 <= i <= |list| && Shape()
        invariant lruList == list[..i] + kept[i]
      {
        i := i - 1;
        assert old(TailAt(list, now, kept, i));
        SweepStep(lruList, list, i, now > list[i].expiresAt, kept[i + 1], kept[i]);
        if now > lruList[i].expiresAt {
          RemoveAt(i);
        }
      }
      assert list[..0] == [];
      LiveIsPart(list, now);
    }

    /** Stats: the hit rate is a share of all Gets, and 0 before the first. */
    method Stats() returns (h: nat, m: nat, total: nat, hitRate: real)
      requires Valid()
      ensures h == (if enabled then Hits(max, ttl, ops) else 0) && m == misses && total == Gets(ops)
      ensures h <= total && hitRate == Rate(h, total)
    {
      return hits, misses, hits + misses, Rate(hits, hits + misses);
    }
  }
}
