/** The session manager: a map of sessions with idle expiry and least-recently-used eviction,
    where Go's random map order decides nothing, as long as no session id is empty. */
module Sessions {

  const DEFAULT_MAX := 10
  const DEFAULT_TTL := 30 * 60 * 1000000000

  datatype Entry = Entry(session: nat, lastUsed: int)

  type Table = map<string, Entry>

  // ------------------------------------------------------ the eviction scan

  // What evictLRULocked has found so far; "" stands for nothing.
  datatype Best = Best(id: string, time: int)

  function Visit(m: Table, best: Best, id: string): Best
    requires id in m
  {
    if best.id == "" || m[id].lastUsed < best.time then Best(id, m[id].lastUsed) else best
  }

  // The scan over the sessions in the order the map yields them.
  function Scan(m: Table, order: seq<string>): Best
    requires forall id | id in order :: id in m
  {
    if order == [] then Best("", 0) else Visit(m, Scan(m, order[..|order| - 1]), order[|order| - 1])
  }

  // The order visits every session once.
  ghost predicate Visits(m: Table, order: seq<string>) {
    && (forall id :: id in order <==> id in m)
    && forall i, j | 0 <= i < j < |order| :: order[i] != order[j]
  }

  // No session was used before id.
  predicate Oldest(m: Table, id: string) {
    id in m && forall other | other in m :: m[id].lastUsed <= m[other].lastUsed
  }

  // The empty id is the one oldest session, and that scan cannot name it.
  predicate EmptyIsOldest(m: Table) {
    "" in m && forall id | id in m && id != "" :: m[""].lastUsed < m[id].lastUsed
  }

  // k is a nonempty oldest id: once it was visited, the scan holds one as old.
  lemma {:induction false} ScanFindsOldest(m: Table, order: seq<string>, k: string)
    requires (forall id | id in order :: id in m) && Oldest(m, k) && k != ""
    ensures var best := Scan(m, order);
            && (best.id != "" ==> best.id in m && best.time == m[best.id].lastUsed)
            && (k in order ==> best.id != "" && best.time == m[k].lastUsed)
  {
    if order != [] {
      var init := order[..|order| - 1];
      ScanFindsOldest(m, init, k);
      assert order == init + [order[|order| - 1]];
    }
  }

  // With the empty id visited last and oldest, the scan ends with nothing.
  lemma {:induction false} ScanMissesEmpty(m: Table, order: seq<string>)
    requires (forall id | id in order :: id in m) && EmptyIsOldest(m)
    requires order != [] && order[|order| - 1] == "" && forall i | 0 <= i < |order| - 1 :: order[i] != ""
    ensures Scan(m, order).id == ""
  {
    var init := order[..|order| - 1];
    ScanStaysYoung(m, init);
  }

  lemma {:induction false} ScanStaysYoung(m: Table, order: seq<string>)
    requires (forall id | id in order :: id in m) && EmptyIsOldest(m)
    requires forall i | 0 <= i < |order| :: order[i] != ""
    ensures Scan(m, order).id == "" || Scan(m, order).time > m[""].lastUsed
  {
    if order != [] {
      ScanStaysYoung(m, order[..|order| - 1]);
    }
  }

  // A map can be visited with one key last.
  lemma {:induction false} OrderEndingIn(m: Table, last: string) returns (order: seq<string>)
    requires last in m
    ensures Visits(m, order) && order != [] && order[|order| - 1] == last
  {
    var rest := OrderOf(m - {last});
    order := rest + [last];
    OneMoreVisited(m, rest, last);
  }

  lemma {:induction false} OneMoreVisited(m: Table, rest: seq<string>, id: string)
    requires id in m && Visits(m - {id}, rest)
    ensures Visits(m, rest + [id])
  {
    var order := rest + [id];
    forall x
      ensures x in order <==> x in m
    {
      assert x in order <==> x in rest || x == id;
      assert x in m - {id} <==> x in m && x != id;
    }
    forall i, j | 0 <= i < j < |order|
      ensures order[i] != order[j]
    {
      assert order[i] == rest[i] && rest[i] in rest;
    }
  }

  lemma {:induction false} OrderOf(m: Table) returns (order: seq<string>)
    ensures Visits(m, order)
    decreases |m|
  {
    if m == map[] {
      order := [];
    } else {
      var id :| id in m;
      var rest := OrderOf(m - {id});
      order := rest + [id];
      OneMoreVisited(m, rest, id);
    }
  }

  lemma {:induction false} SomeOldest(m: Table) returns (k: string)
    requires m != map[]
    ensures Oldest(m, k)
    decreases |m|
  {
    var id :| id in m;
    var rest := m - {id};
    if rest == map[] {
      k := id;
      forall other | other in m
        ensures other == id
      {
        assert other != id ==> other in rest;
      }
    } else {
      k := SomeOldest(rest);
      assert forall other | other in m :: other == id || other in rest;
      if m[id].lastUsed < m[k].lastUsed {
        k := id;
      }
    }
  }

  /** The scan names a least recently used session whatever the map order, exactly when the
      empty id is not itself the one oldest session. */
  lemma {:induction false} EvictsOldestIff(m: Table)
    requires m != map[]
    ensures !EmptyIsOldest(m) <==>
            forall order | Visits(m, order) :: Scan(m, order).id != "" && Oldest(m, Scan(m, order).id)
  {
    if EmptyIsOldest(m) {
      var order := OrderEndingIn(m, "");
      ScanMissesEmpty(m, order);
    } else {
      var k := SomeOldest(m);
      if k == "" {
        k :| k in m && k != "" && m[k].lastUsed <= m[""].lastUsed;
      }
      forall order | Visits(m, order)
        ensures Scan(m, order).id != "" && Oldest(m, Scan(m, order).id)
      {
        ScanFindsOldest(m, order, k);
      }
    }
  }

  /** Likewise the scan names some session in every map order exactly then. */
  lemma {:induction false} NamesSomeIff(m: Table)
    requires m != map[]
    ensures !EmptyIsOldest(m) <==> forall order | Visits(m, order) :: Scan(m, order).id != ""
  {
    EvictsOldestIff(m);
    if EmptyIsOldest(m) {
      var order := OrderEndingIn(m, "");
      ScanMissesEmpty(m, order);
    }
  }

  // What one eviction leaves when the table is full, for one order of the map.
  function Room(m: Table, order: seq<string>, max: nat): Table
    requires forall id | id in order :: id in m
  {
    if |m| < max || Scan(m, order).id == "" then m else m - {Scan(m, order).id}
  }

  /** Exactly when a new session keeps the limit in every map order: the table had room, or it
      was just full and the empty id was not its one oldest session. */
  lemma {:induction false} LimitKeptIff(m: Table, max: nat)
    requires max >= 1
    ensures (forall order | Visits(m, order) :: |Room(m, order, max)| < max) <==>
            |m| < max || (|m| == max && !EmptyIsOldest(m))
  {
    if |m| >= max {
      assert m != map[];
      forall order | Visits(m, order)
        ensures |Room(m, order, max)| == if Scan(m, order).id == "" then |m| else |m| - 1
      {
        RoomSize(m, order, max);
      }
      NamesSomeIff(m);
      var order := OrderOf(m);
      if |m| == max && EmptyIsOldest(m) {
        order := OrderEndingIn(m, "");
        ScanMissesEmpty(m, order);
      }
      assert !(|m| == max && !EmptyIsOldest(m)) ==> |Room(m, order, max)| >= max;
    } else {
      var order := OrderOf(m);
    }
  }

  lemma {:induction false} RoomSize(m: Table, order: seq<string>, max: nat)
    requires Visits(m, order) && |m| >= max
    ensures |Room(m, order, max)| == if Scan(m, order).id == "" then |m| else |m| - 1
  {
    ScanIsVisited(m, order);
    var id := Scan(m, order).id;
    if id != "" {
      assert m.Keys == (m - {id}).Keys + {id};
    }
  }

  lemma {:induction false} ScanIsVisited(m: Table, order: seq<string>)
    requires forall id | id in order :: id in m
    ensures Scan(m, order).id == "" || Scan(m, order).id in m
  {
    if order != [] {
      ScanIsVisited(m, order[..|order| - 1]);
    }
  }

  // What a full table may look like after one eviction.
  ghost predicate Freed(live: Table, rest: Table, max: nat) {
    exists order | Visits(live, order) :: rest == Room(live, order, max)
  }

  lemma {:induction false} FreedFacts(live: Table, rest: Table, max: nat)
    requires Freed(live, rest, max)
    ensures Sub(rest, live)
    ensures "" !in live && max >= 1 ==> MakesRoom(live, rest, max)
    ensures "" !in live && max >= 1 && |live| <= max ==> |rest| < max
    ensures live.Keys == {""} ==> rest == live
  {
    var order :| Visits(live, order) && rest == Room(live, order, max);
    if |live| >= max {
      RoomSize(live, order, max);
      if live != map[] {
        EvictsOldestIff(live);
      }
      if live.Keys == {""} {
        OnlyEmpty(live, order);
      }
    }
  }

  lemma {:induction false} AddedFacts(rest: Table, id: string, entry: Entry)
    requires id !in rest
    ensures rest[id := entry] - {id} == rest && |rest[id := entry]| == |rest| + 1
  {
    assert rest[id := entry].Keys == rest.Keys + {id};
  }

  // The order visits every session once, except those in rest.
  ghost predicate VisitedSoFar(m: Table, rest: set<string>, order: seq<string>) {
    && (forall id :: id in order <==> id in m && id !in rest)
    && forall i, j | 0 <= i < j < |order| :: order[i] != order[j]
  }

  lemma {:induction false} VisitNext(m: Table, rest: set<string>, order: seq<string>, id: string)
    requires id in rest && rest <= m.Keys && VisitedSoFar(m, rest, order)
    ensures VisitedSoFar(m, rest - {id}, order + [id])
    ensures Scan(m, order + [id]) == Visit(m, Scan(m, order), id)
  {
    var longer := order + [id];
    assert longer[..|longer| - 1] == order;
    forall x
      ensures x in longer <==> x in m && x !in rest - {id}
    {
      assert x in longer <==> x in order || x == id;
    }
    forall i, j | 0 <= i < j < |longer|
      ensures longer[i] != longer[j]
    {
      assert longer[i] == order[i] && order[i] in order;
    }
  }

  // The scanning loop, over the map in an arbitrary order.
  method FindOldest(m: Table) returns (best: Best, ghost order: seq<string>)
    ensures Visits(m, order) && best == Scan(m, order)
    ensures m != map[] && !EmptyIsOldest(m) ==> best.id != "" && Oldest(m, best.id)
  {
    best, order := Best("", 0), [];
    var rest := m.Keys;
    while rest != {}
      invariant rest <= m.Keys && VisitedSoFar(m, rest, order)
      invariant best == Scan(m, order)
      decreases |rest|
    {
      var id :| id in rest;
      VisitNext(m, rest, order, id);
      rest := rest - {id};
      best := Visit(m, best, id);
      order := order + [id];
    }
    if m != map[] {
      EvictsOldestIff(m);
    }
  }

  // -------------------------------------------------------------- eviction

  // Whatever went was used no later than whatever stayed.
  predicate EvictedOldest(before: Table, after: Table) {
    forall gone, kept | gone in before && gone !in after && kept in after ::
      kept in before && before[gone].lastUsed <= before[kept].lastUsed
  }

  predicate Sub(after: Table, before: Table) {
    forall id | id in after :: id in before && after[id] == before[id]
  }

  // The sessions that are not idle for longer than the limit.
  function Live(m: Table, ttl: int, now: int): Table {
    map id | id in m && now - m[id].lastUsed <= ttl :: m[id]
  }

  // Room for one more: nothing goes unless the table is full, and then one oldest session.
  ghost predicate MakesRoom(live: Table, rest: Table, max: nat) {
    if |live| < max then rest == live
    else exists id :: Oldest(live, id) && rest == live - {id}
  }

  // Every session has a number of its own, below next.
  predicate Numbered(m: Table, next: nat) {
    && (forall id | id in m :: m[id].session < next)
    && forall a, b | a in m && b in m && a != b :: Apart(m, a, b)
  }

  predicate Apart(m: Table, a: string, b: string)
    requires a in m && b in m
  {
    m[a].session != m[b].session
  }

  lemma {:induction false} SubNumbered(after: Table, before: Table, next: nat)
    requires Sub(after, before) && Numbered(before, next)
    ensures Numbered(after, next)
  {
    assert forall a, b | a in after && b in after && a != b :: Apart(before, a, b);
  }

  lemma {:induction false} NewNumbered(rest: Table, before: Table, id: string, now: int, next: nat)
    requires Sub(rest, before) && Numbered(before, next) && id !in before
    ensures Numbered(rest[id := Entry(next, now)], next + 1)
    ensures forall other | other in before :: before[other].session != next
  {
    SubNumbered(rest, before, next);
    var after := rest[id := Entry(next, now)];
    forall a, b | a in after && b in after && a != b
      ensures Apart(after, a, b)
    {
      assert a != id && b != id ==> Apart(rest, a, b);
    }
  }

  lemma {:induction false} RefreshNumbered(m: Table, id: string, now: int, next: nat)
    requires Numbered(m, next) && id in m
    ensures Numbered(m[id := Entry(m[id].session, now)], next)
  {
    var after := m[id := Entry(m[id].session, now)];
    forall a, b | a in after && b in after && a != b
      ensures Apart(after, a, b)
    {
      assert Apart(m, a, b);
    }
  }

  class SessionManager {
    var sessions: Table
    var maxSessions: nat
    const ttl: int
    var created: nat   // supplies the identity of new sessions

    /** Never more sessions than allowed, none with an empty id. */
    ghost predicate Bounded()
      reads this
    {
      maxSessions >= 1 && |sessions| <= maxSessions && "" !in sessions
    }

    constructor (maxSessions: int, ttl: int)
      ensures Bounded() && sessions == map[] && Numbered(sessions, created)
      ensures this.maxSessions == if maxSessions <= 0 then DEFAULT_MAX else maxSessions
      ensures this.ttl == if ttl <= 0 then DEFAULT_TTL else ttl
    {
      this.maxSessions := if maxSessions <= 0 then DEFAULT_MAX else maxSessions;
      this.ttl := if ttl <= 0 then DEFAULT_TTL else ttl;
      sessions, created := map[], 0;
    }

    /** evictLRULocked: removes what the scan named, in some order of the map. */
    method EvictLru() returns (ghost order: seq<string>)
      modifies this`sessions
      ensures Visits(old(sessions), order)
      ensures var best := Scan(old(sessions), order);
              sessions == if best.id == "" then old(sessions) else old(sessions) - {best.id}
      ensures sessions.Keys == if Scan(old(sessions), order).id == "" then old(sessions).Keys
                               else old(sessions).Keys - {Scan(old(sessions), order).id}
      ensures Sub(sessions, old(sessions))
    {
      var best;
      best, order := FindOldest(sessions);
      if best.id != "" {
        sessions := sessions - {best.id};
      }
    }

    /** evictExpiredLocked */
    method EvictExpired(now: int)
      modifies this`sessions
      ensures sessions == Live(old(sessions), ttl, now) && |sessions| <= |old(sessions)|
      ensures Sub(sessions, old(sessions))
      ensures forall id :: id in sessions <==> id in old(sessions) && now - old(sessions)[id].lastUsed <= ttl
    {
      var before := sessions;
      var rest := sessions.Keys;
      while rest != {}
        invariant Sub(sessions, before) && rest <= before.Keys && |sessions| <= |before|
        invariant forall id | id in rest :: id in sessions
        invariant forall id | id in before && id !in rest :: id in sessions <==> now - before[id].lastUsed <= ttl
        decreases |rest|
      {
        var id :| id in rest;
        rest := rest - {id};
        if now - before[id].lastUsed > ttl {
          sessions := sessions - {id};
        }
      }
    }

    /** GetOrCreate: an existing session is refreshed and nothing is evicted; a new one
        first drops the expired and, when still full, the least recently used. */
    method GetOrCreate(id: string, now: int) returns (session: nat)
      modifies this
      ensures id in sessions && sessions[id] == Entry(session, now) && maxSessions == old(maxSessions)
      ensures id in old(sessions) ==> sessions == old(sessions)[id := Entry(old(sessions)[id].session, now)]
      ensures forall other | other in sessions && other != id ::
                other in old(sessions) && sessions[other] == old(sessions)[other]
      ensures id !in old(sessions) && "" !in old(sessions) && maxSessions >= 1 ==>
                MakesRoom(Live(old(sessions), ttl, now), sessions - {id}, maxSessions)
      ensures id !in old(sessions) ==>
                Freed(Live(old(sessions), ttl, now), sessions - {id}, maxSessions)
      ensures old(Numbered(sessions, created)) ==>
                && Numbered(sessions, created)
                && (id !in old(sessions) ==>
                      forall other | other in old(sessions) :: old(sessions)[other].session != session)
      ensures old(created) <= created && (id !in old(sessions) ==> old(created) <= session < created)
      ensures old(Bounded()) && id != "" ==> Bounded()
      ensures && old(sessions).Keys == {""} && old(maxSessions) == 1 && id != ""
              && now - old(sessions)[""].lastUsed <= ttl
              ==> |sessions| == 2
    {
      if id in sessions {
        session := Refresh(id, now);
        return;
      }
      ghost var before, live := sessions, Live(sessions, ttl, now);
      ghost var rest;
      session, rest := Create(id, now);
      FreedFacts(live, rest, maxSessions);
      AddedFacts(rest, id, Entry(session, now));
      assert before.Keys == {""} ==> |before.Keys| == 1;
    }

    method Refresh(id: string, now: int) returns (session: nat)
      requires id in sessions
      modifies this`sessions
      ensures session == old(sessions)[id].session && sessions == old(sessions)[id := Entry(session, now)]
      ensures old(Numbered(sessions, created)) ==> Numbered(sessions, created)
    {
      session := sessions[id].session;
      if Numbered(sessions, created) {
        RefreshNumbered(sessions, id, now, created);
      }
      sessions := sessions[id := Entry(session, now)];
    }

    // Makes room and adds a session with the next number.
    method Create(id: string, now: int) returns (session: nat, ghost rest: Table)
      requires id !in sessions
      modifies this`sessions, this`created
      ensures var live := Live(old(sessions), ttl, now);
              Freed(live, rest, maxSessions) && |live| <= |old(sessions)|
      ensures sessions == rest[id := Entry(session, now)]
      ensures session == old(created) && created == old(created) + 1
      ensures old(Numbered(sessions, created)) ==>
                && Numbered(sessions, created)
                && forall other | other in old(sessions) :: old(sessions)[other].session != session
    {
      ghost var before := sessions;
      FreeSlot(now);
      rest := sessions;
      FreedFacts(Live(before, ttl, now), rest, maxSessions);
      if Numbered(before, created) {
        NewNumbered(rest, before, id, now, created);
      }
      session := created;
      created := created + 1;
      sessions := sessions[id := Entry(session, now)];
    }

    // Drops the expired sessions and, when the table is still full, evicts one.
    method FreeSlot(now: int)
      modifies this`sessions
      ensures var live := Live(old(sessions), ttl, now);
              Freed(live, sessions, maxSessions) && |live| <= |old(sessions)|
    {
      EvictExpired(now);
      ghost var live := sessions;
      ghost var order := OrderOf(live);
      if |sessions| >= maxSessions {
        order := EvictLru();
      }
      assert sessions == Room(live, order, maxSessions);
    }

    method Remove(id: string)
      modifies this`sessions
      ensures sessions == old(sessions) - {id}
      ensures old(Bounded()) ==> Bounded()
      ensures old(Numbered(sessions, created)) ==> Numbered(sessions, created)
    {
      sessions := sessions - {id};
    }

    /** SetMaxSessions: evicts down to the limit, least recently used first, in at most rounds
        passes. Without an empty id every pass removes a session, so it always gets there. */
    method SetMaxSessions(n: int, rounds: nat) returns (finished: bool)
      modifies this
      ensures maxSessions == (if n <= 0 then DEFAULT_MAX else n) && Sub(sessions, old(sessions))
      ensures finished <==> |sessions| <= maxSessions
      ensures created == old(created) && (old(Numbered(sessions, created)) ==> Numbered(sessions, created))
      ensures |old(sessions)| <= maxSessions ==> sessions == old(sessions)
      ensures "" !in old(sessions) ==>
                && EvictedOldest(old(sessions), sessions)
                && (rounds >= |old(sessions)| ==> finished && Bounded())
    {
      maxSessions := if n <= 0 then DEFAULT_MAX else n;
      ghost var before := sessions;
      var round := 0;
      while |sessions| > maxSessions && round < rounds
        invariant round <= rounds && Sub(sessions, before) && created == old(created)
        invariant maxSessions == (if n <= 0 then DEFAULT_MAX else n)
        invariant |before| <= maxSessions ==> sessions == before
        invariant "" !in before ==> EvictedOldest(before, sessions) && |sessions| + round <= |before|
      {
        ghost var was := sessions;
        EvictsOldestIff(was);
        ghost var order := EvictLru();
        assert sessions.Keys <= was.Keys;
        if "" !in before {
          assert sessions.Keys == was.Keys - {Scan(was, order).id};
        }
        round := round + 1;
      }
      if Numbered(before, created) {
        SubNumbered(sessions, before, created);
      }
      finished := |sessions| <= maxSessions;
    }
  }

  lemma {:induction false} OnlyEmpty(m: Table, order: seq<string>)
    requires m.Keys == {""} && Visits(m, order)
    ensures Scan(m, order).id == ""
  {
    assert order != [] by {
      assert "" in m;
    }
    assert forall i | 0 <= i < |order| :: order[i] in order;
    assert order[0] == "" && order[|order| - 1] == "";
    assert order == [""];
    assert order[..0] == [];
  }
}
