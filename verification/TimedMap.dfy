/**
 Both stores against one simple timed map, which never drops anything and compares
 the exact expiry with the clock on every load, and against each other: the loads of
 a history agree exactly unless the expiry of a dropped key is extended.
 */
module TimedMap {
  import opened SessionValues
  import opened Stores
  import opened Wrappers

  function TimedLoad(m: Records, key: Key, now: int): Option<State> {
    if key in m && m[key].expiresAt > now then Some(m[key].state) else None
  }

  /** A load with both instants rounded down to seconds. */
  function RoundedLoad(m: Records, key: Key, now: int): Option<State> {
    if key in m && UnixTimestamp(m[key].expiresAt) > UnixTimestamp(now) then Some(m[key].state) else None
  }

  function TimedAfter(m: Records, op: Op, now: int): Records {
    match op
    case Save(key, state, ttl) => m[key := Record(state, now + ttl)]
    case Update(key, state, ttl) => m[key := Record(state, now + ttl)]
    case UpdateTtl(key, ttl) => if key in m then m[key := m[key].(expiresAt := now + ttl)] else m
    case Delete(key) => m - {key}
    case Load(_) => m
    case DeleteExpired => m
  }

  function TimedRun(m: Records, history: seq<Event>): Records
    decreases |history|
  {
    if history == [] then m else TimedRun(TimedAfter(m, history[0].op, history[0].now), history[1..])
  }

  // ---- The stores and the map side by side ----

  /** What the two stores and the timed map hold after the same history. */
  datatype Trio = Trio(records: Records, rows: Rows, m: Records)

  const EMPTY := Trio(map[], map[], map[])

  function TrioAfter(t: Trio, event: Event): Trio {
    Trio(MemoryAfter(t.records, event.op, event.now),
         SqliteAfter(t.rows, event.op, event.now),
         TimedAfter(t.m, event.op, event.now))
  }

  function TrioRun(t: Trio, history: seq<Event>): Trio
    decreases |history|
  {
    if history == [] then t else TrioRun(TrioAfter(t, history[0]), history[1..])
  }

  lemma {:induction false} TrioRunParts(t: Trio, history: seq<Event>)
    ensures TrioRun(t, history).records == MemoryRun(t.records, history)
    ensures TrioRun(t, history).rows == SqliteRun(t.rows, history)
    ensures TrioRun(t, history).m == TimedRun(t.m, history)
    decreases |history|
  {
    if history != [] {
      TrioRunParts(TrioAfter(t, history[0]), history[1..]);
    }
  }

  /** Which two of the three are compared. */
  datatype Comparison = MemoryToMap | SqliteToMap | SqliteToMemory

  predicate Agree(c: Comparison, t: Trio, key: Key, now: int) {
    match c
    case MemoryToMap => MemoryLoad(t.records, key, now) == TimedLoad(t.m, key, now)
    case SqliteToMap => SqliteLoad(t.rows, key, now) == RoundedLoad(t.m, key, now)
    case SqliteToMemory => SqliteLoad(t.rows, key, now) == RoundedLoad(t.records, key, now)
  }

  /** The event extends, beyond the present, the expiry of a key that one of the two has dropped. */
  predicate Revives(c: Comparison, t: Trio, event: Event) {
    event.op.UpdateTtl? &&
    var key, expiry := event.op.key, event.now + event.op.ttl;
    match c
    case MemoryToMap => key in t.m && key !in t.records && expiry > event.now
    case SqliteToMap => key in t.m && key !in t.rows && UnixTimestamp(expiry) > UnixTimestamp(event.now)
    case SqliteToMemory => (key in t.records) != (key in t.rows) && UnixTimestamp(expiry) > UnixTimestamp(event.now)
  }

  predicate NeverRevives(c: Comparison, t: Trio, history: seq<Event>)
    decreases |history|
  {
    history == [] || (!Revives(c, t, history[0]) && NeverRevives(c, TrioAfter(t, history[0]), history[1..]))
  }

  // ---- What is kept as long as nothing is revived ----

  ghost predicate Tracks(c: Comparison, t: Trio, now: int) {
    match c
    case MemoryToMap =>
      && (forall key | key in t.records :: key in t.m && t.records[key] == t.m[key])
      && (forall key | key in t.m && key !in t.records :: t.m[key].expiresAt <= now)
    case SqliteToMap =>
      && (forall key | key in t.rows :: key in t.m && t.rows[key] == InSeconds(t.m[key]))
      && (forall key | key in t.m && key !in t.rows :: InSeconds(t.m[key]).expiryDate <= UnixTimestamp(now))
    case SqliteToMemory =>
      && (forall key | key in t.rows && key in t.records :: t.rows[key] == InSeconds(t.records[key]))
      && (forall key | key in t.records && key !in t.rows :: InSeconds(t.records[key]).expiryDate <= UnixTimestamp(now))
      && (forall key | key in t.rows && key !in t.records :: t.rows[key].expiryDate <= UnixTimestamp(now))
  }

  function InSeconds(record: Record): Row { Row(record.state, UnixTimestamp(record.expiresAt)) }

  lemma TracksAgree(c: Comparison, t: Trio, now: int, key: Key, later: int)
    requires Tracks(c, t, now) && now <= later
    ensures Agree(c, t, key, later)
  {
    assert UnixTimestamp(now) <= UnixTimestamp(later);
  }

  lemma MemoryTracksStep(t: Trio, start: int, event: Event)
    requires Tracks(MemoryToMap, t, start) && start <= event.now && !Revives(MemoryToMap, t, event)
    ensures Tracks(MemoryToMap, TrioAfter(t, event), event.now)
  {}

  lemma SqliteTracksStep(t: Trio, start: int, event: Event)
    requires Tracks(SqliteToMap, t, start) && start <= event.now && !Revives(SqliteToMap, t, event)
    ensures Tracks(SqliteToMap, TrioAfter(t, event), event.now)
  {
    assert UnixTimestamp(start) <= UnixTimestamp(event.now);
  }

  lemma BothTrackStep(t: Trio, start: int, event: Event)
    requires Tracks(SqliteToMemory, t, start) && start <= event.now && !Revives(SqliteToMemory, t, event)
    ensures Tracks(SqliteToMemory, TrioAfter(t, event), event.now)
  {
    assert UnixTimestamp(start) <= UnixTimestamp(event.now);
  }

  lemma {:induction false} TracksRun(c: Comparison, t: Trio, start: int, history: seq<Event>, end: int)
    requires Tracks(c, t, start) && Chronological(start, history, end) && NeverRevives(c, t, history)
    ensures Tracks(c, TrioRun(t, history), end)
    decreases |history|
  {
    if history == [] {
      assert UnixTimestamp(start) <= UnixTimestamp(end);
    } else {
      match c {
        case MemoryToMap => MemoryTracksStep(t, start, history[0]);
        case SqliteToMap => SqliteTracksStep(t, start, history[0]);
        case SqliteToMemory => BothTrackStep(t, start, history[0]);
      }
      TracksRun(c, TrioAfter(t, history[0]), history[0].now, history[1..], end);
    }
  }

  // ---- Reviving shows at once ----

  lemma RevivingDisagrees(c: Comparison, t: Trio, event: Event)
    requires Revives(c, t, event)
    ensures !Agree(c, TrioAfter(t, event), event.op.key, event.now)
  {}

  lemma {:induction false} RevivalFound(c: Comparison, t: Trio, start: int, history: seq<Event>, end: int)
    returns (n: nat, key: Key, later: int)
    requires Chronological(start, history, end) && !NeverRevives(c, t, history)
    ensures n <= |history| && Chronological(start, history[..n], later)
    ensures !Agree(c, TrioRun(t, history[..n]), key, later)
    decreases |history|
  {
    var event := history[0];
    if Revives(c, t, event) {
      n, key, later := 1, event.op.key, event.now;
      RevivingDisagrees(c, t, event);
      assert history[..1] == [event] && [event][1..] == [];
    } else {
      n, key, later := RevivalFound(c, TrioAfter(t, event), event.now, history[1..], end);
      n := n + 1;
      assert history[..n][1..] == history[1..][..n - 1];
    }
  }

  lemma {:induction false} NeverRevivesPrefix(c: Comparison, t: Trio, history: seq<Event>, n: nat)
    requires NeverRevives(c, t, history) && n <= |history|
    ensures NeverRevives(c, t, history[..n])
    decreases |history|
  {
    if n > 0 {
      NeverRevivesPrefix(c, TrioAfter(t, history[0]), history[1..], n - 1);
      assert history[..n][1..] == history[1..][..n - 1];
    }
  }

  /** As long as nothing is revived, every load agrees after every prefix of the history. */
  lemma UnrevivedAgrees(c: Comparison, start: int, history: seq<Event>, n: nat, key: Key, later: int)
    requires NeverRevives(c, EMPTY, history) && n <= |history| && Chronological(start, history[..n], later)
    ensures Agree(c, TrioRun(EMPTY, history[..n]), key, later)
  {
    NeverRevivesPrefix(c, EMPTY, history, n);
    TracksRun(c, EMPTY, start, history[..n], later);
    TracksAgree(c, TrioRun(EMPTY, history[..n]), later, key, later);
  }

  // ---- Main results: every load, after every history ----

  /**
   The in-memory store answers every load of a history as the timed map does, so its
   dropping of records is invisible, if and only if the history never extends the
   expiry of a key that a load has dropped.
   */
  lemma MemoryRefinesTimedMapIff(start: int, history: seq<Event>, end: int)
    requires Chronological(start, history, end)
    ensures NeverRevives(MemoryToMap, EMPTY, history) <==>
              (forall n, key, later | 0 <= n <= |history| && Chronological(start, history[..n], later) ::
                 MemoryLoad(MemoryRun(map[], history[..n]), key, later) ==
                 TimedLoad(TimedRun(map[], history[..n]), key, later))
  {
    if NeverRevives(MemoryToMap, EMPTY, history) {
      forall n, key, later | 0 <= n <= |history| && Chronological(start, history[..n], later)
        ensures MemoryLoad(MemoryRun(map[], history[..n]), key, later) ==
                TimedLoad(TimedRun(map[], history[..n]), key, later)
      {
        UnrevivedAgrees(MemoryToMap, start, history, n, key, later);
        TrioRunParts(EMPTY, history[..n]);
      }
    } else {
      var n, key, later := RevivalFound(MemoryToMap, EMPTY, start, history, end);
      TrioRunParts(EMPTY, history[..n]);
    }
  }

  /**
   The SQLite store answers as the timed map does with both instants rounded down to
   seconds, if and only if the history never extends, by at least the turn of a
   second, the expiry of a key that a sweep has taken.
   */
  lemma SqliteRefinesRoundedMapIff(start: int, history: seq<Event>, end: int)
    requires Chronological(start, history, end)
    ensures NeverRevives(SqliteToMap, EMPTY, history) <==>
              (forall n, key, later | 0 <= n <= |history| && Chronological(start, history[..n], later) ::
                 SqliteLoad(SqliteRun(map[], history[..n]), key, later) ==
                 RoundedLoad(TimedRun(map[], history[..n]), key, later))
  {
    if NeverRevives(SqliteToMap, EMPTY, history) {
      forall n, key, later | 0 <= n <= |history| && Chronological(start, history[..n], later)
        ensures SqliteLoad(SqliteRun(map[], history[..n]), key, later) ==
                RoundedLoad(TimedRun(map[], history[..n]), key, later)
      {
        UnrevivedAgrees(SqliteToMap, start, history, n, key, later);
        TrioRunParts(EMPTY, history[..n]);
      }
    } else {
      var n, key, later := RevivalFound(SqliteToMap, EMPTY, start, history, end);
      TrioRunParts(EMPTY, history[..n]);
    }
  }

  /**
   Fed the same history, the SQLite store loads what the in-memory store holds, in
   whole seconds, if and only if no expiry is extended that only one of them still has.
   */
  lemma SqliteRefinesMemoryIff(start: int, history: seq<Event>, end: int)
    requires Chronological(start, history, end)
    ensures NeverRevives(SqliteToMemory, EMPTY, history) <==>
              (forall n, key, later | 0 <= n <= |history| && Chronological(start, history[..n], later) ::
                 SqliteLoad(SqliteRun(map[], history[..n]), key, later) ==
                 RoundedLoad(MemoryRun(map[], history[..n]), key, later))
  {
    if NeverRevives(SqliteToMemory, EMPTY, history) {
      forall n, key, later | 0 <= n <= |history| && Chronological(start, history[..n], later)
        ensures SqliteLoad(SqliteRun(map[], history[..n]), key, later) ==
                RoundedLoad(MemoryRun(map[], history[..n]), key, later)
      {
        UnrevivedAgrees(SqliteToMemory, start, history, n, key, later);
        TrioRunParts(EMPTY, history[..n]);
      }
    } else {
      var n, key, later := RevivalFound(SqliteToMemory, EMPTY, start, history, end);
      TrioRunParts(EMPTY, history[..n]);
    }
  }

  /**
   In such a history, what SQLite loads memory loads too, with the same state; SQLite
   misses a record that memory loads exactly during its last, partial second, so never
   one with a whole second left.
   */
  lemma SqliteMissesOnlyLastSecond(start: int, history: seq<Event>, end: int, key: Key)
    requires Chronological(start, history, end) && NeverRevives(SqliteToMemory, EMPTY, history)
    ensures var records := MemoryRun(map[], history);
            var memory, sqlite := MemoryLoad(records, key, end), SqliteLoad(SqliteRun(map[], history), key, end);
            && (sqlite.Some? ==> memory == sqlite)
            && (memory.Some? ==> (sqlite.None? <==> UnixTimestamp(records[key].expiresAt) == UnixTimestamp(end)))
            && (key in records && records[key].expiresAt >= end + SECOND ==>
                  sqlite == memory == Some(records[key].state))
  {
    TracksRun(SqliteToMemory, EMPTY, start, history, end);
    TracksAgree(SqliteToMemory, TrioRun(EMPTY, history), end, key, end);
    TrioRunParts(EMPTY, history);
  }

  // ---- The sweep ----

  function WithoutSweeps(history: seq<Event>): seq<Event> {
    if history == [] then []
    else (if history[0].op.DeleteExpired? then [] else [history[0]]) + WithoutSweeps(history[1..])
  }

  /** Without sweeps the table holds the whole timed map, in seconds. */
  lemma {:induction false} UnsweptRows(rows: Rows, m: Records, history: seq<Event>, key: Key, now: int)
    requires rows.Keys == m.Keys && forall k | k in m :: rows[k] == InSeconds(m[k])
    ensures SqliteLoad(SqliteRun(rows, WithoutSweeps(history)), key, now) == RoundedLoad(TimedRun(m, history), key, now)
    decreases |history|
  {
    if history != [] {
      var event, rest := history[0], WithoutSweeps(history[1..]);
      var m' := TimedAfter(m, event.op, event.now);
      if event.op.DeleteExpired? {
        assert WithoutSweeps(history) == rest;
        UnsweptRows(rows, m', history[1..], key, now);
      } else {
        assert WithoutSweeps(history)[1..] == rest;
        UnsweptRows(SqliteAfter(rows, event.op, event.now), m', history[1..], key, now);
      }
    }
  }

  /**
   No load ever tells whether expired rows were swept before, between or after
   anything, if and only if the history never extends the expiry of a swept key.
   */
  lemma SweepIsInvisibleIff(start: int, history: seq<Event>, end: int)
    requires Chronological(start, history, end)
    ensures NeverRevives(SqliteToMap, EMPTY, history) <==>
              (forall n, key, later | 0 <= n <= |history| && Chronological(start, history[..n], later) ::
                 SqliteLoad(SqliteRun(map[], history[..n]), key, later) ==
                 SqliteLoad(SqliteRun(map[], WithoutSweeps(history[..n])), key, later))
  {
    SqliteRefinesRoundedMapIff(start, history, end);
    forall n, key, later | 0 <= n <= |history| && Chronological(start, history[..n], later)
      ensures SqliteLoad(SqliteRun(map[], WithoutSweeps(history[..n])), key, later) ==
              RoundedLoad(TimedRun(map[], history[..n]), key, later)
    {
      UnsweptRows(map[], map[], history[..n], key, later);
    }
  }

  /**
   A sweep takes an expired row unless it expired within the current second, never one
   whose exact expiry lies ahead, and none of the expired rows loads, swept or not.
   */
  lemma SweepTakesOnlyExpired(rows: Rows, key: Key, expiresAt: int, now: int)
    requires key in rows && rows[key].expiryDate == UnixTimestamp(expiresAt)
    ensures var after := SqliteAfter(rows, DeleteExpired, now);
            && (expiresAt > now ==> key in after)
            && (expiresAt <= now ==>
                  && (key in after <==> UnixTimestamp(expiresAt) == UnixTimestamp(now))
                  && SqliteLoad(rows, key, now) == SqliteLoad(after, key, now) == None)
  {}

  // ---- Extending the expiry of an expired key ----

  /** A record saved already expired: extending its expiry revives it, unless it was loaded in between. */
  lemma LoadBeforeExtending(key: Key, state: State, now: int)
    ensures var saved, extended := Event(now, Save(key, state, -SECOND)), Event(now, UpdateTtl(key, 300 * SECOND));
            && MemoryLoad(MemoryRun(map[], [saved, extended]), key, now) == Some(state)
            && MemoryLoad(MemoryRun(map[], [saved, Event(now, Load(key)), extended]), key, now) == None
            && NeverRevives(MemoryToMap, EMPTY, [saved, extended])
            && !NeverRevives(MemoryToMap, EMPTY, [saved, Event(now, Load(key)), extended])
  {
    var saved, extended := Event(now, Save(key, state, -SECOND)), Event(now, UpdateTtl(key, 300 * SECOND));
    var load := Event(now, Load(key));
    var one := TrioAfter(EMPTY, saved);
    var two := TrioAfter(one, load);
    assert [saved, extended][1..] == [extended] && [extended][1..] == [];
    assert [saved, load, extended][1..] == [load, extended] && [load, extended][1..] == [extended];
    assert MemoryRun(one.records, [extended]) == MemoryRun(TrioAfter(one, extended).records, []);
    assert MemoryRun(two.records, [extended]) == MemoryRun(TrioAfter(two, extended).records, []);
    assert key !in two.records && key in two.m && Revives(MemoryToMap, two, extended);
    assert [extended][0] == extended && [load, extended][0] == load;
    assert !NeverRevives(MemoryToMap, two, [extended]);
    assert NeverRevives(MemoryToMap, one, [extended]);
  }

  /** The same in SQLite: a row that is no longer live is revived, but not after a sweep. */
  lemma SweepBeforeExtending(key: Key, state: State, now: int)
    ensures var saved, extended := Event(now, Save(key, state, -SECOND)), Event(now, UpdateTtl(key, 300 * SECOND));
            var swept := [saved, Event(now, DeleteExpired), extended];
            && SqliteLoad(SqliteRun(map[], [saved, extended]), key, now) == Some(state)
            && SqliteLoad(SqliteRun(map[], swept), key, now) == None
            && NeverRevives(SqliteToMap, EMPTY, [saved, extended])
            && !NeverRevives(SqliteToMap, EMPTY, swept) && !NeverRevives(SqliteToMemory, EMPTY, swept)
  {
    var saved, extended := Event(now, Save(key, state, -SECOND)), Event(now, UpdateTtl(key, 300 * SECOND));
    var sweep := Event(now, DeleteExpired);
    var one := TrioAfter(EMPTY, saved);
    var two := TrioAfter(one, sweep);
    assert UnixTimestamp(now - SECOND) < UnixTimestamp(now) < UnixTimestamp(now + 300 * SECOND);
    assert [saved, extended][1..] == [extended] && [extended][1..] == [];
    assert [saved, sweep, extended][1..] == [sweep, extended] && [sweep, extended][1..] == [extended];
    assert SqliteRun(one.rows, [extended]) == SqliteRun(TrioAfter(one, extended).rows, []);
    assert SqliteRun(two.rows, [extended]) == SqliteRun(TrioAfter(two, extended).rows, []);
    assert key !in two.rows && key in two.m && key in two.records;
    SweptIsRevived(two, extended);
    assert NeverRevives(SqliteToMap, one, [extended]);
  }

  lemma SweptIsRevived(two: Trio, extended: Event)
    requires extended.op.UpdateTtl? && UnixTimestamp(extended.now + extended.op.ttl) > UnixTimestamp(extended.now)
    requires extended.op.key !in two.rows && extended.op.key in two.m && extended.op.key in two.records
    ensures !NeverRevives(SqliteToMap, two, [extended]) && !NeverRevives(SqliteToMemory, two, [extended])
  {
    assert [extended][0] == extended;
  }
}
