/**
 The two session stores behind one interface: an in-memory map that drops expired
 records when they are loaded, and a table with whole-second expiry and a sweep.

 Instants and durations are nanoseconds, as `OffsetDateTime` and `Duration` hold
 them. The current instant and a generated key are parameters.
 */
module Stores {
  import opened Wrappers
  import opened SessionValues

  type Key = string

  const SECOND := 1_000_000_000

  datatype Record = Record(state: State, expiresAt: int)
  type Records = map<Key, Record>

  /** A table row; `expiryDate` counts whole seconds. */
  datatype Row = Row(state: State, expiryDate: int)
  type Rows = map<Key, Row>

  /** Rounds down, before the epoch as well. */
  function UnixTimestamp(instant: int): (seconds: int)
    ensures seconds * SECOND <= instant < (seconds + 1) * SECOND
  {
    instant / SECOND
  }

  datatype Op =
    | Save(key: Key, state: State, ttl: int)
    | Update(key: Key, state: State, ttl: int)
    | UpdateTtl(key: Key, ttl: int)
    | Delete(key: Key)
    | Load(key: Key)
    | DeleteExpired

  // ---- MemoryStore ----

  function MemoryLoad(records: Records, key: Key, now: int): Option<State> {
    if key in records && records[key].expiresAt > now then Some(records[key].state) else None
  }

  function MemoryAfter(records: Records, op: Op, now: int): Records {
    match op
    case Save(key, state, ttl) => records[key := Record(state, now + ttl)]
    case Update(key, state, ttl) => records[key := Record(state, now + ttl)]
    case UpdateTtl(key, ttl) =>
      if key in records then records[key := records[key].(expiresAt := now + ttl)] else records
    case Delete(key) => records - {key}
    case Load(key) => if key in records && records[key].expiresAt <= now then records - {key} else records
    case DeleteExpired => records
  }

  class MemoryStore {
    var records: Records

    constructor ()
      ensures records == map[]
    {
      records := map[];
    }

    method Len() returns (n: nat)
      ensures n == |records|
    {
      n := |records|;
    }

    method Insert(key: Key, state: State, ttl: int, now: int)
      modifies this
      ensures records == old(records)[key := Record(state, now + ttl)]
    {
      records := records[key := Record(state, now + ttl)];
    }

    method Load(key: Key, now: int) returns (state: Option<State>)
      modifies this
      ensures state == MemoryLoad(old(records), key, now)
      ensures state.Some? <==> key in old(records) && now < old(records)[key].expiresAt
      ensures state.Some? ==> state.value == old(records)[key].state && records == old(records)
      ensures state.None? ==> records == old(records) - {key}
      ensures records == MemoryAfter(old(records), Op.Load(key), now)
      ensures state.None? ==> key !in records
    {
      if key !in records {
        return None;
      }
      if records[key].expiresAt <= now {
        records := records - {key};
        return None;
      }
      return Some(records[key].state);
    }

    method Save(state: State, ttl: int, now: int, generated: Key) returns (key: Key)
      modifies this
      ensures key == generated && records == MemoryAfter(old(records), Op.Save(key, state, ttl), now)
      ensures records == old(records)[key := Record(state, now + ttl)]
    {
      key := generated;
      Insert(key, state, ttl, now);
    }

    method Update(key: Key, state: State, ttl: int, now: int) returns (updated: Key)
      modifies this
      ensures updated == key && records == MemoryAfter(old(records), Op.Update(key, state, ttl), now)
      ensures records == old(records)[key := Record(state, now + ttl)]
    {
      Insert(key, state, ttl, now);
      updated := key;
    }

    method UpdateTtl(key: Key, ttl: int, now: int)
      modifies this
      ensures records == MemoryAfter(old(records), Op.UpdateTtl(key, ttl), now)
      ensures records.Keys == old(records).Keys
      ensures forall k | k in records :: records[k].state == old(records)[k].state
                && records[k].expiresAt == if k == key then now + ttl else old(records)[k].expiresAt
    {
      if key in records {
        records := records[key := records[key].(expiresAt := now + ttl)];
      }
    }

    method Delete(key: Key)
      modifies this
      ensures records == old(records) - {key}
    {
      records := records - {key};
    }
  }

  // ---- SqliteStore ----

  function SqliteLoad(rows: Rows, key: Key, now: int): Option<State> {
    if key in rows && rows[key].expiryDate > UnixTimestamp(now) then Some(rows[key].state) else None
  }

  function SqliteAfter(rows: Rows, op: Op, now: int): Rows {
    match op
    case Save(key, state, ttl) => rows[key := Row(state, UnixTimestamp(now + ttl))]
    case Update(key, state, ttl) => rows[key := Row(state, UnixTimestamp(now + ttl))]
    case UpdateTtl(key, ttl) =>
      if key in rows then rows[key := rows[key].(expiryDate := UnixTimestamp(now + ttl))] else rows
    case Delete(key) => rows - {key}
    case Load(key) => rows
    case DeleteExpired => map key | key in rows && rows[key].expiryDate >= UnixTimestamp(now) :: rows[key]
  }

  class SqliteStore {
    var rows: Rows

    constructor ()
      ensures rows == map[]
    {
      rows := map[];
    }

    method Upsert(key: Key, state: State, ttl: int, now: int)
      modifies this
      ensures rows == old(rows)[key := Row(state, UnixTimestamp(now + ttl))]
    {
      rows := rows[key := Row(state, UnixTimestamp(now + ttl))];
    }

    method Load(key: Key, now: int) returns (state: Option<State>)
      ensures state == SqliteLoad(rows, key, now)
      ensures state.Some? <==> key in rows && now / SECOND < rows[key].expiryDate
      ensures state.Some? ==> state.value == rows[key].state
    {
      if key in rows && rows[key].expiryDate > UnixTimestamp(now) {
        return Some(rows[key].state);
      }
      return None;
    }

    method Save(state: State, ttl: int, now: int, generated: Key) returns (key: Key)
      modifies this
      ensures key == generated && rows == SqliteAfter(old(rows), Op.Save(key, state, ttl), now)
      ensures rows == old(rows)[key := Row(state, (now + ttl) / SECOND)]
    {
      key := generated;
      Upsert(key, state, ttl, now);
    }

    method Update(key: Key, state: State, ttl: int, now: int) returns (updated: Key)
      modifies this
      ensures updated == key && rows == SqliteAfter(old(rows), Op.Update(key, state, ttl), now)
      ensures rows == old(rows)[key := Row(state, (now + ttl) / SECOND)]
    {
      Upsert(key, state, ttl, now);
      updated := key;
    }

    method UpdateTtl(key: Key, ttl: int, now: int)
      modifies this
      ensures rows == SqliteAfter(old(rows), Op.UpdateTtl(key, ttl), now)
      ensures rows.Keys == old(rows).Keys
      ensures forall k | k in rows :: rows[k].state == old(rows)[k].state
                && rows[k].expiryDate == if k == key then (now + ttl) / SECOND else old(rows)[k].expiryDate
    {
      if key in rows {
        rows := rows[key := rows[key].(expiryDate := UnixTimestamp(now + ttl))];
      }
    }

    method Delete(key: Key)
      modifies this
      ensures rows == old(rows) - {key}
    {
      rows := rows - {key};
    }

    method DeleteExpired(now: int)
      modifies this
      ensures rows == SqliteAfter(old(rows), Op.DeleteExpired, now)
      ensures forall k :: k in rows <==> k in old(rows) && now / SECOND <= old(rows)[k].expiryDate
      ensures forall k | k in rows :: rows[k] == old(rows)[k]
    {
      rows := map key | key in rows && !(rows[key].expiryDate < UnixTimestamp(now)) :: rows[key];
    }

    /** The background task: one sweep at each tick, however often it ticks. */
    method ContinuouslyDeleteExpired(ticks: seq<int>)
      modifies this
      ensures rows == SqliteRun(old(rows), Sweeps(ticks))
      ensures forall k :: k in rows <==>
                k in old(rows) && forall i | 0 <= i < |ticks| :: ticks[i] / SECOND <= old(rows)[k].expiryDate
      ensures forall k | k in rows :: rows[k] == old(rows)[k]
    {
      var i := 0;
      while i < |ticks|
        invariant i <= |ticks|
        invariant forall k :: k in rows <==>
                    k in old(rows) && forall j | 0 <= j < i :: ticks[j] / SECOND <= old(rows)[k].expiryDate
        invariant forall k | k in rows :: rows[k] == old(rows)[k]
        invariant SqliteRun(rows, Sweeps(ticks[i..])) == SqliteRun(old(rows), Sweeps(ticks))
      {
        assert ticks[i..][1..] == ticks[i + 1..];
        assert Sweeps(ticks[i..])[1..] == Sweeps(ticks[i + 1..]);
        DeleteExpired(ticks[i]);
        i := i + 1;
      }
    }
  }

  function Sweeps(ticks: seq<int>): seq<Event> {
    if ticks == [] then [] else [Event(ticks[0], DeleteExpired)] + Sweeps(ticks[1..])
  }

  // ---- Histories ----

  datatype Event = Event(now: int, op: Op)

  function MemoryRun(records: Records, history: seq<Event>): Records
    decreases |history|
  {
    if history == [] then records else MemoryRun(MemoryAfter(records, history[0].op, history[0].now), history[1..])
  }

  function SqliteRun(rows: Rows, history: seq<Event>): Rows
    decreases |history|
  {
    if history == [] then rows else SqliteRun(SqliteAfter(rows, history[0].op, history[0].now), history[1..])
  }

  /** The clock does not go back, from `start` through the history to `end`. */
  predicate Chronological(start: int, history: seq<Event>, end: int)
    decreases |history|
  {
    if history == [] then start <= end
    else start <= history[0].now && Chronological(history[0].now, history[1..], end)
  }
}
