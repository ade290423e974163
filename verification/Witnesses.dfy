/**
 Runs that show what the theorems over runs leave possible: a login that lasts, an
 overlapping request that brings a logged-out session back, a stale session that
 outlives a failed request, and a session that is swept while it is used.
 */
module Witnesses {
  import opened Handlers
  import opened Lifetimes
  import opened Protocol
  import opened RunStores
  import opened SessionValues
  import opened Sessions
  import opened Stores
  import opened Wrappers

  lemma Extend(cfg: Config, ws: seq<World>, ss: seq<Step>, step: Step) returns (ws': seq<World>, ss': seq<Step>)
    requires IsRun(cfg, ws, ss) && Enabled(cfg, ws[|ss|], step)
    ensures ss' == ss + [step] && ws' == ws + [Next(cfg, ws[|ss|], step)]
    ensures IsRun(cfg, ws', ss')
    ensures IsSerialRun(cfg, ws, ss) && Serial(ws[|ss|], step) ==> IsSerialRun(cfg, ws', ss')
  {
    ss' := ss + [step];
    ws' := ws + [Next(cfg, ws[|ss|], step)];
    forall i | 0 <= i < |ss'| ensures Enabled(cfg, ws'[i], ss'[i]) && ws'[i + 1] == Next(cfg, ws'[i], ss'[i]) {
      if i < |ss| {
        assert ss'[i] == ss[i] && ws'[i] == ws[i] && ws'[i + 1] == ws[i + 1];
      }
    }
    forall i | IsSerialRun(cfg, ws, ss) && 0 <= i < |ss| ensures Serial(ws'[i], ss'[i]) {
      assert ss'[i] == ss[i] && ws'[i] == ws[i];
    }
  }

  // ---- The worlds of a login ----

  function LoginState(cfg: Config, user: User): State { map[cfg.dataKey := AuthData(DataOf(user))] }

  /** One user logged in, with one record and no request in flight. */
  function LoggedInWorld(cfg: Config, user: User, known: User, key: Key, begun: set<RequestId>): World {
    World(Memory(map[key := Record(LoginState(cfg, user), cfg.ttl)]), map[known.id := known], 0,
          {key}, {DataOf(user)}, map[], begun)
  }

  /** A request on the record, as it begins. */
  function LoginRequest(cfg: Config, user: User, key: Key): Request {
    Request(Some(key), AuthView(SessionView(LoginState(cfg, user), Unchanged), Some(user), DataOf(user)), Open, Inside)
  }

  lemma LoginRun(cfg: Config, user: User, key: Key) returns (ws: seq<World>, ss: seq<Step>)
    ensures IsSerialRun(cfg, ws, ss) && |ss| == 3
    ensures ss == [Begin(0, None, Open, true), Handle(0, Login(user)), Commit(0, key)]
    ensures ws[3] == LoggedInWorld(cfg, user, user, key, {0})
  {
    var w0 := World(Memory(map[]), map[user.id := user], 0, {}, {}, map[], {});
    ss := [Begin(0, None, Open, true), Handle(0, Login(user)), Commit(0, key)];
    var w1 := Next(cfg, w0, ss[0]);
    var w2 := Next(cfg, w1, ss[1]);
    assert w2.requests[0].auth.session.entries == LoginState(cfg, user);
    var w3 := Next(cfg, w2, ss[2]);
    assert w3.requests == map[] && w3.begun == {0} && w3.issued == {key} && w3.logins == {DataOf(user)};
    ws := [w0, w1, w2, w3];
  }

  /** A request on a live login begins with its user. */
  lemma BeginsLoggedIn(cfg: Config, w: World, id: RequestId, key: Key, user: User)
    requires cfg.ttl > 0 && w.now == 0 && id !in w.begun
    requires w.store == Memory(map[key := Record(LoginState(cfg, user), cfg.ttl)])
    requires user.id in w.users && w.users[user.id] == user
    ensures Next(cfg, w, Begin(id, Some(key), Open, true)) ==
              w.(begun := w.begun + {id}, requests := w.requests[id := LoginRequest(cfg, user, key)])
  {}

  // ---- A login lasts ----

  /** For every user and generated key there is a run whose last request begins as the user that logged in. */
  lemma LoginRunExists(cfg: Config, user: User, key: Key) returns (ws: seq<World>, ss: seq<Step>)
    requires cfg.ttl > 0
    ensures IsSerialRun(cfg, ws, ss) && |ss| == 4
    ensures ss[1] == Handle(0, Login(user)) && ss[2] == Commit(0, key) && ss[3] == Begin(1, Some(key), Open, true)
    ensures 1 in ws[4].requests && ws[4].requests[1].auth.user == Some(user)
  {
    ws, ss := LoginRun(cfg, user, key);
    BeginsLoggedIn(cfg, ws[3], 1, key, user);
    ws, ss := Extend(cfg, ws, ss, Begin(1, Some(key), Open, true));
  }

  // ---- Overlapping requests ----

  /** Two requests hold the record of one login. */
  function OverlappedWorld(cfg: Config, user: User, key: Key): World {
    var request := LoginRequest(cfg, user, key);
    LoggedInWorld(cfg, user, user, key, {0, 1, 2}).(requests := map[1 := request, 2 := request])
  }

  lemma OverlappedRun(cfg: Config, user: User, key: Key) returns (ws: seq<World>, ss: seq<Step>)
    requires cfg.ttl > 0
    ensures IsRun(cfg, ws, ss) && |ss| == 5 && ws[5] == OverlappedWorld(cfg, user, key)
  {
    ws, ss := LoginRun(cfg, user, key);
    BeginsLoggedIn(cfg, ws[3], 1, key, user);
    ws, ss := Extend(cfg, ws, ss, Begin(1, Some(key), Open, true));
    BeginsLoggedIn(cfg, ws[4], 2, key, user);
    ws, ss := Extend(cfg, ws, ss, Begin(2, Some(key), Open, true));
    assert {0} + {1} + {2} == {0, 1, 2};
  }

  /** The world after the first of the two has logged out and committed. */
  function LoggedOutWorld(cfg: Config, user: User, key: Key, g1: Key): World {
    LoggedInWorld(cfg, user, user, key, {0, 1, 2}).(
      store := Memory(map[]), issued := {key, g1}, requests := map[2 := LoginRequest(cfg, user, key)])
  }

  lemma OneLogsOut(cfg: Config, user: User, key: Key, g1: Key, w: World, w': World)
    requires w == OverlappedWorld(cfg, user, key) && g1 != key
    requires w' == Next(cfg, w, Handle(1, Logout))
    ensures Enabled(cfg, w', Commit(1, g1))
    ensures Next(cfg, w', Commit(1, g1)) == LoggedOutWorld(cfg, user, key, g1)
  {
    var w'' := Next(cfg, w', Commit(1, g1));
    assert w''.store == Memory(map[]) && w''.requests == map[2 := LoginRequest(cfg, user, key)];
  }

  lemma LoggedOutRun(cfg: Config, user: User, key: Key, g1: Key) returns (ws: seq<World>, ss: seq<Step>)
    requires cfg.ttl > 0 && g1 != key
    ensures IsRun(cfg, ws, ss) && |ss| == 7 && ss[5] == Handle(1, Logout) && ss[6] == Commit(1, g1)
    ensures Holds(ws[5], 1, key) && ws[7] == LoggedOutWorld(cfg, user, key, g1)
  {
    ws, ss := OverlappedRun(cfg, user, key);
    ws, ss := Extend(cfg, ws, ss, Handle(1, Logout));
    OneLogsOut(cfg, user, key, g1, ws[5], ws[6]);
    ws, ss := Extend(cfg, ws, ss, Commit(1, g1));
  }

  /** The world after the other has written another entry and committed. */
  lemma OtherWrites(cfg: Config, user: User, key: Key, g1: Key, g2: Key, name: string, value: Value,
                    w: World, w': World)
    requires w == LoggedOutWorld(cfg, user, key, g1) && g2 != key && g2 != g1 && name != cfg.dataKey
    requires w' == Next(cfg, w, Handle(2, Insert(name, value)))
    ensures Enabled(cfg, w', Commit(2, g2))
    ensures var w'' := Next(cfg, w', Commit(2, g2));
            && w''.store == Memory(map[key := Record(LoginState(cfg, user)[name := value], cfg.ttl)])
            && w''.users == w.users && w''.now == 0 && w''.begun == w.begun && w''.requests == map[]
  {
    var w'' := Next(cfg, w', Commit(2, g2));
    assert w''.requests == map[];
  }

  lemma RewrittenRun(cfg: Config, user: User, key: Key, g1: Key, g2: Key, name: string, value: Value)
    returns (ws: seq<World>, ss: seq<Step>)
    requires cfg.ttl > 0 && g1 != key && g2 != key && g2 != g1 && name != cfg.dataKey
    ensures IsRun(cfg, ws, ss) && |ss| == 9
    ensures ss[5] == Handle(1, Logout) && ss[6] == Commit(1, g1) && Holds(ws[5], 1, key)
    ensures Absent(ws[7], key) && 3 !in ws[9].begun && Backed(cfg, ws[9], Some(key), user)
  {
    ws, ss := LoggedOutRun(cfg, user, key, g1);
    ws, ss := Extend(cfg, ws, ss, Handle(2, Insert(name, value)));
    OtherWrites(cfg, user, key, g1, g2, name, value, ws[7], ws[8]);
    ws, ss := Extend(cfg, ws, ss, Commit(2, g2));
  }

  /**
   Without serial requests a committed logout does not last: the other request on the
   key commits a change, and the next one begins as the user that was logged out.
   */
  lemma OverlapRestoresLogin(cfg: Config, user: User, key: Key, g1: Key, g2: Key, name: string, value: Value)
    returns (ws: seq<World>, ss: seq<Step>)
    requires cfg.ttl > 0 && g1 != key && g2 != key && g2 != g1 && name != cfg.dataKey
    ensures IsRun(cfg, ws, ss) && |ss| == 10
    ensures ss[5] == Handle(1, Logout) && ss[6] == Commit(1, g1) && Holds(ws[5], 1, key)
    ensures Absent(ws[7], key) && ws[9].store.Has(key)
    ensures ss[9] == Begin(3, Some(key), Open, true)
    ensures 3 in ws[10].requests && ws[10].requests[3].auth.user == Some(user)
  {
    ws, ss := RewrittenRun(cfg, user, key, g1, g2, name, value);
    ws, ss := Extend(cfg, ws, ss, Begin(3, Some(key), Open, true));
    BeginsAuthenticatedIff(cfg, ws, ss, 9, user);
  }

  // ---- A stale session whose request fails ----

  /** The password changes, a request sees no user but fails, the old password comes back: so does the user. */
  lemma FailedRequestKeepsStaleSession(cfg: Config, user: User, changed: User, key: Key)
    returns (ws: seq<World>, ss: seq<Step>)
    requires cfg.ttl > 0 && changed.id == user.id && changed.authHash != user.authHash
    ensures IsSerialRun(cfg, ws, ss) && |ss| == 8
    ensures BeginsStale(cfg, ws, ss, 4, key) && ss[5] == Abort(ss[4].id)
    ensures ss[6] == ChangeUser(user.id, Some(user))
    ensures ss[7].Begin? && ss[7].cookie == Some(key)
    ensures ss[7].id in ws[8].requests && ws[8].requests[ss[7].id].auth.user == Some(user)
  {
    ws, ss := LoginRun(cfg, user, key);
    ws, ss := Extend(cfg, ws, ss, ChangeUser(user.id, Some(changed)));
    assert ws[4] == LoggedInWorld(cfg, user, changed, key, {0});
    ws, ss := Extend(cfg, ws, ss, Begin(1, Some(key), Open, true));
    ws, ss := Extend(cfg, ws, ss, Abort(1));
    assert ws[6] == LoggedInWorld(cfg, user, changed, key, {0, 1});
    ws, ss := Extend(cfg, ws, ss, ChangeUser(user.id, Some(user)));
    assert ws[7] == LoggedInWorld(cfg, user, user, key, {0, 1});
    BeginsLoggedIn(cfg, ws[7], 2, key, user);
    ws, ss := Extend(cfg, ws, ss, Begin(2, Some(key), Open, true));
  }

  // ---- A session swept while its request is in flight ----

  /** The world of a login on the SQLite store, at an instant, with or without the row. */
  function SqliteWorld(cfg: Config, user: User, key: Key, rows: Rows, now: int, begun: set<RequestId>): World {
    LoggedInWorld(cfg, user, user, key, begun).(store := Sqlite(rows), now := now)
  }

  function LoginRows(cfg: Config, user: User, key: Key): Rows {
    map[key := Row(LoginState(cfg, user), UnixTimestamp(cfg.ttl))]
  }

  lemma SqliteLoginRun(cfg: Config, user: User, key: Key) returns (ws: seq<World>, ss: seq<Step>)
    ensures IsSerialRun(cfg, ws, ss) && |ss| == 3
    ensures ss == [Begin(0, None, Open, true), Handle(0, Login(user)), Commit(0, key)]
    ensures ws[3] == SqliteWorld(cfg, user, key, LoginRows(cfg, user, key), 0, {0})
  {
    var w0 := World(Sqlite(map[]), map[user.id := user], 0, {}, {}, map[], {});
    ss := [Begin(0, None, Open, true), Handle(0, Login(user)), Commit(0, key)];
    var w1 := Next(cfg, w0, ss[0]);
    var w2 := Next(cfg, w1, ss[1]);
    assert w2.requests[0].auth.session.entries == LoginState(cfg, user);
    var w3 := Next(cfg, w2, ss[2]);
    assert w3.requests == map[] && w3.begun == {0} && w3.issued == {key} && w3.logins == {DataOf(user)};
    ws := [w0, w1, w2, w3];
  }

  lemma BeginsLoggedInSqlite(cfg: Config, user: User, key: Key, w: World)
    requires cfg.ttl >= SECOND && w == SqliteWorld(cfg, user, key, LoginRows(cfg, user, key), 0, {0})
    ensures Next(cfg, w, Begin(1, Some(key), Open, true)) ==
              w.(begun := {0, 1}, requests := map[1 := LoginRequest(cfg, user, key)])
  {
    assert UnixTimestamp(0) < UnixTimestamp(cfg.ttl);
  }

  /** The row is swept while the request is in flight. */
  lemma SweptRun(cfg: Config, user: User, key: Key) returns (ws: seq<World>, ss: seq<Step>)
    requires cfg.ttl >= SECOND
    ensures IsSerialRun(cfg, ws, ss) && |ss| == 6
    ensures ss[1] == Handle(0, Login(user)) && ss[2] == Commit(0, key) && ss[3] == Begin(1, Some(key), Open, true)
    ensures ws[6] == SqliteWorld(cfg, user, key, map[], cfg.ttl + SECOND, {0, 1}).(
                       requests := map[1 := LoginRequest(cfg, user, key)])
  {
    ws, ss := SqliteLoginRun(cfg, user, key);
    BeginsLoggedInSqlite(cfg, user, key, ws[3]);
    ws, ss := Extend(cfg, ws, ss, Begin(1, Some(key), Open, true));
    ws, ss := Extend(cfg, ws, ss, Advance(cfg.ttl + SECOND));
    assert UnixTimestamp(cfg.ttl) < UnixTimestamp(cfg.ttl + SECOND);
    assert ws[5].store.After(DeleteExpired, ws[5].now) == Sqlite(map[]);
    ws, ss := Extend(cfg, ws, ss, Sweep);
  }

  /**
   On the SQLite store a session can be lost in a serial run although every request
   extends it: it expires and is swept while its request is in flight, and the commit
   hands out a key under which nothing is stored. The timed map still has it.
   */
  lemma SweptSessionIsLost(cfg: Config, user: User, key: Key, generated: Key)
    returns (ws: seq<World>, ss: seq<Step>)
    requires cfg.ttl >= SECOND && cfg.extendOnEveryRequest && generated != key
    ensures IsSerialRun(cfg, ws, ss) && |ss| == 7
    ensures ss[1] == Handle(0, Login(user)) && ss[2] == Commit(0, key) && ss[3] == Begin(1, Some(key), Open, true)
    ensures ss[6] == Commit(1, generated) && 1 in ws[6].requests && ws[6].requests[1].auth.user == Some(user)
    ensures CookieAfter(ws[6].requests[1], generated) == Some(key) && !ws[7].store.Has(key)
    ensures ExtendsGone(cfg, ws[6], ss[6]) && !Answers(ws[7], MapOf(cfg, ws, ss, 7))
  {
    ws, ss := SweptRun(cfg, user, key);
    ws, ss := Extend(cfg, ws, ss, Commit(1, generated));
    var now := cfg.ttl + SECOND;
    assert UnixTimestamp(now) < UnixTimestamp(now + cfg.ttl);
    assert ExtendsGone(cfg, ws[6], ss[6]);
    SerialExtension(cfg, ws, ss, 6);
    ExtensionShows(cfg, ws, ss, 6);
  }

  // ---- A session dropped by an overlapping load ----

  /** The record expires, and a third request finds that and drops it while two others hold its key. */
  lemma DroppedRun(cfg: Config, user: User, key: Key) returns (ws: seq<World>, ss: seq<Step>)
    requires cfg.ttl > 0
    ensures IsRun(cfg, ws, ss) && |ss| == 7 && ss[6] == Begin(3, Some(key), Open, true)
    ensures ws[6].store.Has(key) && ws[7].store == Memory(map[]) && ws[7].now == cfg.ttl && ws[7].issued == {key}
    ensures 1 in ws[7].requests && ws[7].requests[1] == LoginRequest(cfg, user, key)
  {
    ws, ss := OverlappedRun(cfg, user, key);
    ws, ss := Extend(cfg, ws, ss, Advance(cfg.ttl));
    assert ws[6].store.After(Op.Load(key), ws[6].now) == Memory(map[]);
    ws, ss := Extend(cfg, ws, ss, Begin(3, Some(key), Open, true));
  }

  /** Without serial requests the same loss occurs in memory: the record was dropped before its holder extends it. */
  lemma DroppedSessionIsLost(cfg: Config, user: User, key: Key, generated: Key)
    returns (ws: seq<World>, ss: seq<Step>)
    requires cfg.ttl > 0 && cfg.extendOnEveryRequest && generated != key
    ensures IsRun(cfg, ws, ss) && |ss| == 8 && ws[8].store.Memory?
    ensures ss[7] == Commit(1, generated) && 1 in ws[7].requests && ws[7].requests[1].auth.user == Some(user)
    ensures CookieAfter(ws[7].requests[1], generated) == Some(key) && !ws[8].store.Has(key)
    ensures ExtendsDropped(cfg, ws[7], ss[7], MapOf(cfg, ws, ss, 7)) && !Answers(ws[8], MapOf(cfg, ws, ss, 8))
  {
    ws, ss := DroppedRun(cfg, user, key);
    ws, ss := Extend(cfg, ws, ss, Commit(1, generated));
    DroppedKeyInMap(cfg, ws, ss, 6, key);
    ExtensionShows(cfg, ws, ss, 7);
  }
}
