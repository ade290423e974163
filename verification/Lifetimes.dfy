/** How long sessions live: theorems over every run of the protocol. */
module Lifetimes {
  import opened Handlers
  import opened Protocol
  import opened SessionValues
  import opened Sessions
  import opened Stores
  import opened Wrappers

  // ---- Provenance ----

  /** In every world of every run, each stored auth datum is that of an earlier login. */
  lemma StoredDataComesFromLogins(cfg: Config, ws: seq<World>, ss: seq<Step>, i: nat, key: Key)
    requires IsRun(cfg, ws, ss) && i < |ws|
    requires ws[i].store.Has(key) && cfg.dataKey in ws[i].store.StateOf(key)
    ensures ws[i].store.StateOf(key)[cfg.dataKey].AuthData?
    ensures exists j, id, user :: 0 <= j < i && ss[j] == Handle(id, Login(user))
              && ws[i].store.StateOf(key)[cfg.dataKey].data == DataOf(user)
  {
    RunKeepsInv(cfg, ws, ss, i);
    var j, id, user := LoginStep(cfg, ws, ss, i, ws[i].store.StateOf(key)[cfg.dataKey].data);
  }

  lemma {:induction false} LoginStep(cfg: Config, ws: seq<World>, ss: seq<Step>, i: nat, data: Data)
    returns (j: nat, id: RequestId, user: User)
    requires IsRun(cfg, ws, ss) && i < |ws| && data in ws[i].logins
    ensures j < i && ss[j] == Handle(id, Login(user)) && data == DataOf(user)
  {
    assert i > 0;
    var w, step := ws[i - 1], ss[i - 1];
    assert ws[i - 1 + 1] == Next(cfg, w, step);
    if data in w.logins {
      j, id, user := LoginStep(cfg, ws, ss, i - 1, data);
    } else {
      j, id, user := i - 1, step.id, step.act.user;
    }
  }

  /** The cookie loads a record that holds exactly this user's login, and the backend returns this user. */
  ghost predicate Backed(cfg: Config, w: World, cookie: Option<Key>, user: User) {
    && cookie.Some? && w.store.Get(cookie.value, w.now).Some?
    && cfg.dataKey in w.store.Get(cookie.value, w.now).value
    && w.store.Get(cookie.value, w.now).value[cfg.dataKey] == AuthData(DataOf(user))
    && user.id in w.users && w.users[user.id] == user
  }

  /** A request begins with a user exactly when its cookie's record and the backend agree on that user. */
  lemma BeginsAuthenticatedIff(cfg: Config, ws: seq<World>, ss: seq<Step>, i: nat, user: User)
    requires IsRun(cfg, ws, ss) && i < |ss| && ss[i].Begin? && ss[i].backendAnswers
    ensures ss[i].id in ws[i + 1].requests
    ensures ws[i + 1].requests[ss[i].id].auth.user == Some(user) <==> Backed(cfg, ws[i], ss[i].cookie, user)
  {
    RunKeepsInv(cfg, ws, ss, i);
    BeginsAuthenticated(cfg, ws[i], ss[i], user);
  }

  lemma BeginsAuthenticated(cfg: Config, w: World, step: Step, user: User)
    requires Inv(cfg, w) && Enabled(cfg, w, step) && step.Begin? && step.backendAnswers
    ensures step.id in Next(cfg, w, step).requests
    ensures Next(cfg, w, step).requests[step.id].auth.user == Some(user) <==> Backed(cfg, w, step.cookie, user)
  {
    var loaded := Loaded(w.store, step.cookie, w.now);
    var session := SessionView(loaded.GetOr(map[]), Unchanged);
    if step.cookie.Some? {
      LoadKeeps(w.store, step.cookie.value, w.now);
    }
    assert Proven(cfg, w.logins, session.entries);
    EstablishedUserIff(session, Backend(w.users, true), cfg.dataKey, user);
  }

  lemma UnknownKeyBeginsAnonymous(cfg: Config, w: World, step: Step)
    requires Enabled(cfg, w, step) && step.Begin? && step.backendAnswers
    requires Loaded(w.store, step.cookie, w.now) == None
    ensures step.id in Next(cfg, w, step).requests
    ensures Next(cfg, w, step).requests[step.id].auth == AuthView(SessionView(map[], Unchanged), None, DEFAULT_DATA)
    ensures Next(cfg, w, step).requests[step.id].key == None
  {}

  lemma {:induction false} UserStaysAway(cfg: Config, ws: seq<World>, ss: seq<Step>, i: nat, m: nat, userId: UserId)
    requires IsRun(cfg, ws, ss) && i <= m < |ws| && userId !in ws[i].users
    requires forall l | i <= l < m :: !(ss[l].ChangeUser? && ss[l].userId == userId)
    ensures userId !in ws[m].users
  {
    if i < m {
      UserStaysAway(cfg, ws, ss, i, m - 1, userId);
      assert ws[m - 1 + 1] == Next(cfg, ws[m - 1], ss[m - 1]);
    }
  }

  /** Once a user is deleted, and not added again, no request begins as this user, whatever the stores still hold. */
  lemma DeletedUserIsOut(cfg: Config, ws: seq<World>, ss: seq<Step>, i: nat, m: nat, user: User)
    requires IsRun(cfg, ws, ss) && i < m < |ss| && ss[i] == ChangeUser(user.id, None)
    requires forall l | i < l < m :: !(ss[l].ChangeUser? && ss[l].userId == user.id)
    requires ss[m].Begin? && ss[m].backendAnswers
    ensures ss[m].id in ws[m + 1].requests && ws[m + 1].requests[ss[m].id].auth.user != Some(user)
  {
    assert Enabled(cfg, ws[i], ss[i]) && ws[i + 1] == Next(cfg, ws[i], ss[i]);
    UserStaysAway(cfg, ws, ss, i + 1, m, user.id);
    BeginsAuthenticatedIff(cfg, ws, ss, m, user);
  }

  // ---- Absent keys ----

  /** The key was issued, and its record is gone. */
  ghost predicate Absent(w: World, key: Key) {
    key in w.issued && !w.store.Has(key)
  }

  /** The step commits a changed session under the key, whether or not the record still exists. */
  ghost predicate Rewrites(w: World, step: Step, key: Key) {
    step.Commit? && Holds(w, step.id, key) && w.requests[step.id].auth.session.status.Changed?
  }

  /** In any interleaving, a step brings an absent record back exactly when it rewrites it. */
  lemma AbsentStepIff(cfg: Config, w: World, step: Step, key: Key)
    requires Inv(cfg, w) && Enabled(cfg, w, step) && Absent(w, key)
    ensures key in Next(cfg, w, step).issued
    ensures Next(cfg, w, step).store.Has(key) <==> Rewrites(w, step, key)
  {
    match step {
      case Begin(_, cookie, _, _) =>
        if cookie.Some? {
          LoadKeeps(w.store, cookie.value, w.now);
        }
      case Commit(id, generated) =>
        CommitWrites(cfg, w.store, w.requests[id], generated, w.now);
      case Sweep => SweepKeeps(w.store, w.now);
      case _ =>
    }
  }

  /** So a record stays absent through a stretch of a run if and only if no step of it rewrites the record. */
  lemma {:induction false} StaysAbsentIff(cfg: Config, ws: seq<World>, ss: seq<Step>, i: nat, j: nat, key: Key)
    requires IsRun(cfg, ws, ss) && i <= j < |ws| && Absent(ws[i], key)
    ensures (forall l | i <= l <= j :: !ws[l].store.Has(key)) <==>
              (forall l | i <= l < j :: !Rewrites(ws[l], ss[l], key))
    ensures (forall l | i <= l < j :: !Rewrites(ws[l], ss[l], key)) ==> Absent(ws[j], key)
  {
    if i < j {
      StaysAbsentIff(cfg, ws, ss, i, j - 1, key);
      if forall l | i <= l < j - 1 :: !Rewrites(ws[l], ss[l], key) {
        var w, step := ws[j - 1], ss[j - 1];
        RunKeepsInv(cfg, ws, ss, j - 1);
        assert Enabled(cfg, w, step);
        AbsentStepIff(cfg, w, step, key);
        assert ws[j - 1 + 1] == Next(cfg, w, step);
      }
    }
  }

  // ---- Ended sessions ----

  lemma CommitLeavesAbsent(cfg: Config, w: World, id: RequestId, generated: Key, key: Key)
    requires Inv(cfg, w) && Enabled(cfg, w, Commit(id, generated)) && Holds(w, id, key)
    requires w.requests[id].auth.session.status in {Purged, Renewed}
    ensures Absent(Next(cfg, w, Commit(id, generated)), key)
  {
    assert RequestOk(cfg, w, w.requests[id]);
  }

  /** Once purged or renewed, the session of a request stays so, and it keeps its key. */
  lemma {:induction false} EndingIsSticky(cfg: Config, ws: seq<World>, ss: seq<Step>, i: nat, j: nat, id: RequestId)
    requires IsRun(cfg, ws, ss) && i <= j < |ws|
    requires id in ws[i].requests && id in ws[j].requests
    requires ws[i].requests[id].auth.session.status in {Purged, Renewed}
    ensures ws[j].requests[id].auth.session.status in {Purged, Renewed}
    ensures ws[j].requests[id].key == ws[i].requests[id].key
  {
    if i < j {
      RunKeepsInv(cfg, ws, ss, i);
      StaysBegun(cfg, ws, ss, i, j - 1, id);
      assert ws[j - 1 + 1] == Next(cfg, ws[j - 1], ss[j - 1]);
      EndingIsSticky(cfg, ws, ss, i, j - 1, id);
    }
  }

  lemma {:induction false} StaysBegun(cfg: Config, ws: seq<World>, ss: seq<Step>, i: nat, j: nat, id: RequestId)
    requires IsRun(cfg, ws, ss) && i <= j < |ws| && id in ws[i].begun
    ensures id in ws[j].begun
  {
    if i < j {
      StaysBegun(cfg, ws, ss, i, j - 1, id);
      assert ws[j - 1 + 1] == Next(cfg, ws[j - 1], ss[j - 1]);
    }
  }

  /** The request ended its session, by purging or renewing it, at step `i`, and committed at step `j`. */
  ghost predicate Ended(ws: seq<World>, ss: seq<Step>, i: nat, j: nat, id: RequestId, key: Key)
    requires |ws| == |ss| + 1
  {
    && i < j < |ss| && ss[j].Commit? && ss[j].id == id
    && Holds(ws[i + 1], id, key) && ws[i + 1].requests[id].auth.session.status in {Purged, Renewed}
  }

  /** Then its record is gone, and in any interleaving it stays so exactly as long as no step rewrites it. */
  lemma EndedSessionIff(cfg: Config, ws: seq<World>, ss: seq<Step>, i: nat, j: nat, id: RequestId, key: Key, m: nat)
    requires IsRun(cfg, ws, ss) && Ended(ws, ss, i, j, id, key) && j < m < |ws|
    ensures (forall l | j < l <= m :: !ws[l].store.Has(key)) <==> (forall l | j < l < m :: !Rewrites(ws[l], ss[l], key))
    ensures Absent(ws[j + 1], key) && Holds(ws[j], id, key)
  {
    assert Enabled(cfg, ws[j], ss[j]) && ws[j + 1] == Next(cfg, ws[j], ss[j]);
    EndingIsSticky(cfg, ws, ss, i + 1, j, id);
    RunKeepsInv(cfg, ws, ss, j);
    CommitLeavesAbsent(cfg, ws[j], id, ss[j].generated, key);
    StaysAbsentIff(cfg, ws, ss, j + 1, m, key);
  }

  lemma LogoutEnds(cfg: Config, ws: seq<World>, ss: seq<Step>, i: nat, j: nat, id: RequestId, key: Key)
    requires IsRun(cfg, ws, ss) && i < j < |ss| && ss[j].Commit? && ss[j].id == id
    requires ss[i] == Handle(id, Logout) && Holds(ws[i], id, key)
    ensures Ended(ws, ss, i, j, id, key)
  {
    assert Enabled(cfg, ws[i], ss[i]) && ws[i + 1] == Next(cfg, ws[i], ss[i]);
  }

  lemma LoginEnds(cfg: Config, ws: seq<World>, ss: seq<Step>, i: nat, j: nat, id: RequestId, user: User, key: Key)
    requires IsRun(cfg, ws, ss) && i < j < |ss| && ss[j].Commit? && ss[j].id == id
    requires ss[i] == Handle(id, Login(user)) && Holds(ws[i], id, key)
    requires ws[i].requests[id].auth.data.authHash.None?
    ensures Ended(ws, ss, i, j, id, key)
  {
    assert Enabled(cfg, ws[i], ss[i]) && ws[i + 1] == Next(cfg, ws[i], ss[i]);
  }

  /** After a committed logout, in any interleaving, the key the request came with is gone until it is rewritten. */
  lemma LogoutRetiresKeyIff(cfg: Config, ws: seq<World>, ss: seq<Step>,
                            i: nat, j: nat, id: RequestId, key: Key, m: nat)
    requires IsRun(cfg, ws, ss) && i < j < |ss| && j < m < |ws| && ss[j].Commit? && ss[j].id == id
    requires ss[i] == Handle(id, Logout) && Holds(ws[i], id, key)
    ensures (forall l | j < l <= m :: !ws[l].store.Has(key)) <==> (forall l | j < l < m :: !Rewrites(ws[l], ss[l], key))
  {
    LogoutEnds(cfg, ws, ss, i, j, id, key);
    EndedSessionIff(cfg, ws, ss, i, j, id, key, m);
  }

  /** So is it after a committed login to a session that held no auth hash. */
  lemma LoginRenewsKeyIff(cfg: Config, ws: seq<World>, ss: seq<Step>,
                          i: nat, j: nat, id: RequestId, user: User, key: Key, m: nat)
    requires IsRun(cfg, ws, ss) && i < j < |ss| && j < m < |ws| && ss[j].Commit? && ss[j].id == id
    requires ss[i] == Handle(id, Login(user)) && Holds(ws[i], id, key)
    requires ws[i].requests[id].auth.data.authHash.None?
    ensures (forall l | j < l <= m :: !ws[l].store.Has(key)) <==> (forall l | j < l < m :: !Rewrites(ws[l], ss[l], key))
  {
    LoginEnds(cfg, ws, ss, i, j, id, user, key);
    EndedSessionIff(cfg, ws, ss, i, j, id, key, m);
  }

  // ---- Serial runs never rewrite an ended session ----

  /** The record is gone and no request still holds the key. */
  ghost predicate Retired(w: World, key: Key) {
    Absent(w, key) && forall id :: !Holds(w, id, key)
  }

  lemma RetiredStep(cfg: Config, w: World, step: Step, key: Key)
    requires Inv(cfg, w) && Enabled(cfg, w, step) && Retired(w, key)
    ensures Retired(Next(cfg, w, step), key)
  {
    var w' := Next(cfg, w, step);
    match step {
      case Begin(_, cookie, _, _) =>
        if cookie.Some? {
          LoadKeeps(w.store, cookie.value, w.now);
        }
      case Commit(id, generated) =>
        CommitWrites(cfg, w.store, w.requests[id], generated, w.now);
        assert CookieAfter(w.requests[id], generated) == Some(key) ==> Holds(w, id, key);
      case Sweep => SweepKeeps(w.store, w.now);
      case _ =>
    }
    forall id ensures !Holds(w', id, key) {
      assert !Holds(w, id, key);
    }
  }

  lemma {:induction false} RetiredForever(cfg: Config, ws: seq<World>, ss: seq<Step>, i: nat, j: nat, key: Key)
    requires IsRun(cfg, ws, ss) && i <= j < |ws| && Retired(ws[i], key)
    ensures Retired(ws[j], key)
  {
    if i < j {
      var w, step := ws[j - 1], ss[j - 1];
      RetiredForever(cfg, ws, ss, i, j - 1, key);
      RunKeepsInv(cfg, ws, ss, j - 1);
      assert Enabled(cfg, w, step) && ws[j - 1 + 1] == Next(cfg, w, step);
      RetiredStep(cfg, w, step, key);
    }
  }

  lemma SerialNeverRewrites(cfg: Config, ws: seq<World>, ss: seq<Step>,
                            i: nat, j: nat, id: RequestId, key: Key, l: nat)
    requires IsSerialRun(cfg, ws, ss) && Ended(ws, ss, i, j, id, key) && j < l < |ws|
    ensures Retired(ws[l], key)
    ensures l < |ss| ==> !Rewrites(ws[l], ss[l], key)
  {
    EndedSessionIff(cfg, ws, ss, i, j, id, key, j + 1);
    SerialRunKeepsOneHolder(cfg, ws, ss, j);
    assert Enabled(cfg, ws[j], ss[j]) && ws[j + 1] == Next(cfg, ws[j], ss[j]);
    var w, w' := ws[j], ws[j + 1];
    forall other ensures !Holds(w', other, key) {
      assert Holds(w', other, key) ==> Holds(w, other, key);
    }
    RetiredForever(cfg, ws, ss, j + 1, l, key);
  }

  /** In a serial run the key of an ended session never loads again. */
  lemma EndedSessionStaysDead(cfg: Config, ws: seq<World>, ss: seq<Step>,
                              i: nat, j: nat, id: RequestId, key: Key, m: nat)
    requires IsSerialRun(cfg, ws, ss) && Ended(ws, ss, i, j, id, key) && j < m < |ws|
    ensures !ws[m].store.Has(key) && ws[m].store.Get(key, ws[m].now) == None
  {
    forall l | j < l < m ensures !Rewrites(ws[l], ss[l], key) {
      SerialNeverRewrites(cfg, ws, ss, i, j, id, key, l);
    }
    EndedSessionIff(cfg, ws, ss, i, j, id, key, m);
  }

  /** So a committed logout retires the key the request came with. */
  lemma LogoutRetiresKey(cfg: Config, ws: seq<World>, ss: seq<Step>, i: nat, j: nat, id: RequestId, key: Key, m: nat)
    requires IsSerialRun(cfg, ws, ss) && i < j < |ss| && j < m < |ws| && ss[j].Commit? && ss[j].id == id
    requires ss[i] == Handle(id, Logout) && Holds(ws[i], id, key)
    ensures ws[m].store.Get(key, ws[m].now) == None
  {
    LogoutEnds(cfg, ws, ss, i, j, id, key);
    EndedSessionStaysDead(cfg, ws, ss, i, j, id, key, m);
  }

  /** And a committed login to a session that held no auth hash. */
  lemma LoginRenewsKey(cfg: Config, ws: seq<World>, ss: seq<Step>,
                       i: nat, j: nat, id: RequestId, user: User, key: Key, m: nat)
    requires IsSerialRun(cfg, ws, ss) && i < j < |ss| && j < m < |ws| && ss[j].Commit? && ss[j].id == id
    requires ss[i] == Handle(id, Login(user)) && Holds(ws[i], id, key)
    requires ws[i].requests[id].auth.data.authHash.None?
    ensures ws[m].store.Get(key, ws[m].now) == None
  {
    LoginEnds(cfg, ws, ss, i, j, id, user, key);
    EndedSessionStaysDead(cfg, ws, ss, i, j, id, key, m);
  }

  // ---- Stale sessions ----

  /** The record under the key names a user the backend knows, but not with the hash it holds. */
  ghost predicate Stale(cfg: Config, w: World, key: Key) {
    && w.store.Get(key, w.now).Some?
    && var state := w.store.Get(key, w.now).value;
       cfg.dataKey in state && state[cfg.dataKey].AuthData?
       && var data := state[cfg.dataKey].data;
          data.userId.Some? && data.userId.value in w.users
          && data.authHash != Some(w.users[data.userId.value].authHash)
  }

  /** A request begins with a purged session exactly when its cookie loads a stale one. */
  lemma BeginsPurgedIff(cfg: Config, ws: seq<World>, ss: seq<Step>, i: nat)
    requires IsRun(cfg, ws, ss) && i < |ss| && ss[i].Begin? && ss[i].backendAnswers
    ensures ss[i].id in ws[i + 1].requests
    ensures ws[i + 1].requests[ss[i].id].auth.session.status.Purged? <==>
              ss[i].cookie.Some? && Stale(cfg, ws[i], ss[i].cookie.value)
  {
    RunKeepsInv(cfg, ws, ss, i);
    assert Enabled(cfg, ws[i], ss[i]) && ws[i + 1] == Next(cfg, ws[i], ss[i]);
    BeginsPurged(cfg, ws[i], ss[i]);
  }

  lemma BeginsPurged(cfg: Config, w: World, step: Step)
    requires Inv(cfg, w) && Enabled(cfg, w, step) && step.Begin? && step.backendAnswers
    ensures step.id in Next(cfg, w, step).requests
    ensures Next(cfg, w, step).requests[step.id].auth.session.status.Purged? <==>
              step.cookie.Some? && Stale(cfg, w, step.cookie.value)
  {
    var entries := Loaded(w.store, step.cookie, w.now).GetOr(map[]);
    if step.cookie.Some? {
      LoadKeeps(w.store, step.cookie.value, w.now);
    }
    assert Proven(cfg, w.logins, entries);
    EstablishedPurgesIff(entries, Backend(w.users, true), cfg.dataKey);
  }

  /** A request on a stale session sees no user. */
  lemma StaleRequestSeesNoUser(cfg: Config, w: World, step: Step, key: Key)
    requires Inv(cfg, w) && Enabled(cfg, w, step) && step.Begin? && step.backendAnswers
    requires step.cookie == Some(key) && Stale(cfg, w, key)
    ensures var w' := Next(cfg, w, step);
            && Holds(w', step.id, key) && w'.requests[step.id].auth.user == None
            && w'.requests[step.id].auth.session == SessionView(map[], Purged)
  {}

  /** Step `i` begins a request on a stale session. */
  ghost predicate BeginsStale(cfg: Config, ws: seq<World>, ss: seq<Step>, i: nat, key: Key)
    requires |ws| == |ss| + 1
  {
    i < |ss| && ss[i].Begin? && ss[i].cookie == Some(key) && ss[i].backendAnswers && Stale(cfg, ws[i], key)
  }

  lemma StaleEnds(cfg: Config, ws: seq<World>, ss: seq<Step>, i: nat, j: nat, key: Key)
    requires IsRun(cfg, ws, ss) && BeginsStale(cfg, ws, ss, i, key)
    requires i < j < |ss| && ss[j].Commit? && ss[j].id == ss[i].id
    ensures Ended(ws, ss, i, j, ss[i].id, key) && ws[i + 1].requests[ss[i].id].auth.user == None
  {
    RunKeepsInv(cfg, ws, ss, i);
    assert Enabled(cfg, ws[i], ss[i]) && ws[i + 1] == Next(cfg, ws[i], ss[i]);
    StaleRequestSeesNoUser(cfg, ws[i], ss[i], key);
  }

  /** A request on a stale session has no user; once it commits, the record is gone until it is rewritten. */
  lemma StaleSessionEndsIff(cfg: Config, ws: seq<World>, ss: seq<Step>, i: nat, j: nat, m: nat, key: Key)
    requires IsRun(cfg, ws, ss) && BeginsStale(cfg, ws, ss, i, key)
    requires i < j < |ss| && ss[j].Commit? && ss[j].id == ss[i].id && j < m < |ws|
    ensures Holds(ws[i + 1], ss[i].id, key) && ws[i + 1].requests[ss[i].id].auth.user == None
    ensures (forall l | j < l <= m :: !ws[l].store.Has(key)) <==> (forall l | j < l < m :: !Rewrites(ws[l], ss[l], key))
  {
    StaleEnds(cfg, ws, ss, i, j, key);
    EndedSessionIff(cfg, ws, ss, i, j, ss[i].id, key, m);
  }

  /**
   In a serial run the session is over for good: no later request with that key has a
   user when it begins, even if the backend's hash is changed back.
   */
  lemma StaleSessionEnds(cfg: Config, ws: seq<World>, ss: seq<Step>, i: nat, j: nat, m: nat, key: Key)
    requires IsSerialRun(cfg, ws, ss) && BeginsStale(cfg, ws, ss, i, key)
    requires i < j < m < |ss| && ss[j].Commit? && ss[j].id == ss[i].id
    requires ss[m].Begin? && ss[m].cookie == Some(key) && ss[m].backendAnswers
    ensures ss[m].id in ws[m + 1].requests && ws[m + 1].requests[ss[m].id].auth.user == None
  {
    StaleEnds(cfg, ws, ss, i, j, key);
    EndedSessionStaysDead(cfg, ws, ss, i, j, ss[i].id, key, m);
    assert Enabled(cfg, ws[m], ss[m]) && ws[m + 1] == Next(cfg, ws[m], ss[m]);
    UnknownKeyBeginsAnonymous(cfg, ws[m], ss[m]);
  }

  /** A request that is over was committed or aborted. */
  lemma {:induction false} RequestEnds(cfg: Config, ws: seq<World>, ss: seq<Step>, i: nat, j: nat, id: RequestId)
    returns (l: nat)
    requires IsRun(cfg, ws, ss) && i <= j < |ws| && id in ws[i].requests && id !in ws[j].requests
    ensures i <= l < j && (ss[l] == Abort(id) || (ss[l].Commit? && ss[l].id == id))
  {
    var w, step := ws[j - 1], ss[j - 1];
    assert Enabled(cfg, w, step) && ws[j - 1 + 1] == Next(cfg, w, step);
    if id in w.requests {
      l := j - 1;
    } else {
      l := RequestEnds(cfg, ws, ss, i, j - 1, id);
    }
  }

  /**
   A later request on the key of a stale session begins with a user exactly when the
   stale request was aborted, the record is still live, and record and backend agree
   on the user again.
   */
  lemma StaleUserReturnsIff(cfg: Config, ws: seq<World>, ss: seq<Step>, i: nat, m: nat, key: Key, user: User)
    requires IsSerialRun(cfg, ws, ss) && BeginsStale(cfg, ws, ss, i, key) && i < m < |ss|
    requires ss[m].Begin? && ss[m].cookie == Some(key) && ss[m].backendAnswers
    ensures ss[m].id in ws[m + 1].requests
    ensures ws[m + 1].requests[ss[m].id].auth.user == Some(user) <==>
              (exists l :: i < l < m && ss[l] == Abort(ss[i].id)) && Backed(cfg, ws[m], Some(key), user)
  {
    BeginsAuthenticatedIff(cfg, ws, ss, m, user);
    if Backed(cfg, ws[m], Some(key), user) {
      var id := ss[i].id;
      RunKeepsInv(cfg, ws, ss, i);
      assert Enabled(cfg, ws[i], ss[i]) && ws[i + 1] == Next(cfg, ws[i], ss[i]);
      StaleRequestSeesNoUser(cfg, ws[i], ss[i], key);
      HeldKeyStays(cfg, ws, ss, i + 1, m, id, key);
      assert Serial(ws[m], ss[m]);
      var l := RequestEnds(cfg, ws, ss, i + 1, m, id);
      if ss[l].Commit? {
        StaleSessionEnds(cfg, ws, ss, i, l, m, key);
      }
    }
  }

  lemma {:induction false} HeldKeyStays(cfg: Config, ws: seq<World>, ss: seq<Step>,
                                        i: nat, j: nat, id: RequestId, key: Key)
    requires IsRun(cfg, ws, ss) && i <= j < |ws| && Holds(ws[i], id, key)
    ensures id in ws[j].requests ==> Holds(ws[j], id, key)
  {
    if i < j {
      HeldKeyStays(cfg, ws, ss, i, j - 1, id, key);
      RunKeepsInv(cfg, ws, ss, i);
      StaysBegun(cfg, ws, ss, i, j - 1, id);
      assert Enabled(cfg, ws[j - 1], ss[j - 1]) && ws[j - 1 + 1] == Next(cfg, ws[j - 1], ss[j - 1]);
    }
  }
}
