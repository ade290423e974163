/** A login lasts: theorems over every run about the requests that follow a login. */
module Persistence {
  import opened Access
  import opened Handlers
  import opened Lifetimes
  import opened Protocol
  import opened SessionValues
  import opened Sessions
  import opened Stores
  import opened Wrappers

  // ---- From the login to the commit of its request ----

  /** The request carries the login of `user` and will store it. */
  ghost predicate HasLogin(cfg: Config, request: Request, user: User) {
    && request.auth.user == Some(user) && request.auth.data == DataOf(user)
    && request.auth.session.status in {Unchanged, Changed, Renewed}
    && cfg.dataKey in request.auth.session.entries
    && request.auth.session.entries[cfg.dataKey] == AuthData(DataOf(user))
  }

  /** The step logs request `id` out or in as someone else. */
  predicate Overrides(step: Step, id: RequestId, user: User) {
    step.Handle? && step.id == id && (step.act.Logout? || (step.act.Login? && step.act.user != user))
  }

  lemma HasLoginStep(cfg: Config, w: World, step: Step, id: RequestId, user: User)
    requires Enabled(cfg, w, step) && id in w.requests && id in w.begun && HasLogin(cfg, w.requests[id], user)
    requires !Overrides(step, id, user)
    ensures id in Next(cfg, w, step).requests ==> HasLogin(cfg, Next(cfg, w, step).requests[id], user)
    ensures id in Next(cfg, w, step).requests ==> Next(cfg, w, step).requests[id].key == w.requests[id].key
  {}

  lemma {:induction false} HasLoginUntil(cfg: Config, ws: seq<World>, ss: seq<Step>,
                                         i: nat, j: nat, id: RequestId, user: User)
    requires IsRun(cfg, ws, ss) && i <= j < |ws|
    requires id in ws[i].requests && id in ws[j].requests && HasLogin(cfg, ws[i].requests[id], user)
    requires forall l | i <= l < j :: !Overrides(ss[l], id, user)
    ensures HasLogin(cfg, ws[j].requests[id], user)
  {
    if i < j {
      RunKeepsInv(cfg, ws, ss, i);
      StaysBegun(cfg, ws, ss, i, j - 1, id);
      assert ws[j - 1 + 1] == Next(cfg, ws[j - 1], ss[j - 1]);
      HasLoginUntil(cfg, ws, ss, i, j - 1, id, user);
      HasLoginStep(cfg, ws[j - 1], ss[j - 1], id, user);
    }
  }

  // ---- From the commit to a later request ----

  /** The record under `key` holds the login of `user`, expires no earlier than `limit`, and requests on it carry it. */
  ghost predicate Kept(cfg: Config, w: World, key: Key, user: User, limit: int) {
    && KeptRecord(cfg, w, key, user, limit)
    && key in w.issued && user.id in w.users && w.users[user.id] == user
    && limit <= w.store.Rounded(w.now + cfg.ttl)
    && forall id | Holds(w, id, key) ::
         HasLogin(cfg, w.requests[id], user) && !w.requests[id].auth.session.status.Renewed?
  }

  ghost predicate KeptRecord(cfg: Config, w: World, key: Key, user: User, limit: int) {
    && w.store.Has(key) && w.store.Expiry(key) >= limit
    && cfg.dataKey in w.store.StateOf(key) && w.store.StateOf(key)[cfg.dataKey] == AuthData(DataOf(user))
  }

  /** A step that ends the login: on a request with this key, or by changing the user in the backend. */
  ghost predicate Disturbs(w: World, step: Step, key: Key, user: User) {
    || (step.Handle? && Holds(w, step.id, key) && Overrides(step, step.id, user))
    || (step.ChangeUser? && step.userId == user.id && step.user != Some(user))
  }

  lemma CommitKeepsRecord(cfg: Config, w: World, step: Step, key: Key, user: User, limit: int)
    requires Inv(cfg, w) && Enabled(cfg, w, step) && step.Commit? && Kept(cfg, w, key, user, limit)
    ensures KeptRecord(cfg, Next(cfg, w, step), key, user, limit)
  {
    var request := w.requests[step.id];
    if Holds(w, step.id, key) {
      assert HasLogin(cfg, request, user);
    }
  }

  lemma BeginKeepsRecord(cfg: Config, w: World, step: Step, key: Key, user: User, limit: int)
    requires Inv(cfg, w) && Enabled(cfg, w, step) && (step.Begin? || step.Sweep?) && Kept(cfg, w, key, user, limit)
    requires w.store.Rounded(w.now) < limit
    ensures KeptRecord(cfg, Next(cfg, w, step), key, user, limit)
  {
    if step.Sweep? {
      SweepKeeps(w.store, w.now);
    } else if step.cookie.Some? {
      LoadKeeps(w.store, step.cookie.value, w.now);
    }
  }

  /** A request that begins on the key carries the login. */
  lemma BeginHasLogin(cfg: Config, w: World, step: Step, key: Key, user: User, limit: int)
    requires Inv(cfg, w) && Enabled(cfg, w, step) && step.Begin? && step.cookie == Some(key)
    requires Kept(cfg, w, key, user, limit) && w.store.Rounded(w.now) < limit
    ensures var w' := Next(cfg, w, step);
            step.backendAnswers || step.id in w'.requests ==>
              Holds(w', step.id, key) && HasLogin(cfg, w'.requests[step.id], user)
              && w'.requests[step.id].auth.session.status.Unchanged?
  {
    LoadKeeps(w.store, key, w.now);
  }

  /** A request that has the login, unrenewed, keeps it so. */
  lemma HeldStep(cfg: Config, w: World, step: Step, id: RequestId, user: User)
    requires Inv(cfg, w) && Enabled(cfg, w, step) && id in w.requests && id in Next(cfg, w, step).requests
    requires HasLogin(cfg, w.requests[id], user) && !w.requests[id].auth.session.status.Renewed?
    requires !Overrides(step, id, user)
    ensures HasLogin(cfg, Next(cfg, w, step).requests[id], user)
    ensures !Next(cfg, w, step).requests[id].auth.session.status.Renewed?
  {}

  lemma KeptRequest(cfg: Config, w: World, step: Step, key: Key, user: User, limit: int, id: RequestId)
    requires Inv(cfg, w) && Enabled(cfg, w, step) && Kept(cfg, w, key, user, limit)
    requires !Disturbs(w, step, key, user) && w.store.Rounded(w.now) < limit
    requires Holds(Next(cfg, w, step), id, key)
    ensures var request := Next(cfg, w, step).requests[id];
            HasLogin(cfg, request, user) && !request.auth.session.status.Renewed?
  {
    if step.Begin? && step.id == id {
      BeginHasLogin(cfg, w, step, key, user, limit);
    } else {
      assert Holds(w, id, key);
      HeldStep(cfg, w, step, id, user);
    }
  }

  lemma KeptStep(cfg: Config, w: World, step: Step, key: Key, user: User, limit: int)
    requires Inv(cfg, w) && Enabled(cfg, w, step) && Kept(cfg, w, key, user, limit)
    requires !Disturbs(w, step, key, user) && w.store.Rounded(w.now) < limit
    ensures Kept(cfg, Next(cfg, w, step), key, user, limit)
  {
    var w' := Next(cfg, w, step);
    assert KeptRecord(cfg, w', key, user, limit) by {
      if step.Commit? {
        CommitKeepsRecord(cfg, w, step, key, user, limit);
      } else if step.Begin? || step.Sweep? {
        BeginKeepsRecord(cfg, w, step, key, user, limit);
      }
    }
    forall id | Holds(w', id, key)
      ensures HasLogin(cfg, w'.requests[id], user) && !w'.requests[id].auth.session.status.Renewed?
    {
      KeptRequest(cfg, w, step, key, user, limit, id);
    }
    assert w.store.Rounded(w.now + cfg.ttl) <= w'.store.Rounded(w'.now + cfg.ttl);
  }

  lemma {:induction false} ClockIsMonotone(cfg: Config, ws: seq<World>, ss: seq<Step>, i: nat, j: nat)
    requires IsRun(cfg, ws, ss) && i <= j < |ws|
    ensures ws[i].now <= ws[j].now && (ws[i].store.Memory? <==> ws[j].store.Memory?)
    ensures ws[i].store.Rounded(ws[i].now) <= ws[j].store.Rounded(ws[j].now)
  {
    if i < j {
      ClockIsMonotone(cfg, ws, ss, i, j - 1);
      assert ws[j - 1 + 1] == Next(cfg, ws[j - 1], ss[j - 1]);
    }
  }

  lemma {:induction false} KeptUntil(cfg: Config, ws: seq<World>, ss: seq<Step>,
                                     i: nat, j: nat, key: Key, user: User, limit: int)
    requires IsRun(cfg, ws, ss) && i <= j < |ws| && Kept(cfg, ws[i], key, user, limit)
    requires forall l | i <= l < j :: !Disturbs(ws[l], ss[l], key, user)
    requires forall l | i <= l < j :: ws[l].store.Rounded(ws[l].now) < limit
    ensures Kept(cfg, ws[j], key, user, limit)
  {
    if i < j {
      var w, step := ws[j - 1], ss[j - 1];
      KeptUntil(cfg, ws, ss, i, j - 1, key, user, limit);
      RunKeepsInv(cfg, ws, ss, j - 1);
      assert Kept(cfg, Next(cfg, w, step), key, user, limit) by { KeptStep(cfg, w, step, key, user, limit); }
      assert ws[j - 1 + 1] == Next(cfg, w, step);
    }
  }

  /** Committing a request that carries a login leaves the client with a key whose record keeps it. */
  lemma CommitEstablishes(cfg: Config, w: World, id: RequestId, generated: Key, user: User)
    requires Inv(cfg, w) && Enabled(cfg, w, Commit(id, generated)) && HasLogin(cfg, w.requests[id], user)
    requires w.requests[id].auth.session.status in {Changed, Renewed}
    requires user.id in w.users && w.users[user.id] == user
    requires forall other, key |
               Holds(w, other, key) && CookieAfter(w.requests[id], generated) == Some(key) :: other == id
    ensures CookieAfter(w.requests[id], generated).Some?
    ensures Kept(cfg, Next(cfg, w, Commit(id, generated)), CookieAfter(w.requests[id], generated).value, user,
                 w.store.Rounded(w.now + cfg.ttl))
  {
    var w' := Next(cfg, w, Commit(id, generated));
    var request := w.requests[id];
    assert RequestOk(cfg, w, request);
    assert request.auth.session.entries != map[];
    var key := CookieAfter(request, generated).value;
    forall other | Holds(w', other, key) ensures false {
      assert Holds(w, other, key);
    }
  }

  lemma {:induction false} WritesStick(cfg: Config, ws: seq<World>, ss: seq<Step>, i: nat, j: nat, id: RequestId)
    requires IsRun(cfg, ws, ss) && i <= j < |ws| && id in ws[i].requests && id in ws[j].requests
    requires !ws[i].requests[id].auth.session.status.Unchanged?
    ensures !ws[j].requests[id].auth.session.status.Unchanged?
  {
    if i < j {
      RunKeepsInv(cfg, ws, ss, i);
      StaysBegun(cfg, ws, ss, i, j - 1, id);
      assert ws[j - 1 + 1] == Next(cfg, ws[j - 1], ss[j - 1]);
      WritesStick(cfg, ws, ss, i, j - 1, id);
    }
  }

  /** A login on a session that is not purged, once committed, leaves the client with a key. */
  lemma LoginReturnsKey(cfg: Config, ws: seq<World>, ss: seq<Step>,
                        i: nat, j: nat, id: RequestId, user: User, generated: Key)
    requires IsRun(cfg, ws, ss) && i < j < |ss|
    requires ss[i] == Handle(id, Login(user)) && ss[j] == Commit(id, generated)
    requires id in ws[i].requests && !ws[i].requests[id].auth.session.status.Purged?
    requires forall l | i < l < j :: !Overrides(ss[l], id, user)
    ensures id in ws[j].requests && HasLogin(cfg, ws[j].requests[id], user)
    ensures ws[j].requests[id].auth.session.status in {Changed, Renewed}
    ensures CookieAfter(ws[j].requests[id], generated).Some?
  {
    assert Enabled(cfg, ws[i], ss[i]) && ws[i + 1] == Next(cfg, ws[i], ss[i]) && Enabled(cfg, ws[j], ss[j]);
    HasLoginUntil(cfg, ws, ss, i + 1, j, id, user);
    WritesStick(cfg, ws, ss, i + 1, j, id);
    assert ws[j].requests[id].auth.session.entries != map[];
  }

  lemma {:induction false} PurgedUntil(cfg: Config, ws: seq<World>, ss: seq<Step>, i: nat, j: nat, id: RequestId)
    requires IsRun(cfg, ws, ss) && i <= j < |ws| && id in ws[i].requests && id in ws[j].requests
    requires ws[i].requests[id].auth.session.status.Purged?
    ensures ws[j].requests[id].auth.session.status.Purged?
  {
    if i < j {
      RunKeepsInv(cfg, ws, ss, i);
      StaysBegun(cfg, ws, ss, i, j - 1, id);
      assert ws[j - 1 + 1] == Next(cfg, ws[j - 1], ss[j - 1]);
      PurgedUntil(cfg, ws, ss, i, j - 1, id);
    }
  }

  lemma CommitForgets(cfg: Config, w: World, id: RequestId, generated: Key)
    requires Inv(cfg, w) && Enabled(cfg, w, Commit(id, generated)) && w.requests[id].auth.session.status.Purged?
    ensures CookieAfter(w.requests[id], generated) == None
    ensures forall key | Next(cfg, w, Commit(id, generated)).store.Has(key) :: w.store.Has(key)
  {
    assert RequestOk(cfg, w, w.requests[id]);
  }

  /** From the login on, whatever the session, the request has the user until it logs out or in as someone else. */
  lemma {:induction false} HasUserUntil(cfg: Config, ws: seq<World>, ss: seq<Step>,
                                        i: nat, j: nat, id: RequestId, user: User)
    requires IsRun(cfg, ws, ss) && i <= j < |ws| && id in ws[i].requests && id in ws[j].requests
    requires ws[i].requests[id].auth.user == Some(user)
    requires forall l | i <= l < j :: !Overrides(ss[l], id, user)
    ensures ws[j].requests[id].auth.user == Some(user)
  {
    if i < j {
      RunKeepsInv(cfg, ws, ss, i);
      StaysBegun(cfg, ws, ss, i, j - 1, id);
      assert ws[j - 1 + 1] == Next(cfg, ws[j - 1], ss[j - 1]);
      HasUserUntil(cfg, ws, ss, i, j - 1, id, user);
    }
  }

  /**
   A login succeeds within its request in any case, but once committed it leaves the
   client with a key if and only if the session was not purged before; on a purged one
   it stores nothing.
   */
  lemma LoginReturnsKeyIff(cfg: Config, ws: seq<World>, ss: seq<Step>,
                           i: nat, j: nat, id: RequestId, user: User, generated: Key)
    requires IsRun(cfg, ws, ss) && i < j < |ss|
    requires ss[i] == Handle(id, Login(user)) && ss[j] == Commit(id, generated)
    requires forall l | i < l < j :: !Overrides(ss[l], id, user)
    ensures id in ws[i].requests && id in ws[j].requests && ws[j].requests[id].auth.user == Some(user)
    ensures CookieAfter(ws[j].requests[id], generated).Some? <==> !ws[i].requests[id].auth.session.status.Purged?
    ensures ws[i].requests[id].auth.session.status.Purged? ==>
              forall key | ws[j + 1].store.Has(key) :: ws[j].store.Has(key)
  {
    assert Enabled(cfg, ws[i], ss[i]) && ws[i + 1] == Next(cfg, ws[i], ss[i]);
    assert Enabled(cfg, ws[j], ss[j]) && ws[j + 1] == Next(cfg, ws[j], ss[j]);
    HasUserUntil(cfg, ws, ss, i + 1, j, id, user);
    if ws[i].requests[id].auth.session.status.Purged? {
      PurgedUntil(cfg, ws, ss, i + 1, j, id);
      RunKeepsInv(cfg, ws, ss, j);
      CommitForgets(cfg, ws[j], id, generated);
    } else {
      LoginReturnsKey(cfg, ws, ss, i, j, id, user, generated);
    }
  }

  /**
   Request `id` logs `user` in at step `i` and, without logging out or in as someone
   else, commits at step `j`; the client gets `key`, which no other request holds, and
   the backend has this user.
   */
  ghost predicate LogsIn(ws: seq<World>, ss: seq<Step>, i: nat, j: nat,
                         id: RequestId, user: User, generated: Key, key: Key)
    requires i < j < |ss| && |ws| == |ss| + 1
  {
    && ss[i] == Handle(id, Login(user)) && ss[j] == Commit(id, generated)
    && id in ws[i].requests && !ws[i].requests[id].auth.session.status.Purged?
    && (forall l | i < l < j :: !Overrides(ss[l], id, user))
    && id in ws[j].requests && CookieAfter(ws[j].requests[id], generated) == Some(key)
    && (forall other | Holds(ws[j], other, key) :: other == id)
    && user.id in ws[j].users && ws[j].users[user.id] == user
  }

  /** Step `m` begins a request with the key that was returned at step `j`, before it expires and undisturbed. */
  ghost predicate ReturnsInTime(cfg: Config, ws: seq<World>, ss: seq<Step>, j: nat, m: nat, user: User, key: Key)
    requires j < m < |ss| && |ws| == |ss| + 1
  {
    && (forall l | j < l < m :: !Disturbs(ws[l], ss[l], key, user))
    && ss[m].Begin? && ss[m].cookie == Some(key) && ss[m].backendAnswers
    && ws[m].store.Rounded(ws[m].now) < ws[j].store.Rounded(ws[j].now + cfg.ttl)
  }

  /**
   A login lasts: a later request that presents the returned key before the record
   expires, with no logout or other login on that key and the user unchanged in the
   backend, begins as that user, whatever else happens in between and however it
   overlaps; only no other request may hold the key when the login commits.
   */
  lemma LoginPersists(cfg: Config, ws: seq<World>, ss: seq<Step>,
                      i: nat, j: nat, m: nat, id: RequestId, user: User, generated: Key, key: Key)
    requires IsRun(cfg, ws, ss) && i < j < m < |ss|
    requires LogsIn(ws, ss, i, j, id, user, generated, key) && ReturnsInTime(cfg, ws, ss, j, m, user, key)
    ensures ss[m].id in ws[m + 1].requests && ws[m + 1].requests[ss[m].id].auth.user == Some(user)
  {
    var limit := ws[j].store.Rounded(ws[j].now + cfg.ttl);
    LoginReturnsKey(cfg, ws, ss, i, j, id, user, generated);
    RunKeepsInv(cfg, ws, ss, j);
    RunKeepsInv(cfg, ws, ss, m);
    assert Enabled(cfg, ws[j], ss[j]) && ws[j + 1] == Next(cfg, ws[j], ss[j]);
    CommitEstablishes(cfg, ws[j], id, generated, user);
    forall l | j < l <= m ensures ws[l].store.Rounded(ws[l].now) < limit {
      ClockIsMonotone(cfg, ws, ss, l, m);
    }
    KeptUntil(cfg, ws, ss, j + 1, m, key, user, limit);
    assert Enabled(cfg, ws[m], ss[m]) && ws[m + 1] == Next(cfg, ws[m], ss[m]);
    BeginHasLogin(cfg, ws[m], ss[m], key, user, limit);
  }

  /** A fresh key is held by nobody, and in a serial run neither is one the request itself holds. */
  lemma NobodyElseHolds(cfg: Config, ws: seq<World>, ss: seq<Step>, j: nat, id: RequestId, generated: Key, key: Key)
    requires IsRun(cfg, ws, ss) && j < |ss| && ss[j] == Commit(id, generated) && id in ws[j].requests
    requires CookieAfter(ws[j].requests[id], generated) == Some(key)
    requires key == generated || IsSerialRun(cfg, ws, ss)
    ensures forall other | Holds(ws[j], other, key) :: other == id
  {
    RunKeepsInv(cfg, ws, ss, j);
    assert Enabled(cfg, ws[j], ss[j]);
    if key != generated {
      SerialRunKeepsOneHolder(cfg, ws, ss, j);
      assert Holds(ws[j], id, key);
    }
  }

  // ---- The gate, end to end ----

  /** The step lets request `id` through to the inner service. */
  ghost predicate Enters(ws: seq<World>, ss: seq<Step>, i: nat, id: RequestId)
    requires i < |ss| && |ws| == |ss| + 1
  {
    && id in ws[i + 1].requests && ws[i + 1].requests[id].phase.Inside?
    && (id in ws[i].requests ==> !ws[i].requests[id].phase.Inside?)
  }

  lemma {:induction false} InsideStays(cfg: Config, ws: seq<World>, ss: seq<Step>, i: nat, j: nat, id: RequestId)
    requires IsRun(cfg, ws, ss) && i <= j < |ws|
    requires id in ws[i].requests && ws[i].requests[id].phase.Inside? && id in ws[j].requests
    ensures ws[j].requests[id].phase.Inside?
  {
    if i < j {
      RunKeepsInv(cfg, ws, ss, i);
      StaysBegun(cfg, ws, ss, i, j - 1, id);
      assert ws[j - 1 + 1] == Next(cfg, ws[j - 1], ss[j - 1]);
      InsideStays(cfg, ws, ss, i, j - 1, id);
    }
  }

  /** The inner service runs at most once per request. */
  lemma EntersAtMostOnce(cfg: Config, ws: seq<World>, ss: seq<Step>, i: nat, j: nat, id: RequestId)
    requires IsRun(cfg, ws, ss) && i < |ss| && j < |ss|
    requires Enters(ws, ss, i, id) && Enters(ws, ss, j, id)
    ensures i == j
  {
    var a, b := if i < j then i else j, if i < j then j else i;
    if a < b {
      RunKeepsInv(cfg, ws, ss, a + 1);
      StaysBegun(cfg, ws, ss, a + 1, b, id);
      assert Enabled(cfg, ws[b], ss[b]) && ws[b + 1] == Next(cfg, ws[b], ss[b]);
      InsideStays(cfg, ws, ss, a + 1, b, id);
    }
  }

  /** A request waiting at the gate still has the auth session it began with. */
  lemma {:induction false} ArrivedSinceBegin(cfg: Config, ws: seq<World>, ss: seq<Step>, i: nat, id: RequestId)
    returns (b: nat)
    requires IsRun(cfg, ws, ss) && i < |ws| && id in ws[i].requests && ws[i].requests[id].phase.Arrived?
    ensures b < i && ss[b].Begin? && ss[b].id == id && id in ws[b + 1].requests
    ensures ws[b + 1].requests[id] == ws[i].requests[id]
  {
    assert i > 0;
    var w, step := ws[i - 1], ss[i - 1];
    assert Enabled(cfg, w, step) && ws[i - 1 + 1] == Next(cfg, w, step);
    if id in w.requests {
      RunKeepsInv(cfg, ws, ss, i - 1);
      b := ArrivedSinceBegin(cfg, ws, ss, i - 1, id);
    } else {
      b := i - 1;
    }
  }

  /**
   Behind the gate there is always a user, and it is one that the request's own record
   and the backend agreed on when the request began.
   */
  lemma GateAdmitsOnlyVerifiedUsers(cfg: Config, ws: seq<World>, ss: seq<Step>, i: nat, id: RequestId) returns (b: nat)
    requires IsRun(cfg, ws, ss) && i < |ss| && Enters(ws, ss, i, id)
    requires ws[i + 1].requests[id].route.Guarded?
    ensures ws[i + 1].requests[id].auth.user.Some?
    ensures b < i && ss[b].Begin? && ss[b].id == id
    ensures Backed(cfg, ws[b], ss[b].cookie, ws[i + 1].requests[id].auth.user.value)
  {
    assert Enabled(cfg, ws[i], ss[i]) && ws[i + 1] == Next(cfg, ws[i], ss[i]);
    RunKeepsInv(cfg, ws, ss, i);
    var request := ws[i].requests[id];
    b := ArrivedSinceBegin(cfg, ws, ss, i, id);
    GateOutcome(request.route.policy, request.auth, ss[i].grants, ss[i].order);
    RunKeepsInv(cfg, ws, ss, b);
    assert Enabled(cfg, ws[b], ss[b]) && ws[b + 1] == Next(cfg, ws[b], ss[b]);
    assert ss[b].backendAnswers;
    BeginsAuthenticated(cfg, ws[b], ss[b], request.auth.user.value);
  }

  /** A protected handler finds a user in its auth session until it logs out itself. */
  lemma ProtectedHandlerFindsUser(cfg: Config, ws: seq<World>, ss: seq<Step>, i: nat, id: RequestId)
    requires IsRun(cfg, ws, ss) && i < |ws| && id in ws[i].requests
    requires ws[i].requests[id].route.Guarded? && ws[i].requests[id].phase.Inside?
    requires !ws[i].requests[id].auth.session.status.Purged?
    ensures ws[i].requests[id].auth.user.Some?
    ensures DataOf(ws[i].requests[id].auth.user.value) in ws[i].logins
  {
    RunKeepsInv(cfg, ws, ss, i);
  }

  lemma BeginsOnce(cfg: Config, ws: seq<World>, ss: seq<Step>, b: nat, m: nat)
    requires IsRun(cfg, ws, ss) && b < |ss| && m < |ss|
    requires ss[b].Begin? && ss[m].Begin? && ss[b].id == ss[m].id
    ensures b == m
  {
    assert Enabled(cfg, ws[b], ss[b]) && ws[b + 1] == Next(cfg, ws[b], ss[b]);
    assert Enabled(cfg, ws[m], ss[m]) && ws[m + 1] == Next(cfg, ws[m], ss[m]);
    if b < m {
      StaysBegun(cfg, ws, ss, b + 1, m, ss[b].id);
    } else if m < b {
      StaysBegun(cfg, ws, ss, m + 1, b, ss[m].id);
    }
  }

  lemma BeginsOn(cfg: Config, w: World, step: Step)
    requires Enabled(cfg, w, step) && step.Begin? && step.id !in w.requests && step.id in Next(cfg, w, step).requests
    ensures Next(cfg, w, step).requests[step.id].route == step.route
  {}

  /** A request that began as a user passes the gate exactly if the policy permits what this user is granted. */
  lemma GateAdmitsUserIff(cfg: Config, ws: seq<World>, ss: seq<Step>, m: nat, p: nat, user: User)
    requires IsRun(cfg, ws, ss) && m < |ss| && p < |ss|
    requires ss[m].Begin? && ss[m].id in ws[m + 1].requests && ws[m + 1].requests[ss[m].id].auth.user == Some(user)
    requires ss[p].PassGate? && ss[p].id == ss[m].id
    ensures ss[p].id in ws[p + 1].requests && ws[p + 1].requests[ss[p].id].auth.user == Some(user)
    ensures ss[m].route.Guarded? && (Enters(ws, ss, p, ss[p].id) <==> Permits(ss[m].route.policy, ss[p].grants))
  {
    var id := ss[m].id;
    assert Enabled(cfg, ws[p], ss[p]) && ws[p + 1] == Next(cfg, ws[p], ss[p]);
    var b := ArrivedSinceBegin(cfg, ws, ss, p, id);
    BeginsOnce(cfg, ws, ss, b, m);
    assert Enabled(cfg, ws[m], ss[m]) && ws[m + 1] == Next(cfg, ws[m], ss[m]);
    RunKeepsInv(cfg, ws, ss, m);
    BeginsOn(cfg, ws[m], ss[m]);
    var request := ws[p].requests[id];
    GateOutcome(request.route.policy, request.auth, ss[p].grants, ss[p].order);
  }

  /** So whoever logged in and returns in time passes a gate that only asks for a user. */
  lemma LoginPassesGate(cfg: Config, ws: seq<World>, ss: seq<Step>,
                        i: nat, j: nat, m: nat, p: nat, id: RequestId, user: User, generated: Key, key: Key)
    requires IsRun(cfg, ws, ss) && i < j < m < |ss| && p < |ss|
    requires LogsIn(ws, ss, i, j, id, user, generated, key) && ReturnsInTime(cfg, ws, ss, j, m, user, key)
    requires ss[m].route == Guarded(DefaultAccess) && ss[p].PassGate? && ss[p].id == ss[m].id
    ensures Enters(ws, ss, p, ss[p].id) && ws[p + 1].requests[ss[p].id].auth.user == Some(user)
  {
    LoginPersists(cfg, ws, ss, i, j, m, id, user, generated, key);
    GateAdmitsUserIff(cfg, ws, ss, m, p, user);
  }
}
