/** Where a login comes from: each session key leads back to a login of the client it was handed to. */
module Provenance {
  import opened Flash
  import opened Handlers
  import opened Lifetimes
  import opened Protocol
  import opened SessionValues
  import opened Sessions
  import opened Stores
  import opened Wrappers

  // ---- Logins and the keys they hand out ----

  /** Before step `n`, request `id` logged in with this datum. */
  ghost predicate LoggedInBy(ss: seq<Step>, n: nat, id: RequestId, data: Data) {
    exists h, user :: 0 <= h < n <= |ss| && ss[h] == Handle(id, Login(user)) && DataOf(user) == data
  }

  /** Step `c` commits a request and hands `key` to its client. */
  ghost predicate HandsOut(ws: seq<World>, ss: seq<Step>, c: nat, key: Key)
    requires |ws| == |ss| + 1
  {
    && c < |ss| && ss[c].Commit? && ss[c].id in ws[c].requests
    && CookieAfter(ws[c].requests[ss[c].id], ss[c].generated) == Some(key)
  }

  /** Before step `n`, the key was handed out by a request that itself logged in with this datum. */
  ghost predicate Earned(ws: seq<World>, ss: seq<Step>, n: nat, key: Key, data: Data)
    requires |ws| == |ss| + 1
  {
    exists c: nat :: c < n && HandsOut(ws, ss, c, key) && LoggedInBy(ss, c, ss[c].id, data)
  }

  // ---- What every step keeps ----

  /** A request's datum is from its own login, or it came, unrenewed, with a key that was earned with it. */
  ghost predicate RequestEarned(cfg: Config, ws: seq<World>, ss: seq<Step>, n: nat, id: RequestId, request: Request)
    requires |ws| == |ss| + 1
  {
    cfg.dataKey in request.auth.session.entries && request.auth.session.entries[cfg.dataKey].AuthData? ==>
      var data := request.auth.session.entries[cfg.dataKey].data;
      || LoggedInBy(ss, n, id, data)
      || (!request.auth.session.status.Renewed? && request.key.Some? && Earned(ws, ss, n, request.key.value, data))
  }

  ghost predicate RecordEarned(cfg: Config, ws: seq<World>, ss: seq<Step>, n: nat, key: Key, state: State)
    requires |ws| == |ss| + 1
  {
    cfg.dataKey in state && state[cfg.dataKey].AuthData? ==> Earned(ws, ss, n, key, state[cfg.dataKey].data)
  }

  ghost predicate AllEarned(cfg: Config, ws: seq<World>, ss: seq<Step>, n: nat)
    requires n < |ws| == |ss| + 1
  {
    && (forall key | ws[n].store.Has(key) :: RecordEarned(cfg, ws, ss, n, key, ws[n].store.StateOf(key)))
    && (forall id | id in ws[n].requests :: RequestEarned(cfg, ws, ss, n, id, ws[n].requests[id]))
  }

  lemma EarnedLater(ws: seq<World>, ss: seq<Step>, n: nat, key: Key, data: Data)
    requires n < |ss| && |ws| == |ss| + 1 && Earned(ws, ss, n, key, data)
    ensures Earned(ws, ss, n + 1, key, data)
  {}

  lemma LoggedInLater(ss: seq<Step>, n: nat, id: RequestId, data: Data)
    requires n < |ss| && LoggedInBy(ss, n, id, data)
    ensures LoggedInBy(ss, n + 1, id, data)
  {
    var h, user :| 0 <= h < n && ss[h] == Handle(id, Login(user)) && DataOf(user) == data;
    assert h < n + 1;
  }

  lemma RecordEarnedLater(cfg: Config, ws: seq<World>, ss: seq<Step>, n: nat, key: Key, state: State)
    requires n < |ss| && |ws| == |ss| + 1 && RecordEarned(cfg, ws, ss, n, key, state)
    ensures RecordEarned(cfg, ws, ss, n + 1, key, state)
  {
    if cfg.dataKey in state && state[cfg.dataKey].AuthData? {
      EarnedLater(ws, ss, n, key, state[cfg.dataKey].data);
    }
  }

  lemma RequestEarnedLater(cfg: Config, ws: seq<World>, ss: seq<Step>, n: nat, id: RequestId, request: Request)
    requires n < |ss| && |ws| == |ss| + 1 && RequestEarned(cfg, ws, ss, n, id, request)
    ensures RequestEarned(cfg, ws, ss, n + 1, id, request)
  {
    var entries := request.auth.session.entries;
    if cfg.dataKey in entries && entries[cfg.dataKey].AuthData? {
      var data := entries[cfg.dataKey].data;
      if LoggedInBy(ss, n, id, data) {
        LoggedInLater(ss, n, id, data);
      } else {
        EarnedLater(ws, ss, n, request.key.value, data);
      }
    }
  }

  // ---- Requests ----

  /** A request that begins has the datum of its record. */
  lemma BeginEarned(cfg: Config, ws: seq<World>, ss: seq<Step>, n: nat, w: World, step: Step)
    requires n < |ss| && |ws| == |ss| + 1 && Enabled(cfg, w, step) && step.Begin? && step.id !in w.requests
    requires forall key | w.store.Has(key) :: RecordEarned(cfg, ws, ss, n, key, w.store.StateOf(key))
    requires step.id in Next(cfg, w, step).requests
    ensures RequestEarned(cfg, ws, ss, n, step.id, Next(cfg, w, step).requests[step.id])
  {
    if step.cookie.Some? {
      LoadKeeps(w.store, step.cookie.value, w.now);
    }
  }

  /** Any operation of a handler other than a login leaves the datum, or takes it away, and does not renew. */
  lemma ActLeavesDatum(cfg: Config, auth: AuthView, act: Act)
    requires Leaves(act, cfg.dataKey) && !act.Login?
    ensures var before, after := auth.session, Acted(auth, act, cfg.dataKey).session;
            cfg.dataKey in after.entries ==>
              && cfg.dataKey in before.entries && after.entries[cfg.dataKey] == before.entries[cfg.dataKey]
              && (after.status.Renewed? ==> before.status.Renewed?)
  {
    if act.StoreMessages? {
      FlashLeaves(cfg, auth.session, act.messages);
    }
  }

  lemma FlashLeaves(cfg: Config, session: SessionView, messages: seq<FlashMessage>)
    requires FLASH_KEY != cfg.dataKey
    ensures var after := StoredMessages(session, FLASH_KEY, messages);
            && (cfg.dataKey in after.entries ==>
                  cfg.dataKey in session.entries && after.entries[cfg.dataKey] == session.entries[cfg.dataKey])
            && (after.status.Renewed? ==> session.status.Renewed?)
  {}

  /** A login writes its own datum, if it writes at all. */
  lemma LoginWritesDatum(cfg: Config, auth: AuthView, user: User)
    requires auth.session.status.Purged? ==> auth.session.entries == map[]
    ensures var after := LoggedIn(auth, user, cfg.dataKey).session;
            cfg.dataKey in after.entries ==> after.entries[cfg.dataKey] == AuthData(DataOf(user))
  {}

  lemma HandleEarned(cfg: Config, ws: seq<World>, ss: seq<Step>, n: nat, w: World, step: Step)
    requires n < |ss| && |ws| == |ss| + 1 && step == ss[n] && step.Handle? && Enabled(cfg, w, step) && Inv(cfg, w)
    requires RequestEarned(cfg, ws, ss, n, step.id, w.requests[step.id])
    ensures RequestEarned(cfg, ws, ss, n + 1, step.id, Next(cfg, w, step).requests[step.id])
  {
    var request, request' := w.requests[step.id], Next(cfg, w, step).requests[step.id];
    if step.act.Login? {
      assert RequestOk(cfg, w, request);
      LoginWritesDatum(cfg, request.auth, step.act.user);
      assert ss[n] == Handle(step.id, Login(step.act.user));
      assert LoggedInBy(ss, n + 1, step.id, DataOf(step.act.user));
    } else {
      ActLeavesDatum(cfg, request.auth, step.act);
      assert RequestEarned(cfg, ws, ss, n, step.id, request');
      RequestEarnedLater(cfg, ws, ss, n, step.id, request');
    }
  }

  lemma RequestsStayEarned(cfg: Config, ws: seq<World>, ss: seq<Step>, n: nat, id: RequestId)
    requires n < |ss| && |ws| == |ss| + 1 && Inv(cfg, ws[n]) && AllEarned(cfg, ws, ss, n)
    requires Enabled(cfg, ws[n], ss[n]) && id in Next(cfg, ws[n], ss[n]).requests
    ensures RequestEarned(cfg, ws, ss, n + 1, id, Next(cfg, ws[n], ss[n]).requests[id])
  {
    var w, step := ws[n], ss[n];
    var request' := Next(cfg, w, step).requests[id];
    if step.Handle? && step.id == id {
      HandleEarned(cfg, ws, ss, n, w, step);
    } else {
      if step.Begin? && step.id == id {
        BeginEarned(cfg, ws, ss, n, w, step);
      } else {
        assert RequestEarned(cfg, ws, ss, n, id, w.requests[id]);
      }
      RequestEarnedLater(cfg, ws, ss, n, id, request');
    }
  }

  // ---- Records ----

  /** What a commit stores under the key it hands out was earned. */
  lemma CommitEarned(cfg: Config, ws: seq<World>, ss: seq<Step>, n: nat, key: Key)
    requires n < |ss| && |ws| == |ss| + 1 && ss[n].Commit? && Enabled(cfg, ws[n], ss[n])
    requires HandsOut(ws, ss, n, key)
    requires RequestEarned(cfg, ws, ss, n, ss[n].id, ws[n].requests[ss[n].id])
    ensures RecordEarned(cfg, ws, ss, n + 1, key, ws[n].requests[ss[n].id].auth.session.entries)
  {
    var request := ws[n].requests[ss[n].id];
    var entries := request.auth.session.entries;
    if cfg.dataKey in entries && entries[cfg.dataKey].AuthData? {
      var data := entries[cfg.dataKey].data;
      if !LoggedInBy(ss, n, ss[n].id, data) {
        assert request.key == Some(key);
        EarnedLater(ws, ss, n, key, data);
      }
    }
  }

  lemma RecordAfterCommit(cfg: Config, ws: seq<World>, ss: seq<Step>, n: nat, key: Key)
    requires n < |ss| && |ws| == |ss| + 1 && ss[n].Commit? && AllEarned(cfg, ws, ss, n)
    requires Enabled(cfg, ws[n], ss[n]) && Next(cfg, ws[n], ss[n]).store.Has(key)
    ensures RecordEarned(cfg, ws, ss, n + 1, key, Next(cfg, ws[n], ss[n]).store.StateOf(key))
  {
    var w, step := ws[n], ss[n];
    var request := w.requests[step.id];
    CommitWrites(cfg, w.store, request, step.generated, w.now);
    assert RequestEarned(cfg, ws, ss, n, step.id, request);
    if CookieAfter(request, step.generated) == Some(key) {
      CommitEarned(cfg, ws, ss, n, key);
    }
    if w.store.Has(key) {
      RecordEarnedLater(cfg, ws, ss, n, key, w.store.StateOf(key));
    }
  }

  lemma RecordsStayEarned(cfg: Config, ws: seq<World>, ss: seq<Step>, n: nat, key: Key)
    requires n < |ss| && |ws| == |ss| + 1 && AllEarned(cfg, ws, ss, n)
    requires Enabled(cfg, ws[n], ss[n]) && Next(cfg, ws[n], ss[n]).store.Has(key)
    ensures RecordEarned(cfg, ws, ss, n + 1, key, Next(cfg, ws[n], ss[n]).store.StateOf(key))
  {
    var w, step := ws[n], ss[n];
    if step.Commit? {
      RecordAfterCommit(cfg, ws, ss, n, key);
    } else {
      if step.Begin? && step.cookie.Some? {
        LoadKeeps(w.store, step.cookie.value, w.now);
      } else if step.Sweep? {
        SweepKeeps(w.store, w.now);
      }
      RecordEarnedLater(cfg, ws, ss, n, key, w.store.StateOf(key));
    }
  }

  lemma StepKeepsEarned(cfg: Config, ws: seq<World>, ss: seq<Step>, n: nat)
    requires n < |ss| && |ws| == |ss| + 1 && Inv(cfg, ws[n]) && AllEarned(cfg, ws, ss, n)
    requires Enabled(cfg, ws[n], ss[n]) && ws[n + 1] == Next(cfg, ws[n], ss[n])
    ensures AllEarned(cfg, ws, ss, n + 1)
  {
    var m, w' := n + 1, ws[n + 1];
    forall key | w'.store.Has(key) ensures RecordEarned(cfg, ws, ss, m, key, w'.store.StateOf(key)) {
      RecordsStayEarned(cfg, ws, ss, n, key);
    }
    forall id | id in w'.requests ensures RequestEarned(cfg, ws, ss, m, id, w'.requests[id]) {
      RequestsStayEarned(cfg, ws, ss, n, id);
    }
  }

  // ---- Main results ----

  lemma {:induction false} RunKeepsEarned(cfg: Config, ws: seq<World>, ss: seq<Step>, n: nat)
    requires IsRun(cfg, ws, ss) && n < |ws|
    ensures AllEarned(cfg, ws, ss, n)
  {
    if n > 0 {
      RunKeepsEarned(cfg, ws, ss, n - 1);
      RunKeepsInv(cfg, ws, ss, n - 1);
      assert Enabled(cfg, ws[n - 1], ss[n - 1]) && ws[n - 1 + 1] == Next(cfg, ws[n - 1], ss[n - 1]);
      StepKeepsEarned(cfg, ws, ss, n - 1);
    }
  }

  /**
   In every interleaving, the auth datum under a key is one that the key was handed out
   for: an earlier commit gave the key to the client of a request that itself logged in
   with this datum. No session ever passes to another client's key.
   */
  lemma StoredDataWasEarned(cfg: Config, ws: seq<World>, ss: seq<Step>, n: nat, key: Key)
    requires IsRun(cfg, ws, ss) && n < |ws| && ws[n].store.Has(key) && cfg.dataKey in ws[n].store.StateOf(key)
    ensures ws[n].store.StateOf(key)[cfg.dataKey].AuthData?
    ensures Earned(ws, ss, n, key, ws[n].store.StateOf(key)[cfg.dataKey].data)
  {
    RunKeepsInv(cfg, ws, ss, n);
    RunKeepsEarned(cfg, ws, ss, n);
    assert RecordEarned(cfg, ws, ss, n, key, ws[n].store.StateOf(key));
  }

  /** So whoever begins as a user presents a key that was handed out for a login as this user. */
  lemma AuthenticatedKeyWasEarned(cfg: Config, ws: seq<World>, ss: seq<Step>, n: nat, user: User)
    requires IsRun(cfg, ws, ss) && n < |ss| && ss[n].Begin? && ss[n].id in ws[n + 1].requests
    requires ws[n + 1].requests[ss[n].id].auth.user == Some(user)
    ensures ss[n].cookie.Some? && Earned(ws, ss, n, ss[n].cookie.value, DataOf(user))
  {
    RunKeepsInv(cfg, ws, ss, n);
    assert Enabled(cfg, ws[n], ss[n]) && ws[n + 1] == Next(cfg, ws[n], ss[n]);
    BeginUserIsBacked(cfg, ws[n], ss[n], user);
    LoadKeeps(ws[n].store, ss[n].cookie.value, ws[n].now);
    StoredDataWasEarned(cfg, ws, ss, n, ss[n].cookie.value);
  }

  lemma BeginUserIsBacked(cfg: Config, w: World, step: Step, user: User)
    requires Inv(cfg, w) && Enabled(cfg, w, step) && step.Begin? && step.id in Next(cfg, w, step).requests
    requires Next(cfg, w, step).requests[step.id].auth.user == Some(user)
    ensures Backed(cfg, w, step.cookie, user)
  {
    assert step.id !in w.requests;
    if step.backendAnswers {
      BeginsAuthenticated(cfg, w, step, user);
    }
  }
}
