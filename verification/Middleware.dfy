/**
 One whole request over the mutable objects: the in-memory store, the session and the
 auth session. It ends in the state that the run model's steps reach.
 */
module Middleware {
  import opened Access
  import opened Flash
  import opened Handlers
  import opened Protocol
  import opened Service
  import opened SessionValues
  import opened Sessions
  import opened Stores
  import opened Wrappers

  lemma {:induction false} ActedAllAppend(a: AuthView, acts: seq<Act>, act: Act, dataKey: string)
    ensures ActedAll(a, acts + [act], dataKey) == Acted(ActedAll(a, acts, dataKey), act, dataKey)
    decreases |acts|
  {
    var all := acts + [act];
    if acts == [] {
      assert all[1..] == [];
    } else {
      assert all[1..] == acts[1..] + [act];
      ActedAllAppend(Acted(a, acts[0], dataKey), acts[1..], act, dataKey);
    }
  }

  /** The handler: works on its auth session and on the session below it. */
  method Perform(auth: AuthSession, acts: seq<Act>)
    modifies auth, auth.session
    ensures auth.View() == ActedAll(old(auth.View()), acts, auth.dataKey)
  {
    ghost var start := auth.View();
    for i := 0 to |acts|
      invariant auth.View() == ActedAll(start, acts[..i], auth.dataKey)
    {
      assert acts[..i + 1] == acts[..i] + [acts[i]];
      ActedAllAppend(start, acts[..i], acts[i], auth.dataKey);
      match acts[i] {
        case Login(user) => auth.Login(user);
        case Logout => var _ := auth.Logout();
        case Insert(key, value) => auth.session.Insert(key, value);
        case Remove(key) => auth.session.Remove(key);
        case StoreMessages(messages) =>
          var flash := new SessionMessageStore();
          flash.Store(auth.session, messages);
      }
    }
    assert acts[..|acts|] == acts;
  }

  /** What the session middleware does with the session when the request is over. */
  method CommitSession(cfg: Config, store: MemoryStore, key: Option<Key>, session: Session, generated: Key, now: int)
    returns (cookie: Option<Key>)
    modifies store
    ensures forall auth: AuthView, route: Route, phase: Phase :: auth.session == session.View() ==>
              var request := Request(key, auth, route, phase);
              && Memory(store.records) == Committed(cfg, Memory(old(store.records)), request, generated, now)
              && cookie == CookieAfter(request, generated)
  {
    match key {
      case None =>
        if session.entries == map[] {
          cookie := None;
        } else {
          var saved := store.Save(session.entries, cfg.ttl, now, generated);
          cookie := Some(saved);
        }
      case Some(k) =>
        cookie := key;
        match session.status {
          case Changed => var _ := store.Update(k, session.entries, cfg.ttl, now);
          case Purged =>
            store.Delete(k);
            cookie := None;
          case Renewed =>
            store.Delete(k);
            var saved := store.Save(session.entries, cfg.ttl, now, generated);
            cookie := Some(saved);
          case Unchanged =>
            if cfg.extendOnEveryRequest {
              store.UpdateTtl(k, cfg.ttl, now);
            }
        }
    }
  }

  // ---- A whole request ----

  /**
   What the client sends, what the gate and the handler do if the request gets that
   far, how long it takes, and the key that is generated when it commits.
   */
  datatype Visit = Visit(cookie: Option<Key>, route: Route, grants: Grants, order: seq<Permission>,
                         acts: seq<Act>, duration: nat, generated: Key)

  /** An error from the auth manager, or an answer of the inner service or of a denying handler, with a session key. */
  datatype Reply = Failed | Replied(gated: Gated, cookie: Option<Key>)

  function Through(visit: Visit, auth: AuthView): Gated {
    match visit.route
    case Open => RunInner
    case Guarded(policy) => Gate(policy, Some(auth), visit.grants, visit.order)
  }

  /** What the handler does: nothing unless the request got through. */
  function Done(visit: Visit, gated: Gated): seq<Act> { if gated.RunInner? then visit.acts else [] }

  /** The request when it commits. */
  function RequestAfter(cfg: Config, visit: Visit, key: Option<Key>, auth: AuthView): Request {
    var gated := Through(visit, auth);
    Request(key, ActedAll(auth, Done(visit, gated), cfg.dataKey), visit.route, PhaseAfter(gated))
  }

  /** Load, establish, pass the gate, handle, commit. */
  function Served(cfg: Config, store: Store, visit: Visit, backend: Backend, arrival: int): (Store, Reply) {
    var loaded := Loaded(store, visit.cookie, arrival);
    var between := if visit.cookie.Some? then store.After(Op.Load(visit.cookie.value), arrival) else store;
    match Established(SessionView(loaded.GetOr(map[]), Unchanged), backend, cfg.dataKey)
    case Err(_) => (between, Failed)
    case Ok(auth) =>
      var request := RequestAfter(cfg, visit, if loaded.Some? then visit.cookie else None, auth);
      (Committed(cfg, between, request, visit.generated, arrival + visit.duration),
       Replied(Through(visit, auth), CookieAfter(request, visit.generated)))
  }

  /** The auth session that a visit begins with, if it can be established. */
  function Arriving(cfg: Config, store: Store, visit: Visit, backend: Backend, arrival: int)
    : Result<AuthView, AuthError>
  {
    Established(SessionView(Loaded(store, visit.cookie, arrival).GetOr(map[]), Unchanged), backend, cfg.dataKey)
  }

  /**
   A visit that gets through runs its whole handler: what the handler leaves in a live
   session that it touched is what the returned key loads, until the ttl is over, and a
   handler that purges the session leaves no key and no record.
   */
  lemma AdmittedTakesEffect(cfg: Config, store: Store, visit: Visit, backend: Backend, arrival: int)
    requires Arriving(cfg, store, visit, backend, arrival).Ok? && visit.cookie != Some(visit.generated)
    ensures var auth := Arriving(cfg, store, visit, backend, arrival).value;
            var session := ActedAll(auth, visit.acts, cfg.dataKey).session;
            var (after, reply) := Served(cfg, store, visit, backend, arrival);
            var expiry := arrival + visit.duration + cfg.ttl;
            visit.route.Open? || Gate(visit.route.policy, Some(auth), visit.grants, visit.order) == RunInner ==>
              && reply.Replied? && reply.gated == RunInner
              && (session.status in {Changed, Renewed} && session.entries != map[] ==>
                    reply.cookie.Some? && StoredUntil(after, reply.cookie.value, session.entries, expiry))
              && (session.status.Purged? && session.entries == map[] ==>
                    && reply.cookie == None
                    && (Loaded(store, visit.cookie, arrival).Some? ==> !after.Has(visit.cookie.value)))
  {
    var auth := Arriving(cfg, store, visit, backend, arrival).value;
    var loaded := Loaded(store, visit.cookie, arrival);
    var between := if visit.cookie.Some? then store.After(Op.Load(visit.cookie.value), arrival) else store;
    var request := RequestAfter(cfg, visit, if loaded.Some? then visit.cookie else None, auth);
    CommitEffect(cfg, between, request, visit.generated, arrival + visit.duration);
  }

  /** A visit that is refused does not run its handler, whatever that would do. */
  lemma RefusedHasNoEffect(cfg: Config, store: Store, visit: Visit, backend: Backend, arrival: int, acts: seq<Act>)
    requires Arriving(cfg, store, visit, backend, arrival).Ok? && visit.route.Guarded?
    requires var auth := Arriving(cfg, store, visit, backend, arrival).value;
             Gate(visit.route.policy, Some(auth), visit.grants, visit.order) != RunInner
    ensures Served(cfg, store, visit.(acts := acts), backend, arrival) == Served(cfg, store, visit, backend, arrival)
    ensures Served(cfg, store, visit.(route := Open, acts := []), backend, arrival).0 ==
              Served(cfg, store, visit, backend, arrival).0
  {}

  /** A visitor without a session who logs in gets the generated key, and the login is stored under it. */
  lemma ServedLogin(cfg: Config, store: Store, visit: Visit, backend: Backend, arrival: int, user: User)
    requires visit.cookie == None && visit.route == Open && visit.acts == [Login(user)]
    ensures var (after, reply) := Served(cfg, store, visit, backend, arrival);
            && reply == Replied(RunInner, Some(visit.generated))
            && StoredUntil(after, visit.generated,
                           map[cfg.dataKey := AuthData(Data(Some(user.id), Some(user.authHash)))],
                           arrival + visit.duration + cfg.ttl)
  {
    var auth := Arriving(cfg, store, visit, backend, arrival).value;
    assert visit.acts[1..] == [];
    assert ActedAll(auth, visit.acts, cfg.dataKey) == Acted(auth, Login(user), cfg.dataKey);
    ActEffects(auth, Login(user), cfg.dataKey);
    CommitEffect(cfg, store, RequestAfter(cfg, visit, None, auth), visit.generated, arrival + visit.duration);
  }

  /** The auth manager, in front of the gate or of an unguarded service. */
  method Enter(cfg: Config, session: Session, backend: Backend, visit: Visit)
    returns (result: Option<(AuthSession, Gated)>)
    requires visit.route.Guarded? ==> backend.WellFormed() && IteratesPolicy(visit.order, visit.route.policy)
    modifies session
    ensures match Established(old(session.View()), backend, cfg.dataKey)
            case Err(_) => result == None
            case Ok(view) =>
              && result.Some? && fresh(result.value.0) && result.value.0.View() == view
              && result.value.0.session == session && result.value.0.dataKey == cfg.dataKey
              && result.value.1 == Through(visit, view)
  {
    match visit.route {
      case Open =>
        var established := AuthSession.FromSession(session, backend, cfg.dataKey);
        match established {
          case Err(_) => return None;
          case Ok(auth) => return Some((auth, RunInner));
        }
      case Guarded(policy) =>
        var gate := new RequireService(policy);
        var manager := new AuthManager(backend, Some(cfg.dataKey), gate);
        var req := new ServiceRequest(session);
        var outcome := manager.Call(req, visit.grants, visit.order);
        match outcome {
          case NoAuthSession => return None;
          case Passed(gated) => return Some((req.authSession.value, gated));
        }
    }
  }

  /** The same over the mutable objects. */
  method HandleRequest(cfg: Config, store: MemoryStore, visit: Visit, backend: Backend, arrival: int)
    returns (reply: Reply)
    requires visit.route.Guarded? ==> backend.WellFormed() && IteratesPolicy(visit.order, visit.route.policy)
    modifies store
    ensures (Memory(store.records), reply) == Served(cfg, Memory(old(store.records)), visit, backend, arrival)
  {
    var loaded: Option<State> := None;
    if visit.cookie.Some? {
      loaded := store.Load(visit.cookie.value, arrival);
    }
    var session := new Session(loaded.GetOr(map[]));
    var entered := Enter(cfg, session, backend, visit);
    if entered.None? {
      return Failed;
    }
    var (auth, gated) := entered.value;
    if gated.RunInner? {
      Perform(auth, visit.acts);
    }
    ghost var view := auth.View();
    var key := if loaded.Some? then visit.cookie else None;
    var after := CommitSession(cfg, store, key, session, visit.generated, arrival + visit.duration);
    assert view.session == session.View();
    reply := Replied(gated, after);
  }

  // ---- The run model does the same, step by step ----

  /** The first step of the handler, after the gate if there is one. */
  function HandlerStart(i: nat, visit: Visit): nat { if visit.route.Guarded? then i + 2 else i + 1 }

  /** From step `n` on, the handler of request `id` does this. */
  ghost predicate Performs(ss: seq<Step>, n: nat, id: RequestId, acts: seq<Act>)
    decreases |acts|
  {
    acts == [] || (n < |ss| && ss[n] == Handle(id, acts[0]) && Performs(ss, n + 1, id, acts[1..]))
  }

  /** The steps of request `id` after step `i`, which began it, when the gate decides as given. */
  ghost predicate Finishes(ss: seq<Step>, i: nat, id: RequestId, visit: Visit, gated: Gated) {
    var n, acts := HandlerStart(i, visit), if gated.RunInner? then visit.acts else [];
    && n + |acts| + 1 < |ss| && Performs(ss, n, id, acts)
    && (visit.route.Guarded? ==> ss[i + 1] == PassGate(id, visit.grants, visit.order))
    && ss[n + |acts|] == Advance(visit.duration) && ss[n + |acts| + 1] == Commit(id, visit.generated)
  }

  /** From step `i` on, the run serves request `id` and nothing else, with the reply that is given. */
  ghost predicate Serves(ss: seq<Step>, i: nat, id: RequestId, visit: Visit, answers: bool, reply: Reply) {
    && i < |ss| && ss[i] == Begin(id, visit.cookie, visit.route, answers)
    && (reply.Replied? ==> Finishes(ss, i, id, visit, reply.gated))
  }

  /** The number of the world after the last of these steps. */
  function End(i: nat, visit: Visit, reply: Reply): nat {
    if reply.Failed? then i + 1 else HandlerStart(i, visit) + (if reply.gated.RunInner? then |visit.acts| else 0) + 2
  }

  lemma {:induction false} Handled(cfg: Config, ws: seq<World>, ss: seq<Step>, n: nat, id: RequestId, acts: seq<Act>)
    requires IsRun(cfg, ws, ss) && Performs(ss, n, id, acts) && n + |acts| < |ws| && id in ws[n].requests
    ensures id in ws[n + |acts|].requests
    ensures var request := ws[n].requests[id];
            ws[n + |acts|].requests[id] == request.(auth := ActedAll(request.auth, acts, cfg.dataKey))
    ensures ws[n + |acts|].store == ws[n].store && ws[n + |acts|].now == ws[n].now
    decreases |acts|
  {
    if acts != [] {
      assert Enabled(cfg, ws[n], ss[n]) && ws[n + 1] == Next(cfg, ws[n], ss[n]);
      Handled(cfg, ws, ss, n + 1, id, acts[1..]);
    }
  }

  lemma Begins(cfg: Config, w: World, step: Step)
    requires Enabled(cfg, w, step) && step.Begin?
    ensures var loaded, w' := Loaded(w.store, step.cookie, w.now), Next(cfg, w, step);
            var session, backend := SessionView(loaded.GetOr(map[]), Unchanged), Backend(w.users, step.backendAnswers);
            && w'.store == (if step.cookie.Some? then w.store.After(Op.Load(step.cookie.value), w.now) else w.store)
            && w'.now == w.now
            && match Established(session, backend, cfg.dataKey)
               case Err(_) => w'.requests == w.requests
               case Ok(auth) =>
                 && step.id in w'.requests
                 && w'.requests[step.id] == Request(if loaded.Some? then step.cookie else None, auth, step.route,
                                                    if step.route.Open? then Inside else Arrived)
  {}

  /** A request that has begun is at the start of the handler, or is refused. */
  lemma Gates(cfg: Config, ws: seq<World>, ss: seq<Step>, i: nat, id: RequestId, visit: Visit,
              key: Option<Key>, auth: AuthView)
    requires IsRun(cfg, ws, ss) && HandlerStart(i, visit) < |ws| && id in ws[i + 1].requests
    requires visit.route.Guarded? ==> ss[i + 1] == PassGate(id, visit.grants, visit.order)
    requires ws[i + 1].requests[id] == Request(key, auth, visit.route, if visit.route.Open? then Inside else Arrived)
    ensures var n := HandlerStart(i, visit);
            && id in ws[n].requests && ws[n].store == ws[i + 1].store && ws[n].now == ws[i + 1].now
            && ws[n].requests[id] == Request(key, auth, visit.route, PhaseAfter(Through(visit, auth)))
  {
    if visit.route.Guarded? {
      assert Enabled(cfg, ws[i + 1], ss[i + 1]) && ws[i + 1 + 1] == Next(cfg, ws[i + 1], ss[i + 1]);
    }
  }

  lemma Ends(cfg: Config, ws: seq<World>, ss: seq<Step>, n: nat, id: RequestId, duration: nat, generated: Key)
    requires IsRun(cfg, ws, ss) && n + 2 < |ws| && id in ws[n].requests
    requires ss[n] == Advance(duration) && ss[n + 1] == Commit(id, generated)
    ensures id in ws[n + 1].requests && ws[n + 1].requests[id] == ws[n].requests[id]
    ensures ws[n + 2].store == Committed(cfg, ws[n].store, ws[n].requests[id], generated, ws[n].now + duration)
  {
    assert ws[n + 1] == Next(cfg, ws[n], ss[n]);
    assert Enabled(cfg, ws[n + 1], ss[n + 1]) && ws[n + 1 + 1] == Next(cfg, ws[n + 1], ss[n + 1]);
    AdvancesAndCommits(cfg, ws[n], ws[n + 1], id, duration, generated);
  }

  lemma AdvancesAndCommits(cfg: Config, w: World, w': World, id: RequestId, duration: nat, generated: Key)
    requires id in w.requests && w' == Next(cfg, w, Advance(duration)) && Enabled(cfg, w', Commit(id, generated))
    ensures Next(cfg, w', Commit(id, generated)).store ==
              Committed(cfg, w.store, w.requests[id], generated, w.now + duration)
  {}

  /** From the start of the handler to the commit. */
  lemma RunsOut(cfg: Config, ws: seq<World>, ss: seq<Step>, n: nat, id: RequestId, acts: seq<Act>,
                request: Request, duration: nat, generated: Key)
    requires IsRun(cfg, ws, ss) && Performs(ss, n, id, acts) && n + |acts| + 1 < |ss|
    requires id in ws[n].requests && request == ws[n].requests[id]
    requires ss[n + |acts|] == Advance(duration) && ss[n + |acts| + 1] == Commit(id, generated)
    ensures var served := request.(auth := ActedAll(request.auth, acts, cfg.dataKey));
            && id in ws[n + |acts| + 1].requests && ws[n + |acts| + 1].requests[id] == served
            && ws[n + |acts| + 2].store == Committed(cfg, ws[n].store, served, generated, ws[n].now + duration)
  {
    Handled(cfg, ws, ss, n, id, acts);
    Ends(cfg, ws, ss, n + |acts|, id, duration, generated);
  }

  /** The steps after the beginning lead to the request as it is served, and commit it. */
  lemma RunReplies(cfg: Config, ws: seq<World>, ss: seq<Step>, i: nat, id: RequestId, visit: Visit,
                   key: Option<Key>, auth: AuthView, end: nat)
    requires IsRun(cfg, ws, ss) && i < |ss| && id in ws[i + 1].requests
    requires ws[i + 1].requests[id] == Request(key, auth, visit.route, if visit.route.Open? then Inside else Arrived)
    requires Finishes(ss, i, id, visit, Through(visit, auth))
    requires end == HandlerStart(i, visit) + |Done(visit, Through(visit, auth))| + 2
    ensures end < |ws| && id in ws[end - 1].requests
    ensures ws[end - 1].requests[id] == RequestAfter(cfg, visit, key, auth)
    ensures ws[end].store == Committed(cfg, ws[i + 1].store, RequestAfter(cfg, visit, key, auth), visit.generated,
                                       ws[i + 1].now + visit.duration)
  {
    var n, gated := HandlerStart(i, visit), Through(visit, auth);
    Gates(cfg, ws, ss, i, id, visit, key, auth);
    RunsOut(cfg, ws, ss, n, id, Done(visit, gated), Request(key, auth, visit.route, PhaseAfter(gated)),
            visit.duration, visit.generated);
  }

  /**
   A run that serves one request without interruption, on whatever route, ends with the
   store that serving it gives, and the client with the key that the reply gives. If the
   auth session cannot be established the request is over as soon as it begins.
   */
  lemma RunServesRequest(cfg: Config, ws: seq<World>, ss: seq<Step>, i: nat, id: RequestId, visit: Visit, answers: bool)
    requires IsRun(cfg, ws, ss) && i < |ss|
    requires Serves(ss, i, id, visit, answers,
                    Served(cfg, ws[i].store, visit, Backend(ws[i].users, answers), ws[i].now).1)
    ensures var (store, reply) := Served(cfg, ws[i].store, visit, Backend(ws[i].users, answers), ws[i].now);
            var end := End(i, visit, reply);
            && end < |ws| && ws[end].store == store
            && (reply.Failed? ==> id !in ws[end].requests)
            && (reply.Replied? ==>
                  && id in ws[end - 1].requests && ws[end - 1].requests[id].phase == PhaseAfter(reply.gated)
                  && CookieAfter(ws[end - 1].requests[id], visit.generated) == reply.cookie)
  {
    RunKeepsInv(cfg, ws, ss, i);
    assert Enabled(cfg, ws[i], ss[i]) && ws[i + 1] == Next(cfg, ws[i], ss[i]);
    Begins(cfg, ws[i], ss[i]);
    var reply := Served(cfg, ws[i].store, visit, Backend(ws[i].users, answers), ws[i].now).1;
    if reply.Replied? {
      var request := ws[i + 1].requests[id];
      RunReplies(cfg, ws, ss, i, id, visit, request.key, request.auth, End(i, visit, reply));
    }
  }
}
