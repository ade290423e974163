/**
 The run model: requests that load a session, establish the auth session, pass the
 gate, run a handler and commit, interleaved with each other, with changes of the
 backend's users, with the clock and with the sweep. A run is serial if requests that
 hold the same session key never overlap.

 What `SessionMiddleware` of actix-session 0.11 does around a request is assumed: an
 unknown or expired key is discarded; a session without key is saved if it has any
 state; a changed one updates its record, a renewed one moves to a fresh key, a
 purged one deletes its record, and an unchanged one may extend its expiry; a
 request that fails commits nothing.
 */
module Protocol {
  import opened Access
  import opened Handlers
  import opened SessionValues
  import opened Sessions
  import opened Stores
  import opened Wrappers

  // ---- Either store, behind the interface they share ----

  datatype Store = Memory(records: Records) | Sqlite(rows: Rows) {
    predicate Has(key: Key) {
      match this
      case Memory(records) => key in records
      case Sqlite(rows) => key in rows
    }

    function StateOf(key: Key): State
      requires Has(key)
    {
      match this
      case Memory(records) => records[key].state
      case Sqlite(rows) => rows[key].state
    }

    /** An instant as the store compares it. */
    function Rounded(instant: int): int {
      if Memory? then instant else UnixTimestamp(instant)
    }

    function Expiry(key: Key): int
      requires Has(key)
    {
      match this
      case Memory(records) => records[key].expiresAt
      case Sqlite(rows) => rows[key].expiryDate
    }

    /** Both stores hold the same record under the key. */
    predicate Agrees(other: Store, key: Key) {
      Has(key) && other.Has(key) && StateOf(key) == other.StateOf(key) && Expiry(key) == other.Expiry(key)
    }

    function Get(key: Key, now: int): Option<State> {
      match this
      case Memory(records) => MemoryLoad(records, key, now)
      case Sqlite(rows) => SqliteLoad(rows, key, now)
    }

    function After(op: Op, now: int): Store {
      match this
      case Memory(records) => Memory(MemoryAfter(records, op, now))
      case Sqlite(rows) => Sqlite(SqliteAfter(rows, op, now))
    }
  }

  // ---- Worlds and steps ----

  datatype Config = Config(dataKey: string, ttl: int, extendOnEveryRequest: bool)

  datatype Route = Open | Guarded(policy: Policy)

  datatype Phase = Arrived | Inside | Refused(handler: DeniedBy)

  /** A request in flight; `key` is its session key if that loaded a record. */
  datatype Request = Request(key: Option<Key>, auth: AuthView, route: Route, phase: Phase)

  type RequestId = nat

  /** `issued` holds the keys generated so far, `logins` what every login so far recorded. */
  datatype World = World(
    store: Store,
    users: map<UserId, User>,
    now: int,
    issued: set<Key>,
    logins: set<Data>,
    requests: map<RequestId, Request>,
    begun: set<RequestId>)

  datatype Step =
    | Begin(id: RequestId, cookie: Option<Key>, route: Route, backendAnswers: bool)
    | PassGate(id: RequestId, grants: Grants, order: seq<Permission>)
    | Handle(id: RequestId, act: Act)
    | Commit(id: RequestId, generated: Key)
    | Abort(id: RequestId)
    | ChangeUser(userId: UserId, user: Option<User>)
    | Advance(duration: nat)
    | Sweep

  ghost predicate Initial(w: World) {
    && (w.store == Memory(map[]) || w.store == Sqlite(map[]))
    && Backend(w.users, true).WellFormed()
    && w.issued == {} && w.logins == {} && w.requests == map[] && w.begun == {}
  }

  ghost predicate Holds(w: World, id: RequestId, key: Key) {
    id in w.requests && w.requests[id].key == Some(key)
  }

  ghost predicate Enabled(cfg: Config, w: World, step: Step) {
    match step
    case Begin(id, _, _, _) => id !in w.begun
    case PassGate(id, _, order) =>
      && id in w.requests && w.requests[id].phase.Arrived? && w.requests[id].route.Guarded?
      && IteratesPolicy(order, w.requests[id].route.policy)
    case Handle(id, act) => id in w.requests && w.requests[id].phase.Inside? && Leaves(act, cfg.dataKey)
    case Commit(id, generated) => id in w.requests && !w.requests[id].phase.Arrived? && generated !in w.issued
    case Abort(id) => id in w.requests
    case ChangeUser(id, user) => user.Some? ==> user.value.id == id
    case Advance(_) => true
    case Sweep => true
  }

  /** No request begins with a key that another one still holds. */
  ghost predicate Serial(w: World, step: Step) {
    step.Begin? && step.cookie.Some? ==> forall other :: !Holds(w, other, step.cookie.value)
  }

  // ---- The session middleware around a request ----

  function Loaded(store: Store, cookie: Option<Key>, now: int): Option<State> {
    if cookie.Some? then store.Get(cookie.value, now) else None
  }

  function Committed(cfg: Config, store: Store, request: Request, generated: Key, now: int): Store {
    var session := request.auth.session;
    match request.key
    case None => if session.entries == map[] then store else store.After(Save(generated, session.entries, cfg.ttl), now)
    case Some(key) =>
      match session.status
      case Changed => store.After(Update(key, session.entries, cfg.ttl), now)
      case Purged => store.After(Delete(key), now)
      case Renewed => store.After(Delete(key), now).After(Save(generated, session.entries, cfg.ttl), now)
      case Unchanged => if cfg.extendOnEveryRequest then store.After(UpdateTtl(key, cfg.ttl), now) else store
  }

  /** The session key the client holds after the commit. */
  function CookieAfter(request: Request, generated: Key): Option<Key> {
    match request.key
    case None => if request.auth.session.entries == map[] then None else Some(generated)
    case Some(key) =>
      match request.auth.session.status
      case Purged => None
      case Renewed => Some(generated)
      case _ => Some(key)
  }

  // ---- Transitions ----

  function PhaseAfter(gated: Gated): Phase {
    match gated
    case RunInner => Inside
    case Answered(handler) => Refused(handler)
  }

  function BeginRequest(cfg: Config, w: World, id: RequestId, cookie: Option<Key>, route: Route, answers: bool): World {
    var loaded := Loaded(w.store, cookie, w.now);
    var store := if cookie.Some? then w.store.After(Load(cookie.value), w.now) else w.store;
    var entries := loaded.GetOr(map[]);
    var w' := w.(store := store, begun := w.begun + {id});
    match Established(SessionView(entries, Unchanged), Backend(w.users, answers), cfg.dataKey)
    case Err(_) => w'
    case Ok(auth) =>
      var key, phase := if loaded.Some? then cookie else None, if route.Open? then Inside else Arrived;
      w'.(requests := w.requests[id := Request(key, auth, route, phase)])
  }

  function Next(cfg: Config, w: World, step: Step): World
    requires Enabled(cfg, w, step)
  {
    match step
    case Begin(id, cookie, route, answers) => BeginRequest(cfg, w, id, cookie, route, answers)
    case PassGate(id, grants, order) =>
      var request := w.requests[id];
      var gated := Gate(request.route.policy, Some(request.auth), grants, order);
      w.(requests := w.requests[id := request.(phase := PhaseAfter(gated))])
    case Handle(id, act) =>
      var request := w.requests[id];
      w.(requests := w.requests[id := request.(auth := Acted(request.auth, act, cfg.dataKey))],
         logins := if act.Login? then w.logins + {DataOf(act.user)} else w.logins)
    case Commit(id, generated) =>
      w.(store := Committed(cfg, w.store, w.requests[id], generated, w.now),
         issued := w.issued + {generated},
         requests := w.requests - {id})
    case Abort(id) => w.(requests := w.requests - {id})
    case ChangeUser(id, user) => w.(users := if user.Some? then w.users[id := user.value] else w.users - {id})
    case Advance(duration) => w.(now := w.now + duration)
    case Sweep => w.(store := w.store.After(DeleteExpired, w.now))
  }

  ghost predicate IsRun(cfg: Config, ws: seq<World>, ss: seq<Step>) {
    && |ws| == |ss| + 1 && Initial(ws[0])
    && forall i | 0 <= i < |ss| :: Enabled(cfg, ws[i], ss[i]) && ws[i + 1] == Next(cfg, ws[i], ss[i])
  }

  ghost predicate IsSerialRun(cfg: Config, ws: seq<World>, ss: seq<Step>) {
    IsRun(cfg, ws, ss) && forall i | 0 <= i < |ss| :: Serial(ws[i], ss[i])
  }

  // ---- What every step keeps ----

  /** Any auth datum was recorded by a login. */
  ghost predicate Proven(cfg: Config, logins: set<Data>, entries: State) {
    cfg.dataKey in entries ==> entries[cfg.dataKey].AuthData? && entries[cfg.dataKey].data in logins
  }

  ghost predicate RequestOk(cfg: Config, w: World, request: Request) {
    && (request.key.Some? ==> request.key.value in w.issued)
    && Coherent(request.auth, cfg.dataKey)
    && Proven(cfg, w.logins, request.auth.session.entries)
    && (request.auth.data == DEFAULT_DATA || request.auth.data in w.logins)
    && (request.route.Guarded? && request.phase.Inside? ==>
          request.auth.user.Some? || request.auth.session.status.Purged?)
  }

  ghost predicate Inv(cfg: Config, w: World) {
    && Backend(w.users, true).WellFormed()
    && (forall key | w.store.Has(key) :: key in w.issued && Proven(cfg, w.logins, w.store.StateOf(key)))
    && (forall id | id in w.requests :: id in w.begun && RequestOk(cfg, w, w.requests[id]))
  }

  lemma RequestStaysOk(cfg: Config, w: World, w': World, request: Request)
    requires RequestOk(cfg, w, request) && w.issued <= w'.issued && w.logins <= w'.logins
    ensures RequestOk(cfg, w', request)
  {}

  /** What a load leaves in the store was there before, and it yields a stored state. */
  lemma LoadKeeps(store: Store, key: Key, now: int)
    ensures var after := store.After(Load(key), now);
            && (forall k | after.Has(k) :: after.Agrees(store, k))
            && (forall k | store.Has(k) && !after.Has(k) :: k == key && store.Expiry(key) <= store.Rounded(now))
            && (store.Get(key, now).Some? <==> store.Has(key) && store.Expiry(key) > store.Rounded(now))
            && (store.Get(key, now).Some? ==> store.Get(key, now).value == store.StateOf(key))
  {}

  lemma SweepKeeps(store: Store, now: int)
    ensures var after := store.After(DeleteExpired, now);
            && (forall k | after.Has(k) :: after.Agrees(store, k))
            && (forall k | store.Has(k) && !after.Has(k) :: store.Expiry(k) < store.Rounded(now))
  {}

  /** The record a commit writes, if it writes one, is under the client's key; others stay. */
  lemma CommitWrites(cfg: Config, store: Store, request: Request, generated: Key, now: int)
    ensures var after, cookie := Committed(cfg, store, request, generated, now), CookieAfter(request, generated);
            && (forall k | after.Has(k) && cookie != Some(k) :: after.Agrees(store, k))
            && (forall k | store.Has(k) && !after.Has(k) ::
                  request.key == Some(k) && request.auth.session.status in {Purged, Renewed})
            && (cookie.Some? && after.Has(cookie.value) ==>
                  || after.StateOf(cookie.value) == request.auth.session.entries
                  || (store.Has(cookie.value) && after.StateOf(cookie.value) == store.StateOf(cookie.value)))
  {}

  /**
   The next request loads what was committed: a session that is new, changed or renewed
   is stored under the client's key until the ttl is over, a purged or renewed one is gone
   from its old key, and an unchanged one is at most extended.
   */
  lemma CommitEffect(cfg: Config, store: Store, request: Request, generated: Key, now: int)
    requires request.key != Some(generated)
    ensures var after, cookie := Committed(cfg, store, request, generated, now), CookieAfter(request, generated);
            var session := request.auth.session;
            match request.key
            case None =>
              if session.entries == map[] then cookie == None && after == store
              else cookie == Some(generated) && StoredUntil(after, generated, session.entries, now + cfg.ttl)
            case Some(key) =>
              match session.status
              case Changed => cookie == Some(key) && StoredUntil(after, key, session.entries, now + cfg.ttl)
              case Purged => cookie == None && !after.Has(key)
              case Renewed =>
                && cookie == Some(generated) && StoredUntil(after, generated, session.entries, now + cfg.ttl)
                && !after.Has(key)
              case Unchanged =>
                && cookie == Some(key) && (after.Has(key) <==> store.Has(key))
                && (store.Has(key) && cfg.extendOnEveryRequest ==>
                      StoredUntil(after, key, store.StateOf(key), now + cfg.ttl))
                && (!cfg.extendOnEveryRequest ==> after == store)
  {}

  /** Every load gives the state before the expiry, and nothing afterwards. */
  ghost predicate StoredUntil(store: Store, key: Key, state: State, expiry: int) {
    forall now :: store.Get(key, now) == if store.Rounded(now) < store.Rounded(expiry) then Some(state) else None
  }

  lemma BeginKeepsInv(cfg: Config, w: World, step: Step)
    requires Inv(cfg, w) && Enabled(cfg, w, step) && step.Begin?
    ensures Inv(cfg, Next(cfg, w, step))
  {
    var w' := Next(cfg, w, step);
    var loaded := Loaded(w.store, step.cookie, w.now);
    if step.cookie.Some? {
      LoadKeeps(w.store, step.cookie.value, w.now);
    }
    var entries := loaded.GetOr(map[]);
    assert Proven(cfg, w.logins, entries);
    if Established(SessionView(entries, Unchanged), Backend(w.users, step.backendAnswers), cfg.dataKey).Ok? {
      EstablishedIsCoherent(entries, Backend(w.users, step.backendAnswers), cfg.dataKey);
    }
    forall id | id in w'.requests ensures id in w'.begun && RequestOk(cfg, w', w'.requests[id]) {
      if id != step.id {
        RequestStaysOk(cfg, w, w', w.requests[id]);
      }
    }
  }

  /** A step that only rewrites one request, keeping its key. */
  lemma RequestStepKeepsInv(cfg: Config, w: World, step: Step)
    requires Inv(cfg, w) && Enabled(cfg, w, step) && (step.PassGate? || step.Handle?)
    ensures Inv(cfg, Next(cfg, w, step))
  {
    var w' := Next(cfg, w, step);
    var request := w.requests[step.id];
    if step.PassGate? {
      GateOutcome(request.route.policy, request.auth, step.grants, step.order);
    } else {
      ActKeepsCoherence(request.auth, step.act, cfg.dataKey);
    }
    forall id | id in w'.requests ensures id in w'.begun && RequestOk(cfg, w', w'.requests[id]) {
      RequestStaysOk(cfg, w, w', w.requests[id]);
    }
  }

  lemma CommitKeepsInv(cfg: Config, w: World, step: Step)
    requires Inv(cfg, w) && Enabled(cfg, w, step) && (step.Commit? || step.Abort?)
    ensures Inv(cfg, Next(cfg, w, step))
  {
    var w' := Next(cfg, w, step);
    if step.Commit? {
      CommitWrites(cfg, w.store, w.requests[step.id], step.generated, w.now);
    }
    forall id | id in w'.requests ensures id in w'.begun && RequestOk(cfg, w', w'.requests[id]) {
      RequestStaysOk(cfg, w, w', w.requests[id]);
    }
  }

  lemma WorldStepKeepsInv(cfg: Config, w: World, step: Step)
    requires Inv(cfg, w) && Enabled(cfg, w, step) && (step.ChangeUser? || step.Advance? || step.Sweep?)
    ensures Inv(cfg, Next(cfg, w, step))
  {
    var w' := Next(cfg, w, step);
    SweepKeeps(w.store, w.now);
    forall id | id in w'.requests ensures id in w'.begun && RequestOk(cfg, w', w'.requests[id]) {
      RequestStaysOk(cfg, w, w', w.requests[id]);
    }
  }

  lemma StepKeepsInv(cfg: Config, w: World, step: Step)
    requires Inv(cfg, w) && Enabled(cfg, w, step)
    ensures Inv(cfg, Next(cfg, w, step))
  {
    match step {
      case Begin(_, _, _, _) => BeginKeepsInv(cfg, w, step);
      case PassGate(_, _, _) => RequestStepKeepsInv(cfg, w, step);
      case Handle(_, _) => RequestStepKeepsInv(cfg, w, step);
      case Commit(_, _) => CommitKeepsInv(cfg, w, step);
      case Abort(_) => CommitKeepsInv(cfg, w, step);
      case _ => WorldStepKeepsInv(cfg, w, step);
    }
  }

  lemma {:induction false} RunKeepsInv(cfg: Config, ws: seq<World>, ss: seq<Step>, i: nat)
    requires IsRun(cfg, ws, ss) && i < |ws|
    ensures Inv(cfg, ws[i])
  {
    if i > 0 {
      RunKeepsInv(cfg, ws, ss, i - 1);
      assert ws[i - 1 + 1] == Next(cfg, ws[i - 1], ss[i - 1]);
      StepKeepsInv(cfg, ws[i - 1], ss[i - 1]);
    }
  }

  // ---- Serial runs ----

  ghost predicate OneHolder(w: World) {
    forall key, id, other | Holds(w, id, key) && Holds(w, other, key) :: id == other
  }

  lemma SerialStepKeepsOneHolder(cfg: Config, w: World, step: Step)
    requires Inv(cfg, w) && Enabled(cfg, w, step) && Serial(w, step) && OneHolder(w)
    ensures OneHolder(Next(cfg, w, step))
  {
    var w' := Next(cfg, w, step);
    forall key, id, other | Holds(w', id, key) && Holds(w', other, key) ensures id == other {
      assert !(step.Begin? && id == step.id) ==> Holds(w, id, key);
      assert !(step.Begin? && other == step.id) ==> Holds(w, other, key);
    }
  }

  lemma {:induction false} SerialRunKeepsOneHolder(cfg: Config, ws: seq<World>, ss: seq<Step>, i: nat)
    requires IsSerialRun(cfg, ws, ss) && i < |ws|
    ensures OneHolder(ws[i])
  {
    if i > 0 {
      var w, step := ws[i - 1], ss[i - 1];
      SerialRunKeepsOneHolder(cfg, ws, ss, i - 1);
      RunKeepsInv(cfg, ws, ss, i - 1);
      assert Enabled(cfg, w, step) && Serial(w, step) && ws[i - 1 + 1] == Next(cfg, w, step);
      SerialStepKeepsOneHolder(cfg, w, step);
    }
  }
}
