/** What handlers do with their sessions, and what stays true of an auth session meanwhile. */
module Handlers {
  import opened Flash
  import opened SessionValues
  import opened Sessions
  import opened Wrappers

  /** What a handler may do with its session: log in or out, write under another key, or leave flash messages. */
  datatype Act =
    | Login(user: User)
    | Logout
    | Insert(key: string, value: Value)
    | Remove(key: string)
    | StoreMessages(messages: seq<FlashMessage>)

  predicate Leaves(act: Act, dataKey: string) {
    match act
    case Insert(key, _) => key != dataKey
    case Remove(key) => key != dataKey
    case StoreMessages(_) => FLASH_KEY != dataKey
    case _ => true
  }

  function Acted(a: AuthView, act: Act, dataKey: string): AuthView {
    match act
    case Login(user) => LoggedIn(a, user, dataKey)
    case Logout => LoggedOut(a)
    case Insert(key, value) => a.(session := a.session.Inserted(key, value))
    case Remove(key) => a.(session := a.session.Removed(key))
    case StoreMessages(messages) => a.(session := StoredMessages(a.session, FLASH_KEY, messages))
  }

  function ActedAll(a: AuthView, acts: seq<Act>, dataKey: string): AuthView
    decreases |acts|
  {
    if acts == [] then a else ActedAll(Acted(a, acts[0], dataKey), acts[1..], dataKey)
  }

  /** What each operation does to a session that is not purged; a purged one stays empty. */
  lemma ActEffects(a: AuthView, act: Act, dataKey: string)
    ensures var before, after := a.session, Acted(a, act, dataKey).session;
            var touched := if before.status.Renewed? then Renewed else Changed;
            if before.status.Purged? then before.entries == map[] ==> after == before
            else match act
              case Login(user) =>
                && after.entries == before.entries[dataKey := AuthData(Data(Some(user.id), Some(user.authHash)))]
                && after.status == if a.data.authHash.None? then Renewed else touched
              case Logout => after == SessionView(map[], Purged)
              case Insert(key, value) => after == SessionView(before.entries[key := value], touched)
              case Remove(key) => after == SessionView(before.entries - {key}, touched)
              case StoreMessages(messages) =>
                && (messages != [] ==> after == SessionView(before.entries[FLASH_KEY := Messages(messages)], touched))
                && (messages == [] ==> FLASH_KEY !in after.entries && after.entries == before.entries - {FLASH_KEY})
                && (messages == [] ==> after.status == if FLASH_KEY in before.entries then touched else before.status)
    ensures Acted(a, act, dataKey).user ==
              match act case Login(user) => Some(user) case Logout => None case _ => a.user
    ensures Acted(a, act, dataKey).data ==
              match act case Login(user) => Data(Some(user.id), Some(user.authHash)) case _ => a.data
  {}

  // ---- Coherence of user, data and session ----

  ghost predicate Coherent(a: AuthView, dataKey: string) {
    && (a.user.Some? ==> a.data == DataOf(a.user.value))
    && (if a.session.status.Purged? then a.session.entries == map[]
        else GetData(a.session.entries, dataKey) == Ok(a.data))
  }

  lemma EstablishedIsCoherent(entries: State, backend: Backend, dataKey: string)
    requires backend.WellFormed() && Established(SessionView(entries, Unchanged), backend, dataKey).Ok?
    ensures Coherent(Established(SessionView(entries, Unchanged), backend, dataKey).value, dataKey)
  {}

  /** Flash messages do not disturb the auth session they share a session with. */
  lemma FlashKeepsCoherence(a: AuthView, messages: seq<FlashMessage>, dataKey: string)
    requires Coherent(a, dataKey) && FLASH_KEY != dataKey
    ensures Coherent(a.(session := StoredMessages(a.session, FLASH_KEY, messages)), dataKey)
  {
    FlashRoundTrip(a.session, FLASH_KEY, messages);
  }

  lemma ActKeepsCoherence(a: AuthView, act: Act, dataKey: string)
    requires Coherent(a, dataKey) && Leaves(act, dataKey)
    ensures Coherent(Acted(a, act, dataKey), dataKey)
  {
    if act.StoreMessages? {
      FlashKeepsCoherence(a, act.messages, dataKey);
    }
  }

  lemma {:induction false} ActsKeepCoherence(a: AuthView, acts: seq<Act>, dataKey: string)
    requires Coherent(a, dataKey) && forall act | act in acts :: Leaves(act, dataKey)
    ensures Coherent(ActedAll(a, acts, dataKey), dataKey)
    decreases |acts|
  {
    if acts != [] {
      ActKeepsCoherence(a, acts[0], dataKey);
      ActsKeepCoherence(Acted(a, acts[0], dataKey), acts[1..], dataKey);
    }
  }

  /**
   At every point of a request the user is the one the session's data identifies,
   and what will be stored under the data key is that data.
   */
  lemma RequestIsCoherent(entries: State, backend: Backend, acts: seq<Act>, dataKey: string)
    requires backend.WellFormed() && Established(SessionView(entries, Unchanged), backend, dataKey).Ok?
    requires forall act | act in acts :: Leaves(act, dataKey)
    ensures var a := ActedAll(Established(SessionView(entries, Unchanged), backend, dataKey).value, acts, dataKey);
            && (a.user.Some? ==>
                  a.data.userId == Some(a.user.value.id) && a.data.authHash == Some(a.user.value.authHash))
            && (!a.session.status.Purged? ==> GetData(a.session.entries, dataKey) == Ok(a.data))
            && (a.session.status.Purged? ==> a.session.entries == map[])
  {
    EstablishedIsCoherent(entries, backend, dataKey);
    ActsKeepCoherence(Established(SessionView(entries, Unchanged), backend, dataKey).value, acts, dataKey);
  }
}
