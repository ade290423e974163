/**
 The auth session of a request. `Session` models `actix_session::Session` (release
 0.11): shared by every clone within a request; once purged it stays empty and
 purged; writing does not undo a renewal.
 */
module Sessions {
  import opened SessionValues
  import opened Wrappers

  datatype Status = Unchanged | Changed | Renewed | Purged

  datatype SessionView = SessionView(entries: State, status: Status) {
    function Touched(): Status { if status.Renewed? then Renewed else Changed }

    function Inserted(key: string, value: Value): SessionView {
      if status.Purged? then this else SessionView(entries[key := value], Touched())
    }

    function Removed(key: string): SessionView {
      if status.Purged? then this else SessionView(entries - {key}, Touched())
    }

    function AfterRenew(): SessionView {
      if status.Purged? then this else SessionView(entries, Renewed)
    }

    function AfterPurge(): SessionView { SessionView(map[], Purged) }
  }

  class Session {
    var entries: State
    var status: Status

    ghost function View(): SessionView
      reads this
    {
      SessionView(entries, status)
    }

    constructor (entries: State)
      ensures View() == SessionView(entries, Unchanged)
    {
      this.entries := entries;
      this.status := Unchanged;
    }

    method Insert(key: string, value: Value)
      modifies this
      ensures View() == old(View()).Inserted(key, value)
      ensures if old(status) == Purged then View() == old(View()) else
                && entries == old(entries)[key := value]
                && status == if old(status) == Renewed then Renewed else Changed
    {
      if status != Purged {
        if status != Renewed {
          status := Changed;
        }
        entries := entries[key := value];
      }
    }

    method Remove(key: string)
      modifies this
      ensures View() == old(View()).Removed(key)
      ensures if old(status) == Purged then View() == old(View()) else
                && entries == old(entries) - {key}
                && status == if old(status) == Renewed then Renewed else Changed
    {
      if status != Purged {
        if status != Renewed {
          status := Changed;
        }
        entries := entries - {key};
      }
    }

    method Renew()
      modifies this
      ensures View() == old(View()).AfterRenew()
      ensures entries == old(entries) && status == if old(status) == Purged then Purged else Renewed
    {
      if status != Purged {
        status := Renewed;
      }
    }

    method Purge()
      modifies this
      ensures View() == old(View()).AfterPurge()
      ensures entries == map[] && status == Purged
    {
      status := Purged;
      entries := map[];
    }
  }

  // ---- Users and the authentication backend ----

  datatype User = User(id: UserId, authHash: Hash, profile: string)

  datatype AuthError = SessionGetError | BackendError

  /** The users `get_user` finds, and whether the backend answers at all. */
  datatype Backend = Backend(users: map<UserId, User>, answers: bool) {
    function GetUser(id: UserId): Result<Option<User>, AuthError> {
      if !answers then Err(BackendError)
      else if id in users then Ok(Some(users[id]))
      else Ok(None)
    }

    /** A user found under an id has that id. */
    ghost predicate WellFormed() {
      forall id | id in users :: users[id].id == id
    }
  }

  /** The auth datum of a session: the default one if it has none, an error if it is not one. */
  function GetData(entries: State, dataKey: string): Result<Data, AuthError> {
    if dataKey !in entries then Ok(DEFAULT_DATA)
    else
      match entries[dataKey]
      case AuthData(data) => Ok(data)
      case _ => Err(SessionGetError)
  }

  function DataOf(user: User): Data { Data(Some(user.id), Some(user.authHash)) }

  // ---- AuthSession ----

  /** What an auth session and its underlying session hold. */
  datatype AuthView = AuthView(session: SessionView, user: Option<User>, data: Data)

  function Established(session: SessionView, backend: Backend, dataKey: string): Result<AuthView, AuthError> {
    match GetData(session.entries, dataKey)
    case Err(e) => Err(e)
    case Ok(data) =>
      var found := if data.userId.Some? then backend.GetUser(data.userId.value) else Ok(None);
      match found
      case Err(e) => Err(e)
      case Ok(None) => Ok(AuthView(session, None, data))
      case Ok(Some(user)) =>
        if data.authHash == Some(user.authHash) then Ok(AuthView(session, Some(user), data))
        else Ok(AuthView(session.AfterPurge(), None, DEFAULT_DATA))
  }

  function LoggedIn(a: AuthView, user: User, dataKey: string): AuthView {
    var session := if a.data.authHash.None? then a.session.AfterRenew() else a.session;
    AuthView(session.Inserted(dataKey, AuthData(DataOf(user))), Some(user), DataOf(user))
  }

  function LoggedOut(a: AuthView): AuthView {
    AuthView(a.session.AfterPurge(), None, a.data)
  }

  class AuthSession {
    const session: Session
    const dataKey: string
    var user: Option<User>
    var data: Data

    ghost function View(): AuthView
      reads this, session
    {
      AuthView(session.View(), user, data)
    }

    constructor (session: Session, user: Option<User>, data: Data, dataKey: string)
      ensures this.session == session && this.dataKey == dataKey
      ensures this.user == user && this.data == data
    {
      this.session := session;
      this.user := user;
      this.data := data;
      this.dataKey := dataKey;
    }

    static method FromSession(session: Session, backend: Backend, dataKey: string)
      returns (result: Result<AuthSession, AuthError>)
      modifies session
      ensures match Established(old(session.View()), backend, dataKey)
              case Ok(view) =>
                && result.Ok? && fresh(result.value) && result.value.View() == view
                && result.value.session == session && result.value.dataKey == dataKey
              case Err(e) => result.Err? && result.error == e && session.View() == old(session.View())
      ensures result.Ok? && session.View() != old(session.View()) ==>
                && session.entries == map[] && session.status == Purged
                && result.value.user == None && result.value.data == Data(None, None)
    {
      var data;
      match GetData(session.entries, dataKey) {
        case Ok(found) => data := found;
        case Err(e) => return Err(e);
      }
      var user := None;
      if data.userId.Some? {
        match backend.GetUser(data.userId.value) {
          case Ok(found) => user := found;
          case Err(e) => return Err(e);
        }
      }
      if user.Some? {
        var verified := data.authHash == Some(user.value.authHash);
        if !verified {
          user := None;
          data := DEFAULT_DATA;
          session.Purge();
        }
      }
      var a := new AuthSession(session, user, data, dataKey);
      return Ok(a);
    }

    method Login(user: User)
      modifies this, session
      ensures View() == LoggedIn(old(View()), user, dataKey)
      ensures this.user == Some(user) && data == Data(Some(user.id), Some(user.authHash))
      ensures old(session.status) != Purged ==> dataKey in session.entries && session.entries[dataKey] == AuthData(data)
      ensures old(session.status) != Purged ==>
                var renewed := old(data.authHash) == None || old(session.status) == Renewed;
                session.status == if renewed then Renewed else Changed
    {
      this.user := Some(user);
      if data.authHash.None? {
        session.Renew();
      }
      data := Data(Some(user.id), Some(user.authHash));
      UpdateSession();
    }

    method Logout() returns (user: Option<User>)
      modifies this, session
      ensures View() == LoggedOut(old(View())) && user == old(this.user)
      ensures this.user == None && data == old(data) && session.status == Purged && session.entries == map[]
    {
      user := this.user;
      this.user := None;
      session.Purge();
    }

    method UpdateSession()
      modifies session
      ensures session.View() == old(session.View()).Inserted(dataKey, AuthData(data))
    {
      session.Insert(dataKey, AuthData(data));
    }
  }

  /** Establishing fails exactly if the stored datum is of another kind, or the backend is asked and does not answer. */
  lemma EstablishedFailsIff(session: SessionView, backend: Backend, dataKey: string)
    ensures Established(session, backend, dataKey).Err? <==>
              && dataKey in session.entries
              && (session.entries[dataKey].AuthData? ==>
                    session.entries[dataKey].data.userId.Some? && !backend.answers)
    ensures Established(session, backend, dataKey).Ok? && dataKey !in session.entries ==>
              Established(session, backend, dataKey).value == AuthView(session, None, Data(None, None))
  {}

  /** A request has a user exactly when its datum names one the backend still knows, with the same hash. */
  lemma EstablishedUserIff(session: SessionView, backend: Backend, dataKey: string, user: User)
    requires backend.WellFormed() && backend.answers
    ensures var result := Established(session, backend, dataKey);
            && ((result.Ok? && result.value.user == Some(user)) <==>
                (dataKey in session.entries && session.entries[dataKey] == AuthData(DataOf(user))
                 && user.id in backend.users && backend.users[user.id] == user))
            && (result.Ok? && result.value.user.Some? ==> result.value.session == session)
  {
    if dataKey in session.entries && session.entries[dataKey].AuthData? {
      assert session.entries[dataKey] == AuthData(session.entries[dataKey].data);
    }
  }

  /** It purges the session exactly when the user is still known but the hash is not the user's. */
  lemma EstablishedPurgesIff(entries: State, backend: Backend, dataKey: string)
    requires backend.answers && GetData(entries, dataKey).Ok?
    ensures var data := GetData(entries, dataKey).value;
            var view := Established(SessionView(entries, Unchanged), backend, dataKey).value;
            view.session.status.Purged? <==>
              data.userId.Some? && data.userId.value in backend.users
              && data.authHash != Some(backend.users[data.userId.value].authHash)
  {}
}
