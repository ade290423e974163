/**
 The middleware in front of a protected service: `AuthManager` puts an auth session
 into the request's extensions before it calls the inner service, which here is the
 gate.
 */
module Service {
  import opened Access
  import opened SessionValues
  import opened Sessions
  import opened Wrappers

  const DEFAULT_DATA_KEY := "actix-login.data"

  /** The parts of a request that the middleware uses. */
  class ServiceRequest {
    const session: Session
    var authSession: Option<AuthSession>

    constructor (session: Session)
      ensures this.session == session && authSession == None
    {
      this.session := session;
      authSession := None;
    }
  }

  /** How the middleware answers: with its own error, or as the gate decided. */
  datatype Outcome = NoAuthSession | Passed(gated: Gated)

  function OutcomeOf(session: SessionView, backend: Backend, dataKey: string,
                     policy: Policy, grants: Grants, order: seq<Permission>): Outcome {
    match Established(session, backend, dataKey)
    case Err(_) => NoAuthSession
    case Ok(auth) => Passed(Gate(policy, Some(auth), grants, order))
  }

  class RequireService {
    const policy: Policy

    constructor (policy: Policy)
      ensures this.policy == policy
    {
      this.policy := policy;
    }

    method Call(req: ServiceRequest, grants: Grants, order: seq<Permission>) returns (gated: Gated)
      ensures var session := if req.authSession.Some? then Some(req.authSession.value.View()) else None;
              gated == Gate(policy, session, grants, order)
      ensures req.authSession.None? <==> gated == Answered(InternalErrorFallback)
      ensures gated == RunInner ==> req.authSession.Some? && req.authSession.value.user.Some?
      ensures gated == Answered(UnauthenticatedHandler) <==>
                req.authSession.Some? && req.authSession.value.user.None?
    {
      if req.authSession.None? {
        return Answered(InternalErrorFallback);
      }
      var decision := Decide(policy, req.authSession.value.user, grants, order);
      match decision {
        case Allow => return RunInner;
        case Unauthorized => return Answered(UnauthorizedHandler);
        case Unauthenticated => return Answered(UnauthenticatedHandler);
      }
    }
  }

  class AuthManager {
    const backend: Backend
    const dataKey: string
    const inner: RequireService

    constructor (backend: Backend, dataKey: Option<string>, inner: RequireService)
      ensures this.backend == backend && this.inner == inner
      ensures this.dataKey == if dataKey.Some? then dataKey.value else "actix-login.data"
    {
      this.backend := backend;
      this.dataKey := dataKey.GetOr(DEFAULT_DATA_KEY);
      this.inner := inner;
    }

    /**
     The gate always finds an auth session, the one just established; if the inner
     service runs, the request carries the user that its stored datum and the
     backend agree on.
     */
    method Call(req: ServiceRequest, grants: Grants, order: seq<Permission>) returns (outcome: Outcome)
      requires backend.WellFormed()
      requires IteratesPolicy(order, inner.policy)
      modifies req, req.session
      ensures outcome == OutcomeOf(old(req.session.View()), backend, dataKey, inner.policy, grants, order)
      ensures outcome != Passed(Answered(InternalErrorFallback))
      ensures outcome.Passed? ==>
                && req.authSession.Some? && fresh(req.authSession.value)
                && var authSession := req.authSession.value;
                   authSession.session == req.session && authSession.dataKey == dataKey
                   && Established(old(req.session.View()), backend, dataKey) == Ok(authSession.View())
      ensures outcome == Passed(RunInner) ==>
                && req.authSession.Some? && req.authSession.value.user.Some?
                && var user := req.authSession.value.user.value;
                   dataKey in old(req.session.entries) && old(req.session.entries)[dataKey] == AuthData(DataOf(user))
                   && user.id in backend.users && backend.users[user.id] == user
    {
      ghost var session := req.session.View();
      var result := AuthSession.FromSession(req.session, backend, dataKey);
      match result {
        case Err(_) => return NoAuthSession;
        case Ok(authSession) =>
          req.authSession := Some(authSession);
          var gated := inner.Call(req, grants, order);
          outcome := Passed(gated);
          GateOutcome(inner.policy, authSession.View(), grants, order);
          if authSession.user.Some? {
            EstablishedUser(session, backend, dataKey);
          }
      }
    }
  }

  lemma EstablishedUser(session: SessionView, backend: Backend, dataKey: string)
    requires backend.WellFormed() && Established(session, backend, dataKey).Ok?
    requires Established(session, backend, dataKey).value.user.Some?
    ensures var user := Established(session, backend, dataKey).value.user.value;
            && dataKey in session.entries && session.entries[dataKey] == AuthData(DataOf(user))
            && user.id in backend.users && backend.users[user.id] == user
  {
    EstablishedUserIff(session, backend, dataKey, Established(session, backend, dataKey).value.user.value);
  }
}
