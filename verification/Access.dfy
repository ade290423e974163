/** Permissions, access decisions and the gate in front of the inner service. */
module Access {
  import opened Sessions
  import opened Wrappers

  type Permission = string

  /** What the backend answers about a user's own and group permissions. */
  datatype Grants = Grants(user: Result<set<Permission>, AuthError>, group: Result<set<Permission>, AuthError>)

  // ---- AuthzBackend ----

  method GetAllPermissions(grants: Grants) returns (result: Result<set<Permission>, AuthError>)
    ensures result == AllPermissions(grants)
  {
    var all: set<Permission> := {};
    match grants.user {
      case Ok(permissions) => all := all + permissions;
      case Err(e) => return Err(e);
    }
    match grants.group {
      case Ok(permissions) => all := all + permissions;
      case Err(e) => return Err(e);
    }
    assert {} + grants.user.value == grants.user.value;
    return Ok(all);
  }

  function AllPermissions(grants: Grants): Result<set<Permission>, AuthError> {
    match (grants.user, grants.group)
    case (Err(e), _) => Err(e)
    case (Ok(_), Err(e)) => Err(e)
    case (Ok(own), Ok(group)) => Ok(own + group)
  }

  function HasPermission(grants: Grants, permission: Permission): Result<bool, AuthError> {
    match AllPermissions(grants)
    case Ok(all) => Ok(permission in all)
    case Err(e) => Err(e)
  }

  // ---- Decisions ----

  datatype Decision = Allow | Unauthenticated | Unauthorized

  datatype PermissionMatch = Any | All | Exact

  datatype Policy =
    | DefaultAccess
    | PermissionsPredicate(permissions: set<Permission>, mode: PermissionMatch)
  {
    function WithPermissions(list: seq<Permission>): Policy
      requires PermissionsPredicate?
    {
      this.(permissions := set p | p in list)
    }

    function WithMode(mode: PermissionMatch): Policy
      requires PermissionsPredicate?
    {
      this.(mode := mode)
    }
  }

  const NEW_PREDICATE := PermissionsPredicate({}, All)

  /** `order` iterates over the set, in some order. */
  ghost predicate Iterates(order: seq<Permission>, s: set<Permission>) {
    forall p :: p in order <==> p in s
  }

  function AnyOf(order: seq<Permission>, granted: set<Permission>): bool {
    order != [] && (order[0] in granted || AnyOf(order[1..], granted))
  }

  function AllOf(order: seq<Permission>, granted: set<Permission>): bool {
    order == [] || (order[0] in granted && AllOf(order[1..], granted))
  }

  function Matches(mode: PermissionMatch, required: set<Permission>, order: seq<Permission>,
                   granted: set<Permission>): bool
  {
    match mode
    case Any => AnyOf(order, granted)
    case All => AllOf(order, granted)
    case Exact => granted == required
  }

  /** `order` is the iteration order of the required permissions. */
  function Decide(policy: Policy, user: Option<User>, grants: Grants, order: seq<Permission>): Decision {
    match policy
    case DefaultAccess => if user.Some? then Allow else Unauthenticated
    case PermissionsPredicate(required, mode) =>
      if user.None? then Unauthenticated
      else
        match AllPermissions(grants)
        case Ok(granted) => if Matches(mode, required, order, granted) then Allow else Unauthorized
        case Err(_) => Unauthorized
  }

  lemma {:induction false} AnyOfIff(order: seq<Permission>, granted: set<Permission>)
    ensures AnyOf(order, granted) <==> exists p :: p in order && p in granted
  {
    if order != [] {
      AnyOfIff(order[1..], granted);
      assert forall p :: p in order <==> p == order[0] || p in order[1..];
    }
  }

  lemma {:induction false} AllOfIff(order: seq<Permission>, granted: set<Permission>)
    ensures AllOf(order, granted) <==> forall p :: p in order ==> p in granted
  {
    if order != [] {
      AllOfIff(order[1..], granted);
      assert forall p :: p in order <==> p == order[0] || p in order[1..];
    }
  }

  /** The scans mean what the modes say, in whatever order the set is iterated. */
  lemma MatchesMeans(mode: PermissionMatch, required: set<Permission>, order: seq<Permission>, granted: set<Permission>)
    requires Iterates(order, required)
    ensures Matches(mode, required, order, granted) <==>
              match mode
              case Any => required * granted != {}
              case All => required <= granted
              case Exact => required == granted
  {
    AnyOfIff(order, granted);
    AllOfIff(order, granted);
    assert forall p :: p in order && p in granted <==> p in required * granted;
    if required * granted != {} {
      var p :| p in required * granted;
    }
  }

  /** How the modes relate, and what further grants can change. */
  lemma ModesRelate(required: set<Permission>, order: seq<Permission>, granted: set<Permission>, more: set<Permission>)
    requires Iterates(order, required)
    ensures Matches(Exact, required, order, granted) ==> Matches(All, required, order, granted)
    ensures required != {} && Matches(All, required, order, granted) ==> Matches(Any, required, order, granted)
    ensures Matches(Any, required, order, granted) ==> Matches(Any, required, order, granted + more)
    ensures Matches(All, required, order, granted) ==> Matches(All, required, order, granted + more)
    ensures required == {} ==> Matches(All, required, order, granted) && !Matches(Any, required, order, granted)
  {
    MatchesMeans(Any, required, order, granted);
    MatchesMeans(All, required, order, granted);
    MatchesMeans(Any, required, order, granted + more);
    MatchesMeans(All, required, order, granted + more);
    if required != {} && required <= granted {
      var p :| p in required;
      assert p in required * granted;
    }
    if required * granted != {} {
      var p :| p in required * granted;
      assert p in required * (granted + more);
    }
  }

  /** A predicate for one permission allows exactly the users that have it. */
  lemma SinglePermission(permission: Permission, order: seq<Permission>, user: User, grants: Grants)
    requires Iterates(order, {permission})
    ensures Decide(NEW_PREDICATE.WithPermissions([permission]), Some(user), grants, order) ==
              if HasPermission(grants, permission) == Ok(true) then Allow else Unauthorized
  {
    assert (set p | p in [permission]) == {permission};
    match AllPermissions(grants) {
      case Ok(granted) => MatchesMeans(All, {permission}, order, granted);
      case Err(_) =>
    }
  }

  /** What the gate's two policies ask of a user with these grants. */
  predicate Permits(policy: Policy, grants: Grants) {
    policy.PermissionsPredicate? ==>
      grants.user.Ok? && grants.group.Ok? &&
      var granted := grants.user.value + grants.group.value;
      match policy.mode
      case Any => policy.permissions * granted != {}
      case All => policy.permissions <= granted
      case Exact => policy.permissions == granted
  }

  /** `order` iterates over the permissions that the policy requires, if it requires any. */
  ghost predicate IteratesPolicy(order: seq<Permission>, policy: Policy) {
    policy.PermissionsPredicate? ==> Iterates(order, policy.permissions)
  }

  lemma AllowIff(policy: Policy, user: Option<User>, grants: Grants, order: seq<Permission>)
    requires IteratesPolicy(order, policy)
    ensures Decide(policy, user, grants, order) == Allow <==> user.Some? && Permits(policy, grants)
    ensures Decide(policy, user, grants, order) == Unauthenticated <==> user.None?
  {
    if policy.PermissionsPredicate? && AllPermissions(grants).Ok? {
      MatchesMeans(policy.mode, policy.permissions, order, AllPermissions(grants).value);
    }
  }

  /** A new predicate requires nothing: it allows every user whose permissions can be read. */
  lemma NewPredicateAllowsIff(user: User, grants: Grants, order: seq<Permission>)
    requires Iterates(order, {})
    ensures Decide(NEW_PREDICATE, Some(user), grants, order) == Allow <==> grants.user.Ok? && grants.group.Ok?
  {
    AllowIff(NEW_PREDICATE, Some(user), grants, order);
  }

  /** Of the lists given to a predicate the last one counts, in whatever order it and the mode are set. */
  lemma BuiltPredicate(earlier: seq<Permission>, list: seq<Permission>, mode: PermissionMatch,
                       user: User, grants: Grants, order: seq<Permission>)
    requires Iterates(order, set p | p in list)
    ensures var policy := NEW_PREDICATE.WithMode(mode).WithPermissions(earlier).WithPermissions(list);
            && policy == NEW_PREDICATE.WithPermissions(list).WithMode(mode)
            && (Decide(policy, Some(user), grants, order) == Allow <==>
                  grants.user.Ok? && grants.group.Ok? &&
                  var granted := grants.user.value + grants.group.value;
                  match mode
                  case Any => exists p :: p in list && p in granted
                  case All => forall p :: p in list ==> p in granted
                  case Exact => forall p :: p in list <==> p in granted)
  {
    var policy := NEW_PREDICATE.WithPermissions(list).WithMode(mode);
    AllowIff(policy, Some(user), grants, order);
    if AllPermissions(grants).Ok? {
      BuiltModes(mode, list, AllPermissions(grants).value);
    }
  }

  lemma BuiltModes(mode: PermissionMatch, list: seq<Permission>, granted: set<Permission>)
    ensures var required := set p | p in list;
            match mode
            case Any => required * granted != {} <==> exists p :: p in list && p in granted
            case All => required <= granted <==> forall p :: p in list ==> p in granted
            case Exact => required == granted <==> forall p :: p in list <==> p in granted
  {
    var required := set p | p in list;
    assert forall p :: p in required * granted <==> p in list && p in granted;
  }

  // ---- The gate ----

  /** The outcome of the gate: the inner service runs, or a handler answers in its place. */
  datatype Gated = RunInner | Answered(handler: DeniedBy)

  datatype DeniedBy = InternalErrorFallback | UnauthorizedHandler | UnauthenticatedHandler

  /** `user` is that of the auth session in the request's extensions, if there is one. */
  function Gate(policy: Policy, session: Option<AuthView>, grants: Grants, order: seq<Permission>): Gated {
    match session
    case None => Answered(InternalErrorFallback)
    case Some(auth) =>
      match Decide(policy, auth.user, grants, order)
      case Allow => RunInner
      case Unauthorized => Answered(UnauthorizedHandler)
      case Unauthenticated => Answered(UnauthenticatedHandler)
  }

  /**
   Without an auth session the answer is an internal error; without a user the inner
   service never runs, and with one the unauthenticated handler never does.
   */
  lemma GateOutcome(policy: Policy, auth: AuthView, grants: Grants, order: seq<Permission>)
    requires IteratesPolicy(order, policy)
    ensures var gated := Gate(policy, Some(auth), grants, order);
            && (gated == Answered(UnauthenticatedHandler) <==> auth.user.None?)
            && (gated == RunInner <==> auth.user.Some? && Permits(policy, grants))
            && (gated != Answered(InternalErrorFallback))
    ensures Gate(policy, None, grants, order) == Answered(InternalErrorFallback)
  {
    AllowIff(policy, auth.user, grants, order);
  }
}
